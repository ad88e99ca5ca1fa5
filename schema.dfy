/** The rows of the two tables that create_db declares, and the outcomes of
    the statements that write them. */
module Schema {

  datatype Option<T> = None | Some(value: T)

  /** A row of `client` apart from its id; the id is the key under which the
      store keeps the row. */
  datatype Client = Client(firstName: string, lastName: string, email: string)

  /** A row of `phone`: its own SERIAL id, the owning client's id and the number. */
  datatype Phone = Phone(id: int, clientId: int, number: string)

  /** The columns of `client` that a statement may assign or compare. */
  datatype Field = FirstName | LastName | Email

  function FieldOf(c: Client, f: Field): string
  {
    match f
    case FirstName => c.firstName
    case LastName => c.lastName
    case Email => c.email
  }

  /** The constraint a failing statement violates: `email UNIQUE`, or
      `client_id REFERENCES client(id)`. */
  datatype Error = UniqueViolation | ForeignKeyViolation

  /** Outcome of an operation that returns nothing. */
  datatype Outcome = Done | Failed(error: Error)

  /** Outcome of an operation that returns a value. */
  datatype Result<T> = Ok(value: T) | Err(error: Error)
}
