/** The statements the store runs against the `client` table, as functions on
    its rows. */
module ClientTable {
  import opened Schema

  /** `f = v` applied to one row of `client`: that field takes the value and
      the others keep theirs. */
  function Assign(c: Client, f: Field, v: string): (r: Client)
    ensures FieldOf(r, f) == v
    ensures forall g :: g != f ==> FieldOf(r, g) == FieldOf(c, g)
  {
    match f
    case FirstName => c.(firstName := v)
    case LastName => c.(lastName := v)
    case Email => c.(email := v)
  }

  /** `SET fields[0] = values[0], ..., fields[n-1] = values[n-1]` on one row.
      SQL makes the assignments of one SET at once and refuses a column
      listed twice; on distinct columns, as the store builds them, applying
      them one after another gives the same row. */
  function ApplySet(c: Client, fields: seq<Field>, values: seq<string>): (r: Client)
    requires |fields| == |values|
    ensures fields != [] ==> FieldOf(r, fields[|fields| - 1]) == values[|values| - 1]
  {
    if fields == [] then c
    else
      var n := |fields| - 1;
      Assign(ApplySet(c, fields[..n], values[..n]), fields[n], values[n])
  }

  /** The row a partial update should leave: every field whose argument is
      supplied takes that argument, every other field keeps its value. */
  function Patched(c: Client, firstName: Option<string>, lastName: Option<string>, email: Option<string>): Client
  {
    Client(
      if firstName.Some? then firstName.value else c.firstName,
      if lastName.Some? then lastName.value else c.lastName,
      if email.Some? then email.value else c.email)
  }

  /** The `email UNIQUE` constraint on the whole table. */
  ghost predicate EmailsUnique(clients: map<int, Client>)
  {
    forall a, b :: a in clients && b in clients && a != b ==> clients[a].email != clients[b].email
  }

  /** Some row of the table already holds this email. */
  predicate EmailInUse(clients: map<int, Client>, email: string)
  {
    exists id :: id in clients && clients[id].email == email
  }

  /** A SET over distinct fields gives each listed field its value and
      leaves every other field alone. */
  lemma {:induction false} ApplySetFields(c: Client, fields: seq<Field>, values: seq<string>, g: Field)
    requires |fields| == |values|
    requires forall i, j :: 0 <= i < j < |fields| ==> fields[i] != fields[j]
    ensures g !in fields ==> FieldOf(ApplySet(c, fields, values), g) == FieldOf(c, g)
    ensures forall k :: 0 <= k < |fields| && fields[k] == g ==> FieldOf(ApplySet(c, fields, values), g) == values[k]
  {
    if fields != [] {
      var n := |fields| - 1;
      ApplySetFields(c, fields[..n], values[..n], g);
      assert fields == fields[..n] + [fields[n]];
    }
  }

  /** One more `field = value` at the end of a SET is applied last. */
  lemma ApplySetSnoc(c: Client, fields: seq<Field>, values: seq<string>, f: Field, v: string)
    requires |fields| == |values|
    ensures ApplySet(c, fields + [f], values + [v]) == Assign(ApplySet(c, fields, values), f, v)
  {
    assert (fields + [f])[..|fields|] == fields;
    assert (values + [v])[..|values|] == values;
  }

  /** Replacing one row keeps emails unique when the row keeps its email or
      takes one that no other row holds. */
  lemma UpdateKeepsEmailsUnique(clients: map<int, Client>, id: int, row: Client)
    requires EmailsUnique(clients) && id in clients
    requires row.email == clients[id].email || !EmailInUse(clients - {id}, row.email)
    ensures EmailsUnique(clients[id := row])
  {
    var updated := clients[id := row];
    forall a, b | a in updated && b in updated && a != b
      ensures updated[a].email != updated[b].email
    {
      if a == id {
        assert b in clients - {id};
      } else if b == id {
        assert a in clients - {id};
      }
    }
  }
}
