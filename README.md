# Client manager: a verified model of the client/phone data-access layer

`client_manager.py` keeps clients and their phone numbers in two related
tables, `client(id SERIAL, first_name, last_name, email UNIQUE)` and
`phone(id SERIAL, client_id REFERENCES client ON DELETE CASCADE, phone)`.
Seven functions sit on top of them: `create_db`, `add_client`, `add_phone`,
`change_client`, `delete_phone`, `delete_client` and the search `find_client`.
Each one runs a fixed, parameterised SQL statement or a short sequence of them.

This project models the two tables as the state of one object,
`ClientManager.ClientStore`, and each function as a method that changes that
state:

- `clients: map<int, Client>` holds the client rows, keyed by id.
- `phones: seq<Phone>` holds the phone rows in insertion order.
- `nextClientId` and `nextPhoneId` are the next values of the two SERIAL
  sequences.
- The ghost set `issued` records every client id handed out so far.

The object invariant `Valid()` states the table constraints:

- every client id was issued, and is below `nextClientId`;
- emails are unique;
- every phone row references an existing client;
- phone ids grow along the table and are below `nextPhoneId`.

Every method keeps `Valid()`.

The SQL statements are functions on the rows:

- `PhoneTable.SelectWhere` and `PhoneTable.DeleteWhere` cover the `phone`
  statements, for the two WHERE clauses the source uses.
- `ClientTable.ApplySet` covers `UPDATE client SET ...`.
- `Query.Select` covers the SELECT with its optional JOIN, its AND of
  conditions and its `ORDER BY c.id`.

The Python lists that build the queries are methods:

- `ClientManager.BuildSetClause` builds `fields` and `values`.
- `ClientManager.BuildConditions` builds `conditions` and `params`.

Their contracts say what the built SQL means.

Each public call either completes or fails with the constraint it violates
(`UniqueViolation` or `ForeignKeyViolation`) and leaves the state unchanged.
Of the two errors the model keeps, both come before any row is written:

- a duplicate email fails at the first statement of `add_client` or
  `change_client`;
- a missing client id fails at the first `add_phone`, after statements that
  matched no row.

So, for these two errors, the source's commit after each statement leaves no
partial state. Other database errors can fail a call part-way; "## Left out"
lists them.

Some choices where the Python is loose:

- **Truthiness.** `find_client` tests its arguments for truthiness, so
  `None` and `""` both leave a filter out (`Query.Supplied`). `change_client`
  tests `is not None`, so `""` does update a field. In `add_client`, `None`
  and `[]` both add no phones (`ClientManager.Given`).
- **Changing an unknown client.** `change_client` on an unknown id is a
  no-op when `phones` is `None` or empty. The UPDATE matches no row, and so
  does the DELETE. With a non-empty `phones` list it fails on the foreign
  key.
- **Phone search duplicates.** With a phone filter there is no DISTINCT. A
  client is returned once per matching phone row, so a client that holds the
  searched number twice comes back twice. Rows of one client are identical
  after the projection, so `ORDER BY c.id` fixes the result completely.
- **Phone order.** The query behind each result's phone list has no
  ORDER BY. The model returns the rows in table order, and the contracts
  state only how often each number occurs.

## Model

| member | source | states |
|---|---|---|
| `ClientManager.ClientStore.constructor` | client_manager.py:5-23 | create_db on an empty database: both tables exist and are empty, and the invariant holds |
| `ClientManager.ClientStore.CreateDb` | client_manager.py:9-21 | create_db again (`IF NOT EXISTS`) leaves every row and both sequences unchanged |
| `ClientManager.ClientStore.AddPhone` | client_manager.py:42-49 | fails with ForeignKeyViolation, changing nothing, exactly when the client id is unknown; otherwise appends exactly one row `(fresh id, client_id, phone)` and changes nothing else |
| `ClientManager.ClientStore.AddPhones` | client_manager.py:36-37 | the `for phone in phones: add_phone` loop: appends one row per number, in order, for that client; fails changing nothing exactly when the client is unknown and the list is non-empty |
| `ClientManager.ClientStore.AddClient` | client_manager.py:26-39 | fails with UniqueViolation, adding no row, exactly when the email is in use; otherwise returns an id never issued before, stores exactly the given names and email under it, and appends one phone row per given number (none for `None` or `[]`), so the client's numbers are exactly the given list |
| `ClientManager.FoundByNewEmail` | client_manager.py:13 | after add_client succeeds, a search by its non-empty email returns the new client exactly once and no one else |
| `ClientManager.BuildSetClause` | client_manager.py:56-66 | `fields` and `values` have equal length, name each column at most once, are empty exactly when all three arguments are `None`, and as a SET clause turn any row into the row with exactly the supplied fields replaced |
| `ClientTable.Assign` | client_manager.py:69-72 | one `column = value` assignment gives that column the value and keeps the other columns |
| `ClientTable.ApplySet` | client_manager.py:69-72 | with distinct columns, the last-listed column takes the last value; the effect of the whole list is stated by `ClientTable.ApplySetFields`. SQL refuses a column listed twice, which `ClientManager.BuildSetClause` never produces |
| `ClientTable.ApplySetSnoc` | client_manager.py:69-72 | with distinct columns, one more assignment at the end of a SET clause sets that column and keeps the effect of the others; SQL refuses a column listed twice, which `ClientManager.BuildSetClause` never produces |
| `ClientTable.ApplySetFields` | client_manager.py:69-72 | a SET over distinct columns gives each listed column its own value and leaves unlisted columns as they were |
| `ClientTable.UpdateKeepsEmailsUnique` | client_manager.py:13 | an update keeps emails unique when the row keeps its email or takes one no other row holds |
| `ClientManager.ClientStore.UpdateClient` | client_manager.py:68-72 | the UPDATE of change_client: fails with UniqueViolation exactly when an existing client takes another client's email; otherwise that client gets the patched row (only supplied fields change), and an unknown id changes nothing |
| `ClientManager.ClientStore.ReplacePhones` | client_manager.py:75-78 | DELETE of the client's phones then add_phone per number: the client's numbers become exactly the given list (also when it is empty), other clients' phone rows are untouched; fails changing nothing exactly when the client is unknown and the list is non-empty |
| `ClientManager.ClientStore.ChangeClient` | client_manager.py:52-80 | only supplied fields of that client change, other clients and the id stay; phones are replaced only when the list is given (empty included), otherwise the phone table is unchanged; UniqueViolation / ForeignKeyViolation exactly in the cases above, with no change, and success exactly in every other case |
| `PhoneTable.DeleteWhere` | client_manager.py:86-89 | `DELETE FROM phone WHERE ...` leaves no more rows than the table had, and none of them matches the WHERE clause; which rows remain is stated by `PhoneTable.DeleteWhereMembers` |
| `PhoneTable.DeleteWhereMembers` | client_manager.py:86-89 | the rows a DELETE leaves are exactly the rows of the table that do not match the WHERE clause |
| `PhoneTable.DeleteWhereNoMatch` | client_manager.py:76 | a DELETE whose WHERE clause matches no row leaves the table as it was |
| `PhoneTable.DeleteSelectPartition` | client_manager.py:86-89 | the rows a DELETE removes are exactly the rows the same WHERE selects: the two split the table as multisets |
| `PhoneTable.DeleteKeepsIdsIncreasing` | client_manager.py:18 | deleting phone rows keeps the PRIMARY KEY order: ids still grow along the table |
| `ClientManager.ClientStore.DeletePhone` | client_manager.py:83-90 | removes exactly the rows with that client id and number: the client keeps every other number as often as before and loses all copies of this one, other clients' rows are untouched, clients are unchanged |
| `PhoneTable.DeleteKeepsUnmatched` | client_manager.py:86-89 | a DELETE leaves, in order, every row that a disjoint WHERE clause selects |
| `PhoneTable.DeleteRemovesMatched` | client_manager.py:86-89 | after a DELETE, no row matches a narrower WHERE clause |
| `PhoneTable.SelectAfterDeleteNumber` | client_manager.py:86-89 | after `DELETE ... WHERE client_id = c AND phone = n`, client c holds no row with number n and exactly its former rows with every other number, and every other client's rows are exactly as before |
| `PhoneTable.SelectAfterDeleteClient` | client_manager.py:76 | after `DELETE FROM phone WHERE client_id = c`, client c has no phone rows and every other client's rows are exactly as before |
| `ClientManager.CascadeKeepsReferences` | client_manager.py:19 | deleting a client together with its phone rows (ON DELETE CASCADE) leaves no phone row without its client; on an unknown id neither table changes |
| `ClientManager.ClientStore.DeleteClient` | client_manager.py:93-97 | removes the client row and, by cascade, every phone row of that client and nothing else; a no-op on an unknown id |
| `PhoneTable.SelectWhere` | client_manager.py:138 | `SELECT ... FROM phone WHERE ...` returns no more rows than the table has, and each of them matches the WHERE clause; that it returns all of them is stated by `PhoneTable.SelectWhereMembers` |
| `PhoneTable.NumbersOf` | client_manager.py:138-139 | a client's phone list has no more numbers than the table has rows; how often each number occurs is stated by `PhoneTable.NumbersOfCount` |
| `PhoneTable.SelectWhereMembers` | client_manager.py:138 | `SELECT ... FROM phone WHERE ...` returns exactly the rows of the table that match |
| `PhoneTable.SelectWhereAppend` | client_manager.py:47 | selecting from a table with rows appended selects from the old rows, then from the new ones |
| `PhoneTable.NumbersOfCount` | client_manager.py:138-139 | the phone list of a client holds each number exactly as often as the table has rows with that client and number |
| `PhoneTable.SelectNewRows` | client_manager.py:77-78 | rows appended for a client are all that client's and none of any other client's |
| `PhoneTable.NumbersOfNewClient` | client_manager.py:35-37 | a client with no rows, once rows for a list are appended, has exactly that list as its numbers |
| `Query.Supplied` | client_manager.py:111-120 | a search argument takes part exactly when it is neither `None` nor the empty string, as Python's `if first_name:` tests |
| `ClientManager.Given` | client_manager.py:35-37 | `if phones:` adds numbers exactly when the list is given and non-empty, and then adds exactly that list |
| `ClientManager.BuildConditions` | client_manager.py:108-127 | `conditions` and `params` have equal length; the JOIN is added exactly when a phone is supplied, and only then is `p.phone` compared; the list is empty exactly when no argument is truthy; as a WHERE clause it holds of a joined row exactly when the row agrees with every truthy argument |
| `Query.SatisfiesAppend` | client_manager.py:127 | appending a condition to the `AND` list adds exactly one conjunct |
| `Query.JoinRows` | client_manager.py:122 | the JOIN yields at most one row per phone row, all of them the same client |
| `Query.Select` | client_manager.py:104-107 | every row returned is an existing client with its stored columns; ids are in non-decreasing order (`ORDER BY c.id`) |
| `Query.JoinRowsCount` | client_manager.py:122-124 | with a phone filter, a matching client is returned once per phone row holding the number, and a non-matching client never |
| `Query.ClientRowsCount` | client_manager.py:111-127 | each client is returned as often as the search promises: 0 if it fails a filter, otherwise once, or once per matching phone row with a phone filter |
| `Query.IdRowsCount` | client_manager.py:120-127 | the rows with one client id hold that id exactly as often as the search promises, and no other id |
| `Query.SelectCount` | client_manager.py:129-132 | the SELECT over ids below a bound returns each id in range exactly as often as the search promises, and no id outside it |
| `Query.SelectFindsAll` | client_manager.py:129-132 | scanning past every client id, the SELECT returns each client exactly as often as the search promises |
| `Query.SelectMatches` | client_manager.py:126-127 | every client returned agrees with every truthy filter on its own columns (first name, last name, email) |
| `Query.SelectHoldsNumber` | client_manager.py:122-124 | with a truthy phone filter, every client returned holds at least one phone row with the searched number |
| `ClientManager.ClientStore.FindClient` | client_manager.py:100-142 | results are existing clients agreeing with every truthy filter, in non-decreasing id order; each client appears exactly as often as promised (once, or once per matching phone row); with no truthy filter every client appears once; each result's phone list holds each number exactly as often as that client's phone rows do |

## Left out

- The psycopg2 connection, cursors, `conn.commit()` and the `__main__` demo driver are I/O and a scripted caller.
- The SQL text and its `sql.SQL` composition are not modelled. The model keeps only their effect on the tables and the shape of the lists that build them.
- VARCHAR length limits (50, 50, 100 and 20 characters) and the errors a longer value would raise are not modelled. Strings have no length bound.
- NOT NULL checks are not modelled, because the model has no null string.
- Transaction timing is not modelled. Every call is whole-or-nothing. The per-statement commits of the source make no difference for the two errors that are modelled.
- Postgres sequences are not transactional: a failed INSERT still uses up a SERIAL value. The model leaves both counters unchanged on failure. Freshness of ids does not depend on this.
- The order of a client's phone numbers in a find_client result is not specified by the source. The model returns them in table order, and its contracts give only the multiset.
- The DDL itself is not modelled. create_db is the constructor (tables created empty) plus a no-op method for a schema that already exists.
- Errors other than the duplicate email and the unknown client are not modelled, and neither is the partial write they cause. A `None` number (NOT NULL) or one longer than 20 characters fails at the `add_phone` that inserts it. When that happens inside the loops of `add_client` or `change_client`, the earlier `add_phone` calls have already committed the client row, the DELETE and the preceding numbers. The model's calls never fail part-way.
- The source never rolls back. After any failed statement the connection stays in an aborted transaction, and every later call fails until the caller rolls back. The model assumes the caller rolls back after a failure, so later calls run against the last committed state.
- `client.id`, `phone.id` and `phone.client_id` are 32-bit INTEGER/SERIAL columns. The model's ids are unbounded. A `client_id` outside the 32-bit range fails with a numeric range error in the source, whereas `AddPhone`, `ReplacePhones` and `ChangeClient` report ForeignKeyViolation for it.
- Sequence exhaustion after 2^31 - 1 rows is not modelled. `nextClientId` and `nextPhoneId` grow without bound.
- PostgreSQL text cannot hold the NUL character, and the driver refuses such a string before it reaches the database. Every method that takes a string accepts any string.
