/** The data-access functions of client_manager.py as methods of one store
    that holds the two tables. Each call either completes or fails with the
    constraint it violates and changes nothing. */
module ClientManager {
  import opened Schema
  import opened PhoneTable
  import opened ClientTable
  import opened Query

  /** One result of find_client: the client's columns and all its numbers. */
  datatype Record = Record(id: int, client: Client, phones: seq<string>)

  function RecordIds(result: seq<Record>): seq<int>
  {
    seq(|result|, k requires 0 <= k < |result| => result[k].id)
  }

  /** `phones` as add_client reads it: `None` and the empty list add nothing. */
  function Given(phones: Option<seq<string>>): (r: seq<string>)
    ensures r == [] <==> phones == None || phones == Some([])
    ensures r != [] ==> phones == Some(r)
  {
    if phones.Some? then phones.value else []
  }

  /** No phone row names a client that is not in the table
      (`REFERENCES client(id)`). */
  ghost predicate ReferencesValid(clients: map<int, Client>, phones: seq<Phone>)
  {
    forall x :: x in phones ==> x.clientId in clients
  }

  /** Deleting a client together with its phone rows, as the cascade does,
      leaves no phone row without its client; deleting a client that is not
      there changes neither table. */
  lemma CascadeKeepsReferences(clients: map<int, Client>, phones: seq<Phone>, id: int)
    requires ReferencesValid(clients, phones)
    ensures ReferencesValid(clients - {id}, DeleteWhere(phones, ClientIs(id)))
    ensures id !in clients ==> clients - {id} == clients && DeleteWhere(phones, ClientIs(id)) == phones
  {
    DeleteWhereMembers(phones, ClientIs(id));
    if id !in clients {
      forall k | 0 <= k < |phones|
        ensures !Selects(ClientIs(id), phones[k])
      {
        assert phones[k] in phones;
      }
      DeleteWhereNoMatch(phones, ClientIs(id));
    }
  }

  /** After a successful add_client, searching by the new (non-empty) email
      returns the new client exactly once and no one else. */
  lemma FoundByNewEmail(clients: map<int, Client>, phones: seq<Phone>, id: int, c: Client,
                         after: map<int, Client>, byEmail: Filter)
    requires id !in clients && !EmailInUse(clients, c.email) && c.email != ""
    requires after == clients[id := c] && byEmail == Filter(None, None, Some(c.email), None)
    ensures forall other :: Expected(after, phones, byEmail, other) == if other == id then 1 else 0
  {
    forall other | other != id && other in clients
      ensures clients[other].email != c.email
    {
    }
  }

  /** The `fields`/`values` lists of change_client: one `field = %s` per
      supplied argument, in the order first_name, last_name, email. */
  method BuildSetClause(firstName: Option<string>, lastName: Option<string>, email: Option<string>)
    returns (fields: seq<Field>, values: seq<string>)
    ensures |fields| == |values|
    ensures fields == [] <==> firstName.None? && lastName.None? && email.None?
    ensures forall i, j :: 0 <= i < j < |fields| ==> fields[i] != fields[j]
    ensures forall c :: ApplySet(c, fields, values) == Patched(c, firstName, lastName, email)
  {
    fields, values := [], [];
    if firstName.Some? {
      forall c ensures ApplySet(c, fields + [FirstName], values + [firstName.value]) == Patched(c, firstName, None, None) {
        ApplySetSnoc(c, fields, values, FirstName, firstName.value);
      }
      fields, values := fields + [FirstName], values + [firstName.value];
    }
    assert forall c :: ApplySet(c, fields, values) == Patched(c, firstName, None, None);
    if lastName.Some? {
      forall c ensures ApplySet(c, fields + [LastName], values + [lastName.value]) == Patched(c, firstName, lastName, None) {
        ApplySetSnoc(c, fields, values, LastName, lastName.value);
      }
      fields, values := fields + [LastName], values + [lastName.value];
    }
    assert forall c :: ApplySet(c, fields, values) == Patched(c, firstName, lastName, None);
    if email.Some? {
      forall c ensures ApplySet(c, fields + [Email], values + [email.value]) == Patched(c, firstName, lastName, email) {
        ApplySetSnoc(c, fields, values, Email, email.value);
      }
      fields, values := fields + [Email], values + [email.value];
    }
  }

  /** The `conditions`/`params` lists of find_client, and whether the query
      joins `phone`: one `column = %s` per truthy argument. */
  method BuildConditions(f: Filter) returns (join: bool, conditions: seq<Column>, params: seq<string>)
    ensures |conditions| == |params|
    ensures join <==> Supplied(f.phone)
    ensures join <==> PhoneColumn in conditions
    ensures conditions == [] <==>
              !Supplied(f.firstName) && !Supplied(f.lastName) && !Supplied(f.email) && !Supplied(f.phone)
    ensures forall row :: Satisfies(conditions, params, row) <==> RowMatches(f, row)
  {
    join, conditions, params := false, [], [];
    if Supplied(f.firstName) {
      SatisfiesAppend(conditions, params, ClientColumn(FirstName), f.firstName.value);
      conditions, params := conditions + [ClientColumn(FirstName)], params + [f.firstName.value];
    }
    if Supplied(f.lastName) {
      SatisfiesAppend(conditions, params, ClientColumn(LastName), f.lastName.value);
      conditions, params := conditions + [ClientColumn(LastName)], params + [f.lastName.value];
    }
    if Supplied(f.email) {
      SatisfiesAppend(conditions, params, ClientColumn(Email), f.email.value);
      conditions, params := conditions + [ClientColumn(Email)], params + [f.email.value];
    }
    assert forall row :: Satisfies(conditions, params, row) <==> ClientMatches(f, row.client);
    if Supplied(f.phone) {
      join := true;
      SatisfiesAppend(conditions, params, PhoneColumn, f.phone.value);
      conditions, params := conditions + [PhoneColumn], params + [f.phone.value];
    }
  }

  class ClientStore {
    /** `client`: each row under its id. */
    var clients: map<int, Client>
    /** `phone`, in insertion order. */
    var phones: seq<Phone>
    /** The next values of the two SERIAL sequences. */
    var nextClientId: int
    var nextPhoneId: int
    /** Every client id the sequence has handed out so far. */
    ghost var issued: set<int>

    ghost predicate Valid()
      reads this
    {
      && 1 <= nextClientId
      && clients.Keys <= issued
      && (forall id :: id in issued ==> 1 <= id < nextClientId)
      && EmailsUnique(clients)
      && ReferencesValid(clients, phones)
      && IdsIncreasing(phones)
      && (forall x :: x in phones ==> x.id < nextPhoneId)
    }

    /** create_db on a database without the tables: both are created empty. */
    constructor ()
      ensures Valid()
      ensures clients == map[] && phones == [] && issued == {}
    {
      clients, phones := map[], [];
      nextClientId, nextPhoneId := 1, 1;
      issued := {};
    }

    /** create_db once the tables exist: `CREATE TABLE IF NOT EXISTS` leaves
        every row as it is. */
    method CreateDb()
      requires Valid()
      ensures Valid()
      ensures unchanged(this)
    {
    }

    /** add_phone: `INSERT INTO phone (client_id, phone)`. */
    method AddPhone(clientId: int, number: string) returns (outcome: Outcome)
      requires Valid()
      modifies this
      ensures Valid()
      ensures outcome.Failed? <==> clientId !in old(clients)
      ensures outcome.Failed? ==> outcome.error == ForeignKeyViolation && unchanged(this)
      ensures outcome.Done? ==>
                && clients == old(clients) && issued == old(issued) && nextClientId == old(nextClientId)
                && phones == old(phones) + [Phone(old(nextPhoneId), clientId, number)]
                && nextPhoneId == old(nextPhoneId) + 1
    {
      if clientId !in clients {
        return Failed(ForeignKeyViolation);
      }
      phones := phones + [Phone(nextPhoneId, clientId, number)];
      nextPhoneId := nextPhoneId + 1;
      outcome := Done;
    }

    /** The `for phone in phones: add_phone(...)` loop of add_client and
        change_client. The first call fails when the client does not exist,
        and then nothing has been added. */
    method AddPhones(clientId: int, numbers: seq<string>) returns (outcome: Outcome)
      requires Valid()
      modifies this
      ensures Valid()
      ensures outcome.Failed? <==> clientId !in old(clients) && numbers != []
      ensures outcome.Failed? ==> outcome.error == ForeignKeyViolation && unchanged(this)
      ensures outcome.Done? ==>
                && clients == old(clients) && issued == old(issued) && nextClientId == old(nextClientId)
                && phones == old(phones) + NewRows(clientId, numbers, old(nextPhoneId))
                && nextPhoneId == old(nextPhoneId) + |numbers|
    {
      var i := 0;
      while i < |numbers|
        invariant 0 <= i <= |numbers|
        invariant Valid()
        invariant clients == old(clients) && issued == old(issued) && nextClientId == old(nextClientId)
        invariant phones == old(phones) + NewRows(clientId, numbers[..i], old(nextPhoneId))
        invariant nextPhoneId == old(nextPhoneId) + i
        invariant 0 < i ==> clientId in clients
        invariant i == 0 ==> unchanged(this)
      {
        outcome := AddPhone(clientId, numbers[i]);
        if outcome.Failed? {
          return;
        }
        assert NewRows(clientId, numbers[..i + 1], old(nextPhoneId))
            == NewRows(clientId, numbers[..i], old(nextPhoneId)) + [Phone(old(nextPhoneId) + i, clientId, numbers[i])];
        i := i + 1;
      }
      assert numbers[..i] == numbers;
      outcome := Done;
    }

    /** add_client: `INSERT INTO client ... RETURNING id`, then one add_phone
        per number when `phones` is a non-empty list. */
    method AddClient(firstName: string, lastName: string, email: string, phoneList: Option<seq<string>>)
      returns (result: Result<int>)
      requires Valid()
      modifies this
      ensures Valid()
      ensures result.Err? <==> EmailInUse(old(clients), email)
      ensures result.Err? ==> result.error == UniqueViolation && unchanged(this)
      ensures result.Ok? ==>
                && result.value !in old(issued)
                && issued == old(issued) + {result.value}
                && clients == old(clients)[result.value := Client(firstName, lastName, email)]
                && phones == old(phones) + NewRows(result.value, Given(phoneList), old(nextPhoneId))
                && NumbersOf(phones, result.value) == Given(phoneList)
    {
      if EmailInUse(clients, email) {
        return Err(UniqueViolation);
      }
      var id := nextClientId;
      clients := clients[id := Client(firstName, lastName, email)];
      nextClientId := nextClientId + 1;
      issued := issued + {id};
      ghost var before := phones;
      if phoneList.Some? && phoneList.value != [] {
        var added := AddPhones(id, phoneList.value);
      } else {
        assert NewRows(id, Given(phoneList), old(nextPhoneId)) == [];
      }
      result := Ok(id);
      NumbersOfNewClient(before, id, Given(phoneList), old(nextPhoneId));
    }

    /** The UPDATE of change_client, `UPDATE client SET ... WHERE id = %s`,
        run only when some field is supplied. It changes at most one row and
        is checked against UNIQUE(email); on an unknown id it matches nothing. */
    method UpdateClient(clientId: int, firstName: Option<string>, lastName: Option<string>, email: Option<string>)
      returns (outcome: Outcome)
      requires Valid()
      modifies this`clients
      ensures Valid()
      ensures outcome.Failed? <==>
                clientId in old(clients) && email.Some? && EmailInUse(old(clients) - {clientId}, email.value)
      ensures outcome.Failed? ==> outcome.error == UniqueViolation && clients == old(clients)
      ensures outcome.Done? ==>
                clients == if clientId in old(clients)
                           then old(clients)[clientId := Patched(old(clients)[clientId], firstName, lastName, email)]
                           else old(clients)
    {
      var fields, values := BuildSetClause(firstName, lastName, email);
      if fields != [] && clientId in clients {
        if email.Some? && EmailInUse(clients - {clientId}, email.value) {
          return Failed(UniqueViolation);
        }
        var row := ApplySet(clients[clientId], fields, values);
        assert row == Patched(clients[clientId], firstName, lastName, email);
        UpdateKeepsEmailsUnique(clients, clientId, row);
        clients := clients[clientId := row];
      }
      outcome := Done;
    }

    /** The phone part of change_client: `DELETE FROM phone WHERE client_id = %s`,
        then one add_phone per number. */
    method ReplacePhones(clientId: int, numbers: seq<string>) returns (outcome: Outcome)
      requires Valid()
      modifies this
      ensures Valid()
      ensures outcome.Failed? <==> clientId !in old(clients) && numbers != []
      ensures outcome.Failed? ==> outcome.error == ForeignKeyViolation && unchanged(this)
      ensures outcome.Done? ==>
                && clients == old(clients) && issued == old(issued) && nextClientId == old(nextClientId)
                && phones == DeleteWhere(old(phones), ClientIs(clientId)) + NewRows(clientId, numbers, old(nextPhoneId))
                && NumbersOf(phones, clientId) == numbers
                && forall other :: other != clientId ==>
                     SelectWhere(phones, ClientIs(other)) == SelectWhere(old(phones), ClientIs(other))
    {
      ghost var before := phones;
      CascadeKeepsReferences(clients, phones, clientId);
      DeleteWhereMembers(phones, ClientIs(clientId));
      DeleteKeepsIdsIncreasing(phones, ClientIs(clientId));
      phones := DeleteWhere(phones, ClientIs(clientId));
      ghost var kept := phones;
      outcome := AddPhones(clientId, numbers);
      if outcome.Failed? {
        return;
      }
      forall other | other != clientId
        ensures SelectWhere(phones, ClientIs(other)) == SelectWhere(before, ClientIs(other))
      {
        SelectWhereAppend(kept, NewRows(clientId, numbers, old(nextPhoneId)), ClientIs(other));
        SelectNewRows(clientId, numbers, old(nextPhoneId), other);
        SelectAfterDeleteClient(before, clientId, other);
      }
      NumbersOfNewClient(kept, clientId, numbers, old(nextPhoneId));
    }

    /** change_client: the UPDATE of the supplied fields, then, when `phones`
        is given (an empty list too), the replacement of the client's phones. */
    method ChangeClient(clientId: int, firstName: Option<string>, lastName: Option<string>, email: Option<string>,
                        phoneList: Option<seq<string>>)
      returns (outcome: Outcome)
      requires Valid()
      modifies this
      ensures Valid()
      ensures outcome == Failed(UniqueViolation) <==>
                clientId in old(clients) && email.Some? && EmailInUse(old(clients) - {clientId}, email.value)
      ensures outcome == Failed(ForeignKeyViolation) <==>
                clientId !in old(clients) && phoneList.Some? && phoneList.value != []
      ensures outcome.Done? <==>
                && !(clientId in old(clients) && email.Some? && EmailInUse(old(clients) - {clientId}, email.value))
                && !(clientId !in old(clients) && phoneList.Some? && phoneList.value != [])
      ensures outcome.Failed? ==> unchanged(this)
      ensures outcome.Done? ==>
                && issued == old(issued) && nextClientId == old(nextClientId)
                && clients == (if clientId in old(clients)
                               then old(clients)[clientId := Patched(old(clients)[clientId], firstName, lastName, email)]
                               else old(clients))
                && phones == (if phoneList.None? then old(phones)
                              else DeleteWhere(old(phones), ClientIs(clientId))
                                     + NewRows(clientId, phoneList.value, old(nextPhoneId)))
      ensures outcome.Done? && phoneList.Some? ==> NumbersOf(phones, clientId) == phoneList.value
      ensures outcome.Done? ==>
                forall other :: other != clientId ==>
                  SelectWhere(phones, ClientIs(other)) == SelectWhere(old(phones), ClientIs(other))
    {
      outcome := UpdateClient(clientId, firstName, lastName, email);
      if outcome.Failed? {
        return;
      }
      if phoneList.Some? {
        outcome := ReplacePhones(clientId, phoneList.value);
      }
    }

    /** delete_phone: `DELETE FROM phone WHERE client_id = %s AND phone = %s`. */
    method DeletePhone(clientId: int, number: string)
      requires Valid()
      modifies this
      ensures Valid()
      ensures clients == old(clients) && issued == old(issued)
      ensures nextClientId == old(nextClientId) && nextPhoneId == old(nextPhoneId)
      ensures phones == DeleteWhere(old(phones), ClientAndNumberAre(clientId, number))
      ensures forall n :: multiset(NumbersOf(phones, clientId))[n]
                       == if n == number then 0 else multiset(NumbersOf(old(phones), clientId))[n]
      ensures forall other :: other != clientId ==>
                SelectWhere(phones, ClientIs(other)) == SelectWhere(old(phones), ClientIs(other))
    {
      ghost var before := phones;
      var w := ClientAndNumberAre(clientId, number);
      DeleteWhereMembers(phones, w);
      DeleteKeepsIdsIncreasing(phones, w);
      phones := DeleteWhere(phones, w);
      forall n
        ensures multiset(NumbersOf(phones, clientId))[n]
             == if n == number then 0 else multiset(NumbersOf(before, clientId))[n]
      {
        NumbersOfCount(phones, clientId, n);
        NumbersOfCount(before, clientId, n);
        SelectAfterDeleteNumber(before, clientId, number, clientId, n);
      }
      forall other | other != clientId
        ensures SelectWhere(phones, ClientIs(other)) == SelectWhere(before, ClientIs(other))
      {
        SelectAfterDeleteNumber(before, clientId, number, other, number);
      }
    }

    /** delete_client: `DELETE FROM client WHERE id = %s`, with the
        `ON DELETE CASCADE` of `phone.client_id` removing the client's phones. */
    method DeleteClient(clientId: int)
      requires Valid()
      modifies this
      ensures Valid()
      ensures clients == old(clients) - {clientId}
      ensures phones == DeleteWhere(old(phones), ClientIs(clientId))
      ensures issued == old(issued) && nextClientId == old(nextClientId) && nextPhoneId == old(nextPhoneId)
      ensures forall x :: x in phones ==> x.clientId != clientId
      ensures clientId !in old(clients) ==> unchanged(this)
    {
      CascadeKeepsReferences(clients, phones, clientId);
      DeleteWhereMembers(phones, ClientIs(clientId));
      DeleteKeepsIdsIncreasing(phones, ClientIs(clientId));
      clients := clients - {clientId};
      phones := DeleteWhere(phones, ClientIs(clientId));
    }

    /** find_client: the SELECT built from the truthy arguments, ordered by
        client id, and for each row found the client's full phone list. */
    method FindClient(f: Filter) returns (result: seq<Record>)
      requires Valid()
      ensures forall k :: 0 <= k < |result| ==>
                && result[k].id in clients
                && result[k].client == clients[result[k].id]
                && ClientMatches(f, result[k].client)
      ensures forall i, j :: 0 <= i < j < |result| ==> result[i].id <= result[j].id
      ensures forall id :: multiset(RecordIds(result))[id] == Expected(clients, phones, f, id)
      ensures !Supplied(f.firstName) && !Supplied(f.lastName) && !Supplied(f.email) && !Supplied(f.phone) ==>
                forall id :: multiset(RecordIds(result))[id] == if id in clients then 1 else 0
      ensures forall k, n :: 0 <= k < |result| ==>
                multiset(result[k].phones)[n] == |SelectWhere(phones, ClientAndNumberAre(result[k].id, n))|
    {
      var join, conditions, params := BuildConditions(f);
      var rows := Select(clients, phones, join, conditions, params, nextClientId);
      result := [];
      var i := 0;
      while i < |rows|
        invariant 0 <= i <= |rows|
        invariant |result| == i
        invariant forall k :: 0 <= k < i ==>
                    result[k] == Record(rows[k].id, rows[k].client, NumbersOf(phones, rows[k].id))
      {
        // `SELECT phone FROM phone WHERE client_id = %s`
        result := result + [Record(rows[i].id, rows[i].client, NumbersOf(phones, rows[i].id))];
        i := i + 1;
      }
      SelectFindsAll(clients, phones, f, join, conditions, params, nextClientId);
      SelectMatches(clients, phones, f, join, conditions, params, nextClientId);
      assert RecordIds(result) == Ids(rows);
      forall k, n | 0 <= k < |result|
        ensures multiset(result[k].phones)[n] == |SelectWhere(phones, ClientAndNumberAre(result[k].id, n))|
      {
        NumbersOfCount(phones, result[k].id, n);
      }
    }
  }
}
