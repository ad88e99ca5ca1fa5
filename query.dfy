/** The SELECT that find_client builds: its filters, its WHERE clause and the
    rows it returns. */
module Query {
  import opened Schema
  import opened PhoneTable

  /** The search arguments of find_client; `None` is an argument left out. */
  datatype Filter = Filter(firstName: Option<string>, lastName: Option<string>, email: Option<string>, phone: Option<string>)

  /** Whether a search argument takes part in the search. The source tests
      Python truthiness, so an empty string counts as left out. */
  predicate Supplied(arg: Option<string>): (b: bool)
    ensures b <==> arg != None && arg != Some("")
  {
    arg.Some? && arg.value != ""
  }

  /** A column the WHERE clause compares: `c.<field>`, or `p.phone` of the
      joined phone row. */
  datatype Column = ClientColumn(field: Field) | PhoneColumn

  /** A row of `client c [JOIN phone p ON c.id = p.client_id]`; `number` is
      `p.phone` when the phone table is joined and `None` when it is not. */
  datatype Joined = Joined(client: Client, number: Option<string>)

  /** A row of the SELECT: `c.id, c.first_name, c.last_name, c.email`. */
  datatype Found = Found(id: int, client: Client)

  function ValueOf(col: Column, row: Joined): Option<string>
  {
    match col
    case ClientColumn(f) => Some(FieldOf(row.client, f))
    case PhoneColumn => row.number
  }

  /** `WHERE conditions[0] = params[0] AND ... AND conditions[n-1] = params[n-1]`;
      no conditions means no WHERE clause. A comparison with a column that is
      not there (`p.phone` without the JOIN) never holds. */
  predicate Satisfies(conditions: seq<Column>, params: seq<string>, row: Joined)
    requires |conditions| == |params|
  {
    forall k :: 0 <= k < |conditions| ==> ValueOf(conditions[k], row) == Some(params[k])
  }

  /** The client agrees with every supplied client filter. */
  predicate ClientMatches(f: Filter, c: Client)
  {
    && (Supplied(f.firstName) ==> c.firstName == f.firstName.value)
    && (Supplied(f.lastName) ==> c.lastName == f.lastName.value)
    && (Supplied(f.email) ==> c.email == f.email.value)
  }

  /** The joined row agrees with every supplied filter, the phone filter
      included. */
  predicate RowMatches(f: Filter, row: Joined)
  {
    ClientMatches(f, row.client) && (Supplied(f.phone) ==> row.number == Some(f.phone.value))
  }

  /** How many times the search `f` returns client `id`: once per matching
      client, or, with a phone filter, once per phone row of that client
      holding the number. */
  function Expected(clients: map<int, Client>, phones: seq<Phone>, f: Filter, id: int): nat
  {
    if id in clients && ClientMatches(f, clients[id]) then
      if Supplied(f.phone) then |SelectWhere(phones, ClientAndNumberAre(id, f.phone.value))| else 1
    else 0
  }

  /** The rows that client `id` contributes when `phone` is joined: one per
      phone row of that client that passes the WHERE clause. */
  function JoinRows(id: int, c: Client, rows: seq<Phone>, conditions: seq<Column>, params: seq<string>): (r: seq<Found>)
    requires |conditions| == |params|
    ensures |r| <= |rows|
    ensures forall k :: 0 <= k < |r| ==> r[k] == Found(id, c)
  {
    if rows == [] then []
    else
      var last := rows[|rows| - 1];
      JoinRows(id, c, rows[..|rows| - 1], conditions, params)
        + (if last.clientId == id && Satisfies(conditions, params, Joined(c, Some(last.number)))
           then [Found(id, c)] else [])
  }

  /** The rows that client `id` contributes to the SELECT. */
  function ClientRows(id: int, c: Client, phones: seq<Phone>, join: bool, conditions: seq<Column>, params: seq<string>): (r: seq<Found>)
    requires |conditions| == |params|
  {
    if join then JoinRows(id, c, phones, conditions, params)
    else if Satisfies(conditions, params, Joined(c, None)) then [Found(id, c)]
    else []
  }

  /** `SELECT c.id, c.first_name, c.last_name, c.email FROM client c
      [JOIN phone p ON c.id = p.client_id] [WHERE ...] ORDER BY c.id`,
      over the client ids 1 .. hi - 1. */
  function Select(clients: map<int, Client>, phones: seq<Phone>, join: bool,
                  conditions: seq<Column>, params: seq<string>, hi: int): (r: seq<Found>)
    requires |conditions| == |params|
    ensures forall k :: 0 <= k < |r| ==> 1 <= r[k].id < hi && r[k].id in clients && r[k].client == clients[r[k].id]
    ensures forall i, j :: 0 <= i < j < |r| ==> r[i].id <= r[j].id
    decreases hi
  {
    if hi <= 1 then []
    else
      Select(clients, phones, join, conditions, params, hi - 1) + IdRows(clients, phones, join, conditions, params, hi - 1)
  }

  /** The rows of the SELECT with `c.id = id`. */
  function IdRows(clients: map<int, Client>, phones: seq<Phone>, join: bool,
                  conditions: seq<Column>, params: seq<string>, id: int): (r: seq<Found>)
    requires |conditions| == |params|
    ensures forall k :: 0 <= k < |r| ==> id in clients && r[k] == Found(id, clients[id])
  {
    if id in clients then ClientRows(id, clients[id], phones, join, conditions, params) else []
  }

  function Ids(rows: seq<Found>): seq<int>
  {
    seq(|rows|, k requires 0 <= k < |rows| => rows[k].id)
  }

  /** The WHERE clause built for `f` selects exactly the rows that agree with
      every supplied filter. */
  ghost predicate Implements(f: Filter, join: bool, conditions: seq<Column>, params: seq<string>)
  {
    && |conditions| == |params|
    && (join <==> Supplied(f.phone))
    && forall row :: Satisfies(conditions, params, row) <==> RowMatches(f, row)
  }

  /** Appending one comparison to the WHERE clause adds one conjunct. */
  lemma SatisfiesAppend(conditions: seq<Column>, params: seq<string>, col: Column, v: string)
    requires |conditions| == |params|
    ensures forall row :: Satisfies(conditions + [col], params + [v], row)
                      <==> Satisfies(conditions, params, row) && ValueOf(col, row) == Some(v)
  {
    forall row
      ensures Satisfies(conditions + [col], params + [v], row)
          <==> Satisfies(conditions, params, row) && ValueOf(col, row) == Some(v)
    {
      if Satisfies(conditions + [col], params + [v], row) {
        assert ValueOf((conditions + [col])[|conditions|], row) == Some((params + [v])[|conditions|]);
        forall k | 0 <= k < |conditions|
          ensures ValueOf(conditions[k], row) == Some(params[k])
        {
          assert ValueOf((conditions + [col])[k], row) == Some((params + [v])[k]);
        }
      }
    }
  }

  lemma {:induction false} JoinRowsCount(id: int, c: Client, rows: seq<Phone>, f: Filter,
                                         conditions: seq<Column>, params: seq<string>)
    requires Implements(f, true, conditions, params)
    ensures |JoinRows(id, c, rows, conditions, params)|
         == if ClientMatches(f, c) then |SelectWhere(rows, ClientAndNumberAre(id, f.phone.value))| else 0
  {
    if rows != [] {
      var last := rows[|rows| - 1];
      JoinRowsCount(id, c, rows[..|rows| - 1], f, conditions, params);
      assert Satisfies(conditions, params, Joined(c, Some(last.number)))
         <==> RowMatches(f, Joined(c, Some(last.number)));
    }
  }

  lemma ClientRowsCount(id: int, c: Client, phones: seq<Phone>, f: Filter, join: bool,
                        conditions: seq<Column>, params: seq<string>)
    requires Implements(f, join, conditions, params)
    ensures |ClientRows(id, c, phones, join, conditions, params)|
         == if !ClientMatches(f, c) then 0
            else if Supplied(f.phone) then |SelectWhere(phones, ClientAndNumberAre(id, f.phone.value))|
            else 1
  {
    if join {
      JoinRowsCount(id, c, phones, f, conditions, params);
    } else {
      assert Satisfies(conditions, params, Joined(c, None)) <==> RowMatches(f, Joined(c, None));
    }
  }

  /** The rows with one id hold that id as often as the search promises. */
  lemma IdRowsCount(clients: map<int, Client>, phones: seq<Phone>, f: Filter, join: bool,
                    conditions: seq<Column>, params: seq<string>, id: int, x: int)
    requires Implements(f, join, conditions, params)
    ensures multiset(Ids(IdRows(clients, phones, join, conditions, params, id)))[x]
         == if x == id then Expected(clients, phones, f, id) else 0
  {
    var here := IdRows(clients, phones, join, conditions, params, id);
    if id in clients {
      ClientRowsCount(id, clients[id], phones, f, join, conditions, params);
    }
    SameCount(Ids(here), id, x);
  }

  lemma IdsAppend(a: seq<Found>, b: seq<Found>)
    ensures Ids(a + b) == Ids(a) + Ids(b)
  {
  }

  /** The SELECT returns each client as often as the search promises, and
      no id outside the scanned range. */
  lemma {:induction false} SelectCount(clients: map<int, Client>, phones: seq<Phone>, f: Filter, join: bool,
                                       conditions: seq<Column>, params: seq<string>, hi: int, x: int)
    requires Implements(f, join, conditions, params)
    ensures multiset(Ids(Select(clients, phones, join, conditions, params, hi)))[x]
         == if 1 <= x < hi then Expected(clients, phones, f, x) else 0
    decreases hi
  {
    if hi > 1 {
      SelectCount(clients, phones, f, join, conditions, params, hi - 1, x);
      IdsAppend(Select(clients, phones, join, conditions, params, hi - 1),
                IdRows(clients, phones, join, conditions, params, hi - 1));
      IdRowsCount(clients, phones, f, join, conditions, params, hi - 1, x);
    }
  }

  /** Scanning past every client id, the SELECT returns each client exactly
      as often as the search promises. */
  lemma SelectFindsAll(clients: map<int, Client>, phones: seq<Phone>, f: Filter, join: bool,
                       conditions: seq<Column>, params: seq<string>, hi: int)
    requires Implements(f, join, conditions, params)
    requires forall id :: id in clients ==> 1 <= id < hi
    ensures forall id :: multiset(Ids(Select(clients, phones, join, conditions, params, hi)))[id]
                      == Expected(clients, phones, f, id)
  {
    forall id
      ensures multiset(Ids(Select(clients, phones, join, conditions, params, hi)))[id]
           == Expected(clients, phones, f, id)
    {
      SelectCount(clients, phones, f, join, conditions, params, hi, id);
    }
  }

  lemma {:induction false} SameCount(s: seq<int>, v: int, x: int)
    requires forall k :: 0 <= k < |s| ==> s[k] == v
    ensures multiset(s)[x] == if x == v then |s| else 0
  {
    if s != [] {
      SameCount(s[1..], v, x);
      assert s == [s[0]] + s[1..];
    }
  }

  lemma SelectMatches(clients: map<int, Client>, phones: seq<Phone>, f: Filter, join: bool,
                      conditions: seq<Column>, params: seq<string>, hi: int)
    requires Implements(f, join, conditions, params)
    ensures forall k :: 0 <= k < |Select(clients, phones, join, conditions, params, hi)|
                    ==> ClientMatches(f, Select(clients, phones, join, conditions, params, hi)[k].client)
  {
    var r := Select(clients, phones, join, conditions, params, hi);
    forall k | 0 <= k < |r|
      ensures ClientMatches(f, r[k].client)
    {
      SelectCount(clients, phones, f, join, conditions, params, hi, r[k].id);
      assert Ids(r)[k] == r[k].id;
      assert multiset(Ids(r))[r[k].id] > 0;
    }
  }

  /** With a phone filter, every client returned holds a phone row with the
      searched number. */
  lemma SelectHoldsNumber(clients: map<int, Client>, phones: seq<Phone>, f: Filter, join: bool,
                          conditions: seq<Column>, params: seq<string>, hi: int, k: int)
    requires Implements(f, join, conditions, params) && Supplied(f.phone)
    requires 0 <= k < |Select(clients, phones, join, conditions, params, hi)|
    ensures |SelectWhere(phones, ClientAndNumberAre(Select(clients, phones, join, conditions, params, hi)[k].id,
                                                    f.phone.value))| > 0
  {
    var r := Select(clients, phones, join, conditions, params, hi);
    SelectCount(clients, phones, f, join, conditions, params, hi, r[k].id);
    assert Ids(r)[k] == r[k].id;
    assert multiset(Ids(r))[r[k].id] > 0;
  }
}
