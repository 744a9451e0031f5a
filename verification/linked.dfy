/** The live record class `link_table` produces: a map of field values bound
    to the row whose id is the record's `id` field. Each operation is a
    guard on the declared fields followed by an effect on the store and/or
    the map. A failure carries no new state: the caller keeps the store and
    map it had, except where an operation says otherwise. */
module Linked {
  import opened Values
  import opened Schema
  import opened RowStore

  /** The record's in-memory map (`self.data`). */
  type Data = map<string, Value>

  /** `__getitem__`: the in-memory value of a declared field. */
  function Get(t: Table, data: Data, key: string): (r: Result<Value>)
    ensures !IsField(t, key) ==> r == Err(UnknownField(key))
    ensures IsField(t, key) && key !in data ==> r == Err(MissingValue(key))
    ensures r.Ok? <==> IsField(t, key) && key in data
    ensures r.Ok? ==> r.value == data[key]
  {
    if !IsField(t, key) then Err(UnknownField(key))
    else if key !in data then Err(MissingValue(key))
    else Ok(data[key])
  }

  /** `__setitem__`: write the column of the record's row, then the map.
      The record's id is read through the keyed interface (`self.id`). */
  function Set(t: Table, s: Store, data: Data, key: string, v: Value): (r: Result<(Store, Data)>)
    ensures !IsField(t, key) ==> r == Err(UnknownField(key))
    ensures r.Ok? <==>
              && IsField(t, key) && IsField(t, "id") && "id" in data
              && (Lookup(s, data["id"]).Some? ==> Accepts(t, s, Lookup(s, data["id"]).value, key, v))
    ensures IsField(t, key) && r.Err? ==>
              r.error == (if !IsField(t, "id") then UnknownField("id")
                          else if "id" !in data then MissingValue("id")
                          else UpdateColumn(t, s, key, v, data["id"]).error)
    ensures r.Ok? ==> Get(t, r.value.1, key) == Ok(v)
    ensures r.Ok? ==> forall c :: c != key ==> Get(t, r.value.1, c) == Get(t, data, c)
    ensures r.Ok? ==> r.value.1.Keys == data.Keys + {key}
    ensures Valid(t, s) && r.Ok? ==> Valid(t, r.value.0)
  {
    if !IsField(t, key) then Err(UnknownField(key))
    else
      var idv :- Get(t, data, "id");
      var s' :- UpdateColumn(t, s, key, v, idv);
      Ok((s', data[key := v]))
  }

  /** `__delitem__` as written. After the guard, the `UPDATE ... LIMIT 1`
      statement is a syntax error unless the store was built to accept
      LIMIT on UPDATE (`limitSupported`); when it is accepted, the column
      is nulled and `del self[key]` re-enters this operation, which repeats
      the same update until the interpreter's recursion limit. The store is
      returned because it may have changed before the failure. */
  function DeleteAsWritten(t: Table, s: Store, data: Data, key: string, limitSupported: bool)
    : (r: (Store, Result<Data>))
    ensures !IsField(t, key) ==> r == (s, Err(UnknownField(key)))
    ensures !limitSupported ==> r.0 == s
    ensures Valid(t, s) ==> Valid(t, r.0)
  {
    if !IsField(t, key) then (s, Err(UnknownField(key)))
    else
      match Get(t, data, "id")
      case Err(e) => (s, Err(e))
      case Ok(idv) =>
        if !limitSupported then (s, Err(StoreFailed(SyntaxError)))
        else
          match UpdateColumn(t, s, key, Null, idv)
          case Err(e) => (s, Err(e))
          case Ok(s') => (s', Err(RecursionLimit))
  }

  /** The deletion the operation evidently intends: null the column of the
      record's row, then remove the key from the map. */
  function Delete(t: Table, s: Store, data: Data, key: string): (r: Result<(Store, Data)>)
    ensures !IsField(t, key) ==> r == Err(UnknownField(key))
    ensures r.Ok? <==>
              && IsField(t, key) && IsField(t, "id") && "id" in data
              && (Lookup(s, data["id"]).Some? ==> Accepts(t, s, Lookup(s, data["id"]).value, key, Null))
    ensures IsField(t, key) && r.Err? ==>
              r.error == (if !IsField(t, "id") then UnknownField("id")
                          else if "id" !in data then MissingValue("id")
                          else UpdateColumn(t, s, key, Null, data["id"]).error)
    ensures r.Ok? ==> Get(t, r.value.1, key) == Err(MissingValue(key))
    ensures r.Ok? ==> forall c :: c != key ==> Get(t, r.value.1, c) == Get(t, data, c)
    ensures Valid(t, s) && r.Ok? ==> Valid(t, r.value.0)
  {
    if !IsField(t, key) then Err(UnknownField(key))
    else
      var idv :- Get(t, data, "id");
      var s' :- UpdateColumn(t, s, key, Null, idv);
      Ok((s', data - {key}))
  }

  /** The values of the row the record refers to, for every declared field. */
  function Refresh(t: Table, data: Data, row: Row): (d: Data)
    requires Titles(t) <= row.Keys
    ensures d.Keys == data.Keys + Titles(t)
    ensures forall c :: c in Titles(t) ==> d[c] == row[c]
    ensures forall c :: c in data && c !in Titles(t) ==> d[c] == data[c]
  {
    data + map c | c in Titles(t) :: row[c]
  }

  /** `read_sync`: when the record's row exists, every declared field of the
      map is overwritten from it; when it does not, the map is left as it
      was and nothing is raised. */
  function ReadSync(t: Table, s: Store, data: Data): (r: Result<Data>)
    requires Valid(t, s)
    ensures r.Err? <==> !IsField(t, "id") || "id" !in data
    ensures r.Err? ==> r == Err(if !IsField(t, "id") then UnknownField("id") else MissingValue("id"))
    ensures r.Ok? && Lookup(s, data["id"]).None? ==> r.value == data
    ensures r.Ok? && Lookup(s, data["id"]).Some? ==>
              var row := s.rows[Lookup(s, data["id"]).value];
              && r.value.Keys == data.Keys + Titles(t)
              && (forall c :: c in Titles(t) ==> r.value[c] == row[c])
              && (forall c :: c in data && c !in Titles(t) ==> r.value[c] == data[c])
  {
    var idv :- Get(t, data, "id");
    match Lookup(s, idv)
    case None => Ok(data)
    case Some(k) => Ok(Refresh(t, data, s.rows[k]))
  }

  /** The SET arguments of write-sync: `self[f.title]` for each field in
      declared order. The guard of `self[...]` always passes for a declared
      field, so the first field missing from the map is the failure. */
  function Collect(fields: seq<Field>, data: Data): (r: Result<Row>)
    ensures r.Ok? <==> TitlesOf(fields) <= data.Keys
    ensures r.Ok? ==> r.value.Keys == TitlesOf(fields)
    ensures r.Ok? ==> forall c :: c in r.value ==> r.value[c] == data[c]
    ensures r.Err? ==> r.error.MissingValue? && r.error.key in TitlesOf(fields) && r.error.key !in data
  {
    if |fields| == 0 then Ok(map[])
    else if fields[0].title !in data then Err(MissingValue(fields[0].title))
    else
      var rest :- Collect(fields[1..], data);
      Ok(rest[fields[0].title := data[fields[0].title]])
  }

  /** The row the record's map describes: the map's value of every declared
      field. */
  function RowOf(t: Table, data: Data): (row: Row)
    requires Titles(t) <= data.Keys
    ensures row.Keys == Titles(t)
    ensures forall c :: c in row ==> row[c] == data[c]
  {
    map c | c in Titles(t) :: data[c]
  }

  /** `write_sync`: one update that sets every declared column of the
      record's row to the map's value. */
  function WriteSync(t: Table, s: Store, data: Data): (r: Result<Store>)
    requires Valid(t, s)
    ensures r.Ok? <==>
              && Titles(t) <= data.Keys && IsField(t, "id")
              && (Lookup(s, data["id"]).Some? ==>
                    forall c | c in Titles(t) && NotNullColumn(t, c) :: data[c] != Null)
    ensures !(Titles(t) <= data.Keys) ==>
              r.Err? && r.error.MissingValue? && IsField(t, r.error.key) && r.error.key !in data
    ensures Titles(t) <= data.Keys && !IsField(t, "id") ==> r == Err(UnknownField("id"))
    ensures Titles(t) <= data.Keys && IsField(t, "id") && r.Err? ==> r.error == StoreFailed(NotNullFailed)
    ensures r.Ok? && Lookup(s, data["id"]).None? ==> r.value == s
    ensures r.Ok? && Lookup(s, data["id"]).Some? ==>
              r.value == s.(rows := s.rows[Lookup(s, data["id"]).value := RowOf(t, data)])
    ensures r.Ok? ==> Valid(t, r.value)
  {
    var vals :- Collect(t.fields, data);
    var idv :- Get(t, data, "id");
    CollectedNulls(t, data, vals);
    UpdateColumns(t, s, vals, idv)
  }

  /** The collected SET arguments hold a NULL in a NOT NULL column exactly
      when the map does. */
  lemma CollectedNulls(t: Table, data: Data, vals: Row)
    requires vals.Keys == TitlesOf(t.fields) && TitlesOf(t.fields) <= data.Keys
    requires forall c :: c in vals ==> vals[c] == data[c]
    ensures vals.Keys == Titles(t) && vals == RowOf(t, data)
    ensures (exists c | c in vals :: vals[c] == Null && NotNullColumn(t, c)) <==>
            !(forall c | c in Titles(t) && NotNullColumn(t, c) :: data[c] != Null)
  {
  }

  /** The constructor: with no id, insert a fresh row and take its id;
      with one, take it as given; then read-sync. */
  function Construct(t: Table, s: Store, id: Value): (r: Result<(Store, Data)>)
    requires Valid(t, s)
    ensures r.Ok? ==> Valid(t, r.value.0)
    ensures r.Ok? && id != Null ==> Get(t, r.value.1, "id") == Ok(id)
    ensures r.Ok? && id == Null ==>
              exists n :: n !in s.rows && n in r.value.0.rows && Get(t, r.value.1, "id") == Ok(Int(n))
    ensures id != Null ==> r.Ok? ==> r.value.0 == s
    ensures r.Err? ==> (id == Null ==> r.error.StoreFailed?) && (id != Null ==> r.error == UnknownField("id"))
  {
    if id == Null then
      var inserted :- Insert(t, s);
      match ReadSync(t, inserted.0, map["id" := Int(inserted.1)])
      case Ok(d) => Ok((inserted.0, d))
      case Err(e) => Err(e)
    else
      var d :- ReadSync(t, s, map["id" := id]);
      Ok((s, d))
  }
}
