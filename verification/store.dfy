/** The effect of the record's SQL statements on one table of the store.
    Rows are keyed by their id (the integer primary key); `next` is the id
    the next insert takes. */
module RowStore {
  import opened Values
  import opened Schema

  type Row = map<string, Value>

  datatype Store = Store(rows: map<int, Row>, next: int)

  /** A row as the table created from `t` can hold it: exactly the declared
      columns, its id column equal to its key, no NULL in a NOT NULL column. */
  predicate RowFits(t: Table, k: int, row: Row) {
    && row.Keys == Titles(t)
    && ("id" in row ==> row["id"] == Int(k))
    && (forall c | c in row && NotNullColumn(t, c) :: row[c] != Null)
  }

  /** A field titled "id" is declared `INTEGER PRIMARY KEY`, so SQLite makes
      it the rowid: NULL on insert assigns a fresh id and the column is
      unique. */
  predicate IdIsRowid(t: Table) {
    forall i | 0 <= i < |t.fields| && t.fields[i].title == "id" ::
      t.fields[i].sqlType == Some(SqlInteger) && t.fields[i].pk == Some(true)
  }

  /** The store is one created from `t` (whose id, if declared, is the
      rowid) holding only rows that fit, all with ids below the counter. */
  predicate Valid(t: Table, s: Store) {
    && IdIsRowid(t)
    && forall k | k in s.rows :: k < s.next && RowFits(t, k, s.rows[k])
  }

  /** The row `WHERE id = ?` matches for the parameter `idv`, if any. */
  function Lookup(s: Store, idv: Value): (k: Option<int>)
    ensures k.Some? <==> exists n :: n in s.rows && idv == Int(n)
    ensures k.Some? ==> k.value in s.rows && idv == Int(k.value)
  {
    if idv.Int? && idv.i in s.rows then Some(idv.i) else None
  }

  /** A fresh row: the id column holds the assigned id and every other
      column its declared default. */
  function NewRow(t: Table, n: int): (row: Row)
    ensures row.Keys == Titles(t)
  {
    map c | c in Titles(t) :: if c == "id" then Int(n) else DefaultFor(t.fields, c)
  }

  /** Whether some NOT NULL column other than the id has no default. */
  predicate LacksRequiredDefault(t: Table) {
    exists c | c in Titles(t) :: c != "id" && NotNullColumn(t, c) && DefaultFor(t.fields, c) == Null
  }

  /** `INSERT INTO <table> (id) VALUES (NULL)`, giving the new store and the
      id of the inserted row (`lastrowid`). */
  function Insert(t: Table, s: Store): (r: Result<(Store, int)>)
    requires Valid(t, s)
    ensures !IsField(t, "id") ==> r == Err(StoreFailed(NoSuchColumn))
    ensures IsField(t, "id") && LacksRequiredDefault(t) ==> r == Err(StoreFailed(NotNullFailed))
    ensures r.Ok? <==> IsField(t, "id") && !LacksRequiredDefault(t)
    ensures r.Ok? ==> r.value.1 !in s.rows
    ensures r.Ok? ==> r.value.0.rows == s.rows[r.value.1 := NewRow(t, r.value.1)]
    ensures r.Ok? ==> Valid(t, r.value.0)
  {
    if !IsField(t, "id") then Err(StoreFailed(NoSuchColumn))
    else if LacksRequiredDefault(t) then Err(StoreFailed(NotNullFailed))
    else
      var n := s.next;
      var s' := Store(s.rows[n := NewRow(t, n)], n + 1);
      assert RowFits(t, n, NewRow(t, n));
      Ok((s', n))
  }

  function Max(a: int, b: int): int {
    if a < b then b else a
  }

  /** Whether SQLite accepts writing `v` into column `col` of the stored row
      `k`: the id column is an INTEGER PRIMARY KEY, so it takes only an
      integer that no other row holds; any other column refuses NULL when it
      is NOT NULL. */
  predicate Accepts(t: Table, s: Store, k: int, col: string, v: Value) {
    if col == "id" then v.Int? && (v.i == k || v.i !in s.rows)
    else !(v == Null && NotNullColumn(t, col))
  }

  /** The matched row `k` with its id column rewritten to `n`: the row moves
      to key `n` and later inserts continue above it. */
  function MoveRow(t: Table, s: Store, k: int, n: int): (s': Store)
    requires IsField(t, "id") && k in s.rows && (n == k || n !in s.rows)
    ensures s'.rows.Keys == s.rows.Keys - {k} + {n}
    ensures s'.rows[n] == s.rows[k]["id" := Int(n)]
    ensures forall j | j in s.rows && j != k :: s'.rows[j] == s.rows[j]
    ensures Valid(t, s) ==> Valid(t, s')
  {
    var s' := Store((s.rows - {k})[n := s.rows[k]["id" := Int(n)]], Max(s.next, n + 1));
    MoveRowKeepsValid(t, s, k, n, s');
    s'
  }

  lemma MoveRowKeepsValid(t: Table, s: Store, k: int, n: int, s': Store)
    requires IsField(t, "id") && k in s.rows
    requires s' == Store((s.rows - {k})[n := s.rows[k]["id" := Int(n)]], Max(s.next, n + 1))
    ensures Valid(t, s) ==> Valid(t, s')
  {
    if Valid(t, s) {
      var row := s.rows[k];
      assert RowFits(t, k, row);
      assert "id" in row;
      assert NotNullColumn(t, "id") ==> Int(n) != Null;
      assert RowFits(t, n, row["id" := Int(n)]);
      forall j | j in s'.rows
        ensures j < s'.next && RowFits(t, j, s'.rows[j])
      {
        if j != n {
          assert s'.rows[j] == s.rows[j];
        }
      }
    }
  }

  /** `UPDATE <table> SET <col> = ? WHERE id = ?` with parameters `v` and
      `idv`. No matching row leaves the store as it is; writing the id
      column moves the row to its new key. */
  function UpdateColumn(t: Table, s: Store, col: string, v: Value, idv: Value): (r: Result<Store>)
    ensures !IsField(t, col) ==> r == Err(StoreFailed(NoSuchColumn))
    ensures IsField(t, col) && Lookup(s, idv).None? ==> r == Ok(s)
    ensures IsField(t, col) && Lookup(s, idv).Some? ==>
              (r.Ok? <==> Accepts(t, s, Lookup(s, idv).value, col, v))
    ensures IsField(t, col) && Lookup(s, idv).Some? && col != "id" && r.Ok? ==>
              r.value == s.(rows := s.rows[Lookup(s, idv).value := s.rows[Lookup(s, idv).value][col := v]])
    ensures IsField(t, col) && Lookup(s, idv).Some? && col == "id" && r.Ok? ==>
              var k := Lookup(s, idv).value;
              r.value.rows.Keys == s.rows.Keys - {k} + {v.i} &&
              r.value.rows[v.i] == s.rows[k][col := v] &&
              forall j | j in s.rows && j != k :: r.value.rows[j] == s.rows[j]
    ensures IsField(t, col) && Lookup(s, idv).Some? && r.Err? ==>
              r.error == (if col != "id" then StoreFailed(NotNullFailed)
                          else if v.Int? then StoreFailed(UniqueFailed)
                          else StoreFailed(DatatypeMismatch))
    ensures Valid(t, s) && r.Ok? ==> Valid(t, r.value)
  {
    if !IsField(t, col) then Err(StoreFailed(NoSuchColumn))
    else
      match Lookup(s, idv)
      case None => Ok(s)
      case Some(k) =>
        if col == "id" then
          if !v.Int? then Err(StoreFailed(DatatypeMismatch))
          else if v.i != k && v.i in s.rows then Err(StoreFailed(UniqueFailed))
          else Ok(MoveRow(t, s, k, v.i))
        else if v == Null && NotNullColumn(t, col) then Err(StoreFailed(NotNullFailed))
        else
          var s' := s.(rows := s.rows[k := s.rows[k][col := v]]);
          assert Valid(t, s) ==> RowFits(t, k, s'.rows[k]);
          Ok(s')
  }

  /** `UPDATE <table> SET <c1> = ?, ..., <cn> = ? WHERE id = ?` covering
      every column, as write-sync issues it: the id column is set to the
      value the row is selected by. */
  function UpdateColumns(t: Table, s: Store, vals: Row, idv: Value): (r: Result<Store>)
    requires vals.Keys == Titles(t)
    requires "id" in vals && vals["id"] == idv
    ensures Lookup(s, idv).None? ==> r == Ok(s)
    ensures r.Err? <==> Lookup(s, idv).Some? && exists c | c in vals :: vals[c] == Null && NotNullColumn(t, c)
    ensures r.Err? ==> r.error == StoreFailed(NotNullFailed)
    ensures r.Ok? && Lookup(s, idv).Some? ==>
              r.value == s.(rows := s.rows[Lookup(s, idv).value := vals])
    ensures Valid(t, s) && r.Ok? ==> Valid(t, r.value)
  {
    match Lookup(s, idv)
    case None => Ok(s)
    case Some(k) =>
      if exists c | c in vals :: vals[c] == Null && NotNullColumn(t, c) then Err(StoreFailed(NotNullFailed))
      else Ok(s.(rows := s.rows[k := vals]))
  }
}
