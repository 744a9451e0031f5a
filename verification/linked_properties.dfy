/** Properties that relate several record operations to each other and to
    the store. */
module LinkedProperties {
  import opened Values
  import opened Schema
  import opened RowStore
  import opened Linked

  /** A successful set writes the record's row through: when the row exists,
      the row the record now refers to holds the value in that column, no
      other row changes and, unless the column is the id, no other column of
      the row changes either; when it does not exist the store is untouched. */
  lemma SetWritesThrough(t: Table, s: Store, data: Data, key: string, v: Value, s': Store, d': Data)
    requires Set(t, s, data, key, v) == Ok((s', d'))
    ensures d' == data[key := v]
    ensures Lookup(s, data["id"]).None? ==> s' == s
    ensures Lookup(s, data["id"]).Some? ==>
              var k := Lookup(s, data["id"]).value;
              var k' := Lookup(s', d'["id"]);
              && k'.Some?
              && key in s'.rows[k'.value] && s'.rows[k'.value][key] == v
              && s'.rows[k'.value] == s.rows[k][key := v]
              && (forall j :: j in s.rows && j != k ==> j in s'.rows && s'.rows[j] == s.rows[j])
              && (key != "id" ==> k'.value == k && s'.rows.Keys == s.rows.Keys)
              && (key == "id" ==> v == Int(k'.value) && s'.rows.Keys == s.rows.Keys - {k} + {k'.value})
  {
    var k := Lookup(s, data["id"]);
    if k.Some? && key == "id" {
      assert d'["id"] == v;
      assert v.Int? && v.i in s'.rows;
    }
  }

  /** Write-through durability: reading the row back after a successful set
      yields the value that was set. */
  lemma SetIsDurable(t: Table, s: Store, data: Data, key: string, v: Value, s': Store, d': Data)
    requires Valid(t, s)
    requires Set(t, s, data, key, v) == Ok((s', d'))
    ensures ReadSync(t, s', d').Ok?
    ensures key in ReadSync(t, s', d').value && ReadSync(t, s', d').value[key] == v
  {
    SetWritesThrough(t, s, data, key, v, s', d');
    var k' := Lookup(s', d'["id"]);
    if k'.Some? && Lookup(s, data["id"]).None? {
      // only a set of the id itself can point a record without a row at one
      assert key == "id";
      assert s'.rows[k'.value]["id"] == Int(k'.value);
    }
  }

  lemma RefreshTwice(t: Table, data: Data, row: Row)
    requires Titles(t) <= row.Keys
    ensures Refresh(t, Refresh(t, data, row), row) == Refresh(t, data, row)
  {
  }

  lemma RefreshWithOwnValues(t: Table, data: Data, row: Row)
    requires Titles(t) <= row.Keys
    requires forall c :: c in Titles(t) ==> c in data && row[c] == data[c]
    ensures Refresh(t, data, row) == data
  {
  }

  /** Reading the row again right after reading it changes nothing. */
  lemma ReadSyncIdempotent(t: Table, s: Store, data: Data)
    requires Valid(t, s)
    requires ReadSync(t, s, data).Ok?
    ensures ReadSync(t, s, ReadSync(t, s, data).value) == ReadSync(t, s, data)
  {
    var k := Lookup(s, data["id"]);
    if k.Some? {
      var row := s.rows[k.value];
      assert RowFits(t, k.value, row);
      var d' := Refresh(t, data, row);
      assert ReadSync(t, s, data) == Ok(d');
      assert d'["id"] == data["id"];
      assert ReadSync(t, s, d') == Ok(Refresh(t, d', row));
      RefreshTwice(t, data, row);
    }
  }

  /** The write-sync / read-sync round trip: after a successful write-sync,
      reading the row back reproduces the record's map exactly. */
  lemma WriteThenRead(t: Table, s: Store, data: Data)
    requires Valid(t, s)
    requires WriteSync(t, s, data).Ok?
    ensures ReadSync(t, WriteSync(t, s, data).value, data) == Ok(data)
  {
    var s' := WriteSync(t, s, data).value;
    var k := Lookup(s, data["id"]);
    if k.Some? {
      var row := s'.rows[k.value];
      assert Lookup(s', data["id"]) == k;
      assert ReadSync(t, s', data) == Ok(Refresh(t, data, row));
      RefreshWithOwnValues(t, data, row);
    }
  }

  /** The other direction: writing back a map just read from an existing row
      succeeds and leaves the store exactly as it was. */
  lemma ReadThenWrite(t: Table, s: Store, data: Data, d': Data)
    requires Valid(t, s)
    requires ReadSync(t, s, data) == Ok(d')
    requires Lookup(s, data["id"]).Some?
    ensures WriteSync(t, s, d') == Ok(s)
  {
    var k := Lookup(s, data["id"]).value;
    var row := s.rows[k];
    assert RowFits(t, k, row);
    assert d'["id"] == Int(k);
    CollectFindsRow(t, d', row);
    RewriteRowUnchanged(t, s, k);
  }

  /** Collecting the SET arguments from a map that agrees with a row on
      every declared field gives that row. */
  lemma CollectFindsRow(t: Table, d: Data, row: Row)
    requires row.Keys == Titles(t)
    requires forall c :: c in Titles(t) ==> c in d && d[c] == row[c]
    ensures Collect(t.fields, d) == Ok(row)
  {
    assert TitlesOf(t.fields) <= d.Keys;
    var vals := Collect(t.fields, d).value;
    CollectedNulls(t, d, vals);
    RowOfAgreeing(t, d, row);
  }

  /** A map that agrees with a row on every declared field describes it. */
  lemma RowOfAgreeing(t: Table, d: Data, row: Row)
    requires row.Keys == Titles(t) && Titles(t) <= d.Keys
    requires forall c :: c in Titles(t) ==> d[c] == row[c]
    ensures RowOf(t, d) == row
  {
    var r := RowOf(t, d);
    assert r.Keys == row.Keys;
    assert forall c | c in r :: r[c] == row[c];
  }

  /** Writing a stored row back over itself changes nothing. */
  lemma RewriteRowUnchanged(t: Table, s: Store, k: int)
    requires Valid(t, s)
    requires k in s.rows && IsField(t, "id")
    ensures UpdateColumns(t, s, s.rows[k], Int(k)) == Ok(s)
  {
    assert RowFits(t, k, s.rows[k]);
    assert s.(rows := s.rows[k := s.rows[k]]) == s;
  }

  /** A map holding only the id, refreshed from the row with that id, is
      the row itself. */
  lemma RefreshFromIdOnly(t: Table, k: int, row: Row)
    requires RowFits(t, k, row)
    requires IsField(t, "id")
    ensures Refresh(t, map["id" := Int(k)], row) == row
  {
  }

  /** Constructing without an id succeeds exactly when the insert does; it
      then adds exactly one row, under an id no row had, holding the
      declared defaults, and the record's map is that row. */
  lemma ConstructNew(t: Table, s: Store)
    requires Valid(t, s)
    ensures Construct(t, s, Null).Ok? <==> IsField(t, "id") && !LacksRequiredDefault(t)
    ensures Construct(t, s, Null).Ok? ==>
              var (s', d) := Construct(t, s, Null).value;
              exists n :: && n !in s.rows
                          && s'.rows == s.rows[n := NewRow(t, n)]
                          && d == NewRow(t, n)
                          && d["id"] == Int(n)
  {
    var ins := Insert(t, s);
    if ins.Ok? {
      var s1 := ins.value.0;
      var n := ins.value.1;
      var row := NewRow(t, n);
      assert s1.rows[n] == row;
      assert RowFits(t, n, row);
      var d0: Data := map["id" := Int(n)];
      assert Lookup(s1, d0["id"]) == Some(n);
      assert ReadSync(t, s1, d0) == Ok(Refresh(t, d0, row));
      RefreshFromIdOnly(t, n, row);
      assert Construct(t, s, Null) == Ok((s1, row));
    }
  }

  /** Constructing with the id of an existing row inserts nothing and loads
      that row: the map equals the row on every declared field. */
  lemma ConstructExisting(t: Table, s: Store, k: int)
    requires Valid(t, s)
    requires k in s.rows
    requires IsField(t, "id")
    ensures Construct(t, s, Int(k)) == Ok((s, s.rows[k]))
  {
    var row := s.rows[k];
    assert RowFits(t, k, row);
    var d0: Data := map["id" := Int(k)];
    assert ReadSync(t, s, d0) == Ok(Refresh(t, d0, row));
    RefreshFromIdOnly(t, k, row);
  }

  /** Constructing with an id no row has is not an error: the record keeps
      only its id and refers to nothing. */
  lemma ConstructMissing(t: Table, s: Store, id: Value)
    requires Valid(t, s)
    requires id != Null && Lookup(s, id).None?
    requires IsField(t, "id")
    ensures Construct(t, s, id) == Ok((s, map["id" := id]))
  {
  }

  /** Two records constructed one after the other without ids get different
      ids. */
  lemma ConstructTwiceDistinct(t: Table, s: Store)
    requires Valid(t, s)
    requires IsField(t, "id") && !LacksRequiredDefault(t)
    ensures Construct(t, s, Null).Ok?
    ensures Construct(t, Construct(t, s, Null).value.0, Null).Ok?
    ensures Construct(t, s, Null).value.1["id"]
            != Construct(t, Construct(t, s, Null).value.0, Null).value.1["id"]
  {
    ConstructNew(t, s);
    var (s1, d1) := Construct(t, s, Null).value;
    ConstructNew(t, s1);
    var (s2, d2) := Construct(t, s1, Null).value;
    var n1 :| n1 !in s.rows && s1.rows == s.rows[n1 := NewRow(t, n1)] && d1 == NewRow(t, n1) && d1["id"] == Int(n1);
    var n2 :| n2 !in s1.rows && s2.rows == s1.rows[n2 := NewRow(t, n2)] && d2 == NewRow(t, n2) && d2["id"] == Int(n2);
    assert n1 in s1.rows;
  }

  /** Delete as written never completes: every call raises, whatever the
      key, the record or the store. */
  lemma DeleteAsWrittenAlwaysRaises(t: Table, s: Store, data: Data, key: string, limitSupported: bool)
    ensures DeleteAsWritten(t, s, data, key, limitSupported).1.Err?
    ensures IsField(t, key) && IsField(t, "id") && "id" in data && !limitSupported ==>
              DeleteAsWritten(t, s, data, key, limitSupported) == (s, Err(StoreFailed(SyntaxError)))
    ensures IsField(t, key) && IsField(t, "id") && "id" in data && limitSupported
            && UpdateColumn(t, s, key, Null, data["id"]).Ok? ==>
              DeleteAsWritten(t, s, data, key, limitSupported)
                == (UpdateColumn(t, s, key, Null, data["id"]).value, Err(RecursionLimit))
  {
  }

  /** The intended delete: the column of the record's row becomes NULL, the
      key leaves the map, and nothing else changes; reading the row back
      brings the key back as NULL. */
  lemma DeleteNullsColumn(t: Table, s: Store, data: Data, key: string, s': Store, d': Data)
    requires Valid(t, s)
    requires Delete(t, s, data, key) == Ok((s', d'))
    ensures d' == data - {key}
    ensures Lookup(s, data["id"]).None? ==> s' == s
    ensures Lookup(s, data["id"]).Some? ==>
              var k := Lookup(s, data["id"]).value;
              && key != "id"
              && s'.rows == s.rows[k := s.rows[k][key := Null]]
    ensures key != "id" ==> ReadSync(t, s', d').Ok?
    ensures key != "id" && Lookup(s, data["id"]).Some? ==> ReadSync(t, s', d').value[key] == Null
  {
    var k := Lookup(s, data["id"]);
    if key != "id" {
      assert d'["id"] == data["id"];
      assert Lookup(s', d'["id"]) == k;
    }
  }
}
