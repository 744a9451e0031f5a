/** Column descriptions (`Field`) and table schemas (`Table`). */
module Schema {
  import opened Values

  /** The Python type a field is declared with. `PyOther` stands for every
      type the type table does not list (bool, float, unicode, ...). */
  datatype PyType = PyStr | PyInt | PyTuple | PyOther(name: string)

  /** The storage types the type table can produce. */
  datatype SqlType = SqlText | SqlInteger

  /** The converters the type table pairs with a storage type: Python's
      `str`, `int` and `json.dumps`. None of them is ever applied. */
  datatype Converter = StrConverter | IntConverter | JsonDumps

  /** The keyword a storage type is written as in DDL. */
  function SqlName(ty: SqlType): string {
    match ty
    case SqlText => "TEXT"
    case SqlInteger => "INTEGER"
  }

  /** The fixed type table of the `Field` class. */
  const TypeMap: map<PyType, (SqlType, Converter)> :=
    map[PyStr := (SqlText, StrConverter),
        PyInt := (SqlInteger, IntConverter),
        PyTuple := (SqlText, JsonDumps)]

  /** One column: the attributes the caller gave, and the storage type and
      converter derived from the Python type. `nullable` (the source's `null`)
      and `pk` are Python's None, True or False; a `default` of `Null` means
      no default. */
  datatype Field = Field(
    title: string,
    pythonType: Option<PyType>,
    nullable: Option<bool>,
    default: Value,
    pk: Option<bool>,
    sqlType: Option<SqlType>,
    converter: Option<Converter>)

  /** Field construction: a declared Python type is looked up in the type
      table, and a type the table lacks makes construction fail. */
  function NewField(title: string, pythonType: Option<PyType>, nullable: Option<bool>,
                    default: Value, pk: Option<bool>): (r: Result<Field>)
    ensures r.Err? <==> pythonType.Some? && pythonType.value.PyOther?
    ensures r.Err? ==> r.error == UnknownType
    ensures r.Ok? ==> && r.value.title == title && r.value.pythonType == pythonType
                      && r.value.nullable == nullable && r.value.default == default && r.value.pk == pk
    ensures pythonType.None? ==> r.Ok? && r.value.sqlType.None? && r.value.converter.None?
    ensures pythonType == Some(PyStr) ==>
              r.Ok? && r.value.sqlType == Some(SqlText) && r.value.converter == Some(StrConverter)
    ensures pythonType == Some(PyInt) ==>
              r.Ok? && r.value.sqlType == Some(SqlInteger) && r.value.converter == Some(IntConverter)
    ensures pythonType == Some(PyTuple) ==>
              r.Ok? && r.value.sqlType == Some(SqlText) && r.value.converter == Some(JsonDumps)
  {
    match pythonType
    case None => Ok(Field(title, pythonType, nullable, default, pk, None, None))
    case Some(ty) =>
      if ty in TypeMap then
        Ok(Field(title, pythonType, nullable, default, pk, Some(TypeMap[ty].0), Some(TypeMap[ty].1)))
      else
        Err(UnknownType)
  }

  /** A table: its name and its fields in declared order. */
  datatype Table = Table(title: string, fields: seq<Field>)

  /** The scan behind `is_field`: true at the first field with the title. */
  function AnyTitled(fields: seq<Field>, key: string): (b: bool)
    ensures b <==> exists i :: 0 <= i < |fields| && fields[i].title == key
  {
    if |fields| == 0 then false
    else if fields[0].title == key then true
    else
      var b := AnyTitled(fields[1..], key);
      assert b ==> exists i :: 0 <= i < |fields| && fields[i].title == key by {
        if b {
          var j :| 0 <= j < |fields| - 1 && fields[1..][j].title == key;
          assert fields[j + 1].title == key;
        }
      }
      b
  }

  /** `is_field`: whether some declared field carries the title. */
  function IsField(t: Table, key: string): (b: bool)
    ensures b <==> exists i :: 0 <= i < |t.fields| && t.fields[i].title == key
  {
    AnyTitled(t.fields, key)
  }

  /** The titles of a field list, as a set. */
  function TitlesOf(fields: seq<Field>): (ts: set<string>)
    ensures forall k :: k in ts <==> AnyTitled(fields, k)
  {
    if |fields| == 0 then {} else {fields[0].title} + TitlesOf(fields[1..])
  }

  /** The column names of the table. */
  function Titles(t: Table): (ts: set<string>)
    ensures forall k :: k in ts <==> IsField(t, k)
  {
    TitlesOf(t.fields)
  }

  /** Whether the store refuses NULL in column `c`. */
  predicate NotNullColumn(t: Table, c: string) {
    exists i :: 0 <= i < |t.fields| && t.fields[i].title == c && t.fields[i].nullable == Some(false)
  }

  /** The default of the first field titled `c` (`Null` when there is none). */
  function DefaultFor(fields: seq<Field>, c: string): Value {
    if |fields| == 0 then Null
    else if fields[0].title == c then fields[0].default
    else DefaultFor(fields[1..], c)
  }
}
