/** Rendering of the CREATE TABLE statement for a table. */
module Ddl {
  import opened Values
  import opened Schema

  /** The statement's opening: the guard is present unless `force` is set. */
  function Header(title: string, force: bool): string {
    if force then "CREATE TABLE " + title + " (" else "CREATE TABLE IF NOT EXISTS " + title + " ("
  }

  /** The words of one field's column definition, in the order they are
      emitted: title, storage type, NOT NULL, DEFAULT, PRIMARY KEY. The
      rendering of the default literal (Python's `%r`) is the parameter `repr`. */
  function ClauseWords(f: Field, repr: Value -> string): seq<string> {
    [f.title]
    + (if f.sqlType.Some? then [SqlName(f.sqlType.value)] else [])
    + (if f.nullable == Some(false) then ["NOT NULL"] else [])
    + (if f.default != Null then ["DEFAULT " + repr(f.default)] else [])
    + (if f.pk == Some(true) then ["PRIMARY KEY"] else [])
  }

  /** Every word written with one space on each side. */
  function Spaced(ws: seq<string>): string {
    if |ws| == 0 then "" else " " + ws[0] + " " + Spaced(ws[1..])
  }

  lemma {:induction false} SpacedAppend(a: seq<string>, b: seq<string>)
    ensures Spaced(a + b) == Spaced(a) + Spaced(b)
  {
    if |a| == 0 {
      assert a + b == b;
    } else {
      assert (a + b)[1..] == a[1..] + b;
      SpacedAppend(a[1..], b);
    }
  }

  /** The text one field contributes before its separating comma. */
  function Fragment(f: Field, repr: Value -> string): string {
    Spaced(ClauseWords(f, repr))
  }

  function Fragments(fields: seq<Field>, repr: Value -> string): (fs: seq<string>)
    ensures |fs| == |fields|
    ensures forall i :: 0 <= i < |fields| ==> fs[i] == Fragment(fields[i], repr)
  {
    seq(|fields|, i requires 0 <= i < |fields| => Fragment(fields[i], repr))
  }

  /** Reference definition: the pieces with `sep` between neighbours. */
  function Join(cs: seq<string>, sep: string): string {
    if |cs| == 0 then ""
    else if |cs| == 1 then cs[0]
    else Join(cs[..|cs| - 1], sep) + sep + cs[|cs| - 1]
  }

  /** Each piece followed by " ,", as the loop of the source emits them. */
  function Terminated(cs: seq<string>): string {
    if |cs| == 0 then "" else Terminated(cs[..|cs| - 1]) + cs[|cs| - 1] + " ,"
  }

  lemma {:induction false} TerminatedIsJoinPlusComma(cs: seq<string>)
    requires |cs| > 0
    ensures Terminated(cs) == Join(cs, " ,") + " ,"
  {
    if |cs| == 1 {
      assert cs[..0] == [];
    } else {
      TerminatedIsJoinPlusComma(cs[..|cs| - 1]);
      assert cs[..|cs| - 1][..|cs| - 2] == cs[..|cs| - 2];
    }
  }

  lemma TerminatedStep(cs: seq<string>, i: nat)
    requires i < |cs|
    ensures Terminated(cs[..i + 1]) == Terminated(cs[..i]) + cs[i] + " ,"
  {
    assert cs[..i + 1][..i] == cs[..i];
  }

  lemma DropLastOfPair(x: string, a: char, b: char)
    ensures (x + [a, b])[..|x| + 1] == x + [a]
  {
  }

  /** `create_table_stmt`: the header, then every field's fragment followed
      by " ,", then the last character dropped and ")" appended. For a
      non-empty field list this is the fragments joined by " ," and closed
      by " )"; for an empty one the dropped character is the opening
      parenthesis. */
  method CreateTableStmt(t: Table, force: bool, repr: Value -> string) returns (query: string)
    ensures |t.fields| > 0 ==>
              query == Header(t.title, force) + Join(Fragments(t.fields, repr), " ,") + " )"
    ensures |t.fields| == 0 ==>
              query == (if force then "CREATE TABLE " else "CREATE TABLE IF NOT EXISTS ") + t.title + " )"
  {
    query := Header(t.title, force);
    ghost var frags := Fragments(t.fields, repr);
    var i := 0;
    while i < |t.fields|
      invariant 0 <= i <= |t.fields|
      invariant query == Header(t.title, force) + Terminated(frags[..i])
    {
      var frag := FieldFragment(t.fields[i], repr);
      TerminatedStep(frags, i);
      query := query + frag + " ,";
      i := i + 1;
    }
    assert frags[..i] == frags;
    CloseStatement(t, force, repr, query);
    query := query[..|query| - 1] + ")";
  }

  /** Dropping the last character of the loop's output and appending ")". */
  lemma CloseStatement(t: Table, force: bool, repr: Value -> string, q: string)
    requires q == Header(t.title, force) + Terminated(Fragments(t.fields, repr))
    ensures |q| > 0
    ensures |t.fields| > 0 ==>
              q[..|q| - 1] + ")" == Header(t.title, force) + Join(Fragments(t.fields, repr), " ,") + " )"
    ensures |t.fields| == 0 ==>
              q[..|q| - 1] + ")" == (if force then "CREATE TABLE " else "CREATE TABLE IF NOT EXISTS ") + t.title + " )"
  {
    var frags := Fragments(t.fields, repr);
    if |t.fields| > 0 {
      TerminatedIsJoinPlusComma(frags);
      var body := Header(t.title, force) + Join(frags, " ,");
      assert q == body + [' ', ','];
      DropLastOfPair(body, ' ', ',');
    } else {
      var lead := (if force then "CREATE TABLE " else "CREATE TABLE IF NOT EXISTS ") + t.title;
      assert q == lead + [' ', '('];
      DropLastOfPair(lead, ' ', '(');
    }
  }

  /** One attribute word as the source appends it: padded by single spaces. */
  function Pad(w: string): (p: string)
    ensures p == Spaced([w])
  {
    " " + w + " "
  }

  /** The per-field body of the loop: each present attribute appended as a
      padded word, in the source's order. */
  method FieldFragment(f: Field, repr: Value -> string) returns (frag: string)
    ensures frag == Fragment(f, repr)
  {
    frag := Pad(f.title);
    ghost var ws := [f.title];
    if f.sqlType.Some? {
      SpacedAppend(ws, [SqlName(f.sqlType.value)]);
      frag := frag + Pad(SqlName(f.sqlType.value));
      ws := ws + [SqlName(f.sqlType.value)];
    }
    assert ws == ClauseWords(f, repr)[..|ws|];
    if f.nullable == Some(false) {
      SpacedAppend(ws, ["NOT NULL"]);
      frag := frag + Pad("NOT NULL");
      ws := ws + ["NOT NULL"];
    }
    if f.default != Null {
      SpacedAppend(ws, ["DEFAULT " + repr(f.default)]);
      frag := frag + Pad("DEFAULT " + repr(f.default));
      ws := ws + ["DEFAULT " + repr(f.default)];
    }
    if f.pk == Some(true) {
      SpacedAppend(ws, ["PRIMARY KEY"]);
      frag := frag + Pad("PRIMARY KEY");
      ws := ws + ["PRIMARY KEY"];
    }
    assert ws == ClauseWords(f, repr);
  }
}

/** Reading a column definition back from its words. */
module ClauseReading {
  import opened Values
  import opened Schema
  import opened Ddl

  /** What a column definition says about its field; `default` is the
      rendered literal. */
  datatype ClauseInfo = ClauseInfo(
    title: string,
    sqlType: Option<SqlType>,
    notNull: bool,
    default: Option<string>,
    primaryKey: bool)

  /** The attributes of `f` that its column definition is meant to show. */
  function Describe(f: Field, repr: Value -> string): ClauseInfo {
    ClauseInfo(f.title, f.sqlType, f.nullable == Some(false),
               if f.default == Null then None else Some(repr(f.default)),
               f.pk == Some(true))
  }

  function TypeOfWord(w: string): Option<SqlType> {
    if w == "TEXT" then Some(SqlText)
    else if w == "INTEGER" then Some(SqlInteger)
    else None
  }

  predicate IsDefaultWord(w: string) {
    |w| >= 8 && w[..8] == "DEFAULT "
  }

  /** A reader for column-definition words: the title, then each optional
      attribute in turn when the next word is that attribute's keyword. */
  function ReadClause(ws: seq<string>): Option<ClauseInfo> {
    if |ws| == 0 then None
    else
      var r0 := ws[1..];
      var ty := if |r0| > 0 then TypeOfWord(r0[0]) else None;
      var r1 := if ty.Some? then r0[1..] else r0;
      var nn := |r1| > 0 && r1[0] == "NOT NULL";
      var r2 := if nn then r1[1..] else r1;
      var df := if |r2| > 0 && IsDefaultWord(r2[0]) then Some(r2[0][8..]) else None;
      var r3 := if df.Some? then r2[1..] else r2;
      var pk := |r3| > 0 && r3[0] == "PRIMARY KEY";
      var r4 := if pk then r3[1..] else r3;
      if |r4| == 0 then Some(ClauseInfo(ws[0], ty, nn, df, pk)) else None
  }

  /** Every column definition reads back as its field's attributes: the
      storage type appears exactly when the field has one, NOT NULL exactly
      when `null` is False, DEFAULT exactly when a default is set, and
      PRIMARY KEY exactly when `pk` is True. */
  lemma ClauseRoundTrip(f: Field, repr: Value -> string)
    ensures ReadClause(ClauseWords(f, repr)) == Some(Describe(f, repr))
  {
    var d := "DEFAULT " + repr(f.default);
    assert d[..8] == "DEFAULT ";
    assert !IsDefaultWord("NOT NULL") by { assert "NOT NULL"[..8][0] == 'N'; }
    assert !IsDefaultWord("PRIMARY KEY") by { assert "PRIMARY KEY"[..8][0] == 'P'; }
    assert !IsDefaultWord("TEXT") && !IsDefaultWord("INTEGER");
    assert d[8..] == repr(f.default);
    assert TypeOfWord(d) == None by {
      assert d != "TEXT" && d != "INTEGER" by {
        assert "TEXT"[..1] != d[..1];
      }
    }
    assert d != "NOT NULL" by { assert d[0] != "NOT NULL"[0]; }
    assert d != "PRIMARY KEY" by { assert d[0] != "PRIMARY KEY"[0]; }
  }

  /** Distinct attribute sets give distinct column definitions. */
  lemma ClauseWordsDetermineAttributes(f: Field, g: Field, repr: Value -> string)
    requires ClauseWords(f, repr) == ClauseWords(g, repr)
    ensures Describe(f, repr) == Describe(g, repr)
  {
    ClauseRoundTrip(f, repr);
    ClauseRoundTrip(g, repr);
  }
}
