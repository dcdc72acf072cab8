/** Field names in camel case against column names in snake case. */
module ColumnNames {
  import opened Rows

  predicate IsUpper(c: char) { 'A' <= c <= 'Z' }
  predicate IsLower(c: char) { 'a' <= c <= 'z' }
  predicate IsDigit(c: char) { '0' <= c <= '9' }

  function Lower(c: char): (r: char)
    requires IsUpper(c)
    ensures IsLower(r)
  {
    c - 'A' + 'a'
  }

  function Upper(c: char): (r: char)
    requires IsLower(c)
    ensures IsUpper(r) && Lower(r) == c
  {
    c - 'a' + 'A'
  }

  /** Every capital becomes an underscore and its small letter. */
  function CamelToSnake(s: string): string {
    if s == "" then ""
    else (if IsUpper(s[0]) then ['_', Lower(s[0])] else [s[0]]) + CamelToSnake(s[1..])
  }

  /** The string begins with what `_([a-z])` matches. */
  predicate Hump(s: string) {
    |s| >= 2 && s[0] == '_' && IsLower(s[1])
  }

  /** Every underscore with a small letter behind it becomes the capital. */
  function SnakeToCamel(s: string): string {
    if s == "" then ""
    else if Hump(s) then [Upper(s[1])] + SnakeToCamel(s[2..])
    else [s[0]] + SnakeToCamel(s[1..])
  }

  predicate HumpFree(s: string) {
    forall i :: 0 <= i < |s| - 1 ==> !(s[i] == '_' && IsLower(s[i + 1]))
  }

  predicate CapitalFree(s: string) {
    forall i :: 0 <= i < |s| ==> !IsUpper(s[i])
  }

  lemma HumpFreeTail(s: string)
    requires s != ""
    ensures HumpFree(s) <==> !Hump(s) && HumpFree(s[1..])
  {
    forall i | 0 <= i < |s| - 1
      ensures s[i] == '_' && IsLower(s[i + 1]) <==>
                if i == 0 then Hump(s) else s[1..][i - 1] == '_' && IsLower(s[1..][i])
    {
    }
    if !HumpFree(s[1..]) {
      var i :| 0 <= i < |s| - 2 && s[1..][i] == '_' && IsLower(s[1..][i + 1]);
      assert s[i + 1] == '_' && IsLower(s[i + 2]);
    }
  }

  lemma {:induction false} CamelLength(s: string)
    ensures |SnakeToCamel(s)| <= |s|
    ensures HumpFree(s) ==> SnakeToCamel(s) == s
    ensures !HumpFree(s) ==> |SnakeToCamel(s)| < |s|
  {
    if s != "" {
      HumpFreeTail(s);
      if Hump(s) {
        CamelLength(s[2..]);
      } else {
        CamelLength(s[1..]);
        assert s == [s[0]] + s[1..];
      }
    }
  }

  lemma {:induction false} SnakeLength(s: string)
    ensures |CamelToSnake(s)| >= |s|
    ensures CapitalFree(s) ==> CamelToSnake(s) == s
    ensures !CapitalFree(s) ==> |CamelToSnake(s)| > |s|
  {
    if s != "" {
      SnakeLength(s[1..]);
      assert s == [s[0]] + s[1..];
    }
  }

  lemma SnakeOfCons(c: char, rest: string)
    ensures CamelToSnake([c] + rest) == (if IsUpper(c) then ['_', Lower(c)] else [c]) + CamelToSnake(rest)
  {
    assert ([c] + rest)[1..] == rest;
  }

  lemma CamelOfCons(c: char, rest: string)
    requires !Hump([c] + rest)
    ensures SnakeToCamel([c] + rest) == [c] + SnakeToCamel(rest)
  {
    assert ([c] + rest)[1..] == rest;
  }

  lemma CamelOfHump(c: char, rest: string)
    requires IsLower(c)
    ensures SnakeToCamel(['_', c] + rest) == [Upper(c)] + SnakeToCamel(rest)
  {
    assert (['_', c] + rest)[2..] == rest;
  }

  lemma SnakeOfHump(c: char, rest: string)
    requires IsLower(c)
    ensures CamelToSnake(['_', c] + rest) == ['_', c] + CamelToSnake(rest)
  {
    assert ['_', c] + rest == ['_'] + ([c] + rest);
    SnakeOfCons('_', [c] + rest);
    SnakeOfCons(c, rest);
  }

  /** Going to snake case first changes nothing for the way back. */
  lemma {:induction false} CamelOfSnake(s: string)
    ensures SnakeToCamel(CamelToSnake(s)) == SnakeToCamel(s)
  {
    if s != "" && Hump(s) {
      assert s == ['_', s[1]] + s[2..];
      SnakeOfHump(s[1], s[2..]);
      CamelOfHump(s[1], CamelToSnake(s[2..]));
      CamelOfHump(s[1], s[2..]);
      CamelOfSnake(s[2..]);
    } else if s != "" {
      var c, rest := s[0], s[1..];
      assert s == [c] + rest;
      SnakeOfCons(c, rest);
      CamelOfCons(c, rest);
      CamelOfSnake(rest);
      if IsUpper(c) {
        CamelOfHump(Lower(c), CamelToSnake(rest));
      } else {
        NoNewHump(c, rest);
        CamelOfCons(c, CamelToSnake(rest));
      }
    }
  }

  lemma NoNewHump(c: char, rest: string)
    requires !Hump([c] + rest)
    ensures !Hump([c] + CamelToSnake(rest))
  {
    if rest != "" {
      assert rest == [rest[0]] + rest[1..];
      SnakeOfCons(rest[0], rest[1..]);
    }
  }

  /** And the other way round. */
  lemma {:induction false} SnakeOfCamel(s: string)
    ensures CamelToSnake(SnakeToCamel(s)) == CamelToSnake(s)
  {
    if s != "" && Hump(s) {
      assert s == ['_', s[1]] + s[2..];
      CamelOfHump(s[1], s[2..]);
      SnakeOfCons(Upper(s[1]), SnakeToCamel(s[2..]));
      SnakeOfHump(s[1], s[2..]);
      SnakeOfCamel(s[2..]);
    } else if s != "" {
      var c, rest := s[0], s[1..];
      assert s == [c] + rest;
      CamelOfCons(c, rest);
      SnakeOfCons(c, SnakeToCamel(rest));
      SnakeOfCons(c, rest);
      SnakeOfCamel(rest);
    }
  }

  /** A field name comes back from its column exactly when no underscore in it has a small letter behind. */
  lemma {:induction false} FieldThereAndBack(field: string)
    ensures SnakeToCamel(CamelToSnake(field)) == field <==> HumpFree(field)
  {
    CamelOfSnake(field);
    CamelLength(field);
  }

  /** A column name comes back from its field exactly when it has no capital. */
  lemma {:induction false} ColumnThereAndBack(column: string)
    ensures CamelToSnake(SnakeToCamel(column)) == column <==> CapitalFree(column)
  {
    SnakeOfCamel(column);
    SnakeLength(column);
  }

  /** Two names share a column exactly when they share the field read back from it. */
  lemma SharedColumns(a: string, b: string)
    ensures CamelToSnake(a) == CamelToSnake(b) <==> SnakeToCamel(a) == SnakeToCamel(b)
  {
    CamelOfSnake(a);
    CamelOfSnake(b);
    SnakeOfCamel(a);
    SnakeOfCamel(b);
  }

  // ── The names the store lets into SQL ──

  predicate Identifier(s: string) {
    s != "" && IsLower(s[0]) && forall i :: 0 <= i < |s| ==> IsLower(s[i]) || IsDigit(s[i]) || s[i] == '_'
  }

  predicate FieldPattern(s: string) {
    && s != "" && (IsLower(s[0]) || IsUpper(s[0]))
    && forall i :: 0 <= i < |s| ==> IsLower(s[i]) || IsUpper(s[i]) || IsDigit(s[i])
  }

  /** None is the exception. */
  function SafeColumn(field: string): Option<string> {
    if FieldPattern(field) && Identifier(CamelToSnake(field)) then Some(CamelToSnake(field)) else None
  }

  lemma {:induction false} SnakeCharacters(s: string)
    requires forall i :: 0 <= i < |s| ==> IsLower(s[i]) || IsUpper(s[i]) || IsDigit(s[i])
    ensures forall i :: 0 <= i < |CamelToSnake(s)| ==>
              IsLower(CamelToSnake(s)[i]) || IsDigit(CamelToSnake(s)[i]) || CamelToSnake(s)[i] == '_'
  {
    if s != "" {
      SnakeCharacters(s[1..]);
    }
  }

  /** A field gets a column exactly when it is letters and digits and begins with a small letter; the
      column leads back to it, so no two fields get the same one. */
  lemma SafeColumnIff(field: string)
    ensures SafeColumn(field).Some? <==> FieldPattern(field) && IsLower(field[0])
    ensures SafeColumn(field).Some? ==> SnakeToCamel(SafeColumn(field).value) == field
  {
    if FieldPattern(field) {
      SnakeCharacters(field);
      assert CamelToSnake(field)[0] == if IsUpper(field[0]) then '_' else field[0];
      FieldThereAndBack(field);
    }
  }

  lemma SafeColumnsDiffer(a: string, b: string)
    requires SafeColumn(a).Some? && SafeColumn(b).Some? && a != b
    ensures SafeColumn(a) != SafeColumn(b)
  {
    SafeColumnIff(a);
    SafeColumnIff(b);
  }

  /** A payload under its column names; safe field names do not collide. */
  ghost function ToColumns<V>(payload: map<string, V>): map<string, V>
    requires forall field :: field in payload ==> SafeColumn(field).Some?
  {
    map column | column in (set field | field in payload :: CamelToSnake(field)) && SnakeToCamel(column) in payload ::
      payload[SnakeToCamel(column)]
  }

  /** A row under the field names it is read with. */
  ghost function FromColumns<V>(row: map<string, V>): map<string, V>
    requires forall column :: column in row ==> CapitalFree(column)
  {
    map field | field in (set column | column in row :: SnakeToCamel(column)) && CamelToSnake(field) in row ::
      row[CamelToSnake(field)]
  }

  lemma IdentifierIsCapitalFree(s: string)
    requires Identifier(s)
    ensures CapitalFree(s)
  {
  }

  /** Reading back a written payload recovers every field with its value, and nothing else; every field
      went to its own column. */
  lemma PayloadThereAndBack<V>(payload: map<string, V>)
    requires forall field :: field in payload ==> SafeColumn(field).Some?
    ensures forall column :: column in ToColumns(payload) ==> CapitalFree(column)
    ensures forall field :: field in payload ==>
              CamelToSnake(field) in ToColumns(payload) && ToColumns(payload)[CamelToSnake(field)] == payload[field]
    ensures FromColumns(ToColumns(payload)) == payload
  {
    forall field | field in payload
      ensures SnakeToCamel(CamelToSnake(field)) == field && CapitalFree(CamelToSnake(field))
    {
      SafeColumnIff(field);
      IdentifierIsCapitalFree(CamelToSnake(field));
    }
    var row := ToColumns(payload);
    forall field | field in payload
      ensures CamelToSnake(field) in row && row[CamelToSnake(field)] == payload[field]
    {
      assert CamelToSnake(field) in (set f | f in payload :: CamelToSnake(f));
    }
    var read := FromColumns(row);
    forall field | field in payload
      ensures field in read
    {
      assert SnakeToCamel(CamelToSnake(field)) in (set column | column in row :: SnakeToCamel(column));
    }
  }
}
