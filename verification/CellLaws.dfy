/** What one filter header says of a cell, operator by operator. */
module CellLaws {
  import opened Text
  import opened Filters
  import opened FilterText
  import opened FilterLaws
  import Ordering

  /** The line of a filter on a column; an empty value leaves the place free. */
  function FilterLine(column: string, word: string, v: string): string {
    "Filter: " + Args(column, word, v)
  }

  function Args(column: string, word: string, v: string): string {
    column + " " + word + (if v == "" then "" else " " + v)
  }

  /** A row is part of the answer to a query with this one filter. */
  predicate Says(lib: Lib, table: Table, column: string, word: string, v: string, row: Row) {
    Passes(lib, table, [FilterLine(column, word, v)], row)
  }

  const WORDS: set<string> := {
    "=", "!=", "=~", "!=~", "~", "!~", "~~", "!~~", "<", "<=", ">", ">=", "!>=", "like", "unlike", "ilike", "iunlike"
  }

  const COMPARISONS: set<string> := {"=", "!=", "<", "<=", ">", ">="}

  /** A column of the table under its own name, and a value that fits the line. */
  ghost predicate Asks(table: Table, column: string, types: set<DataType>, word: string, v: string) {
    && WordName(column) && column in table && table[column].name == column && table[column].dataType in types
    && word in WORDS && LineValue(v)
  }

  // ----------------------------------------------------------- from line to test

  /** The test behind the line, and when the parser accepts it. */
  lemma SaysTest(lib: Lib, table: Table, column: string, types: set<DataType>, word: string, v: string, row: Row)
    requires Asks(table, column, types, word, v)
    ensures ParseOp(word).Some?
    ensures var op := ParseOp(word).value;
            var t := SetValue(lib, table[column], op, v);
            Says(lib, table, column, word, v, row) <==>
            && t.Some? && (IsRegex(op) ==> lib.compiles(Pattern(op, t.value.strValue)))
            && Holds(lib, row, t.value)
  {
    hide ParseOp, SetValue, Pattern, Holds, ParseTest, ParseLine, IsSpace, Line, Args, WordName, LineValue, ReadAll, ParseText, LeafFilter, MatchRow;
    var line, args := FilterLine(column, word, v), Args(column, word, v);
    WordOps(word);
    LineOk(column, word, v);
    ParseArgs(lib, table, column, word, v);
    ParseFilterLine(lib, table, args, []);
    ReadOne(lib, table, line, []);
    HeadersRead(lib, table, [line], []);
    var r := ParseTest(lib, table, args);
    if r.Ok? {
      OneLeaf(lib, row, r.value);
      assert [] + [LeafFilter(r.value)] == [LeafFilter(r.value)];
    }
  }

  lemma OneLeaf(lib: Lib, row: Row, t: Test)
    ensures MatchRow(lib, row, [LeafFilter(t)]) <==> Holds(lib, row, t)
  {
    assert LeafFilter(t) in [LeafFilter(t)];
    assert Match(OnRow(lib, row), LeafFilter(t)) <==> Holds(lib, row, t);
  }

  lemma WordOps(word: string)
    requires word in WORDS
    ensures ParseOp(word).Some?
    ensures ' ' !in word && '\n' !in word && word != "" && !IsSpace(word[|word| - 1])
  {
  }

  lemma LineOk(column: string, word: string, v: string)
    requires WordName(column) && LineValue(v)
    requires ' ' !in word && '\n' !in word && word != "" && !IsSpace(word[|word| - 1])
    ensures Line(FilterLine(column, word, v))
    ensures Args(column, word, v) != "" && Args(column, word, v)[0] != ' '
  {
    var line := FilterLine(column, word, v);
    assert line[0] == 'F' && !IsSpace('F');
    assert line[|line| - 1] == if v == "" then word[|word| - 1] else v[|v| - 1];
  }

  lemma ParseArgs(lib: Lib, table: Table, column: string, word: string, v: string)
    requires WordName(column) && column in table && ' ' !in word && ParseOp(word).Some?
    ensures ParseTest(lib, table, Args(column, word, v)) ==
            var op := ParseOp(word).value;
            var t := SetValue(lib, table[column], op, v);
            if t.None? then Err("could not convert value")
            else if IsRegex(op) && !lib.compiles(Pattern(op, t.value.strValue)) then Err("invalid regular expression")
            else Ok(t.value)
  {
    hide SetValue, Pattern, ParseOp, SplitN;
    if v == "" {
      assert column + " " + word + "" == column + [' '] + word;
      SplitNCons(column, ' ', word, 3);
      SplitNWhole(word, ' ', 2);
    } else {
      assert column + " " + word + (" " + v) == column + [' '] + (word + [' '] + v);
      SplitNCons(column, ' ', word + [' '] + v, 3);
      SplitNCons(word, ' ', v, 2);
      SplitNOne(v, ' ');
    }
  }

  /** A word that is no operator rejects the request. */
  lemma OtherWords(lib: Lib, table: Table, column: string, word: string, v: string, row: Row)
    requires WordName(column) && column in table && LineValue(v)
    requires ' ' !in word && '\n' !in word && word != "" && !IsSpace(word[|word| - 1]) && word !in WORDS
    ensures !Says(lib, table, column, word, v, row)
  {
    hide ParseTest, ParseLine, IsSpace, Line, Args, ReadAll, ParseText, MatchRow;
    var line, args := FilterLine(column, word, v), Args(column, word, v);
    assert ParseOp(word) == None;
    LineOk(column, word, v);
    UnknownWord(lib, table, column, word, v);
    ParseFilterLine(lib, table, args, []);
    ReadOne(lib, table, line, []);
    HeadersRead(lib, table, [line], []);
  }

  lemma UnknownWord(lib: Lib, table: Table, column: string, word: string, v: string)
    requires WordName(column) && ' ' !in word && ParseOp(word) == None
    ensures ParseTest(lib, table, Args(column, word, v)).Err?
  {
    hide SetValue, ParseOp, SplitN;
    if v == "" {
      assert column + " " + word + "" == column + [' '] + word;
      SplitNCons(column, ' ', word, 3);
      SplitNWhole(word, ' ', 2);
    } else {
      assert column + " " + word + (" " + v) == column + [' '] + (word + [' '] + v);
      SplitNCons(column, ' ', word + [' '] + v, 3);
      SplitNCons(word, ' ', v, 2);
    }
  }

  // ------------------------------------------------------------------ references

  /** The text occurs somewhere in s. */
  ghost predicate Occurs(part: string, s: string) {
    exists i :: OccursAt(part, s, i)
  }

  predicate OccursAt(part: string, s: string, i: int) {
    0 <= i <= |s| - |part| && s[i..i + |part|] == part
  }

  /** A pattern without the .* that only says "anything" at its ends. */
  function Bare(v: string): string {
    Before(Behind(v))
  }

  function Behind(v: string): string {
    if |v| >= 2 && v[0] == '.' && v[1] == '*' then v[2..] else v
  }

  function Before(v: string): string {
    if |v| >= 2 && v[|v| - 2] == '.' && v[|v| - 1] == '*' then v[..|v| - 2] else v
  }

  /** The accepted regular expression finds a match; or, turned around, finds none. */
  predicate Finds(lib: Lib, pattern: string, s: string) {
    lib.compiles(pattern) && lib.regex(pattern, s)
  }

  predicate FindsNot(lib: Lib, pattern: string, s: string) {
    lib.compiles(pattern) && !lib.regex(pattern, s)
  }

  /** What each operator says of a text. */
  ghost predicate OfText(lib: Lib, word: string, v: string, s: string) {
    if word == "=" then s == v
    else if word == "!=" then s != v
    else if word == "=~" then lib.equalFold(s, v)
    else if word == "!=~" then !lib.equalFold(s, v)
    else if word == "~" then Finds(lib, Bare(v), s)
    else if word == "!~" then FindsNot(lib, Bare(v), s)
    else if word == "~~" then Finds(lib, "(?i)" + Bare(v), s)
    else if word == "!~~" then FindsNot(lib, "(?i)" + Bare(v), s)
    else if word == "<" then Ordering.Precedes(s, v)
    else if word == "<=" then s == v || Ordering.Precedes(s, v)
    else if word == ">" then Ordering.Precedes(v, s)
    else if word == ">=" then s == v || Ordering.Precedes(v, s)
    else if word == "like" then Occurs(v, s)
    else if word == "unlike" then !Occurs(v, s)
    else if word == "ilike" then Occurs(v, lib.lower(s))
    else if word == "iunlike" then !Occurs(v, lib.lower(s))
    else false
  }

  /** What each comparison says of a number. */
  predicate OfNumber(word: string, x: real, r: real) {
    if word == "=" then x == r
    else if word == "!=" then x != r
    else if word == "<" then x < r
    else if word == "<=" then x <= r
    else if word == ">" then x > r
    else if word == ">=" then x >= r
    else false
  }

  /** What each operator says of a list of texts. */
  ghost predicate OfTexts(lib: Lib, word: string, v: string, items: seq<string>) {
    if word == "=" then v == "" && items == []
    else if word == "!=" then v == "" && items != []
    else if word == ">=" then v in items
    else if word in {"<=", "!>="} then v !in items
    else if word in {"~", "~~"} then
      lib.compiles(if word == "~" then Bare(v) else "(?i)" + Bare(v)) && exists s :: s in items && OfText(lib, word, v, s)
    else if word in {"!~", "!~~"} then
      lib.compiles(if word == "!~" then Bare(v) else "(?i)" + Bare(v)) && forall s :: s in items ==> OfText(lib, word, v, s)
    else if word in {"like", "ilike"} then exists s :: s in items && OfText(lib, word, v, s)
    else if word in {"unlike", "iunlike"} then forall s :: s in items ==> OfText(lib, word, v, s)
    else false
  }

  lemma {:induction false} OccursMeans(s: string, part: string)
    ensures HasSubstring(s, part) <==> Occurs(part, s)
  {
    if part <= s {
      assert OccursAt(part, s, 0);
    } else if s == [] {
    } else {
      OccursMeans(s[1..], part);
      forall i | OccursAt(part, s[1..], i)
        ensures OccursAt(part, s, i + 1)
      {
        assert s[i + 1..i + 1 + |part|] == s[1..][i..i + |part|];
      }
      forall i | OccursAt(part, s, i)
        ensures OccursAt(part, s[1..], i - 1)
      {
        assert i > 0;
        assert s[1..][i - 1..i - 1 + |part|] == s[i..i + |part|];
      }
    }
  }

  lemma DotStar(s: string)
    ensures s == ".*" <==> |s| == 2 && s[0] == '.' && s[1] == '*'
  {
  }

  lemma BehindMeans(v: string)
    ensures Behind(v) == if |v| >= 2 && v[..2] == ".*" then v[2..] else v
  {
    if |v| >= 2 {
      DotStar(v[..2]);
    }
  }

  lemma BeforeMeans(v: string)
    ensures Before(v) == TrimSuffix(v, ".*")
  {
    if |v| >= 2 {
      DotStar(v[|v| - 2..]);
    }
  }

  lemma PatternMeans(op: Operator, v: string)
    ensures Pattern(op, v) == if op == RegexNoCaseMatch || op == RegexNoCaseMatchNot then "(?i)" + Bare(v) else Bare(v)
  {
    BehindMeans(v);
    BeforeMeans(Behind(v));
    hide TrimSuffix, Behind, Before;
  }

  lemma OrderMeans(a: string, b: string)
    ensures Ordering.StrLess(a, b) <==> Ordering.Precedes(a, b)
    ensures !Ordering.StrLess(b, a) <==> a == b || Ordering.Precedes(a, b)
  {
    Ordering.StrLessMeans(a, b);
    Ordering.StrLessMeans(b, a);
    Ordering.StrLessTotal(a, b);
  }

  /** The parser's word for an operator. */
  function WordOf(op: Operator): string {
    match op
    case Contains => "like"
    case ContainsNot => "unlike"
    case ContainsNoCase => "ilike"
    case ContainsNoCaseNot => "iunlike"
    case _ => OpText(op)
  }

  lemma WordIs(word: string, op: Operator)
    requires ParseOp(word) == Some(op)
    ensures word == WordOf(op)
  {
  }

  /** The text comparison, with the parser's condition on patterns. */
  lemma TextMeans(lib: Lib, word: string, t: Test, s: string)
    requires t.Test? && ParseOp(word) == Some(t.op)
    ensures (IsRegex(t.op) ==> lib.compiles(Pattern(t.op, t.strValue))) && MatchString(lib, t, s) <==>
            OfText(lib, word, t.strValue, s)
  {
    WordIs(word, t.op);
    hide ParseOp, WordOf, OfText, Pattern, MatchString;
    if t.op in {Equal, Unequal, EqualNocase, UnequalNocase, GroupContainsNot} {
      EqualMeans(lib, t, s);
    } else if IsRegex(t.op) {
      RegexMeans(lib, t, s);
    } else if t.op in {Operator.Less, LessThan, Greater, GreaterThan} {
      CompareMeans(lib, t, s);
    } else {
      ContainMeans(lib, t, s);
    }
  }

  lemma EqualMeans(lib: Lib, t: Test, s: string)
    requires t.Test? && t.op in {Equal, Unequal, EqualNocase, UnequalNocase, GroupContainsNot}
    ensures MatchString(lib, t, s) <==> OfText(lib, WordOf(t.op), t.strValue, s)
  {
  }

  lemma RegexMeans(lib: Lib, t: Test, s: string)
    requires t.Test? && IsRegex(t.op)
    ensures lib.compiles(Pattern(t.op, t.strValue)) && MatchString(lib, t, s) <==> OfText(lib, WordOf(t.op), t.strValue, s)
  {
    hide Pattern, Bare;
    PatternMeans(t.op, t.strValue);
  }

  lemma CompareMeans(lib: Lib, t: Test, s: string)
    requires t.Test? && t.op in {Operator.Less, LessThan, Greater, GreaterThan}
    ensures MatchString(lib, t, s) <==> OfText(lib, WordOf(t.op), t.strValue, s)
  {
    OrderMeans(s, t.strValue);
    OrderMeans(t.strValue, s);
    hide Ordering.StrLess, Ordering.Precedes;
  }

  lemma ContainMeans(lib: Lib, t: Test, s: string)
    requires t.Test? && InternalOp(t.op)
    ensures MatchString(lib, t, s) <==> OfText(lib, WordOf(t.op), t.strValue, s)
  {
    OccursMeans(s, t.strValue);
    OccursMeans(lib.lower(s), t.strValue);
    hide HasSubstring, Occurs;
  }

  // ------------------------------------------------------------------ the laws

  ghost predicate HasCell(row: Row, column: string, cell: Value) {
    column in row.cells && row.cells[column] == cell
  }

  /** Text columns: every operator compares the cell's text with the value. */
  lemma TextLaw(lib: Lib, table: Table, column: string, word: string, v: string, row: Row, s: string)
    requires Asks(table, column, {StringCol, StringLargeCol, JSONCol}, word, v) && HasCell(row, column, StrVal(s))
    ensures Says(lib, table, column, word, v, row) <==> OfText(lib, word, v, s)
  {
    hide ParseOp, OfText, Says, Pattern, MatchString, Holds, SetValue, IsRegex;
    SaysTest(lib, table, column, {StringCol, StringLargeCol, JSONCol}, word, v, row);
    var op := ParseOp(word).value;
    PlainTest(lib, table[column], op, v);
    var t := Test(table[column], op, v, 0.0, "", v == "");
    TextHolds(lib, row, t, s);
    TextMeans(lib, word, t, s);
  }

  /** Where the value is kept as it stands. */
  lemma PlainTest(lib: Lib, col: Column, op: Operator, v: string)
    requires col.dataType in {StringCol, StringLargeCol, JSONCol, StringListCol}
    ensures SetValue(lib, col, op, v) == Some(Test(col, op, v, 0.0, "", v == ""))
  {
  }

  lemma TextHolds(lib: Lib, row: Row, t: Test, s: string)
    requires t.Test? && t.column.dataType in {StringCol, StringLargeCol, JSONCol} && HasCell(row, t.column.name, StrVal(s))
    ensures Holds(lib, row, t) <==> MatchString(lib, t, s)
  {
    hide MatchString;
  }

  /** The value of a custom variable, empty where a row has none. */
  function VarIn(vars: map<string, string>, tag: string): string {
    if tag in vars then vars[tag] else ""
  }

  /** Custom variables: name and value; with the name alone the variable is compared
      with its own name, and without a name nothing is accepted. */
  lemma VarsLaw(lib: Lib, table: Table, column: string, word: string, tag: string, v: string, row: Row, vars: map<string, string>)
    requires ' ' !in tag && HasCell(row, column, VarsVal(vars))
    ensures Asks(table, column, {CustomVarCol}, word, tag + " " + v) && tag != "" ==>
              (Says(lib, table, column, word, tag + " " + v, row) <==> OfText(lib, word, v, VarIn(vars, tag)))
    ensures Asks(table, column, {CustomVarCol}, word, tag) && tag != "" ==>
              (Says(lib, table, column, word, tag, row) <==> OfText(lib, word, tag, VarIn(vars, tag)))
    ensures Asks(table, column, {CustomVarCol}, word, "") ==> !Says(lib, table, column, word, "", row)
    ensures Asks(table, column, {CustomVarCol}, word, " " + v) ==> !Says(lib, table, column, word, " " + v, row)
  {
    hide ParseOp, OfText, Says, Pattern, MatchString, Asks;
    if tag != "" && Asks(table, column, {CustomVarCol}, word, tag + " " + v) {
      SplitNCons(tag, ' ', v, 2);
      SplitNOne(v, ' ');
      assert tag + " " + v == tag + [' '] + v;
      VarSays(lib, table, column, word, tag + " " + v, row, vars);
    }
    if tag != "" && Asks(table, column, {CustomVarCol}, word, tag) {
      SplitNWhole(tag, ' ', 2);
      VarSays(lib, table, column, word, tag, row, vars);
    }
    if Asks(table, column, {CustomVarCol}, word, "") {
      SplitNWhole("", ' ', 2);
      VarSays(lib, table, column, word, "", row, vars);
    }
    if Asks(table, column, {CustomVarCol}, word, " " + v) {
      SplitNCons("", ' ', v, 2);
      SplitNOne(v, ' ');
      assert " " + v == "" + [' '] + v;
      VarSays(lib, table, column, word, " " + v, row, vars);
    }
  }

  lemma VarSays(lib: Lib, table: Table, column: string, word: string, v: string, row: Row, vars: map<string, string>)
    requires Asks(table, column, {CustomVarCol}, word, v) && HasCell(row, column, VarsVal(vars))
    ensures var parts := SplitN(v, ' ', 2);
            Says(lib, table, column, word, v, row) <==>
            parts[0] != "" && OfText(lib, word, if |parts| == 1 then v else parts[1], VarIn(vars, parts[0]))
  {
    hide ParseOp, OfText, Says, Pattern, MatchString, Holds, SetValue, IsRegex;
    SaysTest(lib, table, column, {CustomVarCol}, word, v, row);
    var op := ParseOp(word).value;
    VarTest(lib, table[column], op, v);
    var r := SetValue(lib, table[column], op, v);
    if r.Some? {
      VarHolds(lib, row, r.value, vars);
      TextMeans(lib, word, r.value, VarIn(vars, r.value.customTag));
    }
  }

  lemma VarTest(lib: Lib, col: Column, op: Operator, v: string)
    requires col.dataType == CustomVarCol
    ensures var parts := SplitN(v, ' ', 2);
            SetValue(lib, col, op, v) ==
            if parts[0] == "" then None
            else Some(Test(col, op, if |parts| == 1 then v else parts[1], 0.0, parts[0], |parts| == 1))
  {
    hide SplitN;
  }

  lemma VarHolds(lib: Lib, row: Row, t: Test, vars: map<string, string>)
    requires t.Test? && t.column.dataType == CustomVarCol && HasCell(row, t.column.name, VarsVal(vars))
    ensures Holds(lib, row, t) <==> MatchString(lib, t, VarIn(vars, t.customTag))
  {
    hide MatchString;
  }

  /** k is r without its fraction. */
  ghost predicate Whole(r: real, k: int) {
    if r >= 0.0 then k as real <= r < k as real + 1.0 else k as real - 1.0 < r <= k as real
  }

  lemma WholeIs(r: real, k: int)
    requires Whole(r, k)
    ensures Trunc(r) == k
  {
  }

  /** The cell's number without its fraction. */
  ghost predicate HasWhole(row: Row, column: string, i: int) {
    HasCell(row, column, IntVal(i)) || exists x :: HasCell(row, column, FloatVal(x)) && Whole(x, i)
  }

  lemma WholeCell(row: Row, column: string, i: int)
    requires HasWhole(row, column, i)
    ensures row.GetInt(column) == i
  {
    if x :| HasCell(row, column, FloatVal(x)) && Whole(x, i) {
      WholeIs(x, i);
    }
  }

  /** Whole number columns: the comparisons compare with the value without its
      fraction, the other operators with the decimal text; a missing value is below
      every number, and a value that is no number accepts nothing. */
  lemma WholeLaw(lib: Lib, table: Table, column: string, word: string, v: string, row: Row, i: int)
    requires Asks(table, column, {IntCol, Int64Col}, word, v) && HasWhole(row, column, i)
    ensures v == "" ==> (Says(lib, table, column, word, v, row) <==> word in {"!=", ">", ">="})
    ensures v != "" && word !in COMPARISONS ==> (Says(lib, table, column, word, v, row) <==> OfText(lib, word, v, IntText(i)))
    ensures v != "" && word in COMPARISONS ==>
      && (ParseNumber(lib, v) == None ==> !Says(lib, table, column, word, v, row))
      && forall k :: ParseNumber(lib, v).Some? && Whole(ParseNumber(lib, v).value, k) ==>
           (Says(lib, table, column, word, v, row) <==> OfNumber(word, i as real, k as real))
  {
    hide ParseOp, OfText, Says, Pattern, MatchString, OfNumber, MatchEmpty, MatchInt, Holds, SetValue, ParseNumber, HasWhole, Whole, IsRegex;
    SaysTest(lib, table, column, {IntCol, Int64Col}, word, v, row);
    var op := ParseOp(word).value;
    NumberTest(lib, table[column], word, op, v);
    var r := SetValue(lib, table[column], op, v);
    EmptyOps(word, op);
    ComparisonOps(word, op);
    if r.Some? {
      WholeHolds(lib, row, r.value, i, word);
      TextMeans(lib, word, r.value, IntText(i));
    }
  }

  /** The value of a filter on a number. */
  lemma NumberTest(lib: Lib, col: Column, word: string, op: Operator, v: string)
    requires IsNumeric(col.dataType) && word in WORDS && ParseOp(word) == Some(op)
    ensures SetValue(lib, col, op, v) ==
            if word !in COMPARISONS || v == "" then Some(Test(col, op, v, 0.0, "", v == ""))
            else if ParseNumber(lib, v).None? then None
            else Some(Test(col, op, v, ParseNumber(lib, v).value, "", false))
  {
    hide ParseNumber, ParseOp;
    ComparisonOps(word, op);
  }

  lemma WholeHolds(lib: Lib, row: Row, t: Test, i: int, word: string)
    requires t.Test? && t.column.dataType in {IntCol, Int64Col} && HasWhole(row, t.column.name, i)
    requires word in WORDS && ParseOp(word) == Some(t.op)
    ensures t.isEmpty ==> (Holds(lib, row, t) <==> MatchEmpty(t.op))
    ensures !t.isEmpty && word !in COMPARISONS ==> (Holds(lib, row, t) <==> MatchString(lib, t, IntText(i)))
    ensures forall k :: !t.isEmpty && word in COMPARISONS && Whole(t.floatValue, k) ==>
              (Holds(lib, row, t) <==> OfNumber(word, i as real, k as real))
  {
    hide ParseOp, MatchString, OfNumber, MatchEmpty, HasWhole, Whole, IntText;
    WholeCell(row, t.column.name, i);
    ComparisonOps(word, t.op);
    if word in COMPARISONS {
      IntMeans(lib, t, i, word);
      forall k | Whole(t.floatValue, k)
        ensures Trunc(t.floatValue) == k
      {
        WholeIs(t.floatValue, k);
      }
    }
    hide Trunc;
  }

  lemma ComparisonOps(word: string, op: Operator)
    requires word in WORDS && ParseOp(word) == Some(op)
    ensures word in COMPARISONS <==> op in {Equal, Unequal, Operator.Less, LessThan, Greater, GreaterThan}
    ensures IsRegex(op) ==> word !in COMPARISONS
  {
    WordIs(word, op);
  }

  lemma EmptyOps(word: string, op: Operator)
    requires word in WORDS && ParseOp(word) == Some(op)
    ensures MatchEmpty(op) <==> word in {"!=", ">", ">="}
    ensures MatchEmpty(op) ==> !IsRegex(op)
  {
    WordIs(word, op);
  }

  lemma IntMeans(lib: Lib, t: Test, i: int, word: string)
    requires t.Test? && ParseOp(word) == Some(t.op) && t.op in {Equal, Unequal, Operator.Less, LessThan, Greater, GreaterThan}
    ensures MatchInt(lib, t, i) <==> OfNumber(word, i as real, Trunc(t.floatValue) as real)
    ensures forall x :: MatchFloat(lib, t, x) <==> OfNumber(word, x, t.floatValue)
  {
    WordIs(word, t.op);
    hide ParseOp, Trunc;
  }

  /** Numbers with fractions: the same, with the value as it is. */
  lemma FractionLaw(lib: Lib, table: Table, column: string, word: string, v: string, row: Row, x: real)
    requires Asks(table, column, {FloatCol}, word, v) && HasNumber(row, column, x)
    ensures v == "" ==> (Says(lib, table, column, word, v, row) <==> word in {"!=", ">", ">="})
    ensures v != "" && word !in COMPARISONS ==>
      (Says(lib, table, column, word, v, row) <==> OfText(lib, word, v, lib.floatText(x)))
    ensures v != "" && word in COMPARISONS ==>
      && (ParseNumber(lib, v) == None ==> !Says(lib, table, column, word, v, row))
      && (ParseNumber(lib, v).Some? ==>
          (Says(lib, table, column, word, v, row) <==> OfNumber(word, x, ParseNumber(lib, v).value)))
  {
    hide ParseOp, OfText, Says, Pattern, MatchString, OfNumber, MatchEmpty, MatchFloat, Holds, SetValue, ParseNumber, HasNumber, IsRegex;
    SaysTest(lib, table, column, {FloatCol}, word, v, row);
    var op := ParseOp(word).value;
    NumberTest(lib, table[column], word, op, v);
    var r := SetValue(lib, table[column], op, v);
    EmptyOps(word, op);
    ComparisonOps(word, op);
    if r.Some? {
      RealHolds(lib, row, r.value, x, word);
      TextMeans(lib, word, r.value, lib.floatText(x));
    }
  }

  lemma RealHolds(lib: Lib, row: Row, t: Test, x: real, word: string)
    requires t.Test? && t.column.dataType == FloatCol && HasNumber(row, t.column.name, x)
    requires word in WORDS && ParseOp(word) == Some(t.op)
    ensures t.isEmpty ==> (Holds(lib, row, t) <==> MatchEmpty(t.op))
    ensures !t.isEmpty && word !in COMPARISONS ==> (Holds(lib, row, t) <==> MatchString(lib, t, lib.floatText(x)))
    ensures !t.isEmpty && word in COMPARISONS ==> (Holds(lib, row, t) <==> OfNumber(word, x, t.floatValue))
  {
    hide ParseOp, MatchString, OfNumber, MatchEmpty;
    ComparisonOps(word, t.op);
    if word in COMPARISONS {
      IntMeans(lib, t, 0, word);
    }
  }

  /** So with a whole number n as value: the column compares as numbers do. */
  lemma IntegerLaw(lib: Lib, table: Table, column: string, n: int, row: Row, i: int)
    requires Asks(table, column, {IntCol, Int64Col}, "=", IntText(n)) && HasWhole(row, column, i)
    ensures Says(lib, table, column, "=", IntText(n), row) <==> i == n
    ensures Says(lib, table, column, "!=", IntText(n), row) <==> i != n
    ensures Says(lib, table, column, "<", IntText(n), row) <==> i < n
    ensures Says(lib, table, column, "<=", IntText(n), row) <==> i <= n
    ensures Says(lib, table, column, ">", IntText(n), row) <==> i > n
    ensures Says(lib, table, column, ">=", IntText(n), row) <==> i >= n
  {
    IntRoundTrip(n);
    assert IntText(n) != "";
    assert Whole(n as real, n);
    forall word | word in COMPARISONS
      ensures Says(lib, table, column, word, IntText(n), row) <==> OfNumber(word, i as real, n as real)
    {
      hide Says, IntText;
      WholeLaw(lib, table, column, word, IntText(n), row, i);
    }
    hide Says, IntText;
    assert "=" in COMPARISONS && "!=" in COMPARISONS && "<" in COMPARISONS;
    assert "<=" in COMPARISONS && ">" in COMPARISONS && ">=" in COMPARISONS;
  }

  /** Lists of texts: membership, emptiness, or an operator on some or on all items. */
  lemma ListLaw(lib: Lib, table: Table, column: string, word: string, v: string, row: Row, items: seq<string>)
    requires Asks(table, column, {StringListCol}, word, v) && HasCell(row, column, ListVal(items))
    ensures Says(lib, table, column, word, v, row) <==> OfTexts(lib, word, v, items)
  {
    hide ParseOp, OfText, Says, MatchString, Pattern, SetValue, Holds, MatchStringList, OfTexts, IsRegex;
    SaysTest(lib, table, column, {StringListCol}, word, v, row);
    var op := ParseOp(word).value;
    PlainTest(lib, table[column], op, v);
    var t := Test(table[column], op, v, 0.0, "", v == "");
    ListHolds(lib, row, t, items);
    forall s: string
      ensures (IsRegex(op) ==> lib.compiles(Pattern(op, v))) && MatchString(lib, t, s) <==> OfText(lib, word, v, s)
    {
      TextMeans(lib, word, t, s);
    }
    ItemsMean(lib, word, t, items);
  }

  lemma ListHolds(lib: Lib, row: Row, t: Test, items: seq<string>)
    requires t.Test? && t.column.dataType == StringListCol && HasCell(row, t.column.name, ListVal(items))
    ensures Holds(lib, row, t) <==> MatchStringList(lib, t, items)
  {
    hide MatchStringList;
  }

  lemma ItemsMean(lib: Lib, word: string, t: Test, items: seq<string>)
    requires t.Test? && ParseOp(word) == Some(t.op)
    requires forall s :: (IsRegex(t.op) ==> lib.compiles(Pattern(t.op, t.strValue))) && MatchString(lib, t, s) <==>
                         OfText(lib, word, t.strValue, s)
    ensures (IsRegex(t.op) ==> lib.compiles(Pattern(t.op, t.strValue))) && MatchStringList(lib, t, items) <==>
            OfTexts(lib, word, t.strValue, items)
  {
    hide ParseOp, OfText, MatchString, Pattern, Bare;
    WordIs(word, t.op);
    PatternMeans(t.op, t.strValue);
  }

  /** Lists of numbers: emptiness and membership; "is not in" looks for 0, whatever
      the value, because only comparisons convert it. */
  lemma NumbersLaw(lib: Lib, table: Table, column: string, word: string, v: string, row: Row, items: seq<int>)
    requires Asks(table, column, {Int64ListCol}, word, v) && HasCell(row, column, IntsVal(items))
    ensures word == "=" ==> (Says(lib, table, column, word, v, row) <==> v == "" && items == [])
    ensures word == "!=" ==> (Says(lib, table, column, word, v, row) <==> v == "" && items != [])
    ensures word == ">=" && v == "" ==> (Says(lib, table, column, word, v, row) <==> 0 in items)
    ensures word == ">=" && v != "" && ParseNumber(lib, v) == None ==> !Says(lib, table, column, word, v, row)
    ensures forall k :: word == ">=" && v != "" && ParseNumber(lib, v).Some? && Whole(ParseNumber(lib, v).value, k) ==>
              (Says(lib, table, column, word, v, row) <==> k in items)
    ensures word == "!>=" ==> (Says(lib, table, column, word, v, row) <==> 0 !in items)
    ensures word !in {"=", "!=", ">=", "!>="} ==> !Says(lib, table, column, word, v, row)
  {
    hide ParseOp, Says, Pattern, MatchString, ParseNumber, SetValue, Holds, Whole, IsRegex;
    SaysTest(lib, table, column, {Int64ListCol}, word, v, row);
    var op := ParseOp(word).value;
    NumberTest(lib, table[column], word, op, v);
    var r := SetValue(lib, table[column], op, v);
    ComparisonOps(word, op);
    if r.Some? {
      IntsHolds(lib, row, r.value, items, word);
      ZeroIs();
    }
  }

  lemma ZeroIs()
    ensures Whole(0.0, 0)
  {
  }

  lemma IntsHolds(lib: Lib, row: Row, t: Test, items: seq<int>, word: string)
    requires t.Test? && t.column.dataType == Int64ListCol && HasCell(row, t.column.name, IntsVal(items))
    requires word in WORDS && ParseOp(word) == Some(t.op)
    ensures word == "=" ==> (Holds(lib, row, t) <==> t.isEmpty && items == [])
    ensures word == "!=" ==> (Holds(lib, row, t) <==> t.isEmpty && items != [])
    ensures forall k :: word == ">=" && Whole(t.floatValue, k) ==> (Holds(lib, row, t) <==> k in items)
    ensures forall k :: word == "!>=" && Whole(t.floatValue, k) ==> (Holds(lib, row, t) <==> k !in items)
    ensures word !in {"=", "!=", ">=", "!>="} ==> !Holds(lib, row, t)
    ensures word in {"!>="} ==> !IsRegex(t.op)
  {
    hide ParseOp, Whole;
    WordIs(word, t.op);
    forall k | Whole(t.floatValue, k)
      ensures Trunc(t.floatValue) == k
    {
      WholeIs(t.floatValue, k);
    }
    hide Trunc;
  }
}
