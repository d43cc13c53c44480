/** Filters as request text: the printer, the postfix parser that rebuilds the
    filter stack line by line, and the exact condition under which the two undo
    each other. */
module FilterText {
  import opened Text
  import opened Filters

  datatype Result<+T> = Ok(value: T) | Err(message: string)

  /** Columns by name; EMPTY_COLUMN stands in for unknown ones. */
  type Table = map<string, Column>

  const EMPTY_COLUMN := Column("empty", StringCol)

  function Lookup(table: Table, name: string): Column {
    if name in table then table[name] else EMPTY_COLUMN
  }

  /** Column names are single words. */
  predicate WordName(name: string) {
    ' ' !in name && '\n' !in name && name != ""
  }

  predicate WordTable(table: Table) {
    && (forall n :: n in table ==> table[n].name == n && WordName(TrimSuffix(n, "_lc")))
    && WordName(EMPTY_COLUMN.name)
  }

  // ----------------------------------------------------------------- printer

  function OpText(op: Operator): string {
    match op
    case Equal => "="
    case Unequal => "!="
    case EqualNocase => "=~"
    case UnequalNocase => "!=~"
    case RegexMatch => "~"
    case RegexMatchNot => "!~"
    case RegexNoCaseMatch => "~~"
    case RegexNoCaseMatchNot => "!~~"
    case Contains => "~"
    case ContainsNot => "!~"
    case ContainsNoCase => "~~"
    case ContainsNoCaseNot => "!~~"
    case Less => "<"
    case LessThan => "<="
    case Greater => ">"
    case GreaterThan => ">="
    case GroupContainsNot => "!>="
  }

  /** The value part of a filter line. */
  function ValueText(t: Test): string
    requires t.Test?
  {
    if t.isEmpty then t.customTag
    else if t.column.dataType == CustomVarCol then t.customTag + " " + t.strValue
    else t.strValue
  }

  function TestText(t: Test): string
    requires t.Test?
  {
    var v := ValueText(t);
    TrimSuffix(t.column.name, "_lc") + " " + OpText(t.op) + (if v == "" then "" else " " + v)
  }

  function GroupText(op: GroupOperator): string
    requires op != NoGroup
  {
    if op == And then "And" else "Or"
  }

  /** A filter tree a request can hold: leaves test a column, groups are not empty. */
  ghost predicate Tree(f: Filter) {
    && f.statsType == NoStats && f.statsPos == 0
    && (f.group == NoGroup ==> f.test.Test? && f.kids == [])
    && (f.group != NoGroup ==> f.test.NoTest? && f.kids != [] && forall k :: k in f.kids ==> Tree(k))
  }

  ghost predicate Forest(fs: seq<Filter>) {
    forall f :: f in fs ==> Tree(f)
  }

  function Print(f: Filter): string
    requires Tree(f)
    decreases f, 1
  {
    if f.group != NoGroup then
      PrintAll(f.kids) + GroupText(f.group) + ": " + NatText(|f.kids|) + "\n"
    else
      "Filter: " + TestText(f.test) + "\n" + (if f.negate then "Negate:\n" else "")
  }

  function PrintAll(fs: seq<Filter>): string
    requires Forest(fs)
    decreases fs, 0
  {
    if fs == [] then "" else Print(fs[0]) + PrintAll(fs[1..])
  }

  // ------------------------------------------------------------------ parser

  function ParseOp(s: string): Option<Operator> {
    if s == "=" then Some(Equal)
    else if s == "=~" then Some(EqualNocase)
    else if s == "~" then Some(RegexMatch)
    else if s == "!~" then Some(RegexMatchNot)
    else if s == "~~" then Some(RegexNoCaseMatch)
    else if s == "!~~" then Some(RegexNoCaseMatchNot)
    else if s == "!=" then Some(Unequal)
    else if s == "!=~" then Some(UnequalNocase)
    else if s == "<" then Some(Less)
    else if s == "<=" then Some(LessThan)
    else if s == ">" then Some(Greater)
    else if s == ">=" then Some(GreaterThan)
    else if s == "!>=" then Some(GroupContainsNot)
    else if s == "like" then Some(Contains)
    else if s == "unlike" then Some(ContainsNot)
    else if s == "ilike" then Some(ContainsNoCase)
    else if s == "iunlike" then Some(ContainsNoCaseNot)
    else None
  }

  predicate IsRegex(op: Operator) {
    op in {RegexMatch, RegexMatchNot, RegexNoCaseMatch, RegexNoCaseMatchNot}
  }

  /** A numeric filter value: plain decimals here, anything else in the library. */
  function ParseNumber(lib: Lib, s: string): Option<real> {
    match Atoi(s)
    case Some(n) => Some(n as real)
    case None => lib.parseFloat(s)
  }

  predicate IsNumeric(d: DataType) {
    d in {Int64ListCol, IntCol, Int64Col, FloatCol}
  }

  /** Converts the value text to the column's type. */
  function SetValue(lib: Lib, col: Column, op: Operator, v: string): Option<Test> {
    if IsNumeric(col.dataType) then
      if op in {Equal, Unequal, Greater, GreaterThan, Less, LessThan} && v != "" then
        match ParseNumber(lib, v)
        case Some(r) => Some(Test(col, op, v, r, "", false))
        case None => None
      else Some(Test(col, op, v, 0.0, "", v == ""))
    else if col.dataType == CustomVarCol then
      var vars := SplitN(v, ' ', 2);
      if vars[0] == "" then None
      else if |vars| == 1 then Some(Test(col, op, v, 0.0, vars[0], true))
      else Some(Test(col, op, vars[1], 0.0, vars[0], false))
    else Some(Test(col, op, v, 0.0, "", v == ""))
  }

  /** The text after "Filter:", without the optimiser. */
  function ParseTest(lib: Lib, table: Table, args: string): Result<Test> {
    var parts := SplitN(args, ' ', 3);
    if |parts| < 2 then Err("filter header must be Filter: <field> <operator> <value>") else
    var op := ParseOp(parts[1]);
    if op.None? then Err("unrecognized filter operator") else
    var v := if |parts| == 3 then parts[2] else "";
    var t := SetValue(lib, Lookup(table, parts[0]), op.value, v);
    if t.None? then Err("could not convert value")
    else if IsRegex(op.value) && !lib.compiles(Pattern(op.value, t.value.strValue)) then
      Err("invalid regular expression")
    else Ok(t.value)
  }

  /** And: n and Or: n fold the top n stack entries into one group. */
  function ParseGroup(op: GroupOperator, args: string, stack: seq<Filter>): Result<seq<Filter>> {
    match Atoi(args)
    case None => Err("must be a positive number")
    case Some(num) =>
      if num < 0 then Err("must be a positive number")
      else if num == 0 then Ok(stack)
      else if |stack| < num then Err("not enough filter on stack")
      else Ok(stack[..|stack| - num] + [GroupFilter(op, stack[|stack| - num..])])
  }

  function ParseNegate(stack: seq<Filter>): Result<seq<Filter>> {
    if stack == [] then Err("no filter on stack to negate")
    else Ok(stack[|stack| - 1 := stack[|stack| - 1].(negate := true)])
  }

  /** One header line acting on the filter stack. */
  function ParseLine(lib: Lib, table: Table, line: string, stack: seq<Filter>): Result<seq<Filter>> {
    var matched := SplitN(line, ':', 2);
    if |matched| != 2 then Err("syntax error") else
    var args := TrimLeft(matched[1]);
    var header := LowerAscii(matched[0]);
    if header == "filter" then
      var r := ParseTest(lib, table, args);
      if r.Ok? then Ok(stack + [LeafFilter(r.value)]) else Err(r.message)
    else if header == "and" then ParseGroup(And, args, stack)
    else if header == "or" then ParseGroup(Or, args, stack)
    else if header == "negate" then ParseNegate(stack)
    else Err("not a filter header")
  }

  /** Header lines up to the first blank line or the end of the text. */
  function ParseText(lib: Lib, table: Table, text: string, stack: seq<Filter>): Result<seq<Filter>>
    decreases |text|
  {
    var i := IndexOf(text, '\n');
    var line := TrimSpace(text[..i]);
    if line == "" then Ok(stack) else
    var r := ParseLine(lib, table, line, stack);
    if r.Err? || i == |text| then r else ParseText(lib, table, text[i + 1..], r.value)
  }

  /** The stack when reading ends, be it at the end of the headers or at the
      first line in error. */
  function StackAtEnd(lib: Lib, table: Table, text: string, stack: seq<Filter>): seq<Filter>
    decreases |text|
  {
    var i := IndexOf(text, '\n');
    var line := TrimSpace(text[..i]);
    if line == "" then stack else
    var r := ParseLine(lib, table, line, stack);
    if r.Err? then stack
    else if i == |text| then r.value
    else StackAtEnd(lib, table, text[i + 1..], r.value)
  }

  /** One round of reading. */
  lemma ReadNext(lib: Lib, table: Table, text: string, stack: seq<Filter>)
    ensures var i := IndexOf(text, '\n');
            var line := TrimSpace(text[..i]);
            var r := ParseLine(lib, table, line, stack);
            && ParseText(lib, table, text, stack) ==
               (if line == "" then Ok(stack) else if r.Err? || i == |text| then r else ParseText(lib, table, text[i + 1..], r.value))
            && StackAtEnd(lib, table, text, stack) ==
               (if line == "" || r.Err? then stack else if i == |text| then r.value else StackAtEnd(lib, table, text[i + 1..], r.value))
  {
    hide ParseLine, TrimSpace;
  }

  lemma {:induction false} StackOfText(lib: Lib, table: Table, text: string, stack: seq<Filter>)
    ensures ParseText(lib, table, text, stack).Ok? ==> ParseText(lib, table, text, stack).value == StackAtEnd(lib, table, text, stack)
    decreases |text|
  {
    hide ParseText, StackAtEnd, ParseLine, TrimSpace;
    var i := IndexOf(text, '\n');
    ReadNext(lib, table, text, stack);
    var r := ParseLine(lib, table, TrimSpace(text[..i]), stack);
    if r.Ok? && i < |text| {
      StackOfText(lib, table, text[i + 1..], r.value);
    }
  }

  // ------------------------------------------------------- what can be printed

  /** The value survives as the end of one line. */
  predicate LineValue(v: string) {
    '\n' !in v && (v != "" ==> !IsSpace(v[|v| - 1]))
  }

  predicate InternalOp(op: Operator) {
    op in {Contains, ContainsNot, ContainsNoCase, ContainsNoCaseNot}
  }

  /** The fields agree with each other as the column's type asks: a number beside
      its numeral, a tag without blanks beside a custom variable's value, and the
      mark for a missing value exactly where there is none. */
  predicate WellTyped(lib: Lib, t: Test) {
    && t.Test?
    && if IsNumeric(t.column.dataType) then
         && t.customTag == ""
         && t.isEmpty == (t.strValue == "")
         && (if t.op in {Equal, Unequal, Greater, GreaterThan, Less, LessThan} && !t.isEmpty
             then ParseNumber(lib, t.strValue) == Some(t.floatValue) else t.floatValue == 0.0)
       else if t.column.dataType == CustomVarCol then
         && t.floatValue == 0.0
         && t.customTag != "" && ' ' !in t.customTag
         && (t.isEmpty ==> t.strValue == t.customTag)
       else
         t.floatValue == 0.0 && t.customTag == "" && t.isEmpty == (t.strValue == "")
  }

  /** Those are exactly the tests that converting their value text gives back. */
  lemma WellTypedIff(lib: Lib, t: Test)
    requires t.Test?
    ensures SetValue(lib, t.column, t.op, ValueText(t)) == Some(t) <==> WellTyped(lib, t)
  {
    if t.column.dataType == CustomVarCol {
      if t.isEmpty {
        if ' ' !in t.customTag {
          SplitNWhole(t.customTag, ' ', 2);
        } else {
          TagCut(lib, t);
        }
      } else {
        if ' ' !in t.customTag {
          SplitNCons(t.customTag, ' ', t.strValue, 2);
          SplitNOne(t.strValue, ' ');
          assert t.customTag + " " + t.strValue == t.customTag + [' '] + t.strValue;
        } else {
          TagCut(lib, t);
        }
      }
    }
  }

  /** A tag never comes back with a blank in it. */
  lemma TagCut(lib: Lib, t: Test)
    requires t.Test? && t.column.dataType == CustomVarCol && ' ' in t.customTag
    ensures SetValue(lib, t.column, t.op, ValueText(t)) != Some(t)
  {
    var v := ValueText(t);
    var i := IndexOf(v, ' ');
    assert ' ' in v && v[..|v|] == v;
    assert ' ' !in v[..i];
  }

  /** A test the printer writes down without loss. */
  predicate Printable(lib: Lib, table: Table, t: Test) {
    && t.Test?
    && !InternalOp(t.op)
    && Lookup(table, TrimSuffix(t.column.name, "_lc")) == t.column
    && LineValue(ValueText(t))
    && WellTyped(lib, t)
    && (IsRegex(t.op) ==> lib.compiles(Pattern(t.op, t.strValue)))
  }

  /** Every test is printable and no group is negated. */
  ghost predicate Faithful(lib: Lib, table: Table, f: Filter) {
    if f.group == NoGroup then Printable(lib, table, f.test)
    else !f.negate && forall k :: k in f.kids ==> Faithful(lib, table, k)
  }

  // -------------------------------------------------------------- line lemmas

  lemma {:induction false} TrimRightKeeps(s: string)
    requires s == "" || !IsSpace(s[|s| - 1])
    ensures TrimSpaceRight(s) == s
  {
  }

  /** A line that starts and ends with a non-blank is read back unchanged. */
  lemma ParseTextLine(lib: Lib, table: Table, line: string, rest: string, stack: seq<Filter>)
    requires '\n' !in line && line != ""
    requires !IsSpace(line[0]) && !IsSpace(line[|line| - 1])
    ensures ParseText(lib, table, line + "\n" + rest, stack) ==
            var r := ParseLine(lib, table, line, stack);
            if r.Err? then r else ParseText(lib, table, rest, r.value)
  {
    var text := line + "\n" + rest;
    IndexOfFirst(line, '\n', rest);
    assert text[..|line|] == line && text[|line| + 1..] == rest;
    assert TrimSpaceLeft(line) == line;
    TrimRightKeeps(line);
  }

  lemma ParseFilterLine(lib: Lib, table: Table, args: string, stack: seq<Filter>)
    requires args != "" && args[0] != ' '
    ensures ParseLine(lib, table, "Filter: " + args, stack) ==
            var r := ParseTest(lib, table, args);
            if r.Ok? then Ok(stack + [LeafFilter(r.value)]) else Err(r.message)
  {
    var line := "Filter: " + args;
    assert line == "Filter" + [':'] + (" " + args);
    SplitNCons("Filter", ':', " " + args, 2);
    assert SplitN(" " + args, ':', 1) == [" " + args];
    assert (" " + args)[1..] == args;
    assert TrimLeft(" " + args) == TrimLeft(args) == args;
    LowerWords();
  }

  lemma LowerWords()
    ensures LowerAscii("Filter") == "filter" && LowerAscii("And") == "and"
    ensures LowerAscii("Or") == "or" && LowerAscii("Negate") == "negate"
  {
  }

  lemma ParseNegateLine(lib: Lib, table: Table, stack: seq<Filter>)
    ensures ParseLine(lib, table, "Negate:", stack) == ParseNegate(stack)
  {
    assert "Negate:" == "Negate" + [':'] + "";
    SplitNCons("Negate", ':', "", 2);
    assert SplitN("", ':', 1) == [""];
    LowerWords();
  }

  lemma ParseGroupLine(lib: Lib, table: Table, op: GroupOperator, n: nat, stack: seq<Filter>)
    requires op != NoGroup
    ensures ParseLine(lib, table, GroupText(op) + ": " + NatText(n), stack) ==
            if n == 0 then Ok(stack)
            else if n > |stack| then Err("not enough filter on stack")
            else Ok(stack[..|stack| - n] + [GroupFilter(op, stack[|stack| - n..])])
  {
    hide ParseTest, ParseNegate, LowerAscii, SplitN, NatText, Atoi;
    var args := " " + NatText(n);
    assert GroupText(op) + ": " + NatText(n) == GroupText(op) + [':'] + args;
    SplitNCons(GroupText(op), ':', args, 2);
    assert args[1..] == NatText(n);
    assert NatText(n)[0] != ' ' by { assert IsDigit(NatText(n)[0]); }
    assert TrimLeft(args) == TrimLeft(NatText(n)) == NatText(n);
    LowerWords();
    SplitNOne(args, ':');
    IntRoundTrip(n);
    assert IntText(n) == NatText(n);
  }

  lemma OpTextWord(op: Operator)
    ensures ' ' !in OpText(op) && OpText(op) != "" && '\n' !in OpText(op)
    ensures !IsSpace(OpText(op)[|OpText(op)| - 1])
    ensures ParseOp(OpText(op)).Some?
    ensures ParseOp(OpText(op)) == Some(op) <==> !InternalOp(op)
    ensures ParseOp(OpText(op)) == Some(op) || IsRegex(ParseOp(OpText(op)).value)
  {
  }

  /** What the parser reads from a printed test: the printed operator, the
      column found under the printed name, and the value text. */
  lemma ParsePrintedTest(lib: Lib, table: Table, t: Test)
    requires t.Test? && WordName(TrimSuffix(t.column.name, "_lc"))
    ensures var args := TestText(t);
            var op := ParseOp(OpText(t.op)).value;
            ParseTest(lib, table, args) ==
            var u := SetValue(lib, Lookup(table, TrimSuffix(t.column.name, "_lc")), op, ValueText(t));
            if u.None? then Err("could not convert value")
            else if IsRegex(op) && !lib.compiles(Pattern(op, u.value.strValue)) then Err("invalid regular expression")
            else Ok(u.value)
  {
    hide SetValue, Pattern, ParseOp, OpText, ValueText, Lookup, TrimSuffix, SplitN;
    var name, opText, v := TrimSuffix(t.column.name, "_lc"), OpText(t.op), ValueText(t);
    OpTextWord(t.op);
    if v == "" {
      assert TestText(t) == name + [' '] + opText;
      SplitNCons(name, ' ', opText, 3);
      SplitNWhole(opText, ' ', 2);
    } else {
      assert TestText(t) == name + [' '] + (opText + [' '] + v);
      SplitNCons(name, ' ', opText + [' '] + v, 3);
      SplitNCons(opText, ' ', v, 2);
      SplitNOne(v, ' ');
    }
  }

  // ------------------------------------------------ reading a printed forest

  /** Every value fits its line and every printed column name is one word. */
  ghost predicate Clean(f: Filter) {
    if f.group == NoGroup then
      f.test.Test? && LineValue(ValueText(f.test)) && WordName(TrimSuffix(f.test.column.name, "_lc"))
    else forall k :: k in f.kids ==> Clean(k)
  }

  /** Every printed test parses. */
  ghost predicate Readable(lib: Lib, table: Table, f: Filter)
    requires Tree(f)
  {
    if f.group == NoGroup then ParseTest(lib, table, TestText(f.test)).Ok?
    else forall k :: k in f.kids ==> Readable(lib, table, k)
  }

  /** The tree that comes back: tests as reparsed, group negation gone. */
  function Reread(lib: Lib, table: Table, f: Filter): Filter
    requires Tree(f)
    decreases f, 1
  {
    if f.group == NoGroup then
      var r := ParseTest(lib, table, TestText(f.test));
      LeafFilter(if r.Ok? then r.value else NoTest).(negate := f.negate)
    else GroupFilter(f.group, RereadAll(lib, table, f.kids))
  }

  function RereadAll(lib: Lib, table: Table, fs: seq<Filter>): (r: seq<Filter>)
    requires Forest(fs)
    ensures |r| == |fs|
    ensures forall i :: 0 <= i < |fs| ==> r[i] == Reread(lib, table, fs[i])
    decreases fs, 0
  {
    if fs == [] then [] else [Reread(lib, table, fs[0])] + RereadAll(lib, table, fs[1..])
  }

  lemma TestTextLine(t: Test)
    requires t.Test? && LineValue(ValueText(t)) && WordName(TrimSuffix(t.column.name, "_lc"))
    ensures var line := TestText(t);
            '\n' !in line && line != "" && line[0] != ' ' && !IsSpace(line[|line| - 1])
  {
    OpTextWord(t.op);
  }

  /** A printed leaf, with its Negate line, is one push. */
  lemma ReadLeaf(lib: Lib, table: Table, f: Filter, rest: string, stack: seq<Filter>)
    requires Tree(f) && Clean(f) && f.group == NoGroup
    ensures Readable(lib, table, f) ==>
      ParseText(lib, table, Print(f) + rest, stack) == ParseText(lib, table, rest, stack + [Reread(lib, table, f)])
    ensures !Readable(lib, table, f) ==> ParseText(lib, table, Print(f) + rest, stack).Err?
  {
    hide ParseText, ParseLine, ParseTest, TestText;
    var args := TestText(f.test);
    TestTextLine(f.test);
    var line := "Filter: " + args;
    var tail := (if f.negate then "Negate:\n" else "") + rest;
    assert Print(f) + rest == line + "\n" + tail;
    assert line[|line| - 1] == args[|args| - 1];
    ParseTextLine(lib, table, line, tail, stack);
    ParseFilterLine(lib, table, args, stack);
    if Readable(lib, table, f) {
      var pushed := stack + [LeafFilter(ParseTest(lib, table, args).value)];
      if f.negate {
        assert tail == "Negate:" + "\n" + rest;
        ParseTextLine(lib, table, "Negate:", rest, pushed);
        ParseNegateLine(lib, table, pushed);
        assert pushed[|pushed| - 1 := pushed[|pushed| - 1].(negate := true)] == stack + [Reread(lib, table, f)];
      } else {
        assert tail == rest;
      }
    }
  }

  lemma EndsSolid(op: GroupOperator, n: nat)
    requires op != NoGroup
    ensures var line := GroupText(op) + ": " + NatText(n);
            '\n' !in line && !IsSpace(line[0]) && !IsSpace(line[|line| - 1])
  {
    var digits := NatText(n);
    assert IsDigit(digits[|digits| - 1]);
    assert forall i :: 0 <= i < |digits| ==> IsDigit(digits[i]);
  }

  /** Postfix reading: a printed tree is one push of its reread form. */
  lemma {:induction false} ReadTree(lib: Lib, table: Table, f: Filter, rest: string, stack: seq<Filter>)
    requires Tree(f) && Clean(f)
    ensures Readable(lib, table, f) ==>
      ParseText(lib, table, Print(f) + rest, stack) == ParseText(lib, table, rest, stack + [Reread(lib, table, f)])
    ensures !Readable(lib, table, f) ==> ParseText(lib, table, Print(f) + rest, stack).Err?
    decreases f, 1
  {
    hide ParseText, ParseLine, ParseTest, ParseGroup, TestText, PrintAll, RereadAll, NatText, IsSpace;
    if f.group == NoGroup {
      ReadLeaf(lib, table, f, rest, stack);
    } else {
      var line := GroupText(f.group) + ": " + NatText(|f.kids|);
      var tail := line + "\n" + rest;
      assert Print(f) + rest == PrintAll(f.kids) + tail;
      ReadForest(lib, table, f.kids, tail, stack);
      if Readable(lib, table, f) {
        var kids := RereadAll(lib, table, f.kids);
        var pushed := stack + kids;
        EndsSolid(f.group, |f.kids|);
        ParseTextLine(lib, table, line, rest, pushed);
        ParseGroupLine(lib, table, f.group, |f.kids|, pushed);
        assert pushed[..|pushed| - |f.kids|] == stack && pushed[|pushed| - |f.kids|..] == kids;
      }
    }
  }

  lemma {:induction false} ReadForest(lib: Lib, table: Table, fs: seq<Filter>, rest: string, stack: seq<Filter>)
    requires Forest(fs) && forall f :: f in fs ==> Clean(f)
    ensures (forall f :: f in fs ==> Readable(lib, table, f)) ==>
      ParseText(lib, table, PrintAll(fs) + rest, stack) == ParseText(lib, table, rest, stack + RereadAll(lib, table, fs))
    ensures (exists f :: f in fs && !Readable(lib, table, f)) ==> ParseText(lib, table, PrintAll(fs) + rest, stack).Err?
    decreases fs, 0
  {
    hide ParseText, ParseLine, ParseTest, TestText, Clean, Readable, Print, PrintAll, Reread, RereadAll, Tree;
    NoForest(lib, table);
    if fs == [] {
      assert "" + rest == rest && stack + [] == stack;
    } else {
      ForestCons(lib, table, fs);
      var tail := PrintAll(fs[1..]) + rest;
      assert (Print(fs[0]) + PrintAll(fs[1..])) + rest == Print(fs[0]) + tail;
      ReadTree(lib, table, fs[0], tail, stack);
      var head, later := [Reread(lib, table, fs[0])], RereadAll(lib, table, fs[1..]);
      ReadForest(lib, table, fs[1..], rest, stack + head);
      assert (stack + head) + later == stack + (head + later);
    }
  }

  lemma NoForest(lib: Lib, table: Table)
    ensures PrintAll([]) == "" && RereadAll(lib, table, []) == []
  {
  }

  lemma ForestCons(lib: Lib, table: Table, fs: seq<Filter>)
    requires fs != [] && Forest(fs)
    ensures Forest(fs[1..]) && Tree(fs[0])
    ensures PrintAll(fs) == Print(fs[0]) + PrintAll(fs[1..])
    ensures RereadAll(lib, table, fs) == [Reread(lib, table, fs[0])] + RereadAll(lib, table, fs[1..])
    ensures forall f :: f in fs <==> f == fs[0] || f in fs[1..]
  {
  }

  // ------------------------------------------- what a parsed stack looks like

  predicate IsTail(t: string, s: string) {
    |t| <= |s| && t == s[|s| - |t|..]
  }

  lemma {:induction false} SplitNLast(s: string, c: char, n: nat)
    requires n >= 1
    ensures IsTail(SplitN(s, c, n)[|SplitN(s, c, n)| - 1], s)
  {
    var i := IndexOf(s, c);
    if n > 1 && i < |s| {
      SplitNLast(s[i + 1..], c, n - 1);
      TailOfTail(SplitN(s[i + 1..], c, n - 1)[|SplitN(s[i + 1..], c, n - 1)| - 1], s, i + 1);
    }
  }

  lemma TailOfTail(t: string, s: string, i: nat)
    requires i <= |s| && IsTail(t, s[i..])
    ensures IsTail(t, s)
  {
  }

  lemma {:induction false} TrimLeftSuffix(s: string)
    ensures |TrimLeft(s)| <= |s| && TrimLeft(s) == s[|s| - |TrimLeft(s)|..]
  {
    if s != [] && s[0] == ' ' {
      TrimLeftSuffix(s[1..]);
    }
  }

  lemma {:induction false} TrimSpaceLeftSuffix(s: string)
    ensures |TrimSpaceLeft(s)| <= |s| && TrimSpaceLeft(s) == s[|s| - |TrimSpaceLeft(s)|..]
  {
    if s != [] && IsSpace(s[0]) {
      TrimSpaceLeftSuffix(s[1..]);
    }
  }

  lemma {:induction false} TrimSpaceRightPrefix(s: string)
    ensures TrimSpaceRight(s) <= s
    ensures TrimSpaceRight(s) != "" ==> !IsSpace(TrimSpaceRight(s)[|TrimSpaceRight(s)| - 1])
  {
    if s != [] && IsSpace(s[|s| - 1]) {
      TrimSpaceRightPrefix(s[..|s| - 1]);
    }
  }

  /** The value text of a parsed test is the text it was parsed from. */
  lemma SetValueText(lib: Lib, col: Column, op: Operator, v: string)
    requires SetValue(lib, col, op, v).Some?
    ensures var t := SetValue(lib, col, op, v).value;
            t.Test? && ValueText(t) == v && t.column == col && t.op == op
  {
    if col.dataType == CustomVarCol {
      var i := IndexOf(v, ' ');
      assert v == v[..i] + v[i..];
      if i < |v| {
        assert SplitN(v[i + 1..], ' ', 1) == [v[i + 1..]];
        assert v == v[..i] + " " + v[i + 1..];
      }
    }
  }

  /** What the parser leaves: full groups over tests that fit their line and
      their column. */
  ghost predicate AsParsed(lib: Lib, f: Filter) {
    && f.statsType == NoStats && f.statsPos == 0
    && if f.group == NoGroup then f.kids == [] && ParsedTest(lib, f.test)
       else f.test.NoTest? && f.kids != [] && forall k :: k in f.kids ==> AsParsed(lib, k)
  }

  predicate ParsedTest(lib: Lib, t: Test) {
    && WellTyped(lib, t)
    && LineValue(ValueText(t)) && WordName(TrimSuffix(t.column.name, "_lc"))
    && (IsRegex(t.op) ==> lib.compiles(Pattern(t.op, t.strValue)))
  }

  lemma {:induction false} AsParsedTree(lib: Lib, f: Filter)
    requires AsParsed(lib, f)
    ensures Tree(f) && Clean(f)
  {
    forall k | k in f.kids
      ensures Tree(k) && Clean(k)
    {
      AsParsedTree(lib, k);
    }
  }

  /** A line's tail is again free of line breaks and of a final blank. */
  lemma TestAsParsed(lib: Lib, table: Table, args: string)
    requires WordTable(table) && LineValue(args)
    requires ParseTest(lib, table, args).Ok?
    ensures ParsedTest(lib, ParseTest(lib, table, args).value)
  {
    var parts := SplitN(args, ' ', 3);
    var op := ParseOp(parts[1]).value;
    var v := if |parts| == 3 then parts[2] else "";
    SplitNLast(args, ' ', 3);
    SetValueText(lib, Lookup(table, parts[0]), op, v);
    WellTypedIff(lib, ParseTest(lib, table, args).value);
    hide WellTyped;
    assert TrimSuffix("empty", "_lc") == "empty";
  }

  lemma NegateAsParsed(lib: Lib, stack: seq<Filter>)
    requires forall f :: f in stack ==> AsParsed(lib, f)
    ensures var r := ParseNegate(stack);
            r.Ok? ==> forall f :: f in r.value ==> AsParsed(lib, f)
  {
    hide ParsedTest;
    if stack != [] {
      var top := stack[|stack| - 1];
      assert AsParsed(lib, top.(negate := true)) <==> AsParsed(lib, top);
    }
  }

  lemma GroupAsParsed(lib: Lib, op: GroupOperator, args: string, stack: seq<Filter>)
    requires forall f :: f in stack ==> AsParsed(lib, f)
    ensures var r := ParseGroup(op, args, stack);
            op != NoGroup && r.Ok? ==> forall f :: f in r.value ==> AsParsed(lib, f)
  {
    hide ParsedTest;
  }

  lemma ArgsLine(line: string)
    requires LineValue(line) && |SplitN(line, ':', 2)| == 2
    ensures LineValue(TrimLeft(SplitN(line, ':', 2)[1]))
  {
    SplitNLast(line, ':', 2);
    TrimLeftSuffix(SplitN(line, ':', 2)[1]);
  }

  lemma LineAsParsed(lib: Lib, table: Table, line: string, stack: seq<Filter>)
    requires WordTable(table) && LineValue(line)
    requires forall f :: f in stack ==> AsParsed(lib, f)
    ensures var r := ParseLine(lib, table, line, stack);
            r.Ok? ==> forall f :: f in r.value ==> AsParsed(lib, f)
  {
    hide ParseTest, LowerAscii, SplitN, TrimLeft, ParsedTest, ParseNegate, IsTail, LineValue;
    var matched := SplitN(line, ':', 2);
    if |matched| == 2 {
      var args := TrimLeft(matched[1]);
      ArgsLine(line);
      forall op: GroupOperator {
        GroupAsParsed(lib, op, args, stack);
      }
      if ParseTest(lib, table, args).Ok? {
        TestAsParsed(lib, table, args);
        assert AsParsed(lib, LeafFilter(ParseTest(lib, table, args).value));
      }
      hide AsParsed;
      NegateAsParsed(lib, stack);
    }
  }

  /** Whatever the parser accepts leaves only such filters on the stack. */
  lemma {:induction false} TextAsParsed(lib: Lib, table: Table, text: string, stack: seq<Filter>)
    requires WordTable(table)
    requires forall f :: f in stack ==> AsParsed(lib, f)
    ensures var r := ParseText(lib, table, text, stack);
            r.Ok? ==> forall f :: f in r.value ==> AsParsed(lib, f)
    decreases |text|
  {
    hide ParseLine, ParseTest, AsParsed, TrimSpaceLeft, TrimSpaceRight;
    var i := IndexOf(text, '\n');
    var line := TrimSpace(text[..i]);
    TrimSpaceLeftSuffix(text[..i]);
    TrimSpaceRightPrefix(TrimSpaceLeft(text[..i]));
    if line != "" {
      LineAsParsed(lib, table, line, stack);
      var r := ParseLine(lib, table, line, stack);
      if r.Ok? && i < |text| {
        TextAsParsed(lib, table, text[i + 1..], r.value);
      }
    }
  }

  // -------------------------------------------------------------- round trip

  /** A leaf comes back as itself exactly when its test is printable. */
  lemma LeafSurvives(lib: Lib, table: Table, f: Filter)
    requires WordTable(table) && Tree(f) && Clean(f) && f.group == NoGroup
    ensures Readable(lib, table, f) && Reread(lib, table, f) == f <==> Printable(lib, table, f.test)
  {
    var t := f.test;
    WellTypedIff(lib, t);
    hide WellTyped;
    OpTextWord(t.op);
    ParsePrintedTest(lib, table, t);
    var op := ParseOp(OpText(t.op)).value;
    var col := Lookup(table, TrimSuffix(t.column.name, "_lc"));
    if SetValue(lib, col, op, ValueText(t)).Some? {
      SetValueText(lib, col, op, ValueText(t));
    }
  }

  /** A tree comes back as itself exactly when all its tests are printable and
      none of its groups is negated. */
  lemma {:induction false} TreeSurvives(lib: Lib, table: Table, f: Filter)
    requires WordTable(table) && Tree(f) && Clean(f)
    ensures Readable(lib, table, f) && Reread(lib, table, f) == f <==> Faithful(lib, table, f)
  {
    if f.group == NoGroup {
      LeafSurvives(lib, table, f);
    } else {
      forall k | k in f.kids
        ensures Readable(lib, table, k) && Reread(lib, table, k) == k <==> Faithful(lib, table, k)
      {
        TreeSurvives(lib, table, k);
      }
      var r := RereadAll(lib, table, f.kids);
      if forall k :: k in f.kids ==> Reread(lib, table, k) == k {
        assert r == f.kids;
      }
      if r == f.kids {
        forall k | k in f.kids
          ensures Reread(lib, table, k) == k
        {
          var i :| 0 <= i < |f.kids| && f.kids[i] == k;
          assert r[i] == Reread(lib, table, f.kids[i]);
        }
      }
    }
  }

  lemma {:induction false} FaithfulClean(lib: Lib, table: Table, f: Filter)
    requires WordTable(table) && Tree(f) && Faithful(lib, table, f)
    ensures Clean(f)
  {
    if f.group == NoGroup {
      assert TrimSuffix("empty", "_lc") == "empty";
    } else {
      forall k | k in f.kids
        ensures Clean(k)
      {
        FaithfulClean(lib, table, k);
      }
    }
  }

  lemma ForestSurvives(lib: Lib, table: Table, fs: seq<Filter>)
    requires WordTable(table) && Forest(fs) && forall f :: f in fs ==> Clean(f)
    ensures (forall f :: f in fs ==> Readable(lib, table, f)) && RereadAll(lib, table, fs) == fs
       <==> forall f :: f in fs ==> Faithful(lib, table, f)
  {
    hide Clean, Readable, Reread, Faithful, Tree, RereadAll;
    forall f | f in fs
      ensures Readable(lib, table, f) && Reread(lib, table, f) == f <==> Faithful(lib, table, f)
    {
      TreeSurvives(lib, table, f);
    }
    var again := RereadAll(lib, table, fs);
    assert again == fs <==> forall f :: f in fs ==> Reread(lib, table, f) == f by {
      SamePointwise(lib, table, fs);
    }
  }

  lemma SamePointwise(lib: Lib, table: Table, fs: seq<Filter>)
    requires Forest(fs)
    ensures RereadAll(lib, table, fs) == fs <==> forall f :: f in fs ==> Reread(lib, table, f) == f
  {
    hide Reread, RereadAll, Tree;
    var again := RereadAll(lib, table, fs);
    if again == fs {
      forall f | f in fs
        ensures Reread(lib, table, f) == f
      {
        var i :| 0 <= i < |fs| && fs[i] == f;
        assert again[i] == Reread(lib, table, fs[i]);
      }
    }
    if forall f :: f in fs ==> Reread(lib, table, f) == f {
      forall i | 0 <= i < |fs|
        ensures again[i] == fs[i]
      {
        assert fs[i] in fs;
      }
    }
  }

  /** Reading back a clean forest: the reread trees, or an error. */
  lemma ReadBack(lib: Lib, table: Table, fs: seq<Filter>)
    requires Forest(fs) && forall f :: f in fs ==> Clean(f)
    ensures ParseText(lib, table, PrintAll(fs), []) == Ok(fs)
       <==> (forall f :: f in fs ==> Readable(lib, table, f)) && RereadAll(lib, table, fs) == fs
  {
    hide ParseLine, PrintAll, Clean, Readable, Reread, Tree, RereadAll;
    var again := RereadAll(lib, table, fs);
    ReadForest(lib, table, fs, "", []);
    assert PrintAll(fs) + "" == PrintAll(fs);
    assert [] + again == again;
    assert ParseText(lib, table, "", again) == Ok(again);
  }

  /** Printing a forest and parsing the text rebuilds it exactly when every
      test is printable and no group is negated. */
  lemma RoundTripExact(lib: Lib, table: Table, forest: seq<Filter>)
    requires WordTable(table) && Forest(forest)
    ensures ParseText(lib, table, PrintAll(forest), []) == Ok(forest)
       <==> forall f :: f in forest ==> Faithful(lib, table, f)
  {
    hide ParseText, PrintAll, Clean, Readable, Faithful, Tree, RereadAll, AsParsed;
    if ParseText(lib, table, PrintAll(forest), []) == Ok(forest) {
      TextAsParsed(lib, table, PrintAll(forest), []);
      forall f | f in forest
        ensures Clean(f)
      {
        AsParsedTree(lib, f);
      }
      ReadBack(lib, table, forest);
      ForestSurvives(lib, table, forest);
    }
    if forall f :: f in forest ==> Faithful(lib, table, f) {
      forall f | f in forest
        ensures Clean(f)
      {
        FaithfulClean(lib, table, f);
      }
      ReadBack(lib, table, forest);
      ForestSurvives(lib, table, forest);
    }
  }

  /** What can keep a parsed filter from being printed and read again: an
      operator the parser has no word for, a column not found under its printed
      name, a negated group. */
  ghost predicate Reprintable(table: Table, f: Filter) {
    if f.group == NoGroup then
      f.test.Test? && !InternalOp(f.test.op) && Lookup(table, TrimSuffix(f.test.column.name, "_lc")) == f.test.column
    else !f.negate && forall k :: k in f.kids ==> Reprintable(table, k)
  }

  lemma {:induction false} ParsedFaithful(lib: Lib, table: Table, f: Filter)
    requires AsParsed(lib, f)
    ensures Faithful(lib, table, f) <==> Reprintable(table, f)
  {
    hide WellTyped, LineValue, InternalOp, Lookup, Pattern, ValueText, TrimSuffix;
    forall k | k in f.kids
      ensures Faithful(lib, table, k) <==> Reprintable(table, k)
    {
      ParsedFaithful(lib, table, k);
    }
  }

  /** Text that was accepted once: printing what it parsed to and parsing that
      gives the same filters, exactly when they are reprintable. */
  lemma ReparseExact(lib: Lib, table: Table, text: string)
    requires WordTable(table) && ParseText(lib, table, text, []).Ok?
    ensures var fs := ParseText(lib, table, text, []).value;
            && Forest(fs)
            && (ParseText(lib, table, PrintAll(fs), []) == Ok(fs) <==> forall f :: f in fs ==> Reprintable(table, f))
  {
    hide ParseText, PrintAll, Clean, Faithful, Tree, AsParsed, Reprintable;
    var fs := ParseText(lib, table, text, []).value;
    TextAsParsed(lib, table, text, []);
    forall f | f in fs
      ensures Tree(f) && (Faithful(lib, table, f) <==> Reprintable(table, f))
    {
      AsParsedTree(lib, f);
      ParsedFaithful(lib, table, f);
    }
    RoundTripExact(lib, table, fs);
  }

  // ------------------------------------------------------ the imperative form

  /** Writes a filter out, appending its parts one by one. */
  method FilterString(f: Filter) returns (str: string)
    requires Tree(f)
    ensures str == Print(f)
    decreases f
  {
    hide PrintAll, TestText, NatText;
    str := "";
    if f.group != NoGroup {
      assert f.kids[0..] == f.kids;
      for i := 0 to |f.kids|
        invariant str + PrintAll(f.kids[i..]) == PrintAll(f.kids)
      {
        PrintNext(f.kids, i);
        var part := FilterString(f.kids[i]);
        assert (str + part) + PrintAll(f.kids[i + 1..]) == str + (part + PrintAll(f.kids[i + 1..]));
        str := str + part;
      }
      PrintNothing(f.kids);
      return str + GroupText(f.group) + ": " + NatText(|f.kids|) + "\n";
    }
    str := "Filter: " + TestText(f.test) + "\n";
    if f.negate {
      str := str + "Negate:\n";
    }
  }

  lemma PrintNext(fs: seq<Filter>, i: nat)
    requires Forest(fs) && i < |fs|
    ensures PrintAll(fs[i..]) == Print(fs[i]) + PrintAll(fs[i + 1..])
  {
    hide Print;
    assert fs[i..][1..] == fs[i + 1..];
  }

  lemma PrintNothing(fs: seq<Filter>)
    ensures PrintAll(fs[|fs|..]) == ""
  {
  }

  /** A request under construction: the filter headers work on its stack. */
  class Request {
    var filter: seq<Filter>

    constructor ()
      ensures filter == []
    {
      filter := [];
    }

    /** Unpacks a single outer conjunction; every row still passes or fails as before. */
    method OptimizeFilterIndentation()
      modifies this
      ensures forall holds :: MatchAll(holds, filter) == MatchAll(holds, old(filter))
      ensures !(|filter| == 1 && filter[0].kids != [] && filter[0].group == And)
    {
      while |filter| == 1 && |filter[0].kids| > 0 && filter[0].group == And
        invariant forall holds :: MatchAll(holds, filter) == MatchAll(holds, old(filter))
        decreases filter
      {
        ghost var before := filter;
        filter := filter[0].kids;
        assert forall holds :: MatchAll(holds, before) == Match(holds, before[0]) by {
          assert before == [before[0]];
        }
      }
    }

    /** One header line; a line in error leaves the stack alone. */
    method ParseHeaderLine(lib: Lib, table: Table, line: string) returns (ok: bool)
      modifies this
      ensures ok == ParseLine(lib, table, line, old(filter)).Ok?
      ensures filter == if ok then ParseLine(lib, table, line, old(filter)).value else old(filter)
    {
      var matched := SplitN(line, ':', 2);
      if |matched| != 2 {
        return false;
      }
      var args := TrimLeft(matched[1]);
      var header := LowerAscii(matched[0]);
      if header == "filter" {
        var r := ParseTest(lib, table, args);
        if r.Err? {
          return false;
        }
        filter := filter + [LeafFilter(r.value)];
        return true;
      } else if header == "and" || header == "or" {
        ok := FoldTop(if header == "and" then And else Or, args);
      } else if header == "negate" {
        if |filter| == 0 {
          return false;
        }
        filter := filter[|filter| - 1 := filter[|filter| - 1].(negate := true)];
        return true;
      } else {
        return false;
      }
    }

    method FoldTop(op: GroupOperator, value: string) returns (ok: bool)
      modifies this
      ensures ok == ParseGroup(op, value, old(filter)).Ok?
      ensures filter == if ok then ParseGroup(op, value, old(filter)).value else old(filter)
    {
      var num := Atoi(value);
      if num.None? || num.value < 0 {
        return false;
      }
      if num.value == 0 {
        return true;
      }
      if |filter| < num.value {
        return false;
      }
      var split := |filter| - num.value;
      var grouped, remaining := filter[split..], filter[..split];
      filter := remaining + [GroupFilter(op, grouped)];
      return true;
    }

    /** Reads header lines until a blank line, the end of the text or an error. */
    method ReadHeaders(lib: Lib, table: Table, text: string) returns (ok: bool)
      modifies this
      ensures ok == ParseText(lib, table, text, old(filter)).Ok?
      ensures filter == StackAtEnd(lib, table, text, old(filter))
      ensures ok ==> filter == ParseText(lib, table, text, old(filter)).value
    {
      hide ParseText, StackAtEnd, ParseLine, TrimSpace;
      StackOfText(lib, table, text, filter);
      var pos := 0;
      assert text[0..] == text;
      while true
        invariant pos <= |text|
        invariant ParseText(lib, table, text[pos..], filter) == ParseText(lib, table, text, old(filter))
        invariant StackAtEnd(lib, table, text[pos..], filter) == StackAtEnd(lib, table, text, old(filter))
        decreases |text| - pos
      {
        var rest := text[pos..];
        ReadNext(lib, table, rest, filter);
        var i := IndexOf(rest, '\n');
        var line := TrimSpace(rest[..i]);
        if |line| == 0 {
          return true;
        }
        ok := ParseHeaderLine(lib, table, line);
        if !ok || i == |rest| {
          return;
        }
        assert rest[i + 1..] == text[pos + i + 1..];
        pos := pos + i + 1;
      }
    }
  }
}
