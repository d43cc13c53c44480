/** Filters and how they match cached rows. */
module Filters {
  import opened Text
  import Ordering

  datatype DataType =
    | StringCol | StringListCol | IntCol | Int64Col | Int64ListCol | FloatCol | JSONCol
    | CustomVarCol | ServiceMemberListCol | InterfaceListCol | StringLargeCol

  datatype Column = Column(name: string, dataType: DataType)

  datatype Operator =
    | Equal | Unequal | EqualNocase | UnequalNocase
    | RegexMatch | RegexMatchNot | RegexNoCaseMatch | RegexNoCaseMatchNot
    | Contains | ContainsNot | ContainsNoCase | ContainsNoCaseNot
    | Less | LessThan | Greater | GreaterThan
    | GroupContainsNot

  datatype GroupOperator = NoGroup | And | Or

  datatype StatsType = NoStats | Counter | Sum | Average | Min | Max | StatsGroup

  /** The comparison a single filter makes. A group filter makes none. */
  datatype Test =
    | NoTest
    | Test(column: Column, op: Operator, strValue: string, floatValue: real, customTag: string, isEmpty: bool)

  /** The tables with an index of their own, and all others. */
  datatype TableName = Hosts | Services | OtherTable

  /** A filter is a single test or a group of filters; stats counters are
      filters too and then carry the slot they count into. */
  datatype Filter = Filter(
    test: Test, negate: bool,
    group: GroupOperator, kids: seq<Filter>,
    statsType: StatsType, statsPos: nat)

  function LeafFilter(test: Test): Filter {
    Filter(test, false, NoGroup, [], NoStats, 0)
  }

  function GroupFilter(op: GroupOperator, kids: seq<Filter>): Filter {
    Filter(NoTest, false, op, kids, NoStats, 0)
  }

  // ------------------------------------------------------- matching, in shape

  /** Evaluates a filter tree over the outcome of its single tests. Group
      negation plays no part. */
  predicate Match(holds: Test -> bool, f: Filter) {
    match f.group
    case And => forall k :: k in f.kids ==> Match(holds, k)
    case Or => exists k :: k in f.kids && Match(holds, k)
    case NoGroup => holds(f.test) != f.negate
  }

  /** A request's filter list is a conjunction. */
  predicate MatchAll(holds: Test -> bool, filters: seq<Filter>) {
    forall f :: f in filters ==> Match(holds, f)
  }

  predicate MatchAny(holds: Test -> bool, filters: seq<Filter>) {
    exists f :: f in filters && Match(holds, f)
  }

  // ------------------------------------------------------- matching, on rows

  datatype Value =
    | StrVal(s: string)
    | ListVal(items: seq<string>)
    | IntVal(i: int)
    | FloatVal(r: real)
    | IntsVal(ints: seq<int>)
    | VarsVal(vars: map<string, string>)

  /** A cached row: its cells by column name. */
  datatype Row = Row(cells: map<string, Value>) {
    function Get(name: string): Value {
      if name in cells then cells[name] else StrVal("")
    }

    function GetString(name: string): string {
      match Get(name) case StrVal(s) => s case _ => ""
    }

    function GetList(name: string): seq<string> {
      match Get(name) case ListVal(l) => l case _ => []
    }

    function GetInt(name: string): int {
      match Get(name) case IntVal(i) => i case FloatVal(r) => Trunc(r) case _ => 0
    }

    function GetFloat(name: string): real {
      match Get(name) case IntVal(i) => i as real case FloatVal(r) => r case _ => 0.0
    }

    function GetInts(name: string): seq<int> {
      match Get(name) case IntsVal(l) => l case _ => []
    }

    function GetVar(name: string, tag: string): string {
      match Get(name)
      case VarsVal(m) => if tag in m then m[tag] else ""
      case _ => ""
    }
  }

  /** The cell holds this number, whole or with a fraction. */
  ghost predicate HasNumber(row: Row, name: string, x: real) {
    name in row.cells && (row.cells[name] == FloatVal(x) || exists i: int :: row.cells[name] == IntVal(i) && x == i as real)
  }

  /** Conversion to an integer drops the fraction. */
  function Trunc(r: real): int {
    if r >= 0.0 then r.Floor else -((-r).Floor)
  }

  /** The library routines behind matching, none of which this model looks into. */
  datatype Lib = Lib(
    parseFloat: string -> Option<real>,     // number literals other than plain decimals
    compiles: string -> bool,               // is this a regular expression?
    regex: (string, string) -> bool,        // does pattern match text?
    lower: string -> string,                // to lower case
    equalFold: (string, string) -> bool,    // case-insensitive equality
    floatText: real -> string)              // a float as text

  predicate HasSubstring(s: string, sub: string) {
    sub <= s || (s != [] && HasSubstring(s[1..], sub))
  }

  /** The pattern a regular expression filter compiles. */
  function Pattern(op: Operator, value: string): string {
    var v := if |value| >= 2 && value[..2] == ".*" then value[2..] else value;
    var w := TrimSuffix(v, ".*");
    if op == RegexNoCaseMatch || op == RegexNoCaseMatchNot then "(?i)" + w else w
  }

  predicate MatchString(lib: Lib, t: Test, value: string)
    requires t.Test?
  {
    match t.op
    case Equal => value == t.strValue
    case Unequal => value != t.strValue
    case EqualNocase => lib.equalFold(value, t.strValue)
    case UnequalNocase => !lib.equalFold(value, t.strValue)
    case RegexMatch => lib.regex(Pattern(t.op, t.strValue), value)
    case RegexNoCaseMatch => lib.regex(Pattern(t.op, t.strValue), value)
    case RegexMatchNot => !lib.regex(Pattern(t.op, t.strValue), value)
    case RegexNoCaseMatchNot => !lib.regex(Pattern(t.op, t.strValue), value)
    case Less => Ordering.StrLess(value, t.strValue)
    case LessThan => !Ordering.StrLess(t.strValue, value)
    case Greater => Ordering.StrLess(t.strValue, value)
    case GreaterThan => !Ordering.StrLess(value, t.strValue)
    case Contains => HasSubstring(value, t.strValue)
    case ContainsNot => !HasSubstring(value, t.strValue)
    case ContainsNoCase => HasSubstring(lib.lower(value), t.strValue)
    case ContainsNoCaseNot => !HasSubstring(lib.lower(value), t.strValue)
    case GroupContainsNot => false
  }

  predicate MatchStringList(lib: Lib, t: Test, list: seq<string>)
    requires t.Test?
  {
    match t.op
    case Equal => t.strValue == "" && list == []
    case Unequal => t.strValue == "" && list != []
    case GreaterThan => t.strValue in list
    case GroupContainsNot => t.strValue !in list
    case LessThan => t.strValue !in list
    case RegexMatch => exists v :: v in list && MatchString(lib, t, v)
    case RegexNoCaseMatch => exists v :: v in list && MatchString(lib, t, v)
    case Contains => exists v :: v in list && MatchString(lib, t, v)
    case ContainsNoCase => exists v :: v in list && MatchString(lib, t, v)
    case RegexMatchNot => forall v :: v in list ==> MatchString(lib, t, v)
    case RegexNoCaseMatchNot => forall v :: v in list ==> MatchString(lib, t, v)
    case ContainsNot => forall v :: v in list ==> MatchString(lib, t, v)
    case ContainsNoCaseNot => forall v :: v in list ==> MatchString(lib, t, v)
    case _ => false
  }

  predicate MatchInt(lib: Lib, t: Test, value: int)
    requires t.Test?
  {
    var v := Trunc(t.floatValue);
    match t.op
    case Equal => value == v
    case Unequal => value != v
    case Less => value < v
    case LessThan => value <= v
    case Greater => value > v
    case GreaterThan => value >= v
    case _ => MatchString(lib, t, IntText(value))
  }

  predicate MatchFloat(lib: Lib, t: Test, value: real)
    requires t.Test?
  {
    match t.op
    case Equal => value == t.floatValue
    case Unequal => value != t.floatValue
    case Less => value < t.floatValue
    case LessThan => value <= t.floatValue
    case Greater => value > t.floatValue
    case GreaterThan => value >= t.floatValue
    case _ => MatchString(lib, t, lib.floatText(value))
  }

  predicate MatchInt64List(t: Test, list: seq<int>)
    requires t.Test?
  {
    match t.op
    case Equal => t.isEmpty && list == []
    case Unequal => t.isEmpty && list != []
    case GreaterThan => Trunc(t.floatValue) in list
    case GroupContainsNot => Trunc(t.floatValue) !in list
    case _ => false
  }

  /** A number compared against nothing. */
  predicate MatchEmpty(op: Operator) {
    op in {Unequal, Greater, GreaterThan}
  }

  /** One test against one row. */
  predicate Holds(lib: Lib, row: Row, t: Test) {
    if t.NoTest? then false else
    match t.column.dataType
    case StringCol => MatchString(lib, t, row.GetString(t.column.name))
    case StringLargeCol => MatchString(lib, t, row.GetString(t.column.name))
    case JSONCol => MatchString(lib, t, row.GetString(t.column.name))
    case StringListCol => MatchStringList(lib, t, row.GetList(t.column.name))
    case IntCol => if t.isEmpty then MatchEmpty(t.op) else MatchInt(lib, t, row.GetInt(t.column.name))
    case Int64Col => if t.isEmpty then MatchEmpty(t.op) else MatchInt(lib, t, row.GetInt(t.column.name))
    case FloatCol => if t.isEmpty then MatchEmpty(t.op) else MatchFloat(lib, t, row.GetFloat(t.column.name))
    case Int64ListCol => MatchInt64List(t, row.GetInts(t.column.name))
    case CustomVarCol => MatchString(lib, t, row.GetVar(t.column.name, t.customTag))
    case ServiceMemberListCol => false
    case InterfaceListCol => false
  }

  /** The outcomes of all tests on a row. */
  function OnRow(lib: Lib, row: Row): Test -> bool {
    t => Holds(lib, row, t)
  }

  predicate MatchFilter(lib: Lib, row: Row, f: Filter) {
    Match(OnRow(lib, row), f)
  }

  predicate MatchRow(lib: Lib, row: Row, filters: seq<Filter>) {
    MatchAll(OnRow(lib, row), filters)
  }
}
