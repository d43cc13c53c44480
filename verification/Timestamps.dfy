/** Compressing a set of timestamps into filter lines: runs of consecutive
    values become ranges, and the lines, read by the filter parser, match
    exactly the rows whose attribute is in the set. */
module Timestamps {
  import opened Text
  import opened Filters
  import opened FilterText
  import opened Lists

  /** A run of consecutive timestamps; start -1 means no run is open. */
  datatype Block = Block(start: int, end: int)

  const NO_BLOCK := Block(-1, -1)

  function Blocks(ts: seq<int>, open: Block): seq<Block> {
    if ts == [] then (if open.start == -1 then [] else [open])
    else if open.start == -1 then Blocks(ts[1..], Block(ts[0], ts[0]))
    else if open.end == ts[0] - 1 then Blocks(ts[1..], Block(open.start, ts[0]))
    else [open] + Blocks(ts[1..], Block(ts[0], ts[0]))
  }

  function BlockText(attribute: string, b: Block): string {
    if b.start == b.end then "Filter: " + attribute + " = " + IntText(b.start) + "\n"
    else "Filter: " + attribute + " >= " + IntText(b.start) + "\n" +
         "Filter: " + attribute + " <= " + IntText(b.end) + "\n" +
         "And: 2\n"
  }

  function BlockTexts(attribute: string, blocks: seq<Block>): (r: seq<string>)
    ensures |r| == |blocks|
  {
    if blocks == [] then [] else [BlockText(attribute, blocks[0])] + BlockTexts(attribute, blocks[1..])
  }

  function Compose(ts: seq<int>, attribute: string): seq<string> {
    var texts := BlockTexts(attribute, Blocks(ts, NO_BLOCK));
    if |texts| > 1 then texts + ["Or: " + NatText(|texts|) + "\n"] else texts
  }

  /** The loop with its one open run. */
  method ComposeTimestampFilter(timestamps: seq<int>, attribute: string) returns (filter: seq<string>)
    ensures filter == Compose(timestamps, attribute)
  {
    hide BlockText, BlockTexts, Blocks;
    filter := [];
    var block := NO_BLOCK;
    assert timestamps[0..] == timestamps;
    for i := 0 to |timestamps|
      invariant filter + BlockTexts(attribute, Blocks(timestamps[i..], block)) ==
                BlockTexts(attribute, Blocks(timestamps, NO_BLOCK))
    {
      var ts := timestamps[i];
      BlocksNext(timestamps, i, block);
      if block.start == -1 {
        block := Block(ts, ts);
      } else if block.end == ts - 1 {
        block := Block(block.start, ts);
      } else {
        BlockTextsCons(attribute, block, Blocks(timestamps[i + 1..], Block(ts, ts)));
        filter := filter + [BlockText(attribute, block)];
        block := Block(ts, ts);
      }
    }
    assert timestamps[|timestamps|..] == [];
    BlocksEnd(attribute, block);
    if block.start != -1 {
      filter := filter + [BlockText(attribute, block)];
    }
    if |filter| > 1 {
      filter := filter + ["Or: " + NatText(|filter|) + "\n"];
    }
  }

  lemma BlocksNext(ts: seq<int>, i: nat, open: Block)
    requires i < |ts|
    ensures Blocks(ts[i..], open) ==
            if open.start == -1 then Blocks(ts[i + 1..], Block(ts[i], ts[i]))
            else if open.end == ts[i] - 1 then Blocks(ts[i + 1..], Block(open.start, ts[i]))
            else [open] + Blocks(ts[i + 1..], Block(ts[i], ts[i]))
  {
    assert ts[i..][1..] == ts[i + 1..];
  }

  lemma BlocksEnd(attribute: string, open: Block)
    ensures BlockTexts(attribute, Blocks([], open)) == if open.start == -1 then [] else [BlockText(attribute, open)]
  {
    hide BlockText;
  }

  lemma BlockTextsCons(attribute: string, b: Block, rest: seq<Block>)
    ensures BlockTexts(attribute, [b] + rest) == [BlockText(attribute, b)] + BlockTexts(attribute, rest)
  {
    assert ([b] + rest)[1..] == rest;
  }

  // ------------------------------------------------- the lines as filter trees

  /** A 64 bit integer column the table knows under its own name. */
  predicate Attribute(table: Table, col: Column) {
    && col.dataType == Int64Col
    && !HasSuffix(col.name, "_lc")
    && col.name in table && table[col.name] == col
  }

  function IntFilter(col: Column, op: Operator, n: int): Filter {
    LeafFilter(Test(col, op, IntText(n), n as real, "", false))
  }

  function BlockFilter(col: Column, b: Block): Filter {
    if b.start == b.end then IntFilter(col, Equal, b.start)
    else RangeFilter(col, b)
  }

  function BlockFilters(col: Column, blocks: seq<Block>): (r: seq<Filter>)
    ensures |r| == |blocks|
    ensures forall i :: 0 <= i < |blocks| ==> r[i] == BlockFilter(col, blocks[i])
  {
    if blocks == [] then [] else [BlockFilter(col, blocks[0])] + BlockFilters(col, blocks[1..])
  }

  function Program(col: Column, blocks: seq<Block>): Filter
    requires blocks != []
  {
    if |blocks| == 1 then BlockFilter(col, blocks[0]) else GroupFilter(Or, BlockFilters(col, blocks))
  }

  lemma IntTextLine(n: int)
    ensures LineValue(IntText(n)) && IntText(n) != ""
  {
    var s := IntText(n);
    var digits := NatText(if n < 0 then -n else n);
    assert s[|s| - 1] == digits[|digits| - 1];
    assert IsDigit(digits[|digits| - 1]);
    assert forall i :: 0 <= i < |digits| ==> IsDigit(digits[i]);
  }

  lemma IntFilterFaithful(lib: Lib, table: Table, col: Column, op: Operator, n: int)
    requires Attribute(table, col) && op in {Equal, GreaterThan, LessThan}
    ensures Tree(IntFilter(col, op, n)) && Faithful(lib, table, IntFilter(col, op, n))
  {
    hide IntText, Print;
    IntTextLine(n);
    IntRoundTrip(n);
  }

  lemma IntFilterPrint(table: Table, col: Column, op: Operator, n: int)
    requires Attribute(table, col) && op in {Equal, GreaterThan, LessThan}
    ensures Tree(IntFilter(col, op, n))
    ensures Print(IntFilter(col, op, n)) == "Filter: " + col.name + " " + OpText(op) + " " + IntText(n) + "\n"
  {
    hide IntText;
    IntTextLine(n);
  }

  lemma PrintPair(a: Filter, b: Filter)
    requires Tree(a) && Tree(b)
    ensures Tree(GroupFilter(And, [a, b]))
    ensures Print(GroupFilter(And, [a, b])) == Print(a) + Print(b) + "And: 2\n"
  {
    hide Print;
    var pair := GroupFilter(And, [a, b]);
    assert [a, b][1..] == [b] && [b][1..] == [];
    assert PrintAll([b]) == Print(b) + PrintAll([]);
    assert PrintAll([a, b]) == Print(a) + PrintAll([b]);
    PrintGroup(pair);
    assert NatText(2) == "2";
  }

  lemma PrintGroup(f: Filter)
    requires Tree(f) && f.group != NoGroup
    ensures Print(f) == PrintAll(f.kids) + GroupText(f.group) + ": " + NatText(|f.kids|) + "\n"
  {
  }

  lemma BlockFaithful(lib: Lib, table: Table, col: Column, b: Block)
    requires Attribute(table, col)
    ensures Tree(BlockFilter(col, b)) && Faithful(lib, table, BlockFilter(col, b))
    ensures Print(BlockFilter(col, b)) == BlockText(col.name, b)
  {
    if b.start == b.end {
      hide Print, IntText, Printable, Attribute, Tree, Faithful;
      IntFilterFaithful(lib, table, col, Equal, b.start);
      IntFilterPrint(table, col, Equal, b.start);
    } else {
      RangeFaithful(lib, table, col, b);
      RangePrint(table, col, b);
    }
  }

  function RangeFilter(col: Column, b: Block): Filter {
    GroupFilter(And, [IntFilter(col, GreaterThan, b.start), IntFilter(col, LessThan, b.end)])
  }

  lemma RangeFaithful(lib: Lib, table: Table, col: Column, b: Block)
    requires Attribute(table, col)
    ensures Tree(RangeFilter(col, b)) && Faithful(lib, table, RangeFilter(col, b))
  {
    hide Printable, Attribute, IntText, IntFilter;
    IntFilterFaithful(lib, table, col, GreaterThan, b.start);
    IntFilterFaithful(lib, table, col, LessThan, b.end);
  }

  lemma RangePrint(table: Table, col: Column, b: Block)
    requires Attribute(table, col) && b.start != b.end
    ensures Tree(RangeFilter(col, b)) && Print(RangeFilter(col, b)) == BlockText(col.name, b)
  {
    hide Print, IntText, Attribute, IntFilter, Tree;
    IntFilterPrint(table, col, GreaterThan, b.start);
    IntFilterPrint(table, col, LessThan, b.end);
    PrintPair(IntFilter(col, GreaterThan, b.start), IntFilter(col, LessThan, b.end));
  }

  lemma {:induction false} BlocksText(lib: Lib, table: Table, col: Column, blocks: seq<Block>)
    requires Attribute(table, col)
    ensures Forest(BlockFilters(col, blocks))
    ensures forall f :: f in BlockFilters(col, blocks) ==> Faithful(lib, table, f)
    ensures PrintAll(BlockFilters(col, blocks)) == Concat(BlockTexts(col.name, blocks))
  {
    hide BlockFilter, BlockText, Print, Tree, Faithful;
    if blocks != [] {
      BlockFaithful(lib, table, col, blocks[0]);
      BlocksText(lib, table, col, blocks[1..]);
      assert BlockFilters(col, blocks)[1..] == BlockFilters(col, blocks[1..]);
      assert BlockTexts(col.name, blocks)[1..] == BlockTexts(col.name, blocks[1..]);
      assert forall f :: f in BlockFilters(col, blocks) ==>
        f == BlockFilter(col, blocks[0]) || f in BlockFilters(col, blocks[1..]);
    }
  }

  /** The composed lines are the printed form of one filter. */
  lemma ComposedText(lib: Lib, table: Table, col: Column, blocks: seq<Block>)
    requires Attribute(table, col) && blocks != []
    ensures Tree(Program(col, blocks)) && Faithful(lib, table, Program(col, blocks))
    ensures Print(Program(col, blocks)) ==
            Concat(BlockTexts(col.name, blocks)) + (if |blocks| > 1 then "Or: " + NatText(|blocks|) + "\n" else "")
  {
    hide BlockFilter, BlockText, NatText;
    BlocksText(lib, table, col, blocks);
    BlockFaithful(lib, table, col, blocks[0]);
    if |blocks| == 1 {
      assert BlockTexts(col.name, blocks)[1..] == [];
      assert Concat(BlockTexts(col.name, blocks)) == BlockText(col.name, blocks[0]) + Concat([]);
    }
  }

  lemma PrintOne(f: Filter)
    requires Tree(f)
    ensures PrintAll([f]) == Print(f)
  {
    hide Print;
    assert [f][1..] == [];
    assert PrintAll([f]) == Print(f) + PrintAll([]);
  }

  /** Reading the composed lines leaves exactly the one filter they stand for. */
  lemma ComposedParse(lib: Lib, table: Table, col: Column, ts: seq<int>)
    requires WordTable(table) && Attribute(table, col)
    ensures var blocks := Blocks(ts, NO_BLOCK);
            ParseText(lib, table, Concat(Compose(ts, col.name)), []) ==
            Ok(if blocks == [] then [] else [Program(col, blocks)])
  {
    hide BlockFilter, BlockText, NatText, Program, Tree, Faithful, ParseLine, Blocks, Print;
    var blocks := Blocks(ts, NO_BLOCK);
    var texts := BlockTexts(col.name, blocks);
    if blocks != [] {
      var program := Program(col, blocks);
      ComposedText(lib, table, col, blocks);
      if |blocks| > 1 {
        ConcatSnoc(texts, "Or: " + NatText(|texts|) + "\n");
      }
      assert Concat(Compose(ts, col.name)) == Print(program);
      PrintOne(program);
      RoundTripExact(lib, table, [program]);
    } else {
      assert Compose(ts, col.name) == [];
      assert TrimSpace("") == "";
    }
  }

  // ------------------------------------------------------------------ meaning

  predicate InBlock(x: int, b: Block) {
    b.start <= x <= b.end
  }

  predicate InBlocks(x: int, blocks: seq<Block>) {
    exists b :: b in blocks && InBlock(x, b)
  }

  lemma TruncInt(n: int)
    ensures Trunc(n as real) == n
  {
    var m := -n;
    assert (n as real).Floor == n && (m as real).Floor == m;
    if n < 0 {
      assert (n as real) < 0.0 && -(n as real) == m as real;
      assert (-(n as real)).Floor == m;
    } else {
      assert (n as real) >= 0.0;
    }
  }

  lemma BlockMeaning(lib: Lib, row: Row, col: Column, b: Block)
    requires col.dataType == Int64Col && b.start <= b.end
    ensures MatchFilter(lib, row, BlockFilter(col, b)) <==> InBlock(row.GetInt(col.name), b)
  {
    TruncInt(b.start);
    TruncInt(b.end);
    var holds := t => Holds(lib, row, t);
    if b.start != b.end {
      var ge, le := IntFilter(col, GreaterThan, b.start), IntFilter(col, LessThan, b.end);
      assert forall k :: k in [ge, le] <==> k == ge || k == le;
      assert Match(holds, ge) <==> row.GetInt(col.name) >= b.start;
      assert Match(holds, le) <==> row.GetInt(col.name) <= b.end;
    }
  }

  lemma ProgramMeaning(lib: Lib, row: Row, col: Column, blocks: seq<Block>)
    requires col.dataType == Int64Col && blocks != []
    requires forall b :: b in blocks ==> b.start <= b.end
    ensures MatchFilter(lib, row, Program(col, blocks)) <==> InBlocks(row.GetInt(col.name), blocks)
  {
    hide BlockFilter, Holds;
    forall b | b in blocks {
      BlockMeaning(lib, row, col, b);
    }
    var x := row.GetInt(col.name);
    var fs := BlockFilters(col, blocks);
    if InBlocks(x, blocks) {
      var b :| b in blocks && InBlock(x, b);
      var i :| 0 <= i < |blocks| && blocks[i] == b;
      assert fs[i] in fs;
    }
  }

  /** Runs only cover listed values, and every one of them is non-empty. */
  lemma {:induction false} BlocksSound(ts: seq<int>, open: Block, x: int)
    requires open.start <= open.end
    ensures InBlocks(x, Blocks(ts, open)) ==> x in ts || (open.start != -1 && InBlock(x, open))
    ensures forall b :: b in Blocks(ts, open) ==> b.start <= b.end
  {
    if ts != [] {
      var next := if open.start != -1 && open.end == ts[0] - 1 then Block(open.start, ts[0]) else Block(ts[0], ts[0]);
      BlocksSound(ts[1..], next, x);
      assert forall y :: y in ts <==> y == ts[0] || y in ts[1..];
    }
  }

  /** No run starts at the value that marks "no run open". */
  predicate NoSentinelStart(ts: seq<int>, last: int) {
    ts == [] || ((ts[0] == -1 ==> last == -2) && NoSentinelStart(ts[1..], ts[0]))
  }

  lemma {:induction false} BlocksComplete(ts: seq<int>, open: Block, x: int)
    requires open.start <= open.end
    requires NoSentinelStart(ts, if open.start == -1 then -1 else open.end)
    ensures x in ts || (open.start != -1 && InBlock(x, open)) ==> InBlocks(x, Blocks(ts, open))
  {
    if ts == [] {
      if open.start != -1 {
        assert open in Blocks(ts, open);
      }
    } else {
      var next := if open.start != -1 && open.end == ts[0] - 1 then Block(open.start, ts[0]) else Block(ts[0], ts[0]);
      BlocksComplete(ts[1..], next, x);
      assert forall y :: y in ts <==> y == ts[0] || y in ts[1..];
      var all := Blocks(ts, open);
      if open.start != -1 && open.end != ts[0] - 1 {
        assert all[0] == open;
        assert forall b :: b in all[1..] ==> b in all;
      }
    }
  }

  predicate StrictlyIncreasing(ts: seq<int>) {
    forall i, j :: 0 <= i < j < |ts| ==> ts[i] < ts[j]
  }

  /** For an increasing list the sentinel starts a run exactly when -1 is listed and -2 is not. */
  lemma {:induction false} SentinelStart(ts: seq<int>, last: int)
    requires StrictlyIncreasing(ts)
    ensures NoSentinelStart(ts, last) <==> !(-1 in ts && -2 !in ts && !(last == -2 && ts[0] == -1))
  {
    if ts != [] {
      SentinelStart(ts[1..], ts[0]);
      assert forall y :: y in ts <==> y == ts[0] || y in ts[1..];
    }
  }

  /** A run that would start at the sentinel is lost. */
  lemma {:induction false} SentinelLost(ts: seq<int>, open: Block)
    requires StrictlyIncreasing(ts) && -1 in ts && -2 !in ts
    requires open.start <= open.end
    requires open.start == -1 || (open.end < ts[0] && open.end != -2)
    ensures !InBlocks(-1, Blocks(ts, open))
  {
    assert forall y :: y in ts <==> y == ts[0] || y in ts[1..];
    if ts[0] == -1 {
      BlocksSound(ts[1..], NO_BLOCK, -1);
    } else {
      var next := if open.start != -1 && open.end == ts[0] - 1 then Block(open.start, ts[0]) else Block(ts[0], ts[0]);
      assert ts[0] < -1;
      SentinelLost(ts[1..], next);
    }
  }

  /** The composed lines leave one filter that matches a row exactly when the
      row's attribute is listed. */
  ghost predicate Exact(lib: Lib, table: Table, col: Column, ts: seq<int>) {
    var parsed := ParseText(lib, table, Concat(Compose(ts, col.name)), []);
    && parsed.Ok? && |parsed.value| == 1
    && forall row: Row :: MatchFilter(lib, row, parsed.value[0]) <==> row.GetInt(col.name) in ts
  }

  /** Holds for every list, sorted or not, in which no run starts at -1. */
  lemma TimestampsExact(lib: Lib, table: Table, col: Column, ts: seq<int>)
    requires WordTable(table) && Attribute(table, col) && ts != []
    requires NoSentinelStart(ts, -1)
    ensures Exact(lib, table, col, ts)
  {
    hide ParseText, Compose, MatchFilter, Blocks, Concat, Program, InBlocks;
    var blocks := Blocks(ts, NO_BLOCK);
    ComposedParse(lib, table, col, ts);
    BlocksComplete(ts, NO_BLOCK, ts[0]);
    BlocksSound(ts, NO_BLOCK, ts[0]);
    assert blocks != [] by { assert InBlocks(ts[0], blocks); BlocksNonEmpty(ts[0], blocks); }
    forall row: Row
      ensures MatchFilter(lib, row, Program(col, blocks)) <==> row.GetInt(col.name) in ts
    {
      ProgramMeaning(lib, row, col, blocks);
      BlocksComplete(ts, NO_BLOCK, row.GetInt(col.name));
      BlocksSound(ts, NO_BLOCK, row.GetInt(col.name));
    }
  }

  lemma BlocksNonEmpty(x: int, blocks: seq<Block>)
    requires InBlocks(x, blocks)
    ensures blocks != []
  {
  }

  /** For a sorted list without duplicates, exactly when -1 is not listed
      without its predecessor. */
  lemma TimestampsExactIff(lib: Lib, table: Table, col: Column, ts: seq<int>)
    requires WordTable(table) && Attribute(table, col)
    requires ts != [] && StrictlyIncreasing(ts)
    ensures Exact(lib, table, col, ts) <==> !(-1 in ts && -2 !in ts)
  {
    hide ParseText, Compose, MatchFilter, Blocks, Concat, Program, InBlocks;
    SentinelStart(ts, -1);
    if NoSentinelStart(ts, -1) {
      TimestampsExact(lib, table, col, ts);
    } else {
      var blocks := Blocks(ts, NO_BLOCK);
      ComposedParse(lib, table, col, ts);
      SentinelLost(ts, NO_BLOCK);
      BlocksSound(ts, NO_BLOCK, -1);
      if blocks != [] {
        var row := Row(map[col.name := IntVal(-1)]);
        assert row.GetInt(col.name) == -1;
        ProgramMeaning(lib, row, col, blocks);
      }
    }
  }
}
