/** What filter headers say of a cached row, from the text of the request on:
    negation, And and Or. */
module FilterLaws {
  import opened Text
  import opened Filters
  import opened FilterText
  import Ordering
  import opened Lists

  // ------------------------------------------------------------- header lines

  /** A header line without outer blanks. */
  predicate Line(line: string) {
    '\n' !in line && line != "" && !IsSpace(line[0]) && !IsSpace(line[|line| - 1])
  }

  predicate Lines(lines: seq<string>) {
    forall i :: 0 <= i < |lines| ==> Line(lines[i])
  }

  function Headers(lines: seq<string>): string {
    if lines == [] then "" else lines[0] + "\n" + Headers(lines[1..])
  }

  /** The request is accepted and the row is part of its answer. */
  predicate Passes(lib: Lib, table: Table, lines: seq<string>, row: Row) {
    var r := ParseText(lib, table, Headers(lines), []);
    r.Ok? && MatchRow(lib, row, r.value)
  }

  function ReadAll(lib: Lib, table: Table, lines: seq<string>, stack: seq<Filter>): Result<seq<Filter>> {
    if lines == [] then Ok(stack)
    else
      var r := ParseLine(lib, table, lines[0], stack);
      if r.Err? then r else ReadAll(lib, table, lines[1..], r.value)
  }

  lemma {:induction false} HeadersRead(lib: Lib, table: Table, lines: seq<string>, stack: seq<Filter>)
    requires Lines(lines)
    ensures ParseText(lib, table, Headers(lines), stack) == ReadAll(lib, table, lines, stack)
  {
    hide ParseLine;
    if lines == [] {
      assert TrimSpace("") == "";
    } else {
      hide ParseText;
      ParseTextLine(lib, table, lines[0], Headers(lines[1..]), stack);
      var r := ParseLine(lib, table, lines[0], stack);
      if r.Ok? {
        HeadersRead(lib, table, lines[1..], r.value);
      }
    }
  }

  lemma {:induction false} ReadAppend(lib: Lib, table: Table, a: seq<string>, b: seq<string>, stack: seq<Filter>)
    ensures ReadAll(lib, table, a + b, stack) ==
            var r := ReadAll(lib, table, a, stack);
            if r.Err? then r else ReadAll(lib, table, b, r.value)
  {
    hide ParseLine;
    if a == [] {
      assert a + b == b;
    } else {
      assert (a + b)[0] == a[0] && (a + b)[1..] == a[1..] + b;
      var r := ParseLine(lib, table, a[0], stack);
      if r.Ok? {
        ReadAppend(lib, table, a[1..], b, r.value);
      }
    }
  }

  lemma ReadOne(lib: Lib, table: Table, line: string, stack: seq<Filter>)
    ensures ReadAll(lib, table, [line], stack) == ParseLine(lib, table, line, stack)
  {
    hide ParseLine;
    assert [line][1..] == [];
  }

  /** A line works on the top of the stack and leaves what is below alone. */
  lemma LineOnTop(lib: Lib, table: Table, line: string, base: seq<Filter>, top: seq<Filter>)
    requires ParseLine(lib, table, line, top).Ok?
    ensures ParseLine(lib, table, line, base + top) == Ok(base + ParseLine(lib, table, line, top).value)
  {
    hide ParseTest, SplitN, TrimLeft, LowerAscii, Atoi;
    var args := TrimLeft(SplitN(line, ':', 2)[1]);
    forall op: GroupOperator | ParseGroup(op, args, top).Ok?
      ensures ParseGroup(op, args, base + top) == Ok(base + ParseGroup(op, args, top).value)
    {
      GroupOnTop(op, args, base, top);
    }
    if top != [] {
      var f := top[|top| - 1].(negate := true);
      assert (base + top)[|base + top| - 1 := f] == base + top[|top| - 1 := f];
    }
    if ParseTest(lib, table, args).Ok? {
      var f := LeafFilter(ParseTest(lib, table, args).value);
      assert (base + top) + [f] == base + (top + [f]);
    }
  }

  lemma GroupOnTop(op: GroupOperator, args: string, base: seq<Filter>, top: seq<Filter>)
    requires ParseGroup(op, args, top).Ok?
    ensures ParseGroup(op, args, base + top) == Ok(base + ParseGroup(op, args, top).value)
  {
    hide Atoi;
    var num := Atoi(args).value;
    if num > 0 {
      var n, all := |top| - num, base + top;
      assert all[..|all| - num] == base + top[..n] && all[|all| - num..] == top[n..];
      var g := [GroupFilter(op, top[n..])];
      assert (base + top[..n]) + g == base + (top[..n] + g);
    }
  }

  lemma {:induction false} ReadOnTop(lib: Lib, table: Table, lines: seq<string>, base: seq<Filter>, top: seq<Filter>)
    requires ReadAll(lib, table, lines, top).Ok?
    ensures ReadAll(lib, table, lines, base + top) == Ok(base + ReadAll(lib, table, lines, top).value)
  {
    hide ParseLine;
    if lines != [] {
      LineOnTop(lib, table, lines[0], base, top);
      ReadOnTop(lib, table, lines[1..], base, ParseLine(lib, table, lines[0], top).value);
    }
  }

  // ----------------------------------------------------- one filter, several, none

  /** The lines describe one filter. */
  predicate OneFilter(lib: Lib, table: Table, lines: seq<string>) {
    Lines(lines) && var r := ReadAll(lib, table, lines, []); r.Ok? && |r.value| == 1
  }

  function TheFilter(lib: Lib, table: Table, lines: seq<string>): Filter
    requires OneFilter(lib, table, lines)
  {
    ReadAll(lib, table, lines, []).value[0]
  }

  lemma PassesOne(lib: Lib, table: Table, lines: seq<string>, row: Row)
    requires OneFilter(lib, table, lines)
    ensures Passes(lib, table, lines, row) <==> MatchFilter(lib, row, TheFilter(lib, table, lines))
  {
    hide Match;
    HeadersRead(lib, table, lines, []);
    var fs := ReadAll(lib, table, lines, []).value;
    assert fs == [fs[0]];
  }

  // ---------------------------------------------------------------- negation

  lemma NegateReads(lib: Lib, table: Table, lines: seq<string>)
    requires OneFilter(lib, table, lines)
    ensures OneFilter(lib, table, lines + ["Negate:"])
    ensures TheFilter(lib, table, lines + ["Negate:"]) == TheFilter(lib, table, lines).(negate := true)
  {
    hide ParseLine;
    var f := TheFilter(lib, table, lines);
    assert ReadAll(lib, table, lines, []).value == [f];
    ReadAppend(lib, table, lines, ["Negate:"], []);
    ReadOne(lib, table, "Negate:", [f]);
    ParseNegateLine(lib, table, [f]);
    assert [f][0 := f.(negate := true)] == [f.(negate := true)];
  }

  /** Behind a single test that is not negated yet, Negate turns the answer around;
      behind one that is, and behind a group, it changes nothing. */
  lemma NegateLaw(lib: Lib, table: Table, lines: seq<string>, row: Row)
    requires OneFilter(lib, table, lines)
    ensures var f := TheFilter(lib, table, lines);
            Passes(lib, table, lines + ["Negate:"], row) <==>
            if f.group == NoGroup && !f.negate then !Passes(lib, table, lines, row) else Passes(lib, table, lines, row)
  {
    hide ReadAll, Holds;
    NegateReads(lib, table, lines);
    PassesOne(lib, table, lines, row);
    PassesOne(lib, table, lines + ["Negate:"], row);
  }

  /** So a filter line with Negate behind it accepts exactly the rows the line alone
      rejects, and a second Negate does no more. */
  lemma NegatedLine(lib: Lib, table: Table, args: string, row: Row)
    requires Line("Filter: " + args) && args != "" && args[0] != ' ' && OneFilter(lib, table, ["Filter: " + args])
    ensures var line := "Filter: " + args;
            && (Passes(lib, table, [line, "Negate:"], row) <==> !Passes(lib, table, [line], row))
            && (Passes(lib, table, [line, "Negate:", "Negate:"], row) <==> !Passes(lib, table, [line], row))
  {
    hide Holds, ParseLine, ParseTest, Match;
    var line := "Filter: " + args;
    ReadOne(lib, table, line, []);
    ParseFilterLine(lib, table, args, []);
    assert [line] + ["Negate:"] == [line, "Negate:"];
    assert [line, "Negate:"] + ["Negate:"] == [line, "Negate:", "Negate:"];
    NegateLaw(lib, table, [line], row);
    NegateReads(lib, table, [line]);
    NegateLaw(lib, table, [line, "Negate:"], row);
  }

  /** With nothing in front of it, Negate rejects the request. */
  lemma NegateNothing(lib: Lib, table: Table, row: Row)
    ensures !Passes(lib, table, ["Negate:"], row)
  {
    hide ParseLine;
    HeadersRead(lib, table, ["Negate:"], []);
    ReadOne(lib, table, "Negate:", []);
    ParseNegateLine(lib, table, []);
  }

  // -------------------------------------------------------------- And and Or

  function Described(lib: Lib, table: Table, blocks: seq<seq<string>>): (r: seq<Filter>)
    requires forall i :: 0 <= i < |blocks| ==> OneFilter(lib, table, blocks[i])
    ensures |r| == |blocks| && forall i :: 0 <= i < |r| ==> r[i] == TheFilter(lib, table, blocks[i])
  {
    seq(|blocks|, i requires 0 <= i < |blocks| => TheFilter(lib, table, blocks[i]))
  }

  lemma {:induction false} BlocksRead(lib: Lib, table: Table, blocks: seq<seq<string>>)
    requires forall i :: 0 <= i < |blocks| ==> OneFilter(lib, table, blocks[i])
    ensures Lines(Concat(blocks))
    ensures ReadAll(lib, table, Concat(blocks), []) == Ok(Described(lib, table, blocks))
  {
    hide ReadAll;
    if blocks == [] {
      NothingRead(lib, table);
    } else {
      var n := |blocks| - 1;
      var front, last := blocks[..n], blocks[n];
      var f := TheFilter(lib, table, last);
      BlocksRead(lib, table, front);
      ConcatSnoc(front, last);
      assert blocks == front + [last];
      ReadAppend(lib, table, Concat(front), last, []);
      ReadOnTop(lib, table, last, Described(lib, table, front), []);
      assert Described(lib, table, front) + [] == Described(lib, table, front);
      assert ReadAll(lib, table, last, []).value == [f];
      assert Described(lib, table, blocks) == Described(lib, table, front) + [f];
    }
  }

  lemma NothingRead(lib: Lib, table: Table)
    ensures ReadAll(lib, table, [], []) == Ok([])
  {
  }

  /** The line that folds the last n filters. */
  function GroupLine(op: GroupOperator, n: nat): string
    requires op != NoGroup
  {
    GroupText(op) + ": " + NatText(n)
  }

  lemma GroupLineIs(op: GroupOperator, n: nat)
    requires op != NoGroup
    ensures Line(GroupLine(op, n))
    ensures GroupLine(And, n) == "And: " + NatText(n) && GroupLine(Or, n) == "Or: " + NatText(n)
  {
    EndsSolid(op, n);
  }

  lemma GroupReads(lib: Lib, table: Table, blocks: seq<seq<string>>, op: GroupOperator)
    requires blocks != [] && op != NoGroup && forall i :: 0 <= i < |blocks| ==> OneFilter(lib, table, blocks[i])
    ensures var lines := Concat(blocks) + [GroupLine(op, |blocks|)];
            OneFilter(lib, table, lines) && TheFilter(lib, table, lines) == GroupFilter(op, Described(lib, table, blocks))
  {
    hide ReadAll, ParseLine, GroupLine, Line, Concat, Described;
    var line, fs := GroupLine(op, |blocks|), Described(lib, table, blocks);
    GroupLineIs(op, |blocks|);
    FoldAll(lib, table, op, fs);
    BlocksRead(lib, table, blocks);
    ReadAppend(lib, table, Concat(blocks), [line], []);
    ReadOne(lib, table, line, fs);
    LinesSnoc(Concat(blocks), line);
  }

  lemma LinesSnoc(lines: seq<string>, line: string)
    requires Lines(lines) && Line(line)
    ensures Lines(lines + [line])
  {
    hide Line;
  }

  lemma FoldAll(lib: Lib, table: Table, op: GroupOperator, fs: seq<Filter>)
    requires op != NoGroup && fs != []
    ensures ParseLine(lib, table, GroupLine(op, |fs|), fs) == Ok([GroupFilter(op, fs)])
  {
    ParseGroupLine(lib, table, op, |fs|, fs);
    hide ParseLine, NatText;
    assert fs[..0] == [] && fs[0..] == fs && [] + [GroupFilter(op, fs)] == [GroupFilter(op, fs)];
  }

  /** Filters one after the other, and filters under And, accept the rows that every
      one of them accepts. The group counts as one filter again. */
  lemma AndLaw(lib: Lib, table: Table, blocks: seq<seq<string>>, row: Row)
    requires blocks != [] && forall i :: 0 <= i < |blocks| ==> OneFilter(lib, table, blocks[i])
    ensures Passes(lib, table, Concat(blocks), row) <==> forall i :: 0 <= i < |blocks| ==> Passes(lib, table, blocks[i], row)
    ensures Passes(lib, table, Concat(blocks) + ["And: " + NatText(|blocks|)], row) <==>
            forall i :: 0 <= i < |blocks| ==> Passes(lib, table, blocks[i], row)
    ensures OneFilter(lib, table, Concat(blocks) + ["And: " + NatText(|blocks|)])
  {
    hide ReadAll, Passes, OneFilter, TheFilter, Described, NatText, GroupLine, Match, MatchAll, Concat, OnRow;
    var fs := Described(lib, table, blocks);
    GroupLineIs(And, |blocks|);
    GroupReads(lib, table, blocks, And);
    GroupPasses(lib, table, blocks, And, row);
    PassesAll(lib, table, blocks, row);
    EachPasses(lib, table, blocks, row);
    AndMeans(OnRow(lib, row), fs);
  }

  /** Filters under Or accept the rows that some one of them accepts, and count as
      one filter again. */
  lemma OrLaw(lib: Lib, table: Table, blocks: seq<seq<string>>, row: Row)
    requires blocks != [] && forall i :: 0 <= i < |blocks| ==> OneFilter(lib, table, blocks[i])
    ensures Passes(lib, table, Concat(blocks) + ["Or: " + NatText(|blocks|)], row) <==>
            exists i :: 0 <= i < |blocks| && Passes(lib, table, blocks[i], row)
    ensures OneFilter(lib, table, Concat(blocks) + ["Or: " + NatText(|blocks|)])
  {
    hide ReadAll, Passes, OneFilter, TheFilter, Described, NatText, GroupLine, Match, MatchAll, Concat, OnRow;
    var fs := Described(lib, table, blocks);
    GroupLineIs(Or, |blocks|);
    GroupReads(lib, table, blocks, Or);
    GroupPasses(lib, table, blocks, Or, row);
    EachPasses(lib, table, blocks, row);
    OrMeans(OnRow(lib, row), fs);
  }

  /** And and Or over more filters than there are reject the request, over none
      they change nothing. */
  lemma GroupLimits(lib: Lib, table: Table, blocks: seq<seq<string>>, op: GroupOperator, n: nat, row: Row)
    requires op != NoGroup && forall i :: 0 <= i < |blocks| ==> OneFilter(lib, table, blocks[i])
    ensures n > |blocks| ==> !Passes(lib, table, Concat(blocks) + [GroupLine(op, n)], row)
    ensures n == 0 ==> (Passes(lib, table, Concat(blocks) + [GroupLine(op, n)], row) <==> Passes(lib, table, Concat(blocks), row))
  {
    hide ReadAll, ParseLine, OneFilter, TheFilter, NatText, MatchRow, Concat, Line;
    var line, fs := GroupLine(op, n), Described(lib, table, blocks);
    GroupLineIs(op, n);
    BlocksRead(lib, table, blocks);
    LinesSnoc(Concat(blocks), line);
    HeadersRead(lib, table, Concat(blocks) + [line], []);
    HeadersRead(lib, table, Concat(blocks), []);
    ReadAppend(lib, table, Concat(blocks), [line], []);
    ReadOne(lib, table, line, fs);
    ParseGroupLine(lib, table, op, n, fs);
  }

  lemma GroupPasses(lib: Lib, table: Table, blocks: seq<seq<string>>, op: GroupOperator, row: Row)
    requires blocks != [] && op != NoGroup && forall i :: 0 <= i < |blocks| ==> OneFilter(lib, table, blocks[i])
    ensures Passes(lib, table, Concat(blocks) + [GroupLine(op, |blocks|)], row) <==>
            MatchFilter(lib, row, GroupFilter(op, Described(lib, table, blocks)))
  {
    hide Passes, OneFilter, TheFilter, GroupLine, MatchFilter, Concat;
    GroupReads(lib, table, blocks, op);
    PassesOne(lib, table, Concat(blocks) + [GroupLine(op, |blocks|)], row);
  }

  lemma EachPasses(lib: Lib, table: Table, blocks: seq<seq<string>>, row: Row)
    requires forall i :: 0 <= i < |blocks| ==> OneFilter(lib, table, blocks[i])
    ensures forall i :: 0 <= i < |blocks| ==>
              (Passes(lib, table, blocks[i], row) <==> MatchFilter(lib, row, Described(lib, table, blocks)[i]))
  {
    hide Passes, OneFilter, TheFilter, MatchFilter;
    forall i | 0 <= i < |blocks|
      ensures Passes(lib, table, blocks[i], row) <==> MatchFilter(lib, row, Described(lib, table, blocks)[i])
    {
      PassesOne(lib, table, blocks[i], row);
    }
  }

  lemma PassesAll(lib: Lib, table: Table, blocks: seq<seq<string>>, row: Row)
    requires forall i :: 0 <= i < |blocks| ==> OneFilter(lib, table, blocks[i])
    ensures Passes(lib, table, Concat(blocks), row) <==> MatchRow(lib, row, Described(lib, table, blocks))
  {
    hide ReadAll, OneFilter, TheFilter;
    BlocksRead(lib, table, blocks);
    HeadersRead(lib, table, Concat(blocks), []);
  }

  lemma AndMeans(holds: Test -> bool, fs: seq<Filter>)
    ensures Match(holds, GroupFilter(And, fs)) <==> forall i :: 0 <= i < |fs| ==> Match(holds, fs[i])
    ensures MatchAll(holds, fs) <==> forall i :: 0 <= i < |fs| ==> Match(holds, fs[i])
  {
  }

  lemma OrMeans(holds: Test -> bool, fs: seq<Filter>)
    ensures Match(holds, GroupFilter(Or, fs)) <==> exists i :: 0 <= i < |fs| && Match(holds, fs[i])
  {
    var g := GroupFilter(Or, fs);
    if i :| 0 <= i < |fs| && Match(holds, fs[i]) {
      assert fs[i] in g.kids;
    }
  }
}
