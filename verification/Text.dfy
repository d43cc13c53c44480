/** Text primitives shared by the request parser, the filter printer and the
    wire framing: decimal numerals, splitting, joining and trimming. */
module Text {

  datatype Option<+T> = None | Some(value: T)

  // ---------------------------------------------------------------- numerals

  predicate IsDigit(c: char) {
    '0' <= c <= '9'
  }

  predicate AllDigits(s: string) {
    forall i :: 0 <= i < |s| ==> IsDigit(s[i])
  }

  function DigitOf(d: nat): char
    requires d < 10
  {
    ('0' as int + d) as char
  }

  /** The decimal text of a natural number, as the %d verb writes it. */
  function NatText(n: nat): (s: string)
    ensures |s| >= 1 && AllDigits(s)
  {
    if n < 10 then [DigitOf(n)] else NatText(n / 10) + [DigitOf(n % 10)]
  }

  function IntText(n: int): string {
    if n < 0 then "-" + NatText(-n) else NatText(n)
  }

  /** The number a digit string denotes. */
  function NatValue(s: string): nat
    requires AllDigits(s)
  {
    if s == [] then 0 else NatValue(s[..|s| - 1]) * 10 + (s[|s| - 1] as int - '0' as int)
  }

  /** An optionally signed decimal numeral; None where the conversion fails. */
  function Atoi(s: string): Option<int> {
    if |s| >= 1 && AllDigits(s) then Some(NatValue(s))
    else if |s| >= 2 && s[0] in {'+', '-'} && AllDigits(s[1..]) then
      var v: int := NatValue(s[1..]);
      Some(if s[0] == '-' then -v else v)
    else None
  }

  lemma {:induction false} NatRoundTrip(n: nat)
    ensures NatValue(NatText(n)) == n
  {
    if n >= 10 {
      var s := NatText(n);
      assert s[..|s| - 1] == NatText(n / 10);
      NatRoundTrip(n / 10);
    }
  }

  lemma IntRoundTrip(n: int)
    ensures Atoi(IntText(n)) == Some(n)
  {
    if n < 0 {
      NatRoundTrip(-n);
      assert IntText(n)[1..] == NatText(-n);
    } else {
      NatRoundTrip(n);
    }
  }

  lemma IntTextInjective(a: int, b: int)
    requires IntText(a) == IntText(b)
    ensures a == b
  {
    IntRoundTrip(a);
    IntRoundTrip(b);
  }

  function Pow10(k: nat): (p: nat)
    ensures p >= 1
  {
    if k == 0 then 1 else 10 * Pow10(k - 1)
  }

  /** The digit k places from the right stands for the tens of that place. */
  lemma {:induction false} DigitAt(n: nat, k: nat)
    ensures k < |NatText(n)| ==> NatText(n)[|NatText(n)| - 1 - k] == "0123456789"[n / Pow10(k) % 10]
    ensures n > 0 ==> NatText(n)[0] != '0'
  {
    if n >= 10 {
      DigitAt(n / 10, if k > 0 then k - 1 else 0);
      if k > 0 {
        DivTwice(n, Pow10(k - 1));
      }
    }
  }

  lemma DivTwice(n: nat, p: nat)
    requires p >= 1
    ensures n / 10 / p == n / (10 * p)
  {
    var m := n / 10;
    var q, r, d := m / p, m % p, n % 10;
    assert m == q * p + r && n == 10 * m + d;
    Quotient(n, 10 * p, q, 10 * r + d);
  }

  lemma Quotient(n: nat, b: nat, q: nat, r: nat)
    requires r < b && n == q * b + r
    ensures n / b == q
  {
    var x, y := n / b, n % b;
    assert n == x * b + y;
    if x < q {
      Multiples(x + 1, q, b);
    } else if q < x {
      Multiples(q + 1, x, b);
    }
  }

  lemma Multiples(x: nat, y: nat, b: nat)
    requires x <= y
    ensures x * b <= y * b
  {
  }

  // --------------------------------------------------------------- splitting

  /** Position of the first c in s, or |s| when there is none. */
  function IndexOf(s: string, c: char): (i: nat)
    ensures i <= |s|
    ensures i < |s| ==> s[i] == c
    ensures c !in s[..i]
  {
    if s == [] || s[0] == c then 0
    else
      var i := 1 + IndexOf(s[1..], c);
      assert s[..i] == [s[0]] + s[1..][..i - 1];
      i
  }

  lemma IndexOfFirst(a: string, c: char, b: string)
    requires c !in a
    ensures IndexOf(a + [c] + b, c) == |a|
  {
    var s := a + [c] + b;
    assert s[|a|] == c;
    assert forall j :: 0 <= j < |a| ==> s[j] == a[j];
  }

  lemma IndexOfNone(a: string, c: char)
    requires c !in a
    ensures IndexOf(a, c) == |a|
  {
  }

  /** At most n pieces, cut at the first n-1 separators. */
  function SplitN(s: string, c: char, n: nat): (parts: seq<string>)
    requires n >= 1
    ensures 1 <= |parts| <= n
  {
    var i := IndexOf(s, c);
    if n == 1 || i == |s| then [s] else [s[..i]] + SplitN(s[i + 1..], c, n - 1)
  }

  lemma SplitNCons(a: string, c: char, b: string, n: nat)
    requires c !in a && n >= 2
    ensures SplitN(a + [c] + b, c, n) == [a] + SplitN(b, c, n - 1)
  {
    var s := a + [c] + b;
    IndexOfFirst(a, c, b);
    assert s[..|a|] == a && s[|a| + 1..] == b;
  }

  lemma SplitNOne(a: string, c: char)
    ensures SplitN(a, c, 1) == [a]
  {
  }

  lemma SplitNWhole(a: string, c: char, n: nat)
    requires c !in a && n >= 1
    ensures SplitN(a, c, n) == [a]
  {
  }

  /** Cut at every separator. */
  function Split(s: string, c: char): (parts: seq<string>)
    ensures |parts| >= 1
    decreases |s|
  {
    var i := IndexOf(s, c);
    if i == |s| then [s] else [s[..i]] + Split(s[i + 1..], c)
  }

  function Join(parts: seq<string>, c: char): string {
    if parts == [] then ""
    else if |parts| == 1 then parts[0]
    else parts[0] + [c] + Join(parts[1..], c)
  }

  function Occurrences(s: string, c: char): nat {
    if s == [] then 0 else (if s[0] == c then 1 else 0) + Occurrences(s[1..], c)
  }

  lemma {:induction false} OccurrencesAppend(a: string, b: string, c: char)
    ensures Occurrences(a + b, c) == Occurrences(a, c) + Occurrences(b, c)
  {
    if a == [] {
      assert a + b == b;
    } else {
      assert (a + b)[1..] == a[1..] + b;
      OccurrencesAppend(a[1..], b, c);
    }
  }

  lemma {:induction false} OccurrencesZero(s: string, c: char)
    ensures Occurrences(s, c) == 0 <==> c !in s
  {
    if s != [] {
      OccurrencesZero(s[1..], c);
      assert s == [s[0]] + s[1..];
    }
  }

  lemma {:induction false} SplitCount(s: string, c: char)
    ensures |Split(s, c)| == 1 + Occurrences(s, c)
    decreases |s|
  {
    var i := IndexOf(s, c);
    OccurrencesZero(s[..i], c);
    if i == |s| {
      assert s[..i] == s;
    } else {
      assert s == s[..i] + ([c] + s[i + 1..]);
      OccurrencesAppend(s[..i], [c] + s[i + 1..], c);
      assert ([c] + s[i + 1..])[1..] == s[i + 1..];
      SplitCount(s[i + 1..], c);
    }
  }

  lemma {:induction false} JoinCount(parts: seq<string>, c: char)
    requires |parts| >= 1
    ensures Occurrences(Join(parts, c), c) >= |parts| - 1
    ensures Occurrences(Join(parts, c), c) == |parts| - 1 <==> forall i :: 0 <= i < |parts| ==> c !in parts[i]
  {
    OccurrencesZero(parts[0], c);
    if |parts| > 1 {
      var rest := Join(parts[1..], c);
      JoinCount(parts[1..], c);
      OccurrencesAppend(parts[0] + [c], rest, c);
      OccurrencesAppend(parts[0], [c], c);
      assert Occurrences([c], c) == 1;
      if forall i :: 0 <= i < |parts[1..]| ==> c !in parts[1..][i] {
        forall i | 1 <= i < |parts|
          ensures c !in parts[i]
        {
          assert parts[i] == parts[1..][i - 1];
        }
      } else {
        var i :| 0 <= i < |parts[1..]| && c in parts[1..][i];
        assert parts[i + 1] == parts[1..][i];
      }
    }
  }

  lemma {:induction false} SplitJoinClean(parts: seq<string>, c: char)
    requires |parts| >= 1
    requires forall i :: 0 <= i < |parts| ==> c !in parts[i]
    ensures Split(Join(parts, c), c) == parts
  {
    if |parts| == 1 {
      IndexOfNone(parts[0], c);
    } else {
      var rest := Join(parts[1..], c);
      SplitJoinClean(parts[1..], c);
      SplitFirst(parts[0], c, rest);
    }
  }

  lemma SplitFirst(a: string, c: char, b: string)
    requires c !in a
    ensures Split(a + [c] + b, c) == [a] + Split(b, c)
  {
    var s := a + [c] + b;
    IndexOfFirst(a, c, b);
    assert s[..|a|] == a && s[|a| + 1..] == b;
  }

  /** Splitting a joined key gives the parts back exactly when no part holds
      the separator. */
  lemma SplitJoin(parts: seq<string>, c: char)
    requires |parts| >= 1
    ensures Split(Join(parts, c), c) == parts <==> forall i :: 0 <= i < |parts| ==> c !in parts[i]
  {
    hide Split, Join;
    JoinCount(parts, c);
    SplitCount(Join(parts, c), c);
    if forall i :: 0 <= i < |parts| ==> c !in parts[i] {
      SplitJoinClean(parts, c);
    }
  }

  // ---------------------------------------------------------------- trimming

  /** White space as unicode.IsSpace sees it. */
  predicate IsSpace(c: char) {
    || c in {'\t', '\n', '\r', ' '}
    || c as int in {0x0B, 0x0C, 0x85, 0xA0, 0x1680, 0x2028, 0x2029, 0x202F, 0x205F, 0x3000}
    || 0x2000 <= c as int <= 0x200A
  }

  function TrimSpaceLeft(s: string): string {
    if s != [] && IsSpace(s[0]) then TrimSpaceLeft(s[1..]) else s
  }

  function TrimSpaceRight(s: string): string {
    if s != [] && IsSpace(s[|s| - 1]) then TrimSpaceRight(s[..|s| - 1]) else s
  }

  function TrimSpace(s: string): string {
    TrimSpaceRight(TrimSpaceLeft(s))
  }

  /** Drops leading blanks only. */
  function TrimLeft(s: string): string {
    if s != [] && s[0] == ' ' then TrimLeft(s[1..]) else s
  }

  predicate HasSuffix(s: string, suffix: string) {
    |suffix| <= |s| && s[|s| - |suffix|..] == suffix
  }

  function TrimSuffix(s: string, suffix: string): string {
    if HasSuffix(s, suffix) then s[..|s| - |suffix|] else s
  }

  function LowerChar(c: char): char {
    if 'A' <= c <= 'Z' then (c as int + 32) as char else c
  }

  function LowerAscii(s: string): string {
    seq(|s|, i requires 0 <= i < |s| => LowerChar(s[i]))
  }
}
