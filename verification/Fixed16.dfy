/** The fixed16 framing: a header line with a return code and the size of the
    body, padded to fifteen characters and a newline. */
module Fixed16 {
  import opened Text

  // ------------------------------------------------------------------ sender

  function Blanks(n: nat): (r: string)
    ensures |r| == n && forall i :: 0 <= i < n ==> r[i] == ' '
  {
    seq(n, _ => ' ')
  }

  /** Right-aligned in at least eleven columns. */
  function Padded(digits: string): string {
    Blanks(if |digits| < 11 then 11 - |digits| else 0) + digits
  }

  function Header(code: nat, size: nat): string {
    NatText(code) + " " + Padded(NatText(size))
  }

  /** The bytes of one answer on the wire. */
  function SendFixed16(code: nat, body: string): string {
    Header(code, |body| + 1) + "\n" + body + "\n"
  }

  // ---------------------------------------------------------------- receiver

  predicate IsBlank(c: char) {
    c in {'\t', '\n', '\r', ' '} || c as int == 0x0C
  }

  /** How many leading characters are digits, or blanks. */
  function DigitRun(s: string): (n: nat)
    ensures n <= |s| && (forall k :: 0 <= k < n ==> IsDigit(s[k]))
  {
    if s == [] || !IsDigit(s[0]) then 0 else 1 + DigitRun(s[1..])
  }

  function BlankRun(s: string): (n: nat)
    ensures n <= |s| && (forall k :: 0 <= k < n ==> IsBlank(s[k]))
  {
    if s == [] || !IsBlank(s[0]) then 0 else 1 + BlankRun(s[1..])
  }

  lemma {:induction false} DigitRunIs(s: string, n: nat)
    requires n <= |s| && (forall k :: 0 <= k < n ==> IsDigit(s[k])) && (n < |s| ==> !IsDigit(s[n]))
    ensures DigitRun(s) == n
  {
    if n > 0 {
      DigitRunIs(s[1..], n - 1);
    }
  }

  lemma {:induction false} BlankRunIs(s: string, n: nat)
    requires n <= |s| && (forall k :: 0 <= k < n ==> IsBlank(s[k])) && (n < |s| ==> !IsBlank(s[n]))
    ensures BlankRun(s) == n
  {
    if n > 0 {
      BlankRunIs(s[1..], n - 1);
    }
  }

  /** Digits up to i, blanks up to j, digits to the end. */
  ghost predicate IsHeader(h: string, i: nat, j: nat) {
    && 0 < i < j < |h|
    && (forall k :: 0 <= k < i ==> IsDigit(h[k]))
    && (forall k :: i <= k < j ==> IsBlank(h[k]))
    && (forall k :: j <= k < |h| ==> IsDigit(h[k]))
  }

  function MatchHeader(h: string): Option<(nat, nat)> {
    var i := DigitRun(h);
    var j := i + BlankRun(h[i..]);
    if 0 < i < j < |h| && AllDigits(h[j..]) then Some((NatValue(h[..i]), NatValue(h[j..]))) else None
  }

  /** The scan finds the parts of every header. */
  lemma MatchHeaderExact(h: string, i: nat, j: nat)
    requires IsHeader(h, i, j)
    ensures MatchHeader(h) == Some((NatValue(h[..i]), NatValue(h[j..])))
  {
    DigitRunIs(h, i);
    BlankRunIs(h[i..], j - i);
  }

  /** What it finds is a header. */
  lemma MatchHeaderSound(h: string) returns (i: nat, j: nat)
    requires MatchHeader(h).Some?
    ensures IsHeader(h, i, j) && MatchHeader(h).value == (NatValue(h[..i]), NatValue(h[j..]))
  {
    i := DigitRun(h);
    j := i + BlankRun(h[i..]);
    hide DigitRun, BlankRun;
    assert forall k :: i <= k < j ==> h[k] == h[i..][k - i];
    assert forall k :: j <= k < |h| ==> h[k] == h[j..][k - j];
  }

  datatype Error = Incomplete | NoSocket | BadHeader | BadCode(code: nat) | BadSize(expected: nat, got: nat)

  datatype Received = Body(body: string, rest: string) | Failed(error: Error)

  /** Reads the next answer from a stream, and what remains of the stream. */
  function ParseResponseFixedSize(stream: string): Received {
    if |stream| < 16 then Failed(Incomplete)
    else if stream[..16] == "No UNIX socket /" then Failed(NoSocket)
    else
      var m := MatchHeader(stream[..15]);
      if m == None then Failed(BadHeader)
      else
        var (code, expSize) := m.value;
        var end := if 16 + expSize < |stream| then 16 + expSize else |stream|;
        var body := stream[16..end];
        if code != 200 then Failed(BadCode(code))
        else if |body| != expSize then Failed(BadSize(expSize, |body|))
        else Body(body, stream[end..])
  }

  // ----------------------------------------------------------- header length

  /** A number has at most k digits exactly when it is below ten to the k. */
  lemma {:induction false} NatTextLength(n: nat, k: nat)
    requires k >= 1
    ensures |NatText(n)| <= k <==> n < Pow10(k)
    decreases k
  {
    if k == 1 {
      assert Pow10(1) == 10 * Pow10(0) == 10;
    } else if n >= 10 {
      NatTextLength(n / 10, k - 1);
      var p := Pow10(k - 1);
      assert n / 10 < p <==> n < 10 * p;
    } else {
      assert Pow10(k) == 10 * Pow10(k - 1);
    }
  }

  lemma HeaderLength(code: nat, size: nat)
    ensures |Header(code, size)| == |NatText(code)| + 1 + (if |NatText(size)| < 11 then 11 else |NatText(size)|)
  {
  }

  /** For three-digit codes the header line is sixteen bytes long exactly when
      the size is below ten to the eleven. */
  lemma HeaderIs16(code: nat, size: nat)
    requires 100 <= code < 1000
    ensures |Header(code, size) + "\n"| == 16 <==> size < Pow10(11)
  {
    hide NatText, Header;
    assert Pow10(3) == 1000 && Pow10(2) == 100 by { PowSmall(); }
    NatTextLength(code, 3);
    NatTextLength(code, 2);
    NatTextLength(size, 11);
    HeaderLength(code, size);
  }

  lemma PowSmall()
    ensures Pow10(2) == 100 && Pow10(3) == 1000
  {
    assert Pow10(1) == 10 * Pow10(0);
    assert Pow10(2) == 10 * Pow10(1);
    assert Pow10(3) == 10 * Pow10(2);
  }

  /** Where the size starts in a header. */
  function SizeAt(code: nat, size: nat): nat {
    |Header(code, size)| - |NatText(size)|
  }

  lemma HeaderParts(code: nat, size: nat)
    ensures var h, i, j := Header(code, size), |NatText(code)|, SizeAt(code, size);
            && IsHeader(h, i, j) && h[..i] == NatText(code) && h[j..] == NatText(size)
            && h[i] == ' '
  {
  }

  /** A header that fits into fifteen characters exactly is read back. */
  lemma HeaderRoundTrip(code: nat, size: nat)
    ensures MatchHeader(Header(code, size)) == Some((code, size))
  {
    HeaderParts(code, size);
    MatchHeaderExact(Header(code, size), |NatText(code)|, SizeAt(code, size));
    NatRoundTrip(code);
    NatRoundTrip(size);
  }

  /** Whatever is read from the start of a header, its code is the one sent. */
  lemma CodeKept(code: nat, size: nat, h: string)
    requires |h| == 15 && (h <= Header(code, size) + "\n" || Header(code, size) + "\n" <= h)
    requires MatchHeader(h).Some?
    ensures MatchHeader(h).value.0 == code
  {
    var i, j := MatchHeaderSound(h);
    NatRoundTrip(code);
    HeaderStart(code, size);
    hide MatchHeader, Header, NatText, NatValue;
    var full, n := Header(code, size) + "\n", |NatText(code)|;
    assert forall k :: 0 <= k < n && k < |h| ==> h[k] == NatText(code)[k];
    assert n <= i && i <= n;
    assert h[..n] == NatText(code);
  }

  lemma HeaderStart(code: nat, size: nat)
    ensures var full, n := Header(code, size) + "\n", |NatText(code)|;
            && n < |full| && full[n] == ' ' && forall k :: 0 <= k < n ==> full[k] == NatText(code)[k]
  {
    HeaderParts(code, size);
    var h, n := Header(code, size), |NatText(code)|;
    assert h[..n] == NatText(code);
  }

  // -------------------------------------------------------------- the framing

  lemma Sent(code: nat, body: string, rest: string)
    ensures var s, h := SendFixed16(code, body) + rest, Header(code, |body| + 1);
            && |s| == |h| + |body| + 2 + |rest|
            && s[..|h|] == h && s[|h|] == '\n'
            && s[|h| + 1..|h| + 2 + |body|] == body + "\n" && s[|h| + 2 + |body|..] == rest
  {
    var h := Header(code, |body| + 1);
    assert SendFixed16(code, body) + rest == h + "\n" + (body + "\n") + rest;
  }

  /** Digits, not the start of an error text. */
  lemma NotSocketError(code: nat, body: string, rest: string)
    ensures var s := SendFixed16(code, body) + rest; |s| >= 16 ==> s[..16] != "No UNIX socket /"
  {
    var s := SendFixed16(code, body) + rest;
    Sent(code, body, rest);
    HeaderParts(code, |body| + 1);
    assert s[0] == Header(code, |body| + 1)[0] && IsDigit(s[0]);
  }

  /** A header of fifteen characters: the receiver sees the code and size that
      were sent, and on code 200 gets exactly the body and its newline. */
  lemma FittingHeader(code: nat, body: string, rest: string)
    requires |Header(code, |body| + 1)| == 15
    ensures ParseResponseFixedSize(SendFixed16(code, body) + rest) ==
            if code == 200 then Body(body + "\n", rest) else Failed(BadCode(code))
  {
    Sent(code, body, rest);
    NotSocketError(code, body, rest);
    HeaderRoundTrip(code, |body| + 1);
    hide Header, SendFixed16, MatchHeader;
  }

  /** The part of a header and its surroundings that the receiver looks at. */
  lemma FirstFifteen(code: nat, body: string, rest: string)
    requires |SendFixed16(code, body) + rest| >= 16
    ensures var s, full := SendFixed16(code, body) + rest, Header(code, |body| + 1) + "\n";
            (s[..15] <= full || full <= s[..15])
  {
    Sent(code, body, rest);
    hide SendFixed16, Header;
    var s, full := SendFixed16(code, body) + rest, Header(code, |body| + 1) + "\n";
    assert s[..|full|] == full;
    if |full| <= 15 {
      assert s[..15][..|full|] == full;
    } else {
      assert full[..15] == s[..15];
    }
  }

  /** The answer arrives, body and newline exactly, for code 200 and a size below
      ten to the eleven, and in no other case. */
  lemma FramingExact(code: nat, body: string, rest: string)
    ensures ParseResponseFixedSize(SendFixed16(code, body) + rest) == Body(body + "\n", rest) <==>
            code == 200 && |body| + 1 < Pow10(11)
  {
    hide SendFixed16, Header, MatchHeader, Pow10;
    var s := SendFixed16(code, body) + rest;
    if code == 200 && |body| + 1 < Pow10(11) {
      HeaderIs16(200, |body| + 1);
      FittingHeader(200, body, rest);
    } else if ParseResponseFixedSize(s).Body? {
      FirstFifteen(code, body, rest);
      CodeKept(code, |body| + 1, s[..15]);
      ShortSize(s[..15]);
    }
  }

  /** Fifteen characters with a three-digit code leave at most eleven for the size. */
  lemma ShortSize(h: string)
    requires |h| == 15 && MatchHeader(h).Some? && MatchHeader(h).value.0 >= 100
    ensures MatchHeader(h).value.1 < Pow10(11)
  {
    var i, j := MatchHeaderSound(h);
    hide MatchHeader, NatValue;
    PowSmall();
    ValueBound(h[..i]);
    PowGrows(i, 2);
    assert j >= 4;
    ValueBound(h[j..]);
    PowGrows(|h[j..]|, 11);
  }

  lemma {:induction false} ValueBound(s: string)
    requires AllDigits(s)
    ensures NatValue(s) < Pow10(|s|)
  {
    if s != [] {
      ValueBound(s[..|s| - 1]);
    }
  }

  lemma {:induction false} PowGrows(a: nat, b: nat)
    ensures a <= b ==> Pow10(a) <= Pow10(b)
  {
    if a < b {
      PowGrows(a, b - 1);
    }
  }

  /** An answer that breaks off is never taken for one: in the header it is
      incomplete, and in the body the size is wrong by what is missing. */
  lemma BrokenOff(body: string, p: nat)
    requires |body| + 1 < Pow10(11) && p < |SendFixed16(200, body)|
    ensures ParseResponseFixedSize(SendFixed16(200, body)[..p]) ==
            Failed(if p < 16 then Incomplete else BadSize(|body| + 1, p - 16))
  {
    hide SendFixed16, Header, MatchHeader, Pow10, ParseResponseFixedSize;
    var s, h := SendFixed16(200, body), Header(200, |body| + 1);
    HeaderIs16(200, |body| + 1);
    HeaderRoundTrip(200, |body| + 1);
    Sent(200, body, "");
    NotSocketError(200, body, "");
    assert s + "" == s;
    if p >= 16 {
      assert s[..p][..15] == h;
      assert s[..p][..16] == s[..16];
    }
    ReadFailed(s[..p], |body| + 1);
  }

  lemma ReadFailed(s: string, size: nat)
    requires |s| >= 16 ==> s[..16] != "No UNIX socket /" && MatchHeader(s[..15]) == Some((200, size)) && |s| < 16 + size
    ensures ParseResponseFixedSize(s) == Failed(if |s| < 16 then Incomplete else BadSize(size, |s| - 16))
  {
    hide MatchHeader;
  }

  // --------------------------------------------------------- kept connections

  function SendAll(bodies: seq<string>): string {
    if bodies == [] then "" else SendFixed16(200, bodies[0]) + SendAll(bodies[1..])
  }

  /** Reads answers until the stream is used up. */
  function ReceiveAll(stream: string): Option<seq<string>>
    decreases |stream|
  {
    if stream == "" then Some([])
    else
      match ParseResponseFixedSize(stream)
      case Failed(_) => None
      case Body(body, rest) =>
        var others := ReceiveAll(rest);
        if others == None then None else Some([body] + others.value)
  }

  function Lines(bodies: seq<string>): seq<string> {
    if bodies == [] then [] else [bodies[0] + "\n"] + Lines(bodies[1..])
  }

  /** On a kept connection, any number of answers come apart where they were put together. */
  lemma {:induction false} StreamRoundTrip(bodies: seq<string>)
    requires forall i :: 0 <= i < |bodies| ==> |bodies[i]| + 1 < Pow10(11)
    ensures ReceiveAll(SendAll(bodies)) == Some(Lines(bodies))
  {
    if bodies != [] {
      var rest := SendAll(bodies[1..]);
      FramingExact(200, bodies[0], rest);
      StreamRoundTrip(bodies[1..]);
      Sent(200, bodies[0], rest);
      hide ParseResponseFixedSize, SendFixed16;
    }
  }
}
