/** Repairing byte strings: broken UTF-8 and control characters are replaced,
    everything else is kept. */
module Utf8Repair {
  import opened Lists

  newtype Byte = x: int | 0 <= x < 256

  type Bytes = seq<Byte>

  // ----------------------------------------- UTF-8, section 4 of RFC 3629

  predicate Tail(b: Byte) {
    0x80 <= b <= 0xBF
  }

  /** A character of two to four octets. */
  predicate Multi(u: Bytes) {
    || (|u| == 2 && 0xC2 <= u[0] <= 0xDF && Tail(u[1]))
    || (|u| == 3 && Tail(u[2]) &&
        ((u[0] == 0xE0 && 0xA0 <= u[1] <= 0xBF) || (0xE1 <= u[0] <= 0xEC && Tail(u[1])) ||
         (u[0] == 0xED && 0x80 <= u[1] <= 0x9F) || (0xEE <= u[0] <= 0xEF && Tail(u[1]))))
    || (|u| == 4 && Tail(u[2]) && Tail(u[3]) &&
        ((u[0] == 0xF0 && 0x90 <= u[1] <= 0xBF) || (0xF1 <= u[0] <= 0xF3 && Tail(u[1])) ||
         (u[0] == 0xF4 && 0x80 <= u[1] <= 0x8F)))
  }

  predicate IsChar(u: Bytes) {
    (|u| == 1 && u[0] < 0x80) || Multi(u)
  }

  ghost predicate WellFormed(s: Bytes) {
    exists units :: Concat(units) == s && forall i :: 0 <= i < |units| ==> IsChar(units[i])
  }

  predicate Scalar(cp: nat) {
    cp <= 0x10FFFF && !(0xD800 <= cp <= 0xDFFF)
  }

  /** The octets of a character number, section 3 of RFC 3629. */
  function Encode(cp: nat): Bytes
    requires Scalar(cp)
  {
    if cp < 0x80 then [cp as Byte]
    else if cp < 0x800 then [(0xC0 + cp / 64) as Byte, Sixth(cp)]
    else if cp < 0x10000 then [(0xE0 + cp / 64 / 64) as Byte, Sixth(cp / 64), Sixth(cp)]
    else [(0xF0 + cp / 64 / 64 / 64) as Byte, Sixth(cp / 64 / 64), Sixth(cp / 64), Sixth(cp)]
  }

  /** The continuation octet of the lowest six bits. */
  function Sixth(n: nat): (b: Byte)
    ensures Tail(b)
  {
    (0x80 + n % 64) as Byte
  }

  /** Six more bits. */
  function Add(n: nat, b: Byte): nat
    requires Tail(b)
  {
    n * 64 + (b as nat - 0x80)
  }

  lemma Digits(n: nat, b: Byte)
    requires Tail(b)
    ensures Add(n, b) / 64 == n && Sixth(Add(n, b)) == b
    ensures Add(n / 64, Sixth(n)) == n
  {
  }

  function Decode(u: Bytes): nat
    requires IsChar(u)
  {
    if |u| == 1 then u[0] as nat
    else if |u| == 2 then Add(u[0] as nat - 0xC0, u[1])
    else if |u| == 3 then Add(Add(u[0] as nat - 0xE0, u[1]), u[2])
    else Add(Add(Add(u[0] as nat - 0xF0, u[1]), u[2]), u[3])
  }

  /** The grammar describes exactly the encodings of character numbers: encoding
      gives a character, and decoding it gives the number back. */
  lemma EncodeIsChar(cp: nat)
    requires Scalar(cp)
    ensures IsChar(Encode(cp)) && Decode(Encode(cp)) == cp
  {
    if 0x80 <= cp < 0x800 {
      Digits(cp, 0x80);
    } else if 0x800 <= cp < 0x10000 {
      EncodeThree(cp);
    } else if 0x10000 <= cp {
      EncodeFour(cp);
    }
  }

  lemma EncodeThree(cp: nat)
    requires Scalar(cp) && 0x800 <= cp < 0x10000
    ensures Multi(Encode(cp)) && Decode(Encode(cp)) == cp
  {
    var n := cp / 64;
    var a := n / 64;
    Digits(cp, 0x80);
    Digits(n, 0x80);
    assert 0x20 <= n < 0x400 && !(0x360 <= n < 0x380);
    assert a == 0 ==> Sixth(n) >= 0xA0;
    assert a == 13 ==> Sixth(n) <= 0x9F;
    assert a < 16;
    hide Add, Sixth;
    assert Encode(cp) == [(0xE0 + a) as Byte, Sixth(n), Sixth(cp)];
  }

  lemma EncodeFour(cp: nat)
    requires 0x10000 <= cp <= 0x10FFFF
    ensures Multi(Encode(cp)) && Decode(Encode(cp)) == cp
  {
    var n := cp / 64;
    var m := n / 64;
    var a := m / 64;
    Digits(cp, 0x80);
    Digits(n, 0x80);
    Digits(m, 0x80);
    assert 0x400 <= n < 0x4400;
    assert 0x10 <= m < 0x110;
    assert a == 0 ==> Sixth(m) >= 0x90;
    assert a == 4 ==> Sixth(m) <= 0x8F;
    assert a <= 4;
    hide Add, Sixth;
    assert Encode(cp) == [(0xF0 + a) as Byte, Sixth(m), Sixth(n), Sixth(cp)];
  }

  /** And back: every character of the grammar is the encoding of its number. */
  lemma CharIsEncoded(u: Bytes)
    requires IsChar(u)
    ensures Scalar(Decode(u)) && Encode(Decode(u)) == u
  {
    if |u| == 2 {
      Digits(u[0] as nat - 0xC0, u[1]);
    } else if |u| == 3 {
      ThreeOctets(u);
    } else if |u| == 4 {
      FourOctets(u);
    }
  }

  lemma ThreeOctets(u: Bytes)
    requires Multi(u) && |u| == 3
    ensures Scalar(Decode(u)) && Encode(Decode(u)) == u
  {
    var a := u[0] as nat - 0xE0;
    var n := Add(a, u[1]);
    Digits(a, u[1]);
    Digits(n, u[2]);
    assert 0x20 <= n < 0x400 && !(0x360 <= n < 0x380);
    var cp := Add(n, u[2]);
    assert 0x800 <= cp < 0x10000 && Scalar(cp);
    hide Add, Sixth;
  }

  lemma FourOctets(u: Bytes)
    requires Multi(u) && |u| == 4
    ensures Scalar(Decode(u)) && Encode(Decode(u)) == u
  {
    var a := u[0] as nat - 0xF0;
    var m := Add(a, u[1]);
    var n := Add(m, u[2]);
    Digits(a, u[1]);
    Digits(m, u[2]);
    Digits(n, u[3]);
    assert 0x10 <= m < 0x110;
    assert 0x400 <= n < 0x4400;
    var cp := Add(n, u[3]);
    assert 0x10000 <= cp <= 0x10FFFF && Scalar(cp);
    hide Add, Sixth;
  }

  // ------------------------------------------------------------ DecodeRune

  /** Octets announced by a leading octet; 1 for single or invalid ones. */
  function Announced(b: Byte): nat {
    if 0xC2 <= b <= 0xDF then 2
    else if 0xE0 <= b <= 0xEF then 3
    else if 0xF0 <= b <= 0xF4 then 4
    else 1
  }

  function SecondLow(b: Byte): Byte {
    if b == 0xE0 then 0xA0 else if b == 0xF0 then 0x90 else 0x80
  }

  function SecondHigh(b: Byte): Byte {
    if b == 0xED then 0x9F else if b == 0xF4 then 0x8F else 0xBF
  }

  /** The width that decoding the first character reports. */
  function Width(s: Bytes): (w: nat)
    requires s != []
    ensures 1 <= w <= |s|
  {
    var n := Announced(s[0]);
    if n == 1 || |s| < n || !(SecondLow(s[0]) <= s[1] <= SecondHigh(s[0])) then 1
    else if n == 2 then 2
    else if !Tail(s[2]) then 1
    else if n == 3 then 3
    else if !Tail(s[3]) then 1
    else 4
  }

  /** A width above one is reported exactly where a longer character starts. */
  lemma WidthExact(s: Bytes, w: nat)
    requires s != [] && 2 <= w <= |s|
    ensures Width(s) == w <==> Multi(s[..w])
  {
  }

  // ------------------------------------------------------------------ repair

  predicate Printable(b: Byte) {
    0x20 <= b < 0x7F
  }

  /** A character that is kept. */
  predicate Good(u: Bytes) {
    (|u| == 1 && Printable(u[0])) || Multi(u)
  }

  /** Length of the kept character at the start, or 0 for an octet to replace. */
  function Kept(s: Bytes): (w: nat)
    requires s != []
    ensures w <= |s| && (w > 0 ==> Good(s[..w]))
  {
    if Printable(s[0]) then 1
    else if Width(s) == 1 then 0
    else
      WidthExact(s, Width(s));
      Width(s)
  }

  /** One pass that remembers whether the octet before was replaced. */
  function Repair(s: Bytes, replacement: Bytes, invalid: bool): Bytes
    decreases |s|
  {
    if s == [] then []
    else if Kept(s) == 0 then (if invalid then [] else replacement) + Repair(s[1..], replacement, true)
    else s[..Kept(s)] + Repair(s[Kept(s)..], replacement, false)
  }

  lemma RepairAt(s: Bytes, i: nat, replacement: Bytes, invalid: bool)
    requires i < |s|
    ensures var k := Kept(s[i..]);
            Repair(s[i..], replacement, invalid) ==
            if k == 0 then (if invalid then [] else replacement) + Repair(s[i + 1..], replacement, true)
            else s[i..i + k] + Repair(s[i + k..], replacement, false)
  {
    hide Kept;
    var rest, k := s[i..], Kept(s[i..]);
    assert rest[1..] == s[i + 1..] && rest[..k] == s[i..i + k] && rest[k..] == s[i + k..];
  }

  method BytesToValidUTF8(s: Bytes, replacement: Bytes) returns (b: Bytes)
    ensures b == Repair(s, replacement, false)
  {
    hide Repair, Width, Good, Kept;
    b := [];
    var invalid := false;
    var i := 0;
    assert s[0..] == s;
    ghost var want := Repair(s, replacement, false);
    while i < |s|
      invariant 0 <= i <= |s|
      invariant b + Repair(s[i..], replacement, invalid) == want
    {
      RepairAt(s, i, replacement, invalid);
      KeptAt(s, i);
      var c := s[i];
      if c < 0x80 && c >= 32 && c != 127 {
        Assoc(b, s[i..i + 1], Repair(s[i + 1..], replacement, false));
        i := i + 1;
        invalid := false;
        b := b + [c];
        continue;
      }
      var wid := Width(s[i..]);
      if wid == 1 {
        Assoc(b, if invalid then [] else replacement, Repair(s[i + 1..], replacement, true));
        i := i + 1;
        if !invalid {
          invalid := true;
          b := b + replacement;
        }
        continue;
      }
      Assoc(b, s[i..i + wid], Repair(s[i + wid..], replacement, false));
      invalid := false;
      b := b + s[i..i + wid];
      i := i + wid;
    }
    RepairEmpty(replacement, invalid);
    assert s[i..] == [];
  }

  lemma KeptAt(s: Bytes, i: nat)
    requires i < |s|
    ensures Kept(s[i..]) == if Printable(s[i]) then 1 else if Width(s[i..]) == 1 then 0 else Width(s[i..])
    ensures s[i..i + 1] == [s[i]]
  {
  }

  lemma Assoc(a: Bytes, b: Bytes, c: Bytes)
    ensures a + (b + c) == (a + b) + c
    ensures b == [] ==> a + b == a
  {
  }

  lemma RepairEmpty(replacement: Bytes, invalid: bool)
    ensures Repair([], replacement, invalid) == []
  {
  }

  // -------------------------------------------------------------- clean texts

  /** A text of kept characters only. */
  ghost predicate Clean(s: Bytes) {
    exists units :: Concat(units) == s && forall i :: 0 <= i < |units| ==> Good(units[i])
  }

  lemma CleanCons(u: Bytes, s: Bytes)
    requires Good(u) && Clean(s)
    ensures Clean(u + s)
  {
    var units :| Concat(units) == s && forall i :: 0 <= i < |units| ==> Good(units[i]);
    var all := [u] + units;
    assert all[1..] == units;
    assert Concat(all) == u + s;
  }

  lemma CleanEmpty()
    ensures Clean([])
  {
    var none: seq<Bytes> := [];
    assert Concat(none) == [];
  }

  lemma {:induction false} ConcatClean(units: seq<Bytes>, s: Bytes)
    requires (forall i :: 0 <= i < |units| ==> Good(units[i])) && Clean(s)
    ensures Clean(Concat(units) + s)
  {
    if units == [] {
      assert Concat(units) + s == s;
    } else {
      ConcatClean(units[1..], s);
      CleanCons(units[0], Concat(units[1..]) + s);
      assert Concat(units) + s == units[0] + (Concat(units[1..]) + s);
    }
  }

  lemma CleanAppend(a: Bytes, b: Bytes)
    requires Clean(a) && Clean(b)
    ensures Clean(a + b)
  {
    var units :| Concat(units) == a && forall i :: 0 <= i < |units| ==> Good(units[i]);
    ConcatClean(units, b);
  }

  /** A clean text starts with a kept character that decoding finds, followed by
      a clean text. */
  lemma CleanStart(s: Bytes)
    requires Clean(s) && s != []
    ensures Kept(s) > 0 && Clean(s[Kept(s)..])
  {
    var units :| Concat(units) == s && forall i :: 0 <= i < |units| ==> Good(units[i]);
    var u, rest := units[0], Concat(units[1..]);
    assert s == u + rest && s[..|u|] == u && s[|u|..] == rest;
    if |u| > 1 {
      WidthExact(s, |u|);
    }
    assert Kept(s) == |u|;
    assert forall i :: 0 <= i < |units[1..]| ==> Good(units[1..][i]);
  }

  // ------------------------------------------------------------- main results

  /** With a clean replacement the result is clean, whatever the input. */
  lemma {:induction false} RepairClean(s: Bytes, replacement: Bytes, invalid: bool)
    requires Clean(replacement)
    ensures Clean(Repair(s, replacement, invalid))
    decreases |s|
  {
    CleanEmpty();
    if s != [] {
      if Kept(s) == 0 {
        RepairClean(s[1..], replacement, true);
        CleanAppend(if invalid then [] else replacement, Repair(s[1..], replacement, true));
      } else {
        RepairClean(s[Kept(s)..], replacement, false);
        CleanCons(s[..Kept(s)], Repair(s[Kept(s)..], replacement, false));
      }
    }
  }

  /** Clean texts are left alone, by any replacement. */
  lemma {:induction false} CleanUnchanged(s: Bytes, replacement: Bytes, invalid: bool)
    requires Clean(s)
    ensures Repair(s, replacement, invalid) == s
    decreases |s|
  {
    if s != [] {
      CleanStart(s);
      hide Kept, Clean;
      CleanUnchanged(s[Kept(s)..], replacement, false);
      assert s == s[..Kept(s)] + s[Kept(s)..];
    }
  }

  /** A text is left alone if and only if it is clean, and repairing twice is
      repairing once. */
  lemma RepairExact(s: Bytes, replacement: Bytes)
    requires Clean(replacement)
    ensures var r := Repair(s, replacement, false);
            (r == s <==> Clean(s)) && Repair(r, replacement, false) == r
  {
    RepairClean(s, replacement, false);
    CleanUnchanged(Repair(s, replacement, false), replacement, false);
    if Clean(s) {
      CleanUnchanged(s, replacement, false);
    }
  }

  /** All results are clean exactly for clean replacements. */
  lemma CleanReplacementNeeded(replacement: Bytes)
    ensures (forall s :: Clean(Repair(s, replacement, false))) <==> Clean(replacement)
  {
    var nul: Bytes := [0];
    OneBadByte(replacement);
    hide Clean, Repair;
    if forall s :: Clean(Repair(s, replacement, false)) {
      assert Clean(Repair(nul, replacement, false));
    }
    if Clean(replacement) {
      forall s
        ensures Clean(Repair(s, replacement, false))
      {
        RepairClean(s, replacement, false);
      }
    }
  }

  lemma OneBadByte(replacement: Bytes)
    ensures Repair([0], replacement, false) == replacement
  {
    var nul: Bytes := [0];
    assert Kept(nul) == 0 && nul[1..] == [];
    RepairEmpty(replacement, true);
    hide Kept;
  }

  /** Clean texts are well-formed and free of control characters. */
  lemma CleanMeaning(s: Bytes)
    requires Clean(s)
    ensures WellFormed(s)
    ensures forall i :: 0 <= i < |s| ==> s[i] >= 0x20 && s[i] != 0x7F
  {
    var units :| Concat(units) == s && forall i :: 0 <= i < |units| ==> Good(units[i]);
    assert forall i :: 0 <= i < |units| ==> IsChar(units[i]);
    NoControls(units);
  }

  lemma {:induction false} NoControls(units: seq<Bytes>)
    requires forall i :: 0 <= i < |units| ==> Good(units[i])
    ensures forall i :: 0 <= i < |Concat(units)| ==> Concat(units)[i] >= 0x20 && Concat(units)[i] != 0x7F
  {
    if units != [] {
      NoControls(units[1..]);
      assert forall i :: 0 <= i < |units[0]| ==> units[0][i] >= 0x20 && units[0][i] != 0x7F;
    }
  }

  /** And no other text is clean. */
  lemma CleanExact(s: Bytes)
    ensures Clean(s) <==> WellFormed(s) && forall i :: 0 <= i < |s| ==> s[i] >= 0x20 && s[i] != 0x7F
  {
    if Clean(s) {
      CleanMeaning(s);
    }
    if WellFormed(s) && forall i :: 0 <= i < |s| ==> s[i] >= 0x20 && s[i] != 0x7F {
      var units :| Concat(units) == s && forall i :: 0 <= i < |units| ==> IsChar(units[i]);
      UnitsGood(units);
    }
  }

  lemma {:induction false} UnitsGood(units: seq<Bytes>)
    requires forall i :: 0 <= i < |units| ==> IsChar(units[i])
    requires forall i :: 0 <= i < |Concat(units)| ==> Concat(units)[i] >= 0x20 && Concat(units)[i] != 0x7F
    ensures forall i :: 0 <= i < |units| ==> Good(units[i])
  {
    if units != [] {
      var first, rest := units[0], units[1..];
      assert Concat(units)[0] == first[0];
      assert Concat(units)[|first|..] == Concat(rest);
      forall i | 0 <= i < |Concat(rest)|
        ensures Concat(rest)[i] >= 0x20 && Concat(rest)[i] != 0x7F
      {
        assert Concat(rest)[i] == Concat(units)[|first| + i];
      }
      UnitsGood(rest);
    }
  }

  /** U+FFFD, the replacement character in use. */
  const REPLACEMENT_CHARACTER: Bytes := [0xEF, 0xBF, 0xBD]

  lemma ReplacementIsClean()
    ensures Clean(REPLACEMENT_CHARACTER) && REPLACEMENT_CHARACTER == Encode(0xFFFD)
  {
    CleanEmpty();
    CleanCons(REPLACEMENT_CHARACTER, []);
    assert REPLACEMENT_CHARACTER + [] == REPLACEMENT_CHARACTER;
  }

  /** What the repair of arbitrary bytes promises. */
  lemma RepairPromise(s: Bytes)
    ensures var r := Repair(s, REPLACEMENT_CHARACTER, false);
            && WellFormed(r)
            && (forall i :: 0 <= i < |r| ==> r[i] >= 0x20 && r[i] != 0x7F)
            && (r == s <==> WellFormed(s) && forall i :: 0 <= i < |s| ==> s[i] >= 0x20 && s[i] != 0x7F)
            && Repair(r, REPLACEMENT_CHARACTER, false) == r
  {
    ReplacementIsClean();
    RepairClean(s, REPLACEMENT_CHARACTER, false);
    CleanExact(s);
    CleanExact(Repair(s, REPLACEMENT_CHARACTER, false));
    hide Clean, WellFormed, Repair;
    RepairExact(s, REPLACEMENT_CHARACTER);
  }

  // ------------------------------------------------- what is kept and replaced

  datatype Item = GoodItem(bytes: Bytes) | BadRun(bytes: Bytes)

  /** The text in pieces: kept characters, and runs of octets to replace. */
  function Pieces(s: Bytes): seq<Item>
    decreases |s|
  {
    if s == [] then []
    else if Kept(s) > 0 then [GoodItem(s[..Kept(s)])] + Pieces(s[Kept(s)..])
    else
      var rest := Pieces(s[1..]);
      if rest != [] && rest[0].BadRun? then [BadRun([s[0]] + rest[0].bytes)] + rest[1..]
      else [BadRun([s[0]])] + rest
  }

  function Joined(items: seq<Item>): Bytes {
    if items == [] then [] else items[0].bytes + Joined(items[1..])
  }

  function Replaced(items: seq<Item>, replacement: Bytes): Bytes {
    if items == [] then []
    else (if items[0].GoodItem? then items[0].bytes else replacement) + Replaced(items[1..], replacement)
  }

  /** Every good piece is a kept character, every bad run is non-empty, and no
      two bad runs touch. */
  ghost predicate Separated(items: seq<Item>) {
    && (forall i :: 0 <= i < |items| ==> if items[i].GoodItem? then Good(items[i].bytes) else items[i].bytes != [])
    && (forall i :: 0 <= i < |items| - 1 ==> items[i].GoodItem? || items[i + 1].GoodItem?)
  }

  /** The pieces are the whole text, properly separated. */
  lemma {:induction false} PiecesPartition(s: Bytes)
    ensures Joined(Pieces(s)) == s && Separated(Pieces(s))
    decreases |s|
  {
    hide Kept, Good, Joined, Separated;
    NoPieces();
    if s != [] {
      if Kept(s) > 0 {
        PiecesPartition(s[Kept(s)..]);
        AddPiece(GoodItem(s[..Kept(s)]), Pieces(s[Kept(s)..]));
        assert s == s[..Kept(s)] + s[Kept(s)..];
      } else {
        PiecesPartition(s[1..]);
        var rest := Pieces(s[1..]);
        if rest != [] && rest[0].BadRun? {
          GrowRun(s[0], rest);
        } else {
          AddPiece(BadRun([s[0]]), rest);
        }
        assert s == [s[0]] + s[1..];
      }
    }
  }

  lemma NoPieces()
    ensures Joined([]) == [] && Separated([])
  {
  }

  lemma AddPiece(item: Item, items: seq<Item>)
    requires Separated(items)
    requires if item.GoodItem? then Good(item.bytes) else item.bytes != [] && (items != [] ==> items[0].GoodItem?)
    ensures Separated([item] + items) && Joined([item] + items) == item.bytes + Joined(items)
  {
    hide Good;
    var all := [item] + items;
    assert all[1..] == items;
    assert forall i :: 1 <= i < |all| ==> all[i] == items[i - 1];
  }

  lemma GrowRun(b: Byte, items: seq<Item>)
    requires Separated(items) && items != [] && items[0].BadRun?
    ensures var all := [BadRun([b] + items[0].bytes)] + items[1..]; Separated(all) && Joined(all) == [b] + Joined(items)
  {
    hide Good, Joined;
    var rest := items[1..];
    assert Separated(rest) by {
      assert forall i :: 0 <= i < |rest| ==> rest[i] == items[i + 1];
    }
    AddPiece(BadRun([b] + items[0].bytes), rest);
    AddPiece(items[0], rest);
    assert items == [items[0]] + rest;
    Assoc([b], items[0].bytes, Joined(rest));
  }

  /** The one pass with a flag does what replacing every maximal bad run by one
      replacement does: kept characters survive in order. */
  lemma {:induction false} RepairReplacesRuns(s: Bytes, replacement: Bytes)
    ensures Repair(s, replacement, false) == Replaced(Pieces(s), replacement)
    ensures Repair(s, replacement, true) ==
            if Pieces(s) != [] && Pieces(s)[0].BadRun? then Replaced(Pieces(s)[1..], replacement) else Replaced(Pieces(s), replacement)
    decreases |s|
  {
    if s != [] {
      RepairReplacesRuns(if Kept(s) > 0 then s[Kept(s)..] else s[1..], replacement);
      assert [] + Repair(s[1..], replacement, true) == Repair(s[1..], replacement, true);
    }
  }
}
