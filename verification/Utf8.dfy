/** UTF-8 validity: the grammar of section 4 of RFC 3629, and the state table that decides it. */
module Utf8 {
  import opened Basics

  predicate Tail(b: byte) { 0x80 <= b <= 0xBF }

  /** The length of the UTF8-char production that `s` starts with, or 0 if there is none. */
  function CharLength(s: seq<byte>): (n: nat)
    ensures n <= |s|
  {
    if |s| >= 1 && s[0] <= 0x7F then 1
    else if |s| >= 2 && 0xC2 <= s[0] <= 0xDF && Tail(s[1]) then 2
    else if |s| >= 3 && Tail(s[2]) &&
            (|| (s[0] == 0xE0 && 0xA0 <= s[1] <= 0xBF)
             || (0xE1 <= s[0] <= 0xEC && Tail(s[1]))
             || (s[0] == 0xED && 0x80 <= s[1] <= 0x9F)
             || (0xEE <= s[0] <= 0xEF && Tail(s[1]))) then 3
    else if |s| >= 4 && Tail(s[2]) && Tail(s[3]) &&
            (|| (s[0] == 0xF0 && 0x90 <= s[1] <= 0xBF)
             || (0xF1 <= s[0] <= 0xF3 && Tail(s[1]))
             || (s[0] == 0xF4 && 0x80 <= s[1] <= 0x8F)) then 4
    else 0
  }

  /** UTF8-octets: any number of UTF8-chars. */
  predicate Valid(s: seq<byte>)
    decreases |s|
  {
    s == [] || (CharLength(s) > 0 && Valid(s[CharLength(s)..]))
  }

  const REJECT: nat := 240

  /** The rows of `utf8acceptnonsurrogates`, one per state; exit codes are 240 and above. */
  function Next(state: nat, c: byte): nat {
    if state == 0 then
      if c <= 0x7F then 0
      else if c <= 0xC1 then REJECT
      else if c <= 0xDF then 1
      else if c == 0xE0 then 2
      else if c == 0xED then 7
      else if c <= 0xEF then 3
      else if c == 0xF0 then 4
      else if c <= 0xF3 then 5
      else if c == 0xF4 then 6
      else REJECT
    else if state == 1 then if Tail(c) then 0 else REJECT
    else if state == 2 then if 0xA0 <= c <= 0xBF then 1 else REJECT
    else if state == 3 then if Tail(c) then 1 else REJECT
    else if state == 4 then if 0x90 <= c <= 0xBF then 3 else REJECT
    else if state == 5 then if Tail(c) then 3 else REJECT
    else if state == 6 then if 0x80 <= c <= 0x8F then 3 else REJECT
    else if state == 7 then if 0x80 <= c <= 0x9F then 1 else if Tail(c) then 8 else REJECT
    else REJECT
  }

  /** The state after scanning `s`, stopping at the first exit code. */
  function Run(state: nat, s: seq<byte>): nat
    decreases |s|
  {
    if s == [] || state >= REJECT then state else Run(Next(state, s[0]), s[1..])
  }

  lemma {:induction false} RunAppend(state: nat, x: seq<byte>, c: byte)
    ensures Run(state, x + [c]) == if Run(state, x) >= REJECT then Run(state, x) else Next(Run(state, x), c)
    decreases |x|
  {
    if x == [] {
      assert Run(state, [c]) == if state >= REJECT then state else Run(Next(state, c), [c][1..]);
    } else if state < REJECT {
      assert (x + [c])[1..] == x[1..] + [c];
      RunAppend(Next(state, x[0]), x[1..], c);
    }
  }

  lemma {:induction false} RunStuck(state: nat, s: seq<byte>)
    requires state >= 8
    ensures Run(state, s) != 0
  {
  }

  /** The table accepts exactly the strings of the grammar. */
  lemma {:induction false} TableDecidesGrammar(s: seq<byte>)
    ensures Run(0, s) == 0 <==> Valid(s)
    decreases |s|
  {
    if s == [] {
    } else if CharLength(s) > 0 {
      RunChar(s);
      TableDecidesGrammar(s[CharLength(s)..]);
    } else {
      RunNoChar(s);
    }
  }

  lemma RunStep(state: nat, s: seq<byte>)
    requires s != [] && state < REJECT
    ensures Run(state, s) == Run(Next(state, s[0]), s[1..])
  {
  }

  /** Scanning one character returns to the initial state. */
  lemma RunChar(s: seq<byte>)
    requires CharLength(s) > 0
    ensures Run(0, s) == Run(0, s[CharLength(s)..])
  {
    var n := CharLength(s);
    RunStep(0, s);
    if n >= 2 {
      var q := Next(0, s[0]);
      RunStep(q, s[1..]);
      if n >= 3 {
        q := Next(q, s[1]);
        RunStep(q, s[2..]);
        if n >= 4 {
          RunStep(Next(q, s[2]), s[3..]);
        }
      }
    }
  }

  lemma RunNoChar(s: seq<byte>)
    requires s != [] && CharLength(s) == 0
    ensures Run(0, s) != 0
  {
    RunStep(0, s);
    var q := Next(0, s[0]);
    if q < 8 && |s| > 1 {
      RunStep(q, s[1..]);
      q := Next(q, s[1]);
      if q < 8 && |s| > 2 {
        RunStep(q, s[2..]);
        q := Next(q, s[2]);
        if q < 8 && |s| > 3 {
          RunStep(q, s[3..]);
          RunStuck(REJECT, s[4..]);
        } else if q >= 8 {
          RunStuck(q, s[3..]);
        }
      } else if q >= 8 {
        RunStuck(q, s[2..]);
      }
    } else if q >= 8 {
      RunStuck(q, s[1..]);
    }
  }

  /** The scan of `UTF8GenericScanFastAscii`: skip an ASCII prefix, then run the table. */
  method IsStructurallyValid(s: seq<byte>) returns (ok: bool)
    ensures ok <==> Valid(s)
  {
    var src := 0;
    while src < |s| && s[src] < 0x80
      invariant src <= |s| && Run(0, s[..src]) == 0
    {
      assert s[..src + 1] == s[..src] + [s[src]];
      RunAppend(0, s[..src], s[src]);
      src := src + 1;
    }
    var state := 0;
    while src < |s| && state < REJECT
      invariant src <= |s| && state == Run(0, s[..src])
    {
      assert s[..src + 1] == s[..src] + [s[src]];
      RunAppend(0, s[..src], s[src]);
      state := Next(state, s[src]);
      src := src + 1;
    }
    ok := state == 0;
    if state >= REJECT {
      RunPrefixRejects(s, src);
    } else {
      assert s[..src] == s;
    }
    TableDecidesGrammar(s);
  }

  lemma {:induction false} RunPrefixRejects(s: seq<byte>, k: nat)
    requires k <= |s| && Run(0, s[..k]) >= REJECT
    ensures Run(0, s) >= REJECT
    decreases |s| - k
  {
    if k < |s| {
      assert s[..k + 1] == s[..k] + [s[k]];
      RunAppend(0, s[..k], s[k]);
      RunPrefixRejects(s, k + 1);
    } else {
      assert s[..k] == s;
    }
  }

  //
  // What the grammar stands for: sequences of code points
  //

  /** The scalar values of Unicode: no surrogates, nothing above U+10FFFF. */
  predicate Scalar(c: nat) {
    c <= 0xD7FF || 0xE000 <= c <= 0x10FFFF
  }

  /** The shortest form, six bits to each byte after the first. */
  function EncodePoint(c: nat): seq<byte>
    requires Scalar(c)
  {
    if c <= 0x7F then [c]
    else if c <= 0x7FF then [0xC0 + c / 64, 0x80 + c % 64]
    else if c <= 0xFFFF then [0xE0 + c / 4096, 0x80 + c / 64 % 64, 0x80 + c % 64]
    else [0xF0 + c / 262144, 0x80 + c / 4096 % 64, 0x80 + c / 64 % 64, 0x80 + c % 64]
  }

  predicate Scalars(cs: seq<nat>) {
    forall c | c in cs :: Scalar(c)
  }

  function EncodePoints(cs: seq<nat>): seq<byte>
    requires Scalars(cs)
  {
    if cs == [] then [] else EncodePoint(cs[0]) + EncodePoints(cs[1..])
  }

  /** What the bytes of a code point are, as far as the grammar looks at them. */
  lemma PointBytes(c: nat)
    requires Scalar(c)
    ensures var p := EncodePoint(c);
            && |p| == (if c <= 0x7F then 1 else if c <= 0x7FF then 2 else if c <= 0xFFFF then 3 else 4)
            && (|p| == 1 ==> p[0] <= 0x7F) && (|p| == 2 ==> 0xC2 <= p[0] <= 0xDF)
            && (|p| == 3 ==> && 0xE0 <= p[0] <= 0xEF && (p[0] == 0xE0 ==> p[1] >= 0xA0)
                             && (p[0] == 0xED ==> p[1] <= 0x9F))
            && (|p| == 4 ==> && 0xF0 <= p[0] <= 0xF4 && (p[0] == 0xF0 ==> p[1] >= 0x90)
                             && (p[0] == 0xF4 ==> p[1] <= 0x8F))
            && forall i | 0 < i < |p| :: Tail(p[i])
  {
    var q, r := c / 64, c / 4096;
    if c > 0xFFFF {
      var a := c / 262144;
      HighBits(r, a);
      assert r / 64 == a && 1 <= a * 4 + 3 && 0x10 <= r <= 0x10F;
    } else if c > 0x7FF {
      HighBits(q, r);
      assert q / 64 == r && 0x20 <= q <= 0x3FF;
    }
  }

  lemma HighBits(v: nat, a: nat)
    requires v / 64 == a
    ensures v == 64 * a + v % 64
  {
  }

  lemma PointIsChar(c: nat, t: seq<byte>)
    requires Scalar(c)
    ensures CharLength(EncodePoint(c) + t) == |EncodePoint(c)|
  {
    PointBytes(c);
    hide EncodePoint;
    var p := EncodePoint(c);
    assert forall i | 0 <= i < |p| :: (p + t)[i] == p[i];
  }

  lemma SixBits(a: nat, b: nat, c: nat, d: nat)
    requires b < 64 && c < 64 && d < 64
    ensures var v := ((a * 64 + b) * 64 + c) * 64 + d;
            v % 64 == d && v / 64 % 64 == c && v / 4096 % 64 == b && v / 262144 == a
  {
    var u := a * 64 + b;
    var v := (u * 64 + c) * 64 + d;
    assert v / 64 == u * 64 + c && v / 4096 == u && u / 64 == a;
  }

  lemma TwoBytes(a: nat, b: nat)
    requires 2 <= a < 32 && b < 64
    ensures var c := a * 64 + b; Scalar(c) && EncodePoint(c) == [0xC0 + a, 0x80 + b]
  {
    SixBits(0, 0, a, b);
  }

  lemma ThreeBytes(a: nat, b: nat, d: nat)
    requires a < 16 && b < 64 && d < 64 && (a == 0 ==> b >= 32) && (a == 13 ==> b < 32)
    ensures var c := (a * 64 + b) * 64 + d;
            Scalar(c) && EncodePoint(c) == [0xE0 + a, 0x80 + b, 0x80 + d]
  {
    SixBits(0, a, b, d);
  }

  lemma FourBytes(a: nat, b: nat, d: nat, e: nat)
    requires a < 5 && b < 64 && d < 64 && e < 64 && (a == 0 ==> b >= 16) && (a == 4 ==> b < 16)
    ensures var c := ((a * 64 + b) * 64 + d) * 64 + e;
            Scalar(c) && EncodePoint(c) == [0xF0 + a, 0x80 + b, 0x80 + d, 0x80 + e]
  {
    SixBits(a, b, d, e);
  }

  lemma CharIsPoint(s: seq<byte>) returns (c: nat)
    requires CharLength(s) > 0
    ensures Scalar(c) && s[..CharLength(s)] == EncodePoint(c)
  {
    hide EncodePoint;
    var n := CharLength(s);
    var a: int := s[0];
    if n == 1 {
      AsciiPoint(a);
      return a;
    }
    var b: int := s[1] - 0x80;
    if n == 2 {
      TwoBytes(a - 0xC0, b);
      return (a - 0xC0) * 64 + b;
    }
    var d: int := s[2] - 0x80;
    if n == 3 {
      ThreeBytes(a - 0xE0, b, d);
      return ((a - 0xE0) * 64 + b) * 64 + d;
    }
    var e: int := s[3] - 0x80;
    FourBytes(a - 0xF0, b, d, e);
    return (((a - 0xF0) * 64 + b) * 64 + d) * 64 + e;
  }

  lemma AsciiPoint(c: nat)
    requires c <= 0x7F
    ensures EncodePoint(c) == [c]
  {
  }

  lemma {:induction false} PointsValid(cs: seq<nat>)
    requires Scalars(cs)
    ensures Valid(EncodePoints(cs))
  {
    if cs == [] {
    } else {
      var p, t := EncodePoint(cs[0]), EncodePoints(cs[1..]);
      PointIsChar(cs[0], t);
      assert (p + t)[|p|..] == t;
      PointsValid(cs[1..]);
    }
  }

  lemma {:induction false} ValidPoints(s: seq<byte>) returns (cs: seq<nat>)
    requires Valid(s)
    ensures Scalars(cs) && EncodePoints(cs) == s
    decreases |s|
  {
    if s == [] {
      cs := [];
    } else {
      var n := CharLength(s);
      var c := CharIsPoint(s);
      var rest := ValidPoints(s[n..]);
      cs := [c] + rest;
      assert cs[0] == c && cs[1..] == rest;
      assert s == s[..n] + s[n..];
    }
  }

  /** The strings of the grammar are exactly the encodings of sequences of scalar values. */
  lemma ValidExact(s: seq<byte>)
    ensures Valid(s) <==> exists cs :: Scalars(cs) && EncodePoints(cs) == s
  {
    if Valid(s) {
      var cs := ValidPoints(s);
    }
    forall cs | Scalars(cs) && EncodePoints(cs) == s ensures Valid(s) {
      PointsValid(cs);
    }
  }
}
