/**
 Which byte strings are text: the check of `core::str::from_utf8`, and what it means.
 */
module Utf8 {
  import opened Machine

  predicate Continuation(b: u8) {
    0x80 <= b <= 0xbf
  }

  /** Well-formed UTF-8 byte by byte (table 3-7 of the Unicode Standard). */
  predicate ValidUtf8(s: seq<u8>) {
    s == [] ||
    (s[0] < 0x80 && ValidUtf8(s[1..])) ||
    (0xc2 <= s[0] <= 0xdf && |s| >= 2 && Continuation(s[1]) && ValidUtf8(s[2..])) ||
    (0xe0 <= s[0] <= 0xef && |s| >= 3 && Continuation(s[1]) && Continuation(s[2])
     && (s[0] == 0xe0 ==> s[1] >= 0xa0) && (s[0] == 0xed ==> s[1] <= 0x9f) && ValidUtf8(s[3..])) ||
    (0xf0 <= s[0] <= 0xf4 && |s| >= 4 && Continuation(s[1]) && Continuation(s[2]) && Continuation(s[3])
     && (s[0] == 0xf0 ==> s[1] >= 0x90) && (s[0] == 0xf4 ==> s[1] <= 0x8f) && ValidUtf8(s[4..]))
  }

  /** Code points that are not surrogates. */
  predicate IsScalar(c: nat) {
    c < 0xd800 || 0xe000 <= c < 0x11_0000
  }

  /** Six bits in a continuation byte. */
  function Tail(v: nat): u8 {
    0x80 + v % 64
  }

  /** The UTF-8 form of one code point. */
  function Encoded(c: nat): (r: seq<u8>)
    requires IsScalar(c)
    ensures 1 <= |r| <= 4
  {
    if c < 0x80 then [c]
    else if c < 0x800 then [0xc0 + c / 64, Tail(c)]
    else if c < 0x1_0000 then [0xe0 + c / 64 / 64, Tail(c / 64), Tail(c)]
    else [0xf0 + c / 64 / 64 / 64, Tail(c / 64 / 64), Tail(c / 64), Tail(c)]
  }

  predicate AllScalar(cs: seq<nat>) {
    forall i :: 0 <= i < |cs| ==> IsScalar(cs[i])
  }

  function Encoding(cs: seq<nat>): seq<u8>
    requires AllScalar(cs)
  {
    if cs == [] then [] else Encoded(cs[0]) + Encoding(cs[1..])
  }

  lemma EncodedFirst(c: nat, rest: seq<u8>)
    requires IsScalar(c) && ValidUtf8(rest)
    ensures ValidUtf8(Encoded(c) + rest)
  {
    var s := Encoded(c) + rest;
    assert s[|Encoded(c)|..] == rest;
  }

  /** Every encoding of code points is accepted. */
  lemma {:induction false} EncodingValid(cs: seq<nat>)
    requires AllScalar(cs)
    ensures ValidUtf8(Encoding(cs))
  {
    if cs != [] {
      EncodingValid(cs[1..]);
      EncodedFirst(cs[0], Encoding(cs[1..]));
    }
  }

  /** Six more bits, from a continuation byte. */
  function Join(high: nat, b: int): nat
    requires b >= 0x80
  {
    64 * high + (b - 0x80)
  }

  lemma JoinSplits(high: nat, b: u8)
    requires Continuation(b)
    ensures Join(high, b) / 64 == high && Tail(Join(high, b)) == b
    ensures 64 * high <= Join(high, b) < 64 * high + 64
  {
  }

  /** The first code point of accepted bytes, and what follows it. */
  lemma FirstScalar(s: seq<u8>) returns (c: nat, n: nat)
    requires s != [] && ValidUtf8(s)
    ensures IsScalar(c) && 1 <= n <= |s| && Encoded(c) == s[..n] && ValidUtf8(s[n..])
  {
    if s[0] < 0x80 {
      c, n := s[0], 1;
    } else if s[0] <= 0xdf {
      c := Two(s);
      n := 2;
    } else if s[0] <= 0xef {
      c := Three(s);
      n := 3;
    } else {
      c := Four(s);
      n := 4;
    }
  }

  lemma Two(s: seq<u8>) returns (c: nat)
    requires |s| >= 2 && 0xc2 <= s[0] <= 0xdf && Continuation(s[1])
    ensures IsScalar(c) && Encoded(c) == s[..2]
  {
    c := Join(s[0] - 0xc0, s[1]);
    JoinSplits(s[0] - 0xc0, s[1]);
    hide Join, Tail;
  }

  lemma Three(s: seq<u8>) returns (c: nat)
    requires |s| >= 3 && 0xe0 <= s[0] <= 0xef && Continuation(s[1]) && Continuation(s[2])
    requires (s[0] == 0xe0 ==> s[1] >= 0xa0) && (s[0] == 0xed ==> s[1] <= 0x9f)
    ensures IsScalar(c) && Encoded(c) == s[..3]
  {
    var d := Join(s[0] - 0xe0, s[1]);
    c := Join(d, s[2]);
    JoinSplits(s[0] - 0xe0, s[1]);
    JoinSplits(d, s[2]);
    JoinBounds(s[0] - 0xe0, s[1]);
    hide Join, Tail;
  }

  lemma Four(s: seq<u8>) returns (c: nat)
    requires |s| >= 4 && 0xf0 <= s[0] <= 0xf4 && Continuation(s[1]) && Continuation(s[2]) && Continuation(s[3])
    requires (s[0] == 0xf0 ==> s[1] >= 0x90) && (s[0] == 0xf4 ==> s[1] <= 0x8f)
    ensures IsScalar(c) && Encoded(c) == s[..4]
  {
    var d := Join(s[0] - 0xf0, s[1]);
    var e := Join(d, s[2]);
    c := Join(e, s[3]);
    JoinSplits(s[0] - 0xf0, s[1]);
    JoinSplits(d, s[2]);
    JoinSplits(e, s[3]);
    JoinBounds(s[0] - 0xf0, s[1]);
    hide Join, Tail;
  }

  lemma JoinBounds(high: nat, b: u8)
    requires Continuation(b)
    ensures Join(high, b) == 64 * high + (b - 0x80)
  {
  }

  /** Every accepted string is the encoding of code points. */
  lemma {:induction false} ValidEncodes(s: seq<u8>) returns (cs: seq<nat>)
    requires ValidUtf8(s)
    ensures AllScalar(cs) && Encoding(cs) == s
    decreases |s|
  {
    cs := [];
    if s != [] {
      var c, n := FirstScalar(s);
      var rest := ValidEncodes(s[n..]);
      cs := [c] + rest;
      assert cs[1..] == rest;
      assert s == s[..n] + s[n..];
    }
  }
}
