/**
 The internet checksum (RFC 1071) and the UDP echo responder built on it.
 */
module Checksum {
  import opened Machine

  // ---- the sum of big-endian words, and the end-around fold ----

  function Be16(s: seq<u8>, at: nat): u16
    requires at + 2 <= |s|
  {
    256 * (s[at] as int) + s[at + 1]
  }

  lemma Be16Spells(s: seq<u8>, at: nat)
    requires at + 2 <= |s|
    ensures Be16(s, at) == BigEndian(s[at .. at + 2])
  {
    var w := s[at .. at + 2];
    assert BigEndian(w[..1][..0]) == 0;
    assert BigEndian(w[..1]) == w[0] as int;
  }

  /** Sum of the 16-bit big-endian words; an odd last byte is the high half of a word. */
  function Words(s: seq<u8>): nat {
    if |s| == 0 then 0
    else if |s| == 1 then 256 * (s[0] as int)
    else 256 * (s[0] as int) + s[1] + Words(s[2..])
  }

  lemma {:induction false} WordsBound(s: seq<u8>)
    ensures Words(s) <= 65535 * ((|s| + 1) / 2)
  {
    if |s| >= 2 { WordsBound(s[2..]); }
  }

  /** Adding the carries back into the low half until none is left. */
  function Fold(n: nat): (f: nat)
    ensures f < 65536
  {
    if n < 65536 then n else Fold(n % 65536 + n / 65536)
  }

  /** Folding keeps the residue modulo 65535 and tells zero from 65535. */
  lemma {:induction false} FoldResidue(n: nat)
    ensures Fold(n) % 65535 == n % 65535 && (Fold(n) == 0 <==> n == 0)
  {
    if n >= 65536 {
      FoldResidue(n % 65536 + n / 65536);
      OneFold(n % 65536, n / 65536);
    }
  }

  lemma OneFold(low: nat, high: nat)
    ensures (low + high) % 65535 == (low + 65536 * high) % 65535
  {
    assert low + 65536 * high == 65535 * high + (low + high);
  }

  /** The checksum of a byte string. */
  function Csum(s: seq<u8>): u16 {
    65535 - Fold(Words(s))
  }

  lemma MaskLow16(x: u32)
    ensures BitAnd(x, 0xffff) == x % 65536
  {
    Pow2Of16();
    MaskIsMod(x, 16);
  }

  /** What the code computes: the u32 sum drops its carries past 32 bits. */
  function CsumInU32(s: seq<u8>): u16 {
    65535 - Fold(Words(s) % 0x1_0000_0000)
  }

  method Csum16(bytes: seq<u8>) returns (r: u16)
    ensures r == CsumInU32(bytes)
    ensures |bytes| <= 131074 ==> r == Csum(bytes)
  {
    hide BitAnd, Fold, Words;
    assert bytes[0..] == bytes;
    var sum: u32 := 0;
    var i := 0;
    ghost var exact: nat := 0;
    while i + 1 < |bytes|
      invariant 0 <= i <= |bytes|
      invariant sum == exact % 0x1_0000_0000 && exact + Words(bytes[i..]) == Words(bytes)
    {
      NextWord(bytes, i);
      WrappedAdd(exact, Be16(bytes, i));
      exact := exact + Be16(bytes, i);
      sum := (sum + Be16(bytes, i)) % 0x1_0000_0000;
      i := i + 2;
    }
    LastByte(bytes, i);
    if i < |bytes| {
      WrappedAdd(exact, 256 * (bytes[i] as int));
      sum := (sum + 256 * (bytes[i] as int)) % 0x1_0000_0000;
    }
    ShortSum(bytes);
    sum := FoldLoop(sum);
    r := 65535 - sum;
  }

  lemma NextWord(bytes: seq<u8>, i: nat)
    requires i + 1 < |bytes|
    ensures Words(bytes[i..]) == Be16(bytes, i) + Words(bytes[i + 2..])
  {
    assert bytes[i..][2..] == bytes[i + 2..];
  }

  lemma LastByte(bytes: seq<u8>, i: nat)
    requires i <= |bytes| <= i + 1
    ensures Words(bytes[i..]) == if i < |bytes| then 256 * (bytes[i] as int) else 0
  {
  }

  lemma WrappedAdd(a: nat, b: nat)
    ensures (a % 0x1_0000_0000 + b) % 0x1_0000_0000 == (a + b) % 0x1_0000_0000
  {
  }

  /** Up to 131074 bytes the sum fits. */
  lemma ShortSum(s: seq<u8>)
    ensures |s| <= 131074 ==> Words(s) < 0x1_0000_0000
  {
    WordsBound(s);
  }

  /** Folds agree iff their arguments agree modulo 65535 and are both zero or both not. */
  lemma SameFold(a: nat, b: nat)
    ensures Fold(a) == Fold(b) <==> a % 65535 == b % 65535 && (a == 0 <==> b == 0)
  {
    hide Fold;
    FoldResidue(a);
    FoldResidue(b);
  }

  /** The u32 sum gives the checksum iff the carries it loses are a multiple of 65535 and it is not zero by accident. */
  lemma U32Exact(s: seq<u8>)
    ensures CsumInU32(s) == Csum(s) <==>
      (Words(s) / 0x1_0000_0000) % 65535 == 0 && (Words(s) % 0x1_0000_0000 == 0 ==> Words(s) == 0)
  {
    hide Fold, Words;
    var w := Words(s);
    var a, b := w / 0x1_0000_0000, w % 0x1_0000_0000;
    SameFold(b, w);
    LostCarries(a, b);
  }

  lemma LostCarries(a: nat, b: nat)
    ensures b % 65535 == (a * 0x1_0000_0000 + b) % 65535 <==> a % 65535 == 0
  {
    assert a * 0x1_0000_0000 + b == 65535 * (a * 65537) + (a + b);
    Shift(a + b, a * 65537);
    Shift(a % 65535 + b, a / 65535);
    Shift(b % 65535 + a % 65535, b / 65535);
  }

  /** `n` words of 0xffff; from 65538 words on a carry is lost. */
  function Ones(n: nat): (s: seq<u8>)
    ensures |s| == 2 * n
  {
    if n == 0 then [] else [0xff, 0xff] + Ones(n - 1)
  }

  lemma {:induction false} OnesSum(n: nat)
    ensures Words(Ones(n)) == 65535 * n
  {
    if n > 0 {
      assert Ones(n)[2..] == Ones(n - 1);
      OnesSum(n - 1);
    }
  }

  lemma LongSumFails(n: nat)
    requires 65538 <= n <= 131074
    ensures CsumInU32(Ones(n)) != Csum(Ones(n))
  {
    hide Ones, Words, Fold, Csum, CsumInU32;
    OnesSum(n);
    U32Exact(Ones(n));
  }

  method FoldLoop(start: u32) returns (sum: u16)
    ensures sum == Fold(start)
  {
    hide BitAnd;
    var n: u32 := start;
    while n / 65536 != 0
      invariant Fold(n) == Fold(start)
      decreases n
    {
      MaskLow16(n);
      n := BitAnd(n, 0xffff) + n / 65536;
    }
    sum := n;
  }

  // ---- the checksum field ----

  /** `s` with the big-endian word `v` at `at`. */
  function WithWord(s: seq<u8>, at: nat, v: u16): seq<u8>
    requires at + 2 <= |s|
  {
    Splice(s, at, [v / 256, v % 256])
  }

  lemma {:induction false} WordsWith(s: seq<u8>, at: nat, v: u16)
    requires at + 2 <= |s| && at % 2 == 0
    ensures Words(WithWord(s, at, v)) == Words(s) - Be16(s, at) + v
  {
    var t := WithWord(s, at, v);
    if at == 0 {
      assert t[2..] == s[2..];
    } else {
      assert t[2..] == WithWord(s[2..], at - 2, v);
      WordsWith(s[2..], at - 2, v);
    }
  }

  lemma VerifiesIff(s: seq<u8>)
    ensures Csum(s) == 0 <==> Words(s) > 0 && Words(s) % 65535 == 0
  {
    hide Fold;
    FoldResidue(Words(s));
  }

  /**
   Which field values make a packet verify: the checksum of the packet with a zero
   field, and only that one, apart from the second encoding of zero.
   */
  lemma FieldExact(s: seq<u8>, at: nat, v: u16)
    requires at + 2 <= |s| && at % 2 == 0 && s[at] == 0 && s[at + 1] == 0
    ensures Csum(WithWord(s, at, v)) == 0 <==> v == Csum(s) || (Csum(s) == 0 && v == 65535)
  {
    hide Fold, WithWord;
    var w := Words(s);
    FoldResidue(w);
    WordsWith(s, at, v);
    VerifiesIff(WithWord(s, at, v));
    SumToZero(w, Fold(w), v);
  }

  lemma SumToZero(w: nat, f: nat, v: u16)
    requires f < 65536 && f % 65535 == w % 65535 && (f == 0 <==> w == 0)
    ensures w + v > 0 && (w + v) % 65535 == 0 <==> v == 65535 - f || (f == 65535 && v == 65535)
  {
    Complement(w, f, v);
  }

  lemma Complement(w: nat, f: nat, v: nat)
    requires f % 65535 == w % 65535
    ensures (w + v) % 65535 == (f + v) % 65535
  {
    var a, b := w / 65535, f / 65535;
    assert w + v == (f + v) + 65535 * (a - b);
    Shift(f + v, a - b);
  }

  lemma Shift(x: int, k: int)
    ensures (x + 65535 * k) % 65535 == x % 65535
  {
  }

  // ---- the echo responder ----

  datatype Outcome = Drop | Reply(frame: seq<u8>) | Panic

  function HeaderLength(frame: seq<u8>): nat
    requires |frame| >= 42
  {
    4 * (frame[14] % 16)
  }

  /** Long enough for the fixed headers, IPv4, a legal header length and UDP. */
  predicate IsUdp(frame: seq<u8>) {
    |frame| >= 42 && Be16(frame, 12) == 0x0800 && HeaderLength(frame) >= 20 && frame[23] == 17
  }

  /** The frame holds `n` bytes of the UDP header. */
  predicate Holds(frame: seq<u8>, n: nat)
    requires |frame| >= 42
  {
    |frame| >= 14 + HeaderLength(frame) + n
  }

  predicate IsEcho(frame: seq<u8>) {
    IsUdp(frame) && Holds(frame, 4) && Be16(frame, 14 + HeaderLength(frame) + 2) == 7
  }

  /** Byte `k` of the answer is byte `Origin(u, k)` of the request, for UDP header offset `u`. */
  function Origin(u: nat, k: nat): int
    requires u >= 34
  {
    if k < 6 then k + 6
    else if 26 <= k < 30 then k + 4
    else if 30 <= k < 34 then k - 4
    else if u <= k < u + 2 then k + 2
    else if u + 2 <= k < u + 4 then k - 2
    else k
  }

  /** Bytes the answer does not take from the request: our address and the two checksums. */
  predicate Fresh(u: nat, k: nat) {
    6 <= k < 12 || 24 <= k < 26 || u + 6 <= k < u + 8
  }

  ghost predicate IsAnswer(frame: seq<u8>, mac: seq<u8>, out: seq<u8>)
    requires |mac| == 6 && IsEcho(frame) && Holds(frame, 8)
  {
    var u := 14 + HeaderLength(frame);
    && |out| == |frame|
    && (forall k :: 0 <= k < |out| && !Fresh(u, k) ==> out[k] == frame[Origin(u, k)])
    && out[6..12] == mac
    && out[u + 6] == 0 && out[u + 7] == 0
    && Csum(out[14..u]) == 0
  }

  lemma MaskLow4(x: u8)
    ensures BitAnd(x, 0x0f) == x % 16
  {
    assert Pow2(4) == 16;
    MaskIsMod(x, 4);
  }

  /**
   `try_reply_echo`. Frames that are no UDP echo request are dropped; a header length
   that reaches past the frame makes an index fail; otherwise the reply goes back to
   the sender with a header checksum that verifies.
   */
  method TryReplyEcho(frame: seq<u8>, mac: seq<u8>) returns (r: Outcome)
    requires |mac| == 6
    ensures r.Panic? <==> IsUdp(frame) && (!Holds(frame, 4) || (IsEcho(frame) && !Holds(frame, 8)))
    ensures r.Reply? <==> IsEcho(frame) && Holds(frame, 8)
    ensures r.Reply? ==> IsAnswer(frame, mac, r.frame)
  {
    hide BitAnd, IsAnswer;
    if |frame| < 14 + 20 + 8 || Be16(frame, 12) != 0x0800 {
      return Drop;
    }
    MaskLow4(frame[14]);
    var ihl := BitAnd(frame[14], 0x0f) * 4;
    if ihl < 20 || frame[23] != 17 {
      return Drop;
    }
    if 14 + ihl + 4 > |frame| {
      return Panic;
    }
    if Be16(frame, 14 + ihl + 2) != 7 {
      return Drop;
    }
    if 14 + ihl + 8 > |frame| {
      return Panic;
    }
    var out := Answer(frame, mac);
    r := Reply(out);
  }

  /** The reply frame, layer by layer. */
  method Answer(frame: seq<u8>, mac: seq<u8>) returns (out: seq<u8>)
    requires |mac| == 6 && IsEcho(frame) && Holds(frame, 8)
    ensures IsAnswer(frame, mac, out)
  {
    hide Csum, Be16;
    var ihl := HeaderLength(frame);
    var eth := SwapEthernet(frame, mac);
    var ip := SwapAddresses(eth, ihl);
    out := SwapPorts(ip, 14 + ihl);
    assert out[14..14 + ihl] == ip[14..14 + ihl];
    assert out[6..12] == mac;
  }

  method SwapEthernet(frame: seq<u8>, mac: seq<u8>) returns (out: seq<u8>)
    requires |mac| == 6 && |frame| >= 12
    ensures |out| == |frame| && out[6..12] == mac
    ensures forall k :: 0 <= k < |out| && !(6 <= k < 12) ==> out[k] == frame[if k < 6 then k + 6 else k]
  {
    out := Splice(frame, 0, frame[6..12]);
    out := Splice(out, 6, mac);
  }

  method SwapAddresses(frame: seq<u8>, ihl: nat) returns (out: seq<u8>)
    requires 20 <= ihl <= 60 && ihl % 4 == 0 && 14 + ihl <= |frame|
    ensures |out| == |frame| && Csum(out[14..14 + ihl]) == 0
    ensures forall k :: 0 <= k < |out| && !(24 <= k < 26) ==>
      out[k] == frame[if 26 <= k < 30 then k + 4 else if 30 <= k < 34 then k - 4 else k]
  {
    hide Csum;
    var src, dst := frame[26..30], frame[30..34];
    out := Splice(frame, 26, dst);
    out := Splice(out, 30, src);
    out := out[24 := 0][25 := 0];
    out := SetChecksum(out, ihl);
  }

  method SwapPorts(frame: seq<u8>, u: nat) returns (out: seq<u8>)
    requires u + 8 <= |frame|
    ensures |out| == |frame| && out[u + 6] == 0 && out[u + 7] == 0
    ensures forall k :: 0 <= k < |out| && !(u + 6 <= k < u + 8) ==>
      out[k] == frame[if u <= k < u + 2 then k + 2 else if u + 2 <= k < u + 4 then k - 2 else k]
  {
    var src, dst := Be16(frame, u), Be16(frame, u + 2);
    out := frame[u := dst / 256][u + 1 := dst % 256][u + 2 := src / 256][u + 3 := src % 256];
    out := out[u + 6 := 0][u + 7 := 0];
  }

  method SetChecksum(frame: seq<u8>, ihl: nat) returns (out: seq<u8>)
    requires 20 <= ihl <= 60 && ihl % 4 == 0 && 14 + ihl <= |frame| && frame[24] == 0 && frame[25] == 0
    ensures |out| == |frame| && Csum(out[14..14 + ihl]) == 0
    ensures forall k :: 0 <= k < |out| && !(24 <= k < 26) ==> out[k] == frame[k]
  {
    hide Csum;
    var header := frame[14..14 + ihl];
    var c := Csum16(header);
    out := frame[24 := c / 256][25 := c % 256];
    assert out[14..14 + ihl] == WithWord(header, 10, c);
    FieldExact(header, 10, c);
  }
}
