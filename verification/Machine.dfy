/**
 Machine integers and the bitwise operators of the kernel, defined on the binary
 digits of natural numbers.
 */
module Machine {

  type u8 = x: int | 0 <= x < 0x100
  type u16 = x: int | 0 <= x < 0x1_0000
  type u32 = x: int | 0 <= x < 0x1_0000_0000
  type u64 = x: int | 0 <= x < 0x1_0000_0000_0000_0000

  datatype Option<+T> = None | Some(value: T)

  datatype Result<+T, +E> = Ok(value: T) | Err(error: E)

  function Min(a: int, b: int): int {
    if a <= b then a else b
  }

  function Max(a: int, b: int): int {
    if a >= b then a else b
  }

  function Abs(a: int): nat {
    if a >= 0 then a else -a
  }

  function Pow2(n: nat): (r: nat)
    ensures r >= 1
  {
    if n == 0 then 1 else 2 * Pow2(n - 1)
  }

  /** Binary digit `i` of `w`. */
  predicate TestBit(w: nat, i: nat) {
    if i == 0 then w % 2 == 1 else TestBit(w / 2, i - 1)
  }

  /** `a & b` */
  function BitAnd(a: nat, b: nat): nat {
    if a == 0 || b == 0 then 0
    else (if a % 2 == 1 && b % 2 == 1 then 1 else 0) + 2 * BitAnd(a / 2, b / 2)
  }

  /** `a | b` */
  function BitOr(a: nat, b: nat): nat
    decreases a
  {
    if a == 0 then b
    else if b == 0 then a
    else (if a % 2 == 1 || b % 2 == 1 then 1 else 0) + 2 * BitOr(a / 2, b / 2)
  }

  /** `a & !b` */
  function BitAndNot(a: nat, b: nat): nat {
    if a == 0 then 0
    else if b == 0 then a
    else (if a % 2 == 1 && b % 2 == 0 then 1 else 0) + 2 * BitAndNot(a / 2, b / 2)
  }

  lemma {:induction false} ZeroBits(i: nat)
    ensures !TestBit(0, i)
  {
    if i > 0 { ZeroBits(i - 1); }
  }

  /** Last digit and the digits before it. */
  lemma Digits(d: nat, k: nat)
    requires d < 2
    ensures (d + 2 * k) % 2 == d && (d + 2 * k) / 2 == k
  {
  }

  lemma {:induction false} OrBits(a: nat, b: nat, i: nat)
    ensures TestBit(BitOr(a, b), i) <==> TestBit(a, i) || TestBit(b, i)
  {
    if a == 0 || b == 0 {
      ZeroBits(i);
    } else {
      Digits(if a % 2 == 1 || b % 2 == 1 then 1 else 0, BitOr(a / 2, b / 2));
      if i > 0 { OrBits(a / 2, b / 2, i - 1); }
    }
  }

  lemma {:induction false} AndNotBits(a: nat, b: nat, i: nat)
    ensures TestBit(BitAndNot(a, b), i) <==> TestBit(a, i) && !TestBit(b, i)
  {
    if a == 0 || b == 0 {
      ZeroBits(i);
    } else {
      Digits(if a % 2 == 1 && b % 2 == 0 then 1 else 0, BitAndNot(a / 2, b / 2));
      if i > 0 { AndNotBits(a / 2, b / 2, i - 1); }
    }
  }

  lemma {:induction false} OneHotBits(b: nat, i: nat)
    ensures TestBit(Pow2(b), i) <==> i == b
  {
    if b == 0 {
      if i > 0 { ZeroBits(i - 1); }
    } else {
      assert Pow2(b) / 2 == Pow2(b - 1);
      if i > 0 { OneHotBits(b - 1, i - 1); }
    }
  }

  /** The test `w & (1 << b) == 0` reads digit `b`. */
  lemma {:induction false} MaskTest(w: nat, b: nat)
    ensures BitAnd(w, Pow2(b)) == 0 <==> !TestBit(w, b)
  {
    if w == 0 {
      ZeroBits(b);
    } else if b == 0 {
      assert BitAnd(w / 2, 0) == 0;
    } else {
      assert Pow2(b) / 2 == Pow2(b - 1);
      MaskTest(w / 2, b - 1);
    }
  }

  lemma {:induction false} OrBound(a: nat, b: nat, n: nat)
    requires a < Pow2(n) && b < Pow2(n)
    ensures BitOr(a, b) < Pow2(n)
  {
    if a != 0 && b != 0 {
      OrBound(a / 2, b / 2, n - 1);
    }
  }

  lemma {:induction false} AndNotSplit(a: nat, b: nat)
    ensures BitAnd(a, b) + BitAndNot(a, b) == a
  {
    if a != 0 && b != 0 {
      AndNotSplit(a / 2, b / 2);
    }
  }

  /** `x & (2^p - 1)` is the remainder modulo `2^p`. */
  lemma {:induction false} MaskIsMod(x: nat, p: nat)
    ensures BitAnd(x, Pow2(p) - 1) == x % Pow2(p)
  {
    if p > 0 {
      MaskIsMod(x / 2, p - 1);
      MaskStep(x, Pow2(p - 1));
      HalveMod(x, Pow2(p - 1));
    }
  }

  /** Page arithmetic: `x & 0xfff` and `x & !0xfff`. */
  lemma PageBits(x: nat)
    ensures BitAnd(x, 4095) == x % 4096 && BitAndNot(x, 4095) == x - x % 4096
  {
    hide BitAnd, BitAndNot;
    Pow2Of12();
    MaskIsMod(x, 12);
    AndNotSplit(x, 4095);
  }

  lemma Pow2Of12()
    ensures Pow2(12) == 4096
  {
    hide Pow2;
    Pow2Of4();
    Pow2Add(4, 4);
    Pow2Add(8, 4);
  }

  lemma MaskStep(x: nat, h: nat)
    requires h > 0
    ensures BitAnd(x, 2 * h - 1) == x % 2 + 2 * BitAnd(x / 2, h - 1)
  {
    assert (2 * h - 1) / 2 == h - 1 && (2 * h - 1) % 2 == 1;
  }

  lemma HalveMod(x: nat, h: nat)
    requires h > 0
    ensures x % (2 * h) == x % 2 + 2 * ((x / 2) % h)
  {
    var q, r := (x / 2) / h, (x / 2) % h;
    assert x == q * (2 * h) + (2 * r + x % 2);
    ModUnique(x, 2 * h, q, 2 * r + x % 2);
  }

  /** Quotient and remainder are unique. */
  lemma ModUnique(x: int, m: int, q: int, r: int)
    requires 0 <= r < m && x == q * m + r
    ensures x % m == r && x / m == q
  {
    var d := q - x / m;
    assert d * m == x % m - r by {
      assert x == (x / m) * m + x % m;
      assert d * m == q * m - (x / m) * m;
    }
    if d != 0 {
      MulGrows(Abs(d), m);
    }
  }

  lemma MulGrows(k: nat, m: nat)
    requires k >= 1
    ensures k * m >= m
  {
  }

  lemma {:induction false} Pow2Add(a: nat, b: nat)
    ensures Pow2(a + b) == Pow2(a) * Pow2(b)
  {
    if a > 0 { Pow2Add(a - 1, b); }
  }

  lemma {:induction false} Pow2Mono(a: nat, b: nat)
    requires a <= b
    ensures Pow2(a) <= Pow2(b)
  {
    if a < b { Pow2Mono(a, b - 1); }
  }

  lemma Pow2Of16()
    ensures Pow2(16) == 0x1_0000
  {
    hide Pow2;
    Pow2Of4();
    Pow2Add(4, 4);
    Pow2Add(8, 8);
  }

  lemma Pow2Of4()
    ensures Pow2(4) == 16
  {
  }

  lemma Pow2Of64()
    ensures Pow2(64) == 0x1_0000_0000_0000_0000
  {
    hide Pow2;
    Pow2Of32();
    Pow2Add(32, 32);
  }

  lemma Pow2Of32()
    ensures Pow2(32) == 0x1_0000_0000
  {
    hide Pow2;
    Pow2Of16();
    Pow2Add(16, 16);
  }

  // ---- bytes and the numbers they spell ----

  /** The number a string of bytes spells, least significant byte first. */
  function LittleEndian(s: seq<u8>): nat {
    if s == [] then 0 else s[0] + 256 * LittleEndian(s[1..])
  }

  /** The number a string of bytes spells, most significant byte first. */
  function BigEndian(s: seq<u8>): nat {
    if s == [] then 0 else 256 * BigEndian(s[..|s| - 1]) + s[|s| - 1]
  }

  /** The `n` low bytes of `v`, least significant first. */
  function LeBytes(v: nat, n: nat): (s: seq<u8>)
    ensures |s| == n
  {
    if n == 0 then [] else [v % 256] + LeBytes(v / 256, n - 1)
  }

  /** The `n` low bytes of `v`, most significant first. */
  function BeBytes(v: nat, n: nat): (s: seq<u8>)
    ensures |s| == n
  {
    if n == 0 then [] else BeBytes(v / 256, n - 1) + [v % 256]
  }

  /** What `n` bytes can hold survives in either order. */
  lemma {:induction false} BytesSpell(v: nat, n: nat)
    requires v < Pow2(8 * n)
    ensures LittleEndian(LeBytes(v, n)) == v && BigEndian(BeBytes(v, n)) == v
  {
    if n > 0 {
      ByteMore(n - 1, 1);
      BytesSpell(v / 256, n - 1);
      assert LeBytes(v, n)[1..] == LeBytes(v / 256, n - 1);
      assert BeBytes(v, n)[..n - 1] == BeBytes(v / 256, n - 1);
    }
  }

  lemma {:induction false} BigEndianBound(s: seq<u8>)
    ensures BigEndian(s) < Pow2(8 * |s|)
  {
    if s != [] {
      hide Pow2;
      BigEndianBound(s[..|s| - 1]);
      ByteMore(|s| - 1, 1);
    }
  }

  lemma ByteMore(n: nat, y: nat)
    ensures Pow2(8 * (n + 1)) * y == 256 * (Pow2(8 * n) * y)
  {
    hide Pow2;
    Pow2Of4();
    Pow2Add(4, 4);
    Pow2Add(8, 8 * n);
    var x := Pow2(8 * n);
    assert (256 * x) * y == 256 * (x * y);
  }

  lemma {:induction false} LittleEndianJoin(a: seq<u8>, b: seq<u8>)
    ensures LittleEndian(a + b) == LittleEndian(a) + Pow2(8 * |a|) * LittleEndian(b)
  {
    if a == [] {
      assert a + b == b;
    } else {
      hide Pow2;
      assert (a + b)[1..] == a[1..] + b;
      LittleEndianJoin(a[1..], b);
      ByteMore(|a| - 1, LittleEndian(b));
    }
  }

  lemma {:induction false} BigEndianJoin(a: seq<u8>, b: seq<u8>)
    ensures BigEndian(a + b) == Pow2(8 * |b|) * BigEndian(a) + BigEndian(b)
  {
    if b == [] {
      assert a + b == a;
    } else {
      hide Pow2;
      var n := |b| - 1;
      assert (a + b)[..|a + b| - 1] == a + b[..n];
      BigEndianJoin(a, b[..n]);
      ByteMore(n, BigEndian(a));
    }
  }

  /** `s` stands at position `c` of `b`. */
  ghost predicate At<T>(b: seq<T>, c: nat, s: seq<T>) {
    c + |s| <= |b| && b[c .. c + |s|] == s
  }

  lemma AtSplit<T>(b: seq<T>, c: nat, s: seq<T>, t: seq<T>)
    requires At(b, c, s + t)
    ensures At(b, c, s) && At(b, c + |s|, t)
  {
    assert b[c .. c + |s|] == (s + t)[..|s|];
    assert b[c + |s| .. c + |s| + |t|] == (s + t)[|s|..];
  }

  /** Little-endian bytes. */
  function Le16(v: u16): (s: seq<u8>)
    ensures |s| == 2
  {
    [v % 256, v / 256]
  }

  function FromLe16(a: u8, b: u8): u16 {
    a + 256 * b
  }

  function Le32(v: u32): (s: seq<u8>)
    ensures |s| == 4
  {
    Le16(v % 0x1_0000) + Le16(v / 0x1_0000)
  }

  function FromLe32(a: u8, b: u8, c: u8, d: u8): u32 {
    FromLe16(a, b) + 0x1_0000 * FromLe16(c, d)
  }

  /** The word readers and writers are little-endian. */
  lemma WordsSpell(s: seq<u8>, v: u16, w: u32)
    requires |s| == 4
    ensures FromLe16(s[0], s[1]) == LittleEndian(s[..2]) && FromLe32(s[0], s[1], s[2], s[3]) == LittleEndian(s)
    ensures LittleEndian(Le16(v)) == v && LittleEndian(Le32(w)) == w
  {
    hide Pow2, LittleEndian;
    Spell2(s[..2]);
    Spell2(s[2..]);
    Spell2(Le16(v));
    Spell2(Le16(w % 0x1_0000));
    Spell2(Le16(w / 0x1_0000));
    assert s == s[..2] + s[2..];
    LittleEndianJoin(s[..2], s[2..]);
    LittleEndianJoin(Le16(w % 0x1_0000), Le16(w / 0x1_0000));
    Pow2Of16();
  }

  lemma Spell2(s: seq<u8>)
    requires |s| == 2
    ensures LittleEndian(s) == s[0] as int + 256 * s[1] as int
  {
    assert LittleEndian(s[1..][1..]) == 0;
    assert LittleEndian(s[1..]) == s[1] as int;
  }

  lemma Le16RoundTrip(v: u16)
    ensures FromLe16(Le16(v)[0], Le16(v)[1]) == v
  {
  }

  lemma Le32RoundTrip(v: u32)
    ensures FromLe32(Le32(v)[0], Le32(v)[1], Le32(v)[2], Le32(v)[3]) == v
  {
    Le16RoundTrip(v % 0x1_0000);
    Le16RoundTrip(v / 0x1_0000);
  }

  /** `s` with `d` written over it from position `at`. */
  function Splice<T>(s: seq<T>, at: nat, d: seq<T>): (r: seq<T>)
    requires at + |d| <= |s|
    ensures |r| == |s|
    ensures forall i :: 0 <= i < |s| ==> r[i] == if at <= i < at + |d| then d[i - at] else s[i]
  {
    s[..at] + d + s[at + |d|..]
  }

  /** Copy `d` into the array from position `at`. */
  method WriteBytes(a: array<u8>, at: nat, d: seq<u8>)
    requires at + |d| <= a.Length
    modifies a
    ensures a[..] == Splice(old(a[..]), at, d)
  {
    for i := 0 to |d|
      invariant a[..] == Splice(old(a[..]), at, d[..i])
    {
      a[at + i] := d[i];
    }
    assert d[..|d|] == d;
  }
}
