/**
 The pen of a Bresenham line: where it is after n moves, how far it strays from the
 ideal line, and exactly which lines keep its arithmetic inside i32.
 */
module Bresenham {
  import opened Machine

  predicate IsI32(v: int) {
    -0x8000_0000 <= v <= 0x7fff_ffff
  }

  /** `i` steps in x and `j` in y so far, and the running error term. */
  datatype Pen = Pen(i: nat, j: nat, err: int)

  /** One iteration for absolute differences `adx`, `ady`. */
  function Advance(adx: nat, ady: nat, p: Pen): Pen {
    var e2 := 2 * p.err;
    var q := if e2 + ady >= 0 then p.(i := p.i + 1, err := p.err - ady) else p;
    if e2 <= adx then q.(j := q.j + 1, err := q.err + adx) else q
  }

  function PenAfter(adx: nat, ady: nat, n: nat): Pen {
    if n == 0 then Pen(0, 0, adx - ady) else Advance(adx, ady, PenAfter(adx, ady, n - 1))
  }

  /** How far the pen is from the ideal line, scaled by the longer side. */
  function Drift(adx: nat, ady: nat, n: nat): int {
    PenAfter(adx, ady, n).err - adx + ady
  }

  lemma PenNext(adx: nat, ady: nat, n: nat)
    ensures PenAfter(adx, ady, n + 1) == Advance(adx, ady, PenAfter(adx, ady, n))
  {
  }

  // ---- how far the pen strays ----

  /** Within half a pixel: the longer side advances every time and ties go to the shorter one. */
  lemma {:induction false} PenBounded(adx: nat, ady: nat, n: nat)
    requires n <= Max(adx, ady)
    ensures adx >= ady ==> PenAfter(adx, ady, n).i == n && 0 - adx <= 2 * Drift(adx, ady, n) <= adx
    ensures ady >= adx ==> PenAfter(adx, ady, n).j == n && 0 - ady <= 2 * Drift(adx, ady, n) <= ady
    ensures adx >= ady && adx > 0 ==> 0 - adx < 2 * Drift(adx, ady, n)
    ensures ady > adx ==> 2 * Drift(adx, ady, n) < ady
  {
    if n > 0 {
      PenBounded(adx, ady, n - 1);
      PenNext(adx, ady, n - 1);
    }
  }

  lemma NextMultiple(k: int, d: int)
    ensures (k + 1) * d == k * d + d
  {
  }

  lemma AtMost(a: int, b: int, d: nat)
    requires a <= b
    ensures a * d <= b * d
  {
  }

  /** The error term is the cross product of the steps taken and the ideal direction. */
  lemma {:induction false} DriftExact(adx: nat, ady: nat, n: nat)
    ensures var p := PenAfter(adx, ady, n); Drift(adx, ady, n) == p.j * adx - p.i * ady
  {
    if n > 0 {
      DriftExact(adx, ady, n - 1);
      var p := PenAfter(adx, ady, n - 1);
      DriftStep(adx, ady, p, p.j * adx, p.i * ady);
    }
  }

  lemma DriftStep(adx: nat, ady: nat, p: Pen, up: int, along: int)
    requires up == p.j * adx && along == p.i * ady && p.err - adx + ady == up - along
    ensures var q := Advance(adx, ady, p); q.err - adx + ady == q.j * adx - q.i * ady
  {
    NextMultiple(p.j, adx);
    NextMultiple(p.i, ady);
  }

  /** `b` counts steps along the short side after `n` of `long` along the long one. */
  lemma Nearest(b: nat, short: nat, long: nat, n: nat)
    requires short <= long && n <= long && 0 <= long + 2 * (b * long - n * short) <= 2 * long
    ensures (long > 0 ==> b <= short) && (n == long > 0 ==> b == short)
  {
    NextMultiple(short, long);
    AtMost(n, long, short);
    if b > short {
      AtMost(short + 1, b, long);
    } else if n == long && b < short {
      NextMultiple(b, long);
      AtMost(b + 1, short, long);
    }
  }

  /** The end point is reached after exactly max(adx, ady) moves and not before. */
  lemma PenEnds(adx: nat, ady: nat, n: nat)
    requires n <= Max(adx, ady)
    ensures var p := PenAfter(adx, ady, n);
      && p.i <= adx && p.j <= ady && (p.i == adx && p.j == ady <==> n == Max(adx, ady))
  {
    hide PenAfter;
    var p := PenAfter(adx, ady, n);
    PenBounded(adx, ady, n);
    DriftExact(adx, ady, n);
    if adx >= ady {
      Nearest(p.j, ady, adx, n);
    } else {
      Nearest(p.i, adx, ady, n);
    }
  }

  // ---- which drifts occur: the multiples of the greatest common divisor ----

  function Gcd(a: nat, b: nat): nat
    decreases b
  {
    if b == 0 then a else Gcd(b, a % b)
  }

  lemma Quotient(a: nat, b: nat) returns (q: nat, r: nat)
    requires b > 0
    ensures a == q * b + r && r < b && Gcd(a, b) == Gcd(b, r)
  {
    q, r := a / b, a % b;
  }

  lemma {:induction false} GcdDivides(a: nat, b: nat) returns (x: nat, y: nat)
    ensures a == x * Gcd(a, b) && b == y * Gcd(a, b)
    decreases b
  {
    if b == 0 {
      x, y := 1, 0;
    } else {
      var q, r := Quotient(a, b);
      var u, v := GcdDivides(b, r);
      x, y := q * u + v, u;
      Regroup(q, b, r, u, v, Gcd(a, b));
    }
  }

  lemma Regroup(q: nat, b: nat, r: nat, u: nat, v: nat, g: nat)
    requires b == u * g && r == v * g
    ensures q * b + r == (q * u + v) * g
  {
    assert q * b == q * u * g;
  }

  lemma GcdPositive(a: nat, b: nat)
    requires a > 0
    ensures 0 < Gcd(a, b) <= a
  {
    var x, y := GcdDivides(a, b);
    if Gcd(a, b) > a {
      AtMost(1, x, Gcd(a, b));
    }
  }

  /** The greatest common divisor is a combination of the two. */
  lemma {:induction false} Bezout(a: nat, b: nat) returns (s: int, t: int)
    ensures a * s + b * t == Gcd(a, b)
    decreases b
  {
    if b == 0 {
      s, t := 1, 0;
    } else {
      var q, r := Quotient(a, b);
      var u, v := Bezout(b, r);
      s, t := v, u - q * v;
      Combine(q, b, r, u, v);
    }
  }

  lemma Combine(q: nat, b: nat, r: nat, u: int, v: int)
    ensures (q * b + r) * v + b * (u - q * v) == b * u + r * v
  {
    assert (q * b + r) * v == q * b * v + r * v;
    assert b * (u - q * v) == b * u - b * (q * v);
    assert q * b * v == b * (q * v);
  }

  /** Every multiple of the divisor is a multiple of `m`, up to multiples of `M`, within one lap. */
  lemma Solve(M: nat, m: nat, k: int) returns (n: nat, c: int)
    requires M > 0
    ensures n < M && n * m + k * Gcd(M, m) == c * M
  {
    var s, t := Bezout(M, m);
    var w := -(t * k);
    var q := w / M;
    n, c := w % M, s * k - q * m;
    LapsAway(M, m, k, s, t, q, n, Gcd(M, m));
  }

  lemma LapsAway(M: nat, m: nat, k: int, s: int, t: int, q: int, n: int, g: int)
    requires M * s + m * t == g && -(t * k) == q * M + n
    ensures n * m + k * g == (s * k - q * m) * M
  {
    assert k * g == k * (M * s) + k * (m * t);
    assert n * m == -(t * k) * m - q * M * m;
    assert k * (m * t) == t * k * m;
    assert (s * k - q * m) * M == k * (M * s) - q * M * m;
  }

  /** Two drifts less than one side apart, and a whole number of sides apart, are equal. */
  lemma SameDrift(M: nat, d: int, e: int, c: int)
    requires d == e + c * M && 0 - M < d - e < M
    ensures d == e
  {
    if c >= 1 { AtMost(1, c, M); } else if c <= -1 { AtMost(c, -1, M); }
  }

  /** A wide line takes every drift k * g with -adx < 2 * k * g <= adx. */
  lemma ReachWide(adx: nat, ady: nat, k: int) returns (n: nat)
    requires adx >= ady && adx > 0
    requires 0 - adx < 2 * (k * Gcd(adx, ady)) <= adx
    ensures n < adx && Drift(adx, ady, n) == k * Gcd(adx, ady)
  {
    hide PenAfter, Gcd, Drift;
    var c;
    n, c := Solve(adx, ady, k);
    var p := PenAfter(adx, ady, n);
    PenBounded(adx, ady, n);
    DriftExact(adx, ady, n);
    Minus(p.j, c, adx);
    SameDrift(adx, Drift(adx, ady, n), k * Gcd(adx, ady), p.j - c);
  }

  /** A tall line takes every drift k * g with -ady <= 2 * k * g < ady. */
  lemma ReachTall(adx: nat, ady: nat, k: int) returns (n: nat)
    requires ady > adx && 0 - ady <= 2 * (k * Gcd(ady, adx)) < ady
    ensures n < ady && Drift(adx, ady, n) == k * Gcd(ady, adx)
  {
    hide PenAfter, Gcd, Drift;
    var c;
    n, c := Solve(ady, adx, -k);
    var p := PenAfter(adx, ady, n);
    PenBounded(adx, ady, n);
    DriftExact(adx, ady, n);
    Minus(c, p.i, ady);
    assert (-k) * Gcd(ady, adx) == -(k * Gcd(ady, adx));
    SameDrift(ady, Drift(adx, ady, n), k * Gcd(ady, adx), c - p.i);
  }

  lemma Minus(a: int, b: int, d: int)
    ensures (a - b) * d == a * d - b * d
  {
  }

  lemma Negate(k: int, d: int)
    ensures (0 - k) * d == -(k * d)
  {
  }

  /** Every drift is a multiple of the divisor. */
  lemma DriftMultiple(adx: nat, ady: nat, n: nat, g: nat, a: nat, b: nat) returns (k: int)
    requires adx == a * g && ady == b * g
    ensures Drift(adx, ady, n) == k * g
  {
    hide PenAfter, Drift;
    DriftExact(adx, ady, n);
    var p := PenAfter(adx, ady, n);
    k := p.j * a - p.i * b;
    Minus(p.j * a, p.i * b, g);
    assert p.j * (a * g) == p.j * a * g;
    assert p.i * (b * g) == p.i * b * g;
  }

  /** What the multiples of `g` leave unused of a side `M`: half of it is a multiple iff M / g is even. */
  function Spare(M: nat, m: nat): (s: nat)
  {
    var g := Gcd(M, m);
    if g > 0 && (M / g) % 2 == 1 then g else 0
  }

  lemma SideFacts(M: nat, m: nat) returns (g: nat, q: nat)
    requires M > 0
    ensures g == Gcd(M, m) > 0 && M == q * g && q > 0 && M / g == q
    ensures Spare(M, m) == (if q % 2 == 1 then g else 0)
  {
    var y;
    g := Gcd(M, m);
    q, y := GcdDivides(M, m);
    GcdPositive(M, m);
    ModUnique(M, g, q, 0);
  }

  lemma Scale(a: int, b: int, g: nat)
    requires g > 0
    ensures (a <= b <==> a * g <= b * g) && (a == b <==> a * g == b * g)
  {
    if a < b { AtMost(a + 1, b, g); NextMultiple(a, g); }
    if b < a { AtMost(b + 1, a, g); NextMultiple(b, g); }
  }

  /** A multiple of `g` up to half of q * g stays `g / 2` below it when q is odd. */
  lemma HalfBelow(q: nat, g: nat, k: int)
    requires g > 0 && 2 * (k * g) <= q * g
    ensures 2 * (k * g) <= q * g - (if q % 2 == 1 then g else 0)
  {
    Double(k, g);
    Scale(2 * k, q, g);
    if q % 2 == 1 {
      Scale(2 * k, q - 1, g);
      NextMultiple(q - 1, g);
    }
  }

  /** A multiple of `g` strictly below half of q * g. */
  lemma HalfStrictlyBelow(q: nat, g: nat, k: int)
    requires g > 0 && 2 * (k * g) < q * g
    ensures 2 * (k * g) <= q * g - 2 * g + (if q % 2 == 1 then g else 0)
  {
    Double(k, g);
    Scale(2 * k, q, g);
    var top := if q % 2 == 1 then q - 1 else q - 2;
    Scale(2 * k, top, g);
    NextMultiple(q - 1, g);
    NextMultiple(q - 2, g);
  }

  lemma Double(k: int, g: int)
    ensures 2 * (k * g) == (2 * k) * g
  {
  }

  /** The bounds are attained by q / 2 and (q - 1) / 2. */
  lemma HalfAttained(q: nat, g: nat)
    requires g > 0 && q > 0
    ensures 2 * ((q / 2) * g) == q * g - (if q % 2 == 1 then g else 0)
    ensures 2 * (((q - 1) / 2) * g) == q * g - 2 * g + (if q % 2 == 1 then g else 0)
  {
    Double(q / 2, g);
    Double((q - 1) / 2, g);
    NextMultiple(q - 1, g);
    NextMultiple(q - 2, g);
  }

  // ---- exactly when i32 suffices ----

  /** Every value computed in round `n` of the loop. */
  predicate StepFits(adx: nat, ady: nat, n: nat) {
    var e := PenAfter(adx, ady, n).err;
    && IsI32(2 * e) && (2 * e + ady >= 0 ==> IsI32(e - ady))
    && IsI32(PenAfter(adx, ady, n + 1).err)
  }

  /** No value the loop computes for these differences leaves i32. */
  ghost predicate NeverOverflows(adx: nat, ady: nat) {
    && IsI32(adx) && IsI32(ady)
    && forall n :: 0 <= n < Max(adx, ady) ==> StepFits(adx, ady, n)
  }

  /** The condition on the differences alone. */
  predicate LineFits(adx: nat, ady: nat) {
    && adx <= 0x7fff_ffff && ady <= 0x7fff_ffff
    && if adx >= ady then
         && 3 * adx - 2 * ady - Spare(adx, ady) <= 0x7fff_ffff
         && 4 * ady - adx - 2 * Gcd(adx, ady) + Spare(adx, ady) <= 0x1_0000_0000
       else
         && 3 * ady - 2 * adx - Spare(ady, adx) <= 0x8000_0000
         && (adx > 0 ==> 3 * ady - Spare(ady, adx) <= 0x1_0000_0000)
  }

  lemma WideDrift(adx: nat, ady: nat, n: nat)
    requires adx >= ady && adx > 0 && n <= adx
    ensures 2 * Drift(adx, ady, n) <= adx - Spare(adx, ady)
    ensures 2 * Drift(adx, ady, n) >= 2 * Gcd(adx, ady) - Spare(adx, ady) - adx
  {
    hide PenAfter, Gcd, Drift, Spare;
    var g, q := SideFacts(adx, ady);
    var a, b := GcdDivides(adx, ady);
    var k := DriftMultiple(adx, ady, n, g, a, b);
    PenBounded(adx, ady, n);
    HalfBelow(q, g, k);
    assert (-k) * g == -(k * g);
    HalfStrictlyBelow(q, g, -k);
  }

  lemma TallDrift(adx: nat, ady: nat, n: nat)
    requires ady > adx && n <= ady
    ensures 2 * Drift(adx, ady, n) >= Spare(ady, adx) - ady
    ensures 2 * Drift(adx, ady, n) >= ady - 2 * adx ==> 2 * Drift(adx, ady, n) >= ady - 2 * adx + Spare(ady, adx)
  {
    hide PenAfter, Gcd, Drift, Spare;
    var g, q := SideFacts(ady, adx);
    var a, b := GcdDivides(ady, adx);
    var k := DriftMultiple(adx, ady, n, g, b, a);
    PenBounded(adx, ady, n);
    assert (-k) * g == -(k * g);
    HalfBelow(q, g, -k);
    if 2 * Drift(adx, ady, n) >= ady - 2 * adx {
      assert (-k - b) * g == -(k * g) - b * g;
      BelowMinusHalf(q, g, -k - b);
    }
  }

  lemma BelowMinusHalf(q: nat, g: nat, k: int)
    requires g > 0 && 2 * (k * g) <= -(q * g)
    ensures 2 * (k * g) <= -(q * g) - (if q % 2 == 1 then g else 0)
  {
    Double(k, g);
    Negate(q, g);
    Scale(2 * k, 0 - q, g);
    if q % 2 == 1 {
      Scale(2 * k, 0 - q - 1, g);
      NextMultiple(0 - q - 1, g);
    }
  }

  lemma WideFits(adx: nat, ady: nat, n: nat)
    requires adx >= ady && adx > n && LineFits(adx, ady)
    ensures StepFits(adx, ady, n)
  {
    hide PenAfter, Gcd, Spare;
    WideDrift(adx, ady, n);
    WideDrift(adx, ady, n + 1);
    PenBounded(adx, ady, n);
    PenBounded(adx, ady, n + 1);
  }

  lemma TallFits(adx: nat, ady: nat, n: nat)
    requires ady > adx && ady > n && LineFits(adx, ady)
    ensures StepFits(adx, ady, n)
  {
    hide PenAfter, Gcd, Spare;
    TallDrift(adx, ady, n);
    TallDrift(adx, ady, n + 1);
    PenBounded(adx, ady, n);
    PenBounded(adx, ady, n + 1);
  }

  lemma WideNeeds(adx: nat, ady: nat)
    requires adx >= ady && adx > 0 && NeverOverflows(adx, ady)
    ensures LineFits(adx, ady)
  {
    hide PenAfter, Gcd, Spare, StepFits;
    var g, q := SideFacts(adx, ady);
    WideTop(adx, ady, g, q);
    WideBottom(adx, ady, g, q);
  }

  lemma WideTop(adx: nat, ady: nat, g: nat, q: nat)
    requires adx >= ady && adx > 0 && NeverOverflows(adx, ady)
    requires g == Gcd(adx, ady) > 0 && adx == q * g && q > 0 && Spare(adx, ady) == (if q % 2 == 1 then g else 0)
    ensures 3 * adx - 2 * ady - Spare(adx, ady) <= 0x7fff_ffff
  {
    hide PenAfter, Gcd, Spare;
    HalfAttained(q, g);
    var n := ReachWide(adx, ady, q / 2);
    assert StepFits(adx, ady, n);
  }

  lemma WideBottom(adx: nat, ady: nat, g: nat, q: nat)
    requires adx >= ady && adx > 0 && NeverOverflows(adx, ady)
    requires g == Gcd(adx, ady) > 0 && adx == q * g && q > 0 && Spare(adx, ady) == (if q % 2 == 1 then g else 0)
    ensures 4 * ady - adx - 2 * Gcd(adx, ady) + Spare(adx, ady) <= 0x1_0000_0000
  {
    hide PenAfter, Gcd, Spare;
    HalfAttained(q, g);
    var k: int := (q - 1) / 2;
    Negate(k, g);
    var n := ReachWide(adx, ady, -k);
    assert StepFits(adx, ady, n);
  }

  lemma TallNeeds(adx: nat, ady: nat)
    requires ady > adx && NeverOverflows(adx, ady)
    ensures LineFits(adx, ady)
  {
    hide PenAfter, Gcd, Spare;
    var g, q := SideFacts(ady, adx);
    HalfAttained(q, g);
    var k: int := q / 2;
    Negate(k, g);
    var low := ReachTall(adx, ady, -k);
    assert StepFits(adx, ady, low);
    if adx > 0 {
      TallDiagonal(adx, ady, g, q);
    }
  }

  lemma TallDiagonal(adx: nat, ady: nat, g: nat, q: nat)
    requires ady > adx > 0 && NeverOverflows(adx, ady)
    requires g == Gcd(ady, adx) > 0 && ady == q * g && Spare(ady, adx) == (if q % 2 == 1 then g else 0)
    ensures 3 * ady - Spare(ady, adx) <= 0x1_0000_0000
  {
    hide PenAfter, Gcd, Spare;
    var a, b := GcdDivides(ady, adx);
    var half := if q % 2 == 1 then q / 2 + 1 else q / 2;
    HalfAttained(q, g);
    NextMultiple(q / 2, g);
    Minus(half, b, g);
    AtMost(1, b, g);
    var n := ReachTall(adx, ady, half - b);
    assert StepFits(adx, ady, n);
  }

  /** A line never leaves i32 iff its differences meet `LineFits`. */
  lemma FitsExactly(adx: nat, ady: nat)
    ensures NeverOverflows(adx, ady) <==> LineFits(adx, ady)
  {
    hide StepFits, LineFits;
    if LineFits(adx, ady) {
      forall n | 0 <= n < Max(adx, ady) ensures StepFits(adx, ady, n) {
        if adx >= ady { WideFits(adx, ady, n); } else { TallFits(adx, ady, n); }
      }
      FitsDifferences(adx, ady);
    }
    if NeverOverflows(adx, ady) {
      if adx >= ady && adx > 0 {
        WideNeeds(adx, ady);
      } else if ady > adx {
        TallNeeds(adx, ady);
      } else {
        NoLine();
      }
    }
  }

  lemma FitsDifferences(adx: nat, ady: nat)
    requires LineFits(adx, ady)
    ensures IsI32(adx) && IsI32(ady)
  {
  }

  lemma NoLine()
    ensures LineFits(0, 0)
  {
  }

  /** A side length is safe in every direction iff it is at most 715827883. */
  lemma SafeLength(L: nat)
    ensures (forall adx: nat, ady: nat :: adx <= L && ady <= L ==> NeverOverflows(adx, ady)) <==> L <= 715827883
  {
    hide NeverOverflows;
    if L <= 715827883 {
      forall adx: nat, ady: nat | adx <= L && ady <= L ensures NeverOverflows(adx, ady) {
        ShortFits(adx, ady);
        FitsExactly(adx, ady);
      }
    } else {
      PeakLine();
      FitsExactly(715827884, 1);
    }
  }

  lemma ShortFits(adx: nat, ady: nat)
    requires adx <= 715827883 && ady <= 715827883
    ensures LineFits(adx, ady)
  {
    hide Spare, Gcd;
    if adx >= ady {
      SpareFacts(adx, ady);
    } else {
      SpareFacts(ady, adx);
    }
  }

  lemma SpareFacts(M: nat, m: nat)
    requires M >= m
    ensures Spare(M, m) <= 2 * Gcd(M, m) && (m == 0 ==> Spare(M, m) == M)
  {
    if m == 0 && M > 0 {
      ModUnique(M, M, 1, 0);
    }
  }

  /** The shortest side that can overflow, on a nearly flat line. */
  lemma PeakLine()
    ensures !LineFits(715827884, 1)
  {
    assert Gcd(715827884, 1) == Gcd(1, 0) == 1;
  }

  /**
   On a nearly horizontal line of even length 2m the doubled error reaches 6m - 2, which
   for the shortest overflowing line is outside i32 in its round 357913942.
   */
  lemma {:induction false} ErrorPeak(m: nat)
    requires m >= 1
    ensures 2 * PenAfter(2 * m, 1, m).err == 6 * m - 2
    ensures 2 * PenAfter(715827884, 1, 357913942).err > 0x7fff_ffff
  {
    FlatRun(m, m - 1);
    FlatRun(357913942, 357913941);
    assert PenAfter(2 * m, 1, m) == Advance(2 * m, 1, PenAfter(2 * m, 1, m - 1));
    assert PenAfter(715827884, 1, 357913942) == Advance(715827884, 1, PenAfter(715827884, 1, 357913941));
  }

  lemma {:induction false} FlatRun(m: nat, n: nat)
    requires n < m
    ensures PenAfter(2 * m, 1, n) == Pen(n, 0, 2 * m - 1 - n)
  {
    if n > 0 { FlatRun(m, n - 1); }
  }
}
