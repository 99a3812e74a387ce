/**
 The physical memory manager: a bitmap of u64 words over one RAM bank, scanned
 cyclically from a hint.
 */
module Pmm {
  import opened Machine
  import opened BootInfos
  import opened FrameOrder

  const MAX_FRAMES := 65536
  const BITMAP_WORDS := 1024

  // ---- bank selection and pool bounds ----

  /** `MemoryMap::largest`: the last of the banks of maximal size. */
  function Largest(m: MemoryMap): (r: Option<MemoryRegion>)
    ensures r.None? <==> m == []
    ensures r.Some? ==> r.value in m && forall i :: 0 <= i < |m| ==> m[i].size <= r.value.size
  {
    if m == [] then None
    else
      var init, last := Largest(m[..|m| - 1]), m[|m| - 1];
      if init.Some? && init.value.size > last.size then init else Some(last)
  }

  lemma LargestStep(m: MemoryMap)
    requires m != []
    ensures var n := |m| - 1;
      Largest(m) == if n > 0 && Largest(m[..n]).value.size > m[n].size then Largest(m[..n]) else Some(m[n])
  {
  }

  /** Among banks of equal size the last one is picked. */
  lemma {:induction false} LargestIsLast(m: MemoryMap) returns (k: nat)
    requires m != []
    ensures k < |m| && Largest(m) == Some(m[k]) && forall i :: k < i < |m| ==> m[i].size < m[k].size
  {
    var n := |m| - 1;
    LargestStep(m);
    hide Largest;
    if n > 0 && Largest(m[..n]).value.size > m[n].size {
      k := LargestIsLast(m[..n]);
      assert forall i :: k < i < n ==> m[i] == m[..n][i];
    } else {
      k := n;
    }
  }

  function BankEnd(bank: MemoryRegion): nat {
    Min(bank.base + bank.size, 0xffff_ffff_ffff_ffff)
  }

  function RawBase(bank: MemoryRegion, kernelEnd: u64): nat {
    if bank.base <= kernelEnd < BankEnd(bank) then kernelEnd else bank.base
  }

  /** Round up to a page in 64-bit arithmetic, which wraps in the top page. */
  function PoolBase(bank: MemoryRegion, kernelEnd: u64): nat {
    var v := (RawBase(bank, kernelEnd) + 4095) % 0x1_0000_0000_0000_0000;
    v - v % 4096
  }

  function PoolFrames(bank: MemoryRegion, kernelEnd: u64): nat {
    Min(Max(BankEnd(bank) - PoolBase(bank, kernelEnd), 0), 256 * 1024 * 1024) / 4096
  }

  /**
   The pool is the whole pages of the bank: it starts less than a page above the kernel's
   end when that is in the bank, else above the bank's start, and has 65536 frames or ends
   less than a page below the bank's end.
   */
  ghost predicate FillsBank(bank: MemoryRegion, kernelEnd: u64, base: nat, frames: nat) {
    var end := Min(bank.base + bank.size, 0xffff_ffff_ffff_ffff);
    && base % 4096 == 0 && frames <= MAX_FRAMES
    && (bank.base <= kernelEnd < end ==> kernelEnd <= base < kernelEnd + 4096)
    && (!(bank.base <= kernelEnd < end) ==> bank.base <= base < bank.base + 4096)
    && (frames == MAX_FRAMES || end < base + 4096 * frames + 4096)
    && (frames > 0 ==> base + 4096 * frames <= end)
  }

  /** The address the pool's start is rounded up from is not in the last page of the address space. */
  predicate PoolStays(bank: MemoryRegion, kernelEnd: u64) {
    var end := Min(bank.base + bank.size, 0xffff_ffff_ffff_ffff);
    && (bank.base <= kernelEnd < end ==> kernelEnd <= 0xffff_ffff_ffff_f000)
    && (!(bank.base <= kernelEnd < end) ==> bank.base <= 0xffff_ffff_ffff_f000)
  }

  /** The pool fills the bank iff rounding up does not wrap; otherwise it starts at address 0. */
  lemma PoolInsideBank(bank: MemoryRegion, kernelEnd: u64)
    ensures PoolFrames(bank, kernelEnd) <= MAX_FRAMES && PoolBase(bank, kernelEnd) % 4096 == 0
    ensures FillsBank(bank, kernelEnd, PoolBase(bank, kernelEnd), PoolFrames(bank, kernelEnd)) <==> PoolStays(bank, kernelEnd)
    ensures !PoolStays(bank, kernelEnd) ==> PoolBase(bank, kernelEnd) == 0 && PoolFrames(bank, kernelEnd) == MAX_FRAMES
  {
    var raw := RawBase(bank, kernelEnd);
    RawInside(bank, kernelEnd);
    RoundedUp(raw);
    WholeFrames(Min(Max(BankEnd(bank) - PoolBase(bank, kernelEnd), 0), 256 * 1024 * 1024));
  }

  lemma RawInside(bank: MemoryRegion, kernelEnd: u64)
    ensures bank.base <= RawBase(bank, kernelEnd) <= BankEnd(bank) <= 0xffff_ffff_ffff_ffff
  {
  }

  lemma RoundedUp(raw: nat)
    requires raw < 0x1_0000_0000_0000_0000
    ensures var v := (raw + 4095) % 0x1_0000_0000_0000_0000;
      if raw + 4095 < 0x1_0000_0000_0000_0000 then raw <= v - v % 4096 && v - v % 4096 == raw + 4095 - v % 4096
      else v - v % 4096 == 0 && raw > 0xffff_ffff_ffff_f000
    ensures var v := (raw + 4095) % 0x1_0000_0000_0000_0000; (v - v % 4096) % 4096 == 0
  {
    if raw + 4095 >= 0x1_0000_0000_0000_0000 {
      ModUnique(raw + 4095, 0x1_0000_0000_0000_0000, 1, raw + 4095 - 0x1_0000_0000_0000_0000);
    }
  }

  lemma WholeFrames(bytes: nat)
    ensures bytes / 4096 * 4096 <= bytes < bytes / 4096 * 4096 + 4096 && (bytes <= 256 * 1024 * 1024 ==> bytes / 4096 <= 65536)
    ensures bytes == 256 * 1024 * 1024 ==> bytes / 4096 == 65536
  {
  }

  /** The live frames after a free: one fewer exactly when `addr` is the address of a live frame. */
  ghost function Freed(base: nat, live: set<nat>, addr: nat): set<nat> {
    set i | i in live && addr != base + 4096 * i
  }

  // ---- bits of the bitmap ----

  predicate BitAt(bitmap: seq<u64>, i: nat)
    requires i < 64 * |bitmap|
  {
    TestBit(bitmap[i / 64], i % 64)
  }

  lemma Pow2Word(b: nat)
    requires b < 64
    ensures Pow2(b) < 0x1_0000_0000_0000_0000
  {
    Pow2Of64();
    Pow2Mono(b + 1, 64);
  }

  lemma SetBit(bitmap: seq<u64>, idx: nat)
    requires idx < 64 * |bitmap|
    ensures BitOr(bitmap[idx / 64], Pow2(idx % 64)) < 0x1_0000_0000_0000_0000
    ensures var b := bitmap[idx / 64 := BitOr(bitmap[idx / 64], Pow2(idx % 64))];
      forall i :: 0 <= i < 64 * |bitmap| ==> (BitAt(b, i) <==> i == idx || BitAt(bitmap, i))
  {
    var w, k := bitmap[idx / 64], idx % 64;
    Pow2Word(k);
    Pow2Of64();
    OrBound(w, Pow2(k), 64);
    var b := bitmap[idx / 64 := BitOr(w, Pow2(k))];
    forall i | 0 <= i < 64 * |bitmap| ensures BitAt(b, i) <==> i == idx || BitAt(bitmap, i) {
      OrBits(w, Pow2(k), i % 64);
      OneHotBits(k, i % 64);
    }
  }

  lemma ClearBit(bitmap: seq<u64>, idx: nat)
    requires idx < 64 * |bitmap|
    ensures BitAndNot(bitmap[idx / 64], Pow2(idx % 64)) < 0x1_0000_0000_0000_0000
    ensures var b := bitmap[idx / 64 := BitAndNot(bitmap[idx / 64], Pow2(idx % 64))];
      forall i :: 0 <= i < 64 * |bitmap| ==> (BitAt(b, i) <==> i != idx && BitAt(bitmap, i))
  {
    var w, k := bitmap[idx / 64], idx % 64;
    AndNotSplit(w, Pow2(k));
    var b := bitmap[idx / 64 := BitAndNot(w, Pow2(k))];
    forall i | 0 <= i < 64 * |bitmap| ensures BitAt(b, i) <==> i != idx && BitAt(bitmap, i) {
      AndNotBits(w, Pow2(k), i % 64);
      OneHotBits(k, i % 64);
    }
  }

  // ---- runs ----

  datatype MemOp = AllocOp | FreeOp(addr: nat)

  /** Live frames and addresses handed out, as a run over the set of live frames. */
  ghost function FrameRun(n: nat, base: nat, f: Frames, ops: seq<MemOp>): (Frames, seq<nat>) {
    if ops == [] then (f, [])
    else
      var (g, got) := FrameRun(n, base, f, ops[..|ops| - 1]);
      match ops[|ops| - 1]
      case AllocOp =>
        var (h, idx) := Alloc(n, g);
        (h, got + if idx.Some? then [base + idx.value * 4096] else [])
      case FreeOp(addr) => (g.(live := Freed(base, g.live, addr)), got)
  }

  /** Operation `k` of a run hands out frame `i`. */
  ghost predicate HandsOut(n: nat, base: nat, f: Frames, ops: seq<MemOp>, k: nat, i: nat)
    requires k < |ops|
  {
    ops[k].AllocOp? && Alloc(n, FrameRun(n, base, f, ops[..k]).0).1 == Some(i)
  }

  /** Operation `k` of a run frees frame `i`. */
  predicate TakesBack(base: nat, ops: seq<MemOp>, k: nat, i: nat)
    requires k < |ops|
  {
    ops[k] == FreeOp(base + 4096 * i)
  }

  ghost predicate NeverTakenBack(base: nat, ops: seq<MemOp>, from: nat, i: nat) {
    forall k :: from <= k < |ops| ==> !TakesBack(base, ops, k, i)
  }

  ghost predicate HandedOutLast(n: nat, base: nat, f: Frames, ops: seq<MemOp>, i: nat) {
    exists k :: 0 <= k < |ops| && HandsOut(n, base, f, ops, k, i) && NeverTakenBack(base, ops, k, i)
  }

  /** After any run a frame is live iff it was live or handed out, and was not freed since. */
  lemma {:induction false} LiveExactly(n: nat, base: nat, f: Frames, ops: seq<MemOp>, i: nat)
    ensures i in FrameRun(n, base, f, ops).0.live <==>
      (i in f.live && NeverTakenBack(base, ops, 0, i)) || HandedOutLast(n, base, f, ops, i)
  {
    if ops != [] {
      hide Alloc, HandsOut, TakesBack, NeverTakenBack, HandedOutLast;
      var m := |ops| - 1;
      LiveExactly(n, base, f, ops[..m], i);
      StepLive(n, base, f, ops, i);
      LastTaken(base, ops, 0, i);
      LastHanded(n, base, f, ops, i);
    }
  }

  lemma StepLive(n: nat, base: nat, f: Frames, ops: seq<MemOp>, i: nat)
    requires ops != []
    ensures var m := |ops| - 1;
      i in FrameRun(n, base, f, ops).0.live <==>
        (i in FrameRun(n, base, f, ops[..m]).0.live && !TakesBack(base, ops, m, i)) || HandsOut(n, base, f, ops, m, i)
  {
    hide FreeOrder;
  }

  lemma LastTaken(base: nat, ops: seq<MemOp>, from: nat, i: nat)
    requires ops != []
    ensures var m := |ops| - 1;
      from <= m ==> (NeverTakenBack(base, ops, from, i) <==> NeverTakenBack(base, ops[..m], from, i) && !TakesBack(base, ops, m, i))
  {
    var m := |ops| - 1;
    forall k | 0 <= k < m ensures TakesBack(base, ops[..m], k, i) <==> TakesBack(base, ops, k, i) {
    }
    hide TakesBack;
  }

  lemma LastHanded(n: nat, base: nat, f: Frames, ops: seq<MemOp>, i: nat)
    requires ops != []
    ensures var m := |ops| - 1;
      HandedOutLast(n, base, f, ops, i) <==>
        (HandedOutLast(n, base, f, ops[..m], i) && !TakesBack(base, ops, m, i)) || HandsOut(n, base, f, ops, m, i)
  {
    hide FrameRun, Alloc, NeverTakenBack;
    var m := |ops| - 1;
    forall k | 0 <= k < m
      ensures HandsOut(n, base, f, ops[..m], k, i) <==> HandsOut(n, base, f, ops, k, i)
      ensures NeverTakenBack(base, ops, k, i) <==> NeverTakenBack(base, ops[..m], k, i) && !TakesBack(base, ops, m, i)
    {
      assert ops[..m][..k] == ops[..k];
      LastTaken(base, ops, k, i);
    }
    if HandsOut(n, base, f, ops, m, i) { NotBoth(n, base, f, ops, i); }
  }

  lemma NotBoth(n: nat, base: nat, f: Frames, ops: seq<MemOp>, i: nat)
    requires ops != [] && HandsOut(n, base, f, ops, |ops| - 1, i)
    ensures NeverTakenBack(base, ops, |ops| - 1, i)
  {
    hide FrameRun, Alloc;
  }

  /** `addr` is one of the `n` frames from `base` on. */
  ghost predicate InPool(base: nat, n: nat, addr: nat) {
    exists i :: 0 <= i < n && addr == base + 4096 * i
  }

  lemma PoolAddress(base: nat, n: nat, addr: nat)
    requires exists i :: 0 <= i < n && addr == base + 4096 * i
    ensures InPool(base, n, addr)
  {
  }

  lemma FrameOf(base: nat, n: nat, addr: nat) returns (i: nat)
    requires InPool(base, n, addr)
    ensures i < n && addr == base + 4096 * i
  {
    i :| 0 <= i < n && addr == base + 4096 * i;
  }

  lemma NoPool(base: nat, got: seq<nat>)
    requires forall k :: 0 <= k < |got| ==> InPool(base, 0, got[k])
    ensures got == []
  {
    assert |got| > 0 ==> InPool(base, 0, got[0]);
  }

  class Pmm {
    const bitmap: array<u64>
    var base: nat
    var numFrames: nat
    var nextHint: nat
    var freeFrames: nat
    var totalBytes: nat
    /** Frames handed out and not freed. */
    ghost var live: set<nat>

    ghost predicate Valid()
      reads this, bitmap
    {
      && bitmap.Length == BITMAP_WORDS && numFrames <= MAX_FRAMES
      && (numFrames > 0 ==> nextHint < numFrames)
      && base % 4096 == 0
      && (forall i :: i in live ==> i < numFrames)
      && (forall i :: 0 <= i < numFrames ==> (i in live <==> BitAt(bitmap[..], i)))
      && freeFrames == numFrames - |live| && totalBytes == numFrames * 4096
    }

    /** Addresses of the frames in use. */
    ghost function Address(i: nat): nat
      reads this
    {
      base + 4096 * i
    }

    constructor ()
      ensures Valid() && numFrames == 0 && live == {} && fresh(bitmap)
    {
      bitmap := new u64[BITMAP_WORDS](_ => 0);
      base, numFrames, nextHint, freeFrames, totalBytes, live := 0, 0, 0, 0, 0, {};
    }

    method Init(memory: MemoryMap, kernelEnd: u64)
      requires Valid() && numFrames == 0
      modifies this, bitmap
      ensures Valid() && live == {} && (memory == [] ==> numFrames == 0)
      ensures memory != [] ==>
        && base == PoolBase(Largest(memory).value, kernelEnd)
        && numFrames == PoolFrames(Largest(memory).value, kernelEnd)
        && nextHint == 0
      ensures memory != [] ==>
        (FillsBank(Largest(memory).value, kernelEnd, base, numFrames) <==> PoolStays(Largest(memory).value, kernelEnd))
    {
      var bank := Largest(memory);
      if bank.None? {
        return;
      }
      hide PoolBase, PoolFrames, BitAt, FillsBank, PoolStays;
      base, numFrames := Pool(bank.value, kernelEnd);
      PoolInsideBank(bank.value, kernelEnd);
      nextHint := 0;
      ClearBitmap();
      live := {};
      freeFrames := numFrames;
      totalBytes := numFrames * 4096;
    }

    method ClearBitmap()
      requires bitmap.Length == BITMAP_WORDS
      modifies bitmap
      ensures forall i :: 0 <= i < MAX_FRAMES ==> !BitAt(bitmap[..], i)
    {
      for w := 0 to BITMAP_WORDS
        invariant forall k :: 0 <= k < w ==> bitmap[k] == 0
      {
        bitmap[w] := 0;
      }
      forall i | 0 <= i < MAX_FRAMES ensures !BitAt(bitmap[..], i) {
        ZeroBits(i % 64);
      }
    }

    method AllocFrame() returns (r: Option<nat>)
      requires Valid()
      modifies this`nextHint, this`freeFrames, this`live, bitmap
      ensures Valid()
      ensures var (f, idx) := Alloc(numFrames, Frames(old(live), old(nextHint)));
        && live == f.live && nextHint == f.hint
        && r == if idx.Some? then Some(base + idx.value * 4096) else None
      ensures r.Some? ==> exists i :: 0 <= i < numFrames && r.value == Address(i) && i !in old(live) && live == old(live) + {i}
      ensures r.None? ==> live == old(live) && |live| == numFrames
    {
      hide BitAt, FreeFrom;
      var n := numFrames;
      if n == 0 {
        assert live == {};
        return None;
      }
      var start := nextHint;
      for i := 0 to n
        invariant unchanged(this) && unchanged(bitmap)
        invariant forall j :: 0 <= j < i ==> Cyc(n, start, j) in live
      {
        var idx := Wrap(n, start, i);
        var free := TestFrame(idx);
        if free {
          TakeFirst(n, live, start, i);
          FreeCount(n, live, start);
          Claim(idx);
          return Some(base + idx * 4096);
        }
      }
      AllLive(n, live, start);
      FreeCount(n, live, start);
      return None;
    }

    /** Mark a free frame, move the hint behind it and count it. */
    method Claim(idx: nat)
      requires Valid() && idx < numFrames && idx !in live && |live| < numFrames
      modifies this`nextHint, this`freeFrames, this`live, bitmap
      ensures Valid() && live == old(live) + {idx} && nextHint == Cyc(numFrames, idx, 1)
    {
      hide BitAt;
      MarkFrame(idx);
      nextHint := Wrap(numFrames, idx, 1);
      freeFrames := freeFrames - 1;
      live := live + {idx};
    }

    /** `bitmap[word] & (1 << bit) == 0` */
    method TestFrame(idx: nat) returns (free: bool)
      requires Valid() && idx < numFrames
      ensures free <==> idx !in live
    {
      MaskTest(bitmap[idx / 64], idx % 64);
      free := BitAnd(bitmap[idx / 64], Pow2(idx % 64)) == 0;
      assert bitmap[..][idx / 64] == bitmap[idx / 64];
    }

    /** `bitmap[word] |= 1 << bit` */
    method MarkFrame(idx: nat)
      requires bitmap.Length == BITMAP_WORDS && idx < MAX_FRAMES
      modifies bitmap
      ensures forall i :: 0 <= i < MAX_FRAMES ==> (BitAt(bitmap[..], i) <==> i == idx || BitAt(old(bitmap[..]), i))
    {
      SetBit(bitmap[..], idx);
      bitmap[idx / 64] := BitOr(bitmap[idx / 64], Pow2(idx % 64));
      assert bitmap[..] == old(bitmap[..])[idx / 64 := bitmap[idx / 64]];
    }

    /** `bitmap[word] &= !(1 << bit)` */
    method UnmarkFrame(idx: nat)
      requires bitmap.Length == BITMAP_WORDS && idx < MAX_FRAMES
      modifies bitmap
      ensures forall i :: 0 <= i < MAX_FRAMES ==> (BitAt(bitmap[..], i) <==> i != idx && BitAt(old(bitmap[..]), i))
    {
      ClearBit(bitmap[..], idx);
      bitmap[idx / 64] := BitAndNot(bitmap[idx / 64], Pow2(idx % 64));
      assert bitmap[..] == old(bitmap[..])[idx / 64 := bitmap[idx / 64]];
    }

    /** Freeing a live frame's address releases it; anything else changes nothing. */
    method FreeFrame(addr: nat)
      requires Valid()
      modifies this`freeFrames, this`live, bitmap
      ensures Valid()
      ensures live == Freed(base, old(live), addr)
      ensures (forall i :: i in old(live) ==> addr != Address(i)) ==> live == old(live) && bitmap[..] == old(bitmap[..])
    {
      hide BitAt;
      if addr < base {
        return;
      }
      var off := addr - base;
      if off % 4096 != 0 {
        return;
      }
      var idx := off / 4096;
      assert addr == Address(idx);
      if idx >= numFrames {
        return;
      }
      var free := TestFrame(idx);
      if free {
        return;
      }
      UnmarkFrame(idx);
      freeFrames := freeFrames + 1;
      live := live - {idx};
      assert live == Freed(base, old(live), addr);
    }

    /** Any run of allocations and frees; every address handed out is a frame of the pool. */
    method Run(ops: seq<MemOp>) returns (got: seq<nat>)
      requires Valid()
      modifies this, bitmap
      ensures Valid() && base == old(base) && numFrames == old(numFrames)
      ensures (Frames(live, nextHint), got) == FrameRun(numFrames, base, Frames(old(live), old(nextHint)), ops)
      ensures forall k :: 0 <= k < |got| ==> InPool(base, numFrames, got[k])
    {
      hide Alloc, Freed, BitAt, InPool;
      got := [];
      for i := 0 to |ops|
        invariant Valid() && base == old(base) && numFrames == old(numFrames)
        invariant (Frames(live, nextHint), got) == FrameRun(numFrames, base, Frames(old(live), old(nextHint)), ops[..i])
        invariant forall k :: 0 <= k < |got| ==> InPool(base, numFrames, got[k])
      {
        assert ops[..i + 1][..i] == ops[..i];
        assert got + [] == got;
        match ops[i]
        case AllocOp =>
          var r := AllocFrame();
          if r.Some? {
            PoolAddress(base, numFrames, r.value);
            got := got + [r.value];
          }
        case FreeOp(addr) => FreeFrame(addr);
      }
      assert ops[..|ops|] == ops;
    }

    /**
     From `init` on: unless rounding up wraps, every frame of every run lies inside the
     largest bank, above the kernel image when that is in the bank.
     */
    method InitAndRun(memory: MemoryMap, kernelEnd: u64, ops: seq<MemOp>) returns (got: seq<nat>)
      requires Valid() && numFrames == 0
      modifies this, bitmap
      ensures Valid() && (memory == [] ==> got == [])
      ensures memory != [] ==>
        var bank := Largest(memory).value;
        got == FrameRun(PoolFrames(bank, kernelEnd), PoolBase(bank, kernelEnd), Frames({}, 0), ops).1
      ensures memory != [] ==>
        var bank := Largest(memory).value;
        PoolStays(bank, kernelEnd) ==> forall k :: 0 <= k < |got| ==> InsideBank(bank, kernelEnd, got[k])
    {
      hide FrameRun, BitAt, PoolBase, PoolFrames, PoolStays, InsideBank, FillsBank;
      Init(memory, kernelEnd);
      got := Run(ops);
      if memory == [] {
        NoPool(base, got);
      } else {
        var bank := Largest(memory).value;
        forall k | 0 <= k < |got| && PoolStays(bank, kernelEnd) ensures InsideBank(bank, kernelEnd, got[k]) {
          var i := FrameOf(base, numFrames, got[k]);
          FrameInside(bank, kernelEnd, base, numFrames, i);
        }
      }
    }
  }

  /** The frame at `addr` lies inside the bank, above the kernel image when that ends in the bank. */
  ghost predicate InsideBank(bank: MemoryRegion, kernelEnd: u64, addr: nat) {
    && bank.base <= addr && addr + 4096 <= bank.base + bank.size
    && (bank.base <= kernelEnd < Min(bank.base + bank.size, 0xffff_ffff_ffff_ffff) ==> kernelEnd <= addr)
  }

  lemma FrameInside(bank: MemoryRegion, kernelEnd: u64, base: nat, frames: nat, i: nat)
    requires FillsBank(bank, kernelEnd, base, frames) && i < frames
    ensures InsideBank(bank, kernelEnd, base + 4096 * i)
  {
  }

  /** A bank that starts in the top page gives a pool at address 0. */
  lemma TopPageWraps(kernelEnd: u64)
    requires kernelEnd < 0xffff_ffff_ffff_f001
    ensures PoolBase(MemoryRegion(0xffff_ffff_ffff_f001, 1), kernelEnd) == 0
    ensures PoolFrames(MemoryRegion(0xffff_ffff_ffff_f001, 1), kernelEnd) == MAX_FRAMES
  {
    PoolInsideBank(MemoryRegion(0xffff_ffff_ffff_f001, 1), kernelEnd);
  }

  /** First frame address and frame count of the pool in a bank. */
  method Pool(bank: MemoryRegion, kernelEnd: u64) returns (base: nat, frames: nat)
    ensures base == PoolBase(bank, kernelEnd) && base % 4096 == 0
    ensures frames == PoolFrames(bank, kernelEnd) <= MAX_FRAMES
  {
    var bankEnd := Min(bank.base + bank.size, 0xffff_ffff_ffff_ffff);
    var raw := if bank.base <= kernelEnd < bankEnd then kernelEnd else bank.base;
    base := RoundUp(raw);
    var usable := Min(Max(bankEnd - base, 0), 256 * 1024 * 1024);
    frames := Min(usable / 4096, MAX_FRAMES);
  }

  /** `(start + i) % n` */
  method Wrap(n: nat, start: nat, i: nat) returns (r: nat)
    requires start < n && i <= n
    ensures r == Cyc(n, start, i) < n
  {
    CycIsMod(n, start, i);
    r := (start + i) % n;
  }

  /** `(raw + 4096 - 1) & !(4096 - 1)` */
  method RoundUp(raw: nat) returns (r: nat)
    requires raw < 0x1_0000_0000_0000_0000
    ensures var v := (raw + 4095) % 0x1_0000_0000_0000_0000; r == v - v % 4096
  {
    var v := (raw + 4095) % 0x1_0000_0000_0000_0000;
    PageBits(v);
    r := BitAndNot(v, 4095);
  }
}
