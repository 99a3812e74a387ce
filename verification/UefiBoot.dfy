/**
 The UEFI path of memory: the stub coalesces conventional descriptors into the handoff,
 the kernel turns the handoff into banks, and the frame allocator manages the largest.
 */
module UefiBoot {
  import opened Machine
  import opened BootInfos
  import opened FrameOrder
  import opened Pmm
  import opened MemoryRuns

  // ---- the handoff ----

  function SatAdd(a: nat, b: nat): u64 {
    Min(a + b, 0xffff_ffff_ffff_ffff)
  }

  /** `push_memory_region`: extend the last region if adjacent, else append below the cap. */
  function PushRegion(rs: seq<MemoryRegion>, base: u64, size: u64): seq<MemoryRegion> {
    var n := |rs| - 1;
    if size == 0 then rs
    else if rs != [] && SatAdd(rs[n].base, rs[n].size) == base then
      rs[n := MemoryRegion(rs[n].base, SatAdd(rs[n].size, size))]
    else if |rs| < MAX_MEMORY_REGIONS then rs + [MemoryRegion(base, size)]
    else rs
  }

  /** Regions cover only conventional memory, without overflow. */
  ghost predicate Sound(rs: seq<MemoryRegion>, ds: seq<Descriptor>) {
    && |rs| <= MAX_MEMORY_REGIONS
    && forall k :: 0 <= k < |rs| ==> SoundRegion(rs[k], ds)
  }

  ghost predicate SoundRegion(r: MemoryRegion, ds: seq<Descriptor>) {
    && r.size > 0 && r.base + r.size <= 0x1_0000_0000_0000_0000
    && forall a :: r.base <= a < r.base + r.size ==> Conventional(ds, a)
  }

  lemma PushSound(rs: seq<MemoryRegion>, ds: seq<Descriptor>, i: nat)
    requires Sound(rs, ds) && NoOverflow(ds) && i < |ds| && IsConventional(ds[i])
    ensures Sound(Add(rs, ds[i]), ds) && Add(rs, ds[i]) != []
  {
    var base, size := ds[i].start, Min(ds[i].pages * 4096, 0xffff_ffff_ffff_ffff);
    assert size > 0 && base + size <= 0x1_0000_0000_0000_0000;
    DescriptorConventional(ds, i);
    hide Conventional;
    if rs != [] && SatAdd(rs[|rs| - 1].base, rs[|rs| - 1].size) == base {
      assert SoundRegion(rs[|rs| - 1], ds);
      Coalesced(rs[|rs| - 1], base, size, ds);
    } else {
      assert SoundRegion(MemoryRegion(base, size), ds);
    }
  }

  lemma DescriptorConventional(ds: seq<Descriptor>, i: nat)
    requires i < |ds| && IsConventional(ds[i])
    ensures forall a :: ds[i].start <= a < EndOf(ds[i]) ==> Conventional(ds, a)
  {
  }

  /** Two adjacent sound regions make one, even where a size saturates. */
  lemma Coalesced(prev: MemoryRegion, base: u64, size: u64, ds: seq<Descriptor>)
    requires SoundRegion(prev, ds) && SoundRegion(MemoryRegion(base, size), ds) && SatAdd(prev.base, prev.size) == base
    requires base < 0xffff_ffff_ffff_ffff
    ensures SoundRegion(MemoryRegion(prev.base, SatAdd(prev.size, size)), ds)
  {
    hide Conventional;
  }

  /** One descriptor of the loop: conventional memory is pushed, with its size saturated. */
  function Add(rs: seq<MemoryRegion>, d: Descriptor): seq<MemoryRegion> {
    if d.typ == EFI_CONVENTIONAL_MEMORY then PushRegion(rs, d.start, Min(d.pages * 4096, 0xffff_ffff_ffff_ffff)) else rs
  }

  /** The memory part of the handoff block: a fixed array and a length. */
  class Handoff {
    const memory: array<MemoryRegion>
    var memoryLen: nat

    ghost predicate Valid()
      reads this, memory
    {
      memory.Length == MAX_MEMORY_REGIONS && memoryLen <= MAX_MEMORY_REGIONS
    }

    ghost function Regions(): seq<MemoryRegion>
      requires Valid()
      reads this, memory
    {
      memory[..memoryLen]
    }

    constructor ()
      ensures Valid() && Regions() == [] && fresh(memory)
    {
      memory := new MemoryRegion[MAX_MEMORY_REGIONS](_ => MemoryRegion(0, 0));
      memoryLen := 0;
    }

    method PushMemoryRegion(base: u64, size: u64)
      requires Valid()
      modifies this, memory
      ensures Valid() && Regions() == PushRegion(old(Regions()), base, size)
    {
      if size == 0 {
        return;
      }
      var len := memoryLen;
      if len > 0 {
        var prev := memory[len - 1];
        if SatAdd(prev.base, prev.size) == base {
          memory[len - 1] := prev.(size := SatAdd(prev.size, size));
          return;
        }
      }
      if len < MAX_MEMORY_REGIONS {
        memory[len] := MemoryRegion(base, size);
        memoryLen := memoryLen + 1;
      }
    }
  }

  function Collect(ds: seq<Descriptor>): seq<MemoryRegion> {
    if ds == [] then [] else Add(Collect(ds[..|ds| - 1]), ds[|ds| - 1])
  }

  /** Whatever coalescing and the cap drop or merge, only conventional memory is listed. */
  lemma {:induction false} CollectSound(ds: seq<Descriptor>, k: nat)
    requires NoOverflow(ds) && k <= |ds|
    ensures Sound(Collect(ds[..k]), ds)
    ensures Collect(ds[..k]) == [] <==> !SomeConventional(ds[..k])
  {
    hide Conventional;
    if k > 0 {
      CollectSound(ds, k - 1);
      assert ds[..k][..k - 1] == ds[..k - 1];
      var rs := Collect(ds[..k - 1]);
      if IsConventional(ds[k - 1]) {
        PushSound(rs, ds, k - 1);
        assert IsConventional(ds[..k][k - 1]);
      } else {
        assert Collect(ds[..k]) == rs;
        assert forall i :: 0 <= i < k - 1 ==> ds[..k][i] == ds[..k - 1][i];
      }
    }
  }

  // ---- which conventional memory is listed ----

  /** A run as a region: the size field cannot hold the whole address space. */
  function Region(r: Run): MemoryRegion {
    MemoryRegion(r.base, Min(r.bytes, 0xffff_ffff_ffff_ffff))
  }

  function Listing(runs: seq<Run>): (rs: seq<MemoryRegion>)
    ensures |rs| == |runs| && forall k :: 0 <= k < |runs| ==> rs[k] == Region(runs[k])
  {
    seq(|runs|, k requires 0 <= k < |runs| => Region(runs[k]))
  }

  ghost predicate AllUsable(cs: seq<Descriptor>) {
    forall i :: 0 <= i < |cs| ==> IsConventional(cs[i]) && EndOf(cs[i]) <= 0x1_0000_0000_0000_0000
  }

  /** Empty and other descriptors leave no trace. */
  lemma {:induction false} CollectUsable(ds: seq<Descriptor>)
    ensures Collect(ds) == Collect(Usable(ds))
  {
    if ds != [] {
      var n := |ds| - 1;
      CollectUsable(ds[..n]);
      UsableSnoc(ds);
      if IsConventional(ds[n]) {
        hide Usable, Add;
        CollectSnoc(Usable(ds[..n]), ds[n]);
      } else {
        hide Usable;
      }
    }
  }

  lemma UsableSnoc(ds: seq<Descriptor>)
    requires ds != []
    ensures var n := |ds| - 1; Usable(ds) == if IsConventional(ds[n]) then Usable(ds[..n]) + [ds[n]] else Usable(ds[..n])
  {
  }

  lemma CollectSnoc(cs: seq<Descriptor>, d: Descriptor)
    ensures Collect(cs + [d]) == Add(Collect(cs), d)
  {
    hide Add;
    assert (cs + [d])[..|cs|] == cs;
  }

  /** Some descriptor behind the eighth run begins where that run ends. */
  ghost predicate Rejoined(cs: seq<Descriptor>) {
    |Runs(cs)| > 8 && exists k :: Starts(cs)[8] <= k < |cs| && Rejoins(cs, k)
  }

  ghost predicate Rejoins(cs: seq<Descriptor>, k: nat)
    requires k < |cs| && |Runs(cs)| > 8
  {
    cs[k].start == Runs(cs)[7].base + Runs(cs)[7].bytes
  }

  /** A push onto a list of runs that is not full: extend the last one or append. */
  lemma PushOnRuns(cs: seq<Descriptor>, d: Descriptor)
    requires AllUsable(cs + [d]) && |Runs(cs)| <= 8
    ensures |Runs(cs + [d])| <= 8 ==> Add(Listing(Runs(cs)), d) == Listing(Runs(cs + [d]))
    ensures |Runs(cs + [d])| > 8 ==>
      Add(Listing(Runs(cs)), d) == Listing(Runs(cs)) == Listing(Runs(cs + [d])[..8]) && !Rejoined(cs + [d])
  {
    hide Runs, Starts;
    assert IsConventional((cs + [d])[|cs|]) && EndOf((cs + [d])[|cs|]) <= 0x1_0000_0000_0000_0000;
    var rs := Listing(Runs(cs));
    if cs != [] && Adjacent(cs[|cs| - 1], d) {
      LastRunEnds(cs);
      RunsExtend(cs, d);
      assert Add(rs, d) == Listing(Runs(cs + [d]));
    } else {
      RunsApart(cs, d);
      if cs != [] { LastRunEnds(cs); } else { NoRuns(); }
      if |rs| == 8 {
        assert Runs(cs + [d])[..8] == Runs(cs);
        NotRejoined(cs, d);
      }
    }
  }

  lemma NotRejoined(cs: seq<Descriptor>, d: Descriptor)
    requires cs != [] && !Adjacent(cs[|cs| - 1], d) && |Runs(cs)| == 8
    ensures !Rejoined(cs + [d])
  {
    hide Runs, Starts;
    StartsSnoc(cs, d);
    RunsApart(cs, d);
    LastRunEnds(cs);
  }

  /** Behind the eighth run nothing is appended; the eighth region grows iff its end is met again. */
  ghost predicate CutOff(cs: seq<Descriptor>, rs: seq<MemoryRegion>)
    requires |Runs(cs)| > 8
  {
    && |rs| == 8 && rs[..7] == Listing(Runs(cs)[..7]) && rs[7].base == Runs(cs)[7].base
    && rs[7].base + rs[7].size <= 0x1_0000_0000_0000_0000
    && (if Rejoined(cs) then rs[7].size > Region(Runs(cs)[7]).size else rs[7] == Region(Runs(cs)[7]))
  }

  lemma PushBehind(cs: seq<Descriptor>, rs: seq<MemoryRegion>, d: Descriptor)
    requires AllUsable(cs + [d]) && |Runs(cs)| > 8 && CutOff(cs, rs)
    ensures |Runs(cs + [d])| > 8 && CutOff(cs + [d], Add(rs, d))
  {
    hide Runs, Starts;
    assert IsConventional((cs + [d])[|cs|]) && EndOf((cs + [d])[|cs|]) <= 0x1_0000_0000_0000_0000;
    RejoinedSnoc(cs, d);
  }

  lemma RejoinedSnoc(cs: seq<Descriptor>, d: Descriptor)
    requires |Runs(cs)| > 8
    ensures |Runs(cs + [d])| > 8 && Runs(cs + [d])[..8] == Runs(cs)[..8]
    ensures Rejoined(cs + [d]) <==> Rejoined(cs) || d.start == Runs(cs)[7].base + Runs(cs)[7].bytes
  {
    hide Runs, Starts;
    var cs' := cs + [d];
    StartsSnoc(cs, d);
    if cs != [] && Adjacent(cs[|cs| - 1], d) { RunsExtend(cs, d); } else { RunsApart(cs, d); }
    assert Runs(cs')[7] == Runs(cs)[7] && Starts(cs')[8] == Starts(cs)[8];
    assert Starts(cs)[8] < |cs| by { RunPlace(cs, 8); }
    assert forall k :: 0 <= k < |cs| ==> (Rejoins(cs', k) <==> Rejoins(cs, k));
    assert Rejoins(cs', |cs|) <==> d.start == Runs(cs)[7].base + Runs(cs)[7].bytes;
  }

  lemma FirstCutOff(cs: seq<Descriptor>, rs: seq<MemoryRegion>)
    requires AllUsable(cs) && |Runs(cs)| > 8 && rs == Listing(Runs(cs)[..8]) && !Rejoined(cs)
    ensures CutOff(cs, rs)
  {
    hide Runs, Starts, Rejoined;
    RunFits(cs, 7);
  }

  lemma PrefixUsable(cs: seq<Descriptor>, n: nat)
    requires AllUsable(cs) && n <= |cs|
    ensures AllUsable(cs[..n])
  {
  }

  /** All runs up to eight of them, else the first eight but for the growth of the last. */
  ghost predicate ListsRuns(cs: seq<Descriptor>, rs: seq<MemoryRegion>) {
    if |Runs(cs)| <= 8 then rs == Listing(Runs(cs)) else CutOff(cs, rs)
  }

  lemma AddListsRuns(cs: seq<Descriptor>, rs: seq<MemoryRegion>, d: Descriptor)
    requires AllUsable(cs + [d]) && ListsRuns(cs, rs)
    ensures ListsRuns(cs + [d], Add(rs, d))
  {
    hide Runs, Starts, Add, CutOff, Listing, AllUsable, Rejoined;
    if |Runs(cs)| > 8 {
      PushBehind(cs, rs, d);
    } else {
      PushOnRuns(cs, d);
      if |Runs(cs + [d])| > 8 { FirstCutOff(cs + [d], Add(rs, d)); }
    }
  }

  lemma NothingCollected()
    ensures ListsRuns([], Collect([]))
  {
    NoRuns();
  }

  lemma {:induction false} CollectRuns(cs: seq<Descriptor>)
    requires AllUsable(cs)
    ensures ListsRuns(cs, Collect(cs))
  {
    hide ListsRuns, Add, Collect, AllUsable;
    if cs == [] {
      NothingCollected();
    } else {
      var n := |cs| - 1;
      PrefixUsable(cs, n);
      CollectRuns(cs[..n]);
      CollectSnoc(cs[..n], cs[n]);
      assert cs == cs[..n] + [cs[n]];
      AddListsRuns(cs[..n], Collect(cs[..n]), cs[n]);
    }
  }

  function FirstRuns(cs: seq<Descriptor>): seq<Run> {
    if |Runs(cs)| <= 8 then Runs(cs) else Runs(cs)[..8]
  }

  /**
   The collected regions are the first eight maximal runs of adjacent conventional
   descriptors iff no descriptor behind the eighth run begins where that run ends; then the
   eighth region grows instead.
   */
  lemma CollectExact(ds: seq<Descriptor>)
    requires NoOverflow(ds)
    ensures Collect(ds) == Listing(FirstRuns(Usable(ds))) <==> !Rejoined(Usable(ds))
    ensures |Runs(Usable(ds))| <= 8 ==> !Rejoined(Usable(ds))
    ensures |Collect(ds)| == Min(8, |Runs(Usable(ds))|)
  {
    hide Runs, Starts, Collect, Rejoined, CutOff;
    var cs := Usable(ds);
    assert AllUsable(cs) by { UsableFits(ds); }
    CollectUsable(ds);
    CollectRuns(cs);
    if |Runs(cs)| > 8 {
      FirstEightRegions(cs, Collect(cs));
    } else {
      FewRuns(cs);
    }
  }

  lemma UsableFits(ds: seq<Descriptor>)
    requires NoOverflow(ds)
    ensures AllUsable(Usable(ds))
  {
    forall i | 0 <= i < |Usable(ds)|
      ensures IsConventional(Usable(ds)[i]) && EndOf(Usable(ds)[i]) <= 0x1_0000_0000_0000_0000
    {
      UsableOnly(ds, i);
    }
  }

  lemma FewRuns(cs: seq<Descriptor>)
    ensures |Runs(cs)| <= 8 ==> !Rejoined(cs)
  {
    hide Runs, Starts;
  }

  lemma FirstEightRegions(cs: seq<Descriptor>, rs: seq<MemoryRegion>)
    requires |Runs(cs)| > 8 && CutOff(cs, rs)
    ensures |rs| == 8 && (rs == Listing(Runs(cs)[..8]) <==> !Rejoined(cs))
  {
    hide Runs, Starts, Rejoined;
    var runs := Runs(cs);
    assert rs == rs[..7] + [rs[7]];
    assert Listing(runs[..8]) == Listing(runs[..7]) + [Region(runs[7])];
  }

  ghost predicate Listed(rs: seq<MemoryRegion>, a: nat) {
    exists k :: 0 <= k < |rs| && rs[k].base <= a < rs[k].base + rs[k].size
  }

  /** Some region above address 0 reaches the end of the address space. */
  ghost predicate ReachesTop(rs: seq<MemoryRegion>) {
    exists k :: 0 <= k < |rs| && rs[k].base > 0 && rs[k].base + rs[k].size == 0x1_0000_0000_0000_0000
  }

  /**
   With at most eight runs every conventional address is listed; only the last address of
   the space can be missed, where the run that holds it starts at 0.
   */
  lemma ListedExactly(ds: seq<Descriptor>, a: nat)
    requires NoOverflow(ds) && |Runs(Usable(ds))| <= 8
    ensures Listed(Collect(ds), a) <==>
      Conventional(ds, a) && (a == 0xffff_ffff_ffff_ffff ==> ReachesTop(Collect(ds)))
  {
    hide Runs, Starts, Collect, Usable, Conventional;
    var rs := Collect(ds);
    CollectExact(ds);
    assert ds[..|ds|] == ds;
    CollectSound(ds, |ds|);
    if Listed(rs, a) {
      var k :| 0 <= k < |rs| && rs[k].base <= a < rs[k].base + rs[k].size;
      assert SoundRegion(rs[k], ds);
      assert a == 0xffff_ffff_ffff_ffff ==> rs[k].base > 0 && rs[k].base + rs[k].size == 0x1_0000_0000_0000_0000;
    }
    if Conventional(ds, a) && a < 0xffff_ffff_ffff_ffff {
      var k := RunOf(ds, a);
      assert rs[k] == Region(Runs(Usable(ds))[k]);
    }
    if Conventional(ds, a) && a >= 0xffff_ffff_ffff_ffff {
      TopAddress(ds, a);
    }
  }

  lemma RunOf(ds: seq<Descriptor>, a: nat) returns (k: nat)
    requires Conventional(ds, a)
    ensures k < |Runs(Usable(ds))| && InRun(Runs(Usable(ds))[k], a)
  {
    hide Runs;
    var i :| 0 <= i < |ds| && IsConventional(ds[i]) && ds[i].start <= a < EndOf(ds[i]);
    var j := UsableAll(ds, i);
    k := RunsCover(Usable(ds), j, a);
  }

  lemma TopAddress(ds: seq<Descriptor>, a: nat)
    requires NoOverflow(ds) && Conventional(ds, a)
    ensures a <= 0xffff_ffff_ffff_ffff
  {
  }

  /** The whole address space as one descriptor: its last byte is conventional but not listed. */
  lemma WholeSpaceLosesLast()
    ensures var ds := [Descriptor(EFI_CONVENTIONAL_MEMORY, 0, 0x10_0000_0000_0000)];
      && NoOverflow(ds) && Conventional(ds, 0xffff_ffff_ffff_ffff)
      && Collect(ds) == [MemoryRegion(0, 0xffff_ffff_ffff_ffff)] && !Listed(Collect(ds), 0xffff_ffff_ffff_ffff)
  {
    var d := Descriptor(EFI_CONVENTIONAL_MEMORY, 0, 0x10_0000_0000_0000);
    CollectSnoc([], d);
    assert [] + [d] == [d];
    assert [d][0] == d;
  }

  /** Descriptors of 64 KiB, 64 KiB apart. */
  function Spaced(n: nat): (cs: seq<Descriptor>)
    requires n <= 16
    ensures |cs| == n
  {
    if n == 0 then [] else Spaced(n - 1) + [Descriptor(EFI_CONVENTIONAL_MEMORY, 0x2_0000 * (n - 1), 16)]
  }

  lemma {:induction false} SpacedRuns(n: nat)
    requires n <= 16
    ensures AllUsable(Spaced(n)) && |Runs(Spaced(n))| == n
    ensures n > 0 ==> Spaced(n)[n - 1] == Descriptor(EFI_CONVENTIONAL_MEMORY, 0x2_0000 * (n - 1), 16)
    ensures forall k :: 0 <= k < n ==> Runs(Spaced(n))[k] == Run(0x2_0000 * k, 0x1_0000)
  {
    hide Runs, Starts;
    if n == 0 {
      NoRuns();
    } else {
      SpacedRuns(n - 1);
      RunsApart(Spaced(n - 1), Descriptor(EFI_CONVENTIONAL_MEMORY, 0x2_0000 * (n - 1), 16));
    }
  }

  /** Nine runs, and a tenth descriptor at the end of the eighth: the eighth region grows. */
  lemma TenthRejoins()
    ensures var ds := Spaced(9) + [Descriptor(EFI_CONVENTIONAL_MEMORY, 0xf_0000, 16)];
      NoOverflow(ds) && Rejoined(Usable(ds)) && Collect(ds) != Listing(FirstRuns(Usable(ds)))
  {
    var d := Descriptor(EFI_CONVENTIONAL_MEMORY, 0xf_0000, 16);
    var ds := Spaced(9) + [d];
    hide Runs, Starts, Spaced, Usable, Collect, Rejoined, Listing, FirstRuns;
    SpacedRuns(9);
    assert AllUsable(ds);
    AlreadyUsable(ds);
    RejoinedSnoc(Spaced(9), d);
    CollectExact(ds);
  }

  lemma {:induction false} AlreadyUsable(cs: seq<Descriptor>)
    requires AllUsable(cs)
    ensures Usable(cs) == cs
  {
    if cs != [] {
      AlreadyUsable(cs[..|cs| - 1]);
    }
  }

  lemma NoDescriptors(fwMap: seq<u8>, descSize: nat)
    requires descSize > 0
    ensures var ds := Descriptors(fwMap, descSize, 0); ds[0..] == ds && Collect(ds[..0]) == []
  {
    hide DescriptorAt;
  }

  /** The loop reads the descriptors in order. */
  lemma NextDescriptor(fwMap: seq<u8>, descSize: nat, off: nat, ds: seq<Descriptor>, k: nat)
    requires descSize > 0 && off + 40 <= |fwMap| && k <= |ds| && ds[k..] == Descriptors(fwMap, descSize, off)
    ensures k < |ds| && ds[k] == DescriptorAt(fwMap, off) && ds[k + 1..] == Descriptors(fwMap, descSize, off + descSize)
    ensures Collect(ds[..k + 1]) == Add(Collect(ds[..k]), ds[k])
  {
    hide DescriptorAt, Add;
    assert ds[k..][0] == ds[k];
    assert ds[k..][1..] == ds[k + 1..];
    assert ds[..k + 1][..k] == ds[..k];
  }

  lemma LastDescriptor(fwMap: seq<u8>, descSize: nat, off: nat, ds: seq<Descriptor>, k: nat)
    requires descSize > 0 && off + 40 > |fwMap| && k <= |ds| && ds[k..] == Descriptors(fwMap, descSize, off)
    ensures ds[..k] == ds
  {
  }

  /** The descriptor loop of `build_handoff`, with its fallback when nothing was found. */
  method BuildHandoff(fwMap: seq<u8>, descSize: nat, fallback: MemoryRegion) returns (h: Handoff)
    requires descSize > 0
    ensures fresh(h) && fresh(h.memory) && h.Valid()
    ensures var rs := Collect(Descriptors(fwMap, descSize, 0));
      h.Regions() == if rs == [] then PushRegion([], fallback.base, fallback.size) else rs
  {
    hide PushRegion, DescriptorAt, Collect, Descriptors;
    h := new Handoff();
    NoDescriptors(fwMap, descSize);
    ghost var ds := Descriptors(fwMap, descSize, 0);
    ghost var k := 0;
    var off := 0;
    while off + 40 <= |fwMap|
      invariant fresh(h) && fresh(h.memory) && h.Valid()
      invariant 0 <= k <= |ds| && ds[k..] == Descriptors(fwMap, descSize, off)
      invariant h.Regions() == Collect(ds[..k])
      decreases |fwMap| + descSize - off
    {
      var d := DescriptorAt(fwMap, off);
      NextDescriptor(fwMap, descSize, off, ds, k);
      if d.typ == EFI_CONVENTIONAL_MEMORY {
        h.PushMemoryRegion(d.start, Min(d.pages * 4096, 0xffff_ffff_ffff_ffff));
      }
      off := off + descSize;
      k := k + 1;
    }
    LastDescriptor(fwMap, descSize, off, ds, k);
    if h.memoryLen == 0 {
      h.PushMemoryRegion(fallback.base, fallback.size);
    }
  }

  lemma {:induction false} NothingDropped(rs: seq<MemoryRegion>)
    requires forall k :: 0 <= k < |rs| ==> rs[k].size > 0
    ensures NonEmpty(rs) == rs
  {
    if rs != [] { NothingDropped(rs[..|rs| - 1]); }
  }

  /** `to_boot_info`, memory part: push the first `min(len, 8)` regions. */
  method ToMemoryMap(h: Handoff) returns (m: MemoryMap)
    requires h.memory.Length == MAX_MEMORY_REGIONS
    ensures m == NonEmpty(h.memory[..Min(h.memoryLen, MAX_MEMORY_REGIONS)])
  {
    m := [];
    var len := Min(h.memoryLen, MAX_MEMORY_REGIONS);
    for i := 0 to len
      invariant m == NonEmpty(h.memory[..i]) && |m| <= i
    {
      assert h.memory[..i + 1][..i] == h.memory[..i];
      m := Push(m, h.memory[i]);
    }
  }

  /** Every address of every frame of the pool is conventional memory. */
  ghost predicate PoolConventional(base: nat, frames: nat, ds: seq<Descriptor>) {
    forall a :: base <= a < base + 4096 * frames ==> Conventional(ds, a)
  }

  /** The first 256 MiB, where a pool that wraps is placed. */
  ghost predicate LowConventional(ds: seq<Descriptor>) {
    forall a :: 0 <= a < 0x1000_0000 ==> Conventional(ds, a)
  }

  /** The pool of a sound bank is conventional memory iff it stays, or low memory is conventional anyway. */
  lemma BankConventional(m: MemoryMap, ds: seq<Descriptor>, kernelEnd: u64)
    requires Sound(m, ds) && m != []
    ensures PoolConventional(PoolBase(Largest(m).value, kernelEnd), PoolFrames(Largest(m).value, kernelEnd), ds)
       <==> PoolStays(Largest(m).value, kernelEnd) || LowConventional(ds)
  {
    hide PoolBase, PoolFrames, Conventional, RawBase;
    var bank := Largest(m).value;
    var k :| 0 <= k < |m| && m[k] == bank;
    assert SoundRegion(m[k], ds);
    PoolInsideBank(bank, kernelEnd);
    RawInside(bank, kernelEnd);
  }

  /**
   From firmware memory map to frame allocator: whatever it later hands out lies wholly
   in conventional memory iff rounding the pool's start up does not wrap, or low memory is
   conventional anyway.
   */
  method Boot(fwMap: seq<u8>, descSize: nat, fallback: MemoryRegion, kernelEnd: u64) returns (p: Pmm)
    requires descSize > 0
    ensures fresh(p) && fresh(p.bitmap) && p.Valid() && p.live == {}
    ensures var ds := Descriptors(fwMap, descSize, 0);
      NoOverflow(ds) && SomeConventional(ds) ==>
        && Collect(ds) != []
        && (Collect(ds) == Listing(FirstRuns(Usable(ds))) <==> !Rejoined(Usable(ds)))
        && (FillsBank(Largest(Collect(ds)).value, kernelEnd, p.base, p.numFrames)
            <==> PoolStays(Largest(Collect(ds)).value, kernelEnd))
        && (PoolConventional(p.base, p.numFrames, ds)
            <==> PoolStays(Largest(Collect(ds)).value, kernelEnd) || LowConventional(ds))
  {
    hide Descriptors, PoolBase, PoolFrames, PoolConventional, Collect, NonEmpty, PoolStays, LowConventional, FillsBank,
      Rejoined, Usable, FirstRuns, Listing;
    ghost var ds := Descriptors(fwMap, descSize, 0);
    var h := BuildHandoff(fwMap, descSize, fallback);
    var m := ToMemoryMap(h);
    p := new Pmm();
    p.Init(m, kernelEnd);
    if NoOverflow(ds) && SomeConventional(ds) {
      assert ds[..|ds|] == ds;
      CollectSound(ds, |ds|);
      CollectExact(ds);
      NothingDropped(h.Regions());
      BankConventional(m, ds, kernelEnd);
    }
  }

  /** 4 GiB up to the last byte, with the kernel's end in the last page: the pool is not conventional. */
  lemma TopKernelWraps()
    ensures var ds := [Descriptor(EFI_CONVENTIONAL_MEMORY, 0xffff_ffff_0000_0000, 0x10_0000)];
      var bank := MemoryRegion(0xffff_ffff_0000_0000, 0x1_0000_0000);
      && NoOverflow(ds) && SomeConventional(ds) && Collect(ds) == [bank] && !PoolStays(bank, 0xffff_ffff_ffff_f001)
      && !PoolConventional(PoolBase(bank, 0xffff_ffff_ffff_f001), PoolFrames(bank, 0xffff_ffff_ffff_f001), ds)
  {
    var d := Descriptor(EFI_CONVENTIONAL_MEMORY, 0xffff_ffff_0000_0000, 0x10_0000);
    OneDescriptor(d);
    hide PoolBase, PoolFrames, PoolConventional, Conventional, Collect, Add, Largest, LowConventional;
    BankConventional(Collect([d]), [d], 0xffff_ffff_ffff_f001);
  }

  /** A map of one conventional descriptor above address 0. */
  lemma OneDescriptor(d: Descriptor)
    requires IsConventional(d) && 0 < d.start && d.start + d.pages * 4096 <= 0x1_0000_0000_0000_0000
    ensures NoOverflow([d]) && SomeConventional([d]) && !LowConventional([d])
    ensures Collect([d]) == [MemoryRegion(d.start, d.pages * 4096)] && Sound(Collect([d]), [d])
    ensures Largest(Collect([d])) == Some(MemoryRegion(d.start, d.pages * 4096))
  {
    var ds, bank := [d], MemoryRegion(d.start, d.pages * 4096);
    assert ds[..0] == [] && ds[..1] == ds && ds[0] == d;
    assert Collect(ds[..0]) == [];
    CollectSound(ds, 1);
    assert !Conventional(ds, 0);
    assert [bank][..0] == [];
  }

  lemma FrameConventional(base: nat, frames: nat, k: nat, ds: seq<Descriptor>)
    requires PoolConventional(base, frames, ds) && k < frames
    ensures InConventional(base + 4096 * k, ds)
  {
    hide Conventional;
  }

  /** In every run after boot each frame returned is conventional memory, start to end. */
  method RunAfterBoot(p: Pmm, ghost ds: seq<Descriptor>, ops: seq<MemOp>) returns (got: seq<nat>)
    requires p.Valid() && PoolConventional(p.base, p.numFrames, ds)
    modifies p, p.bitmap
    ensures p.Valid() && p.base == old(p.base) && p.numFrames == old(p.numFrames)
    ensures (Frames(p.live, p.nextHint), got) == FrameRun(p.numFrames, p.base, Frames(old(p.live), old(p.nextHint)), ops)
    ensures forall k :: 0 <= k < |got| ==> InConventional(got[k], ds)
  {
    hide PoolConventional, InConventional, FrameRun, BitAt;
    got := p.Run(ops);
    forall k | 0 <= k < |got| ensures InConventional(got[k], ds) {
      var i := FrameOf(p.base, p.numFrames, got[k]);
      FrameConventional(p.base, p.numFrames, i, ds);
    }
  }

  /** The whole frame at `addr` is conventional memory. */
  ghost predicate InConventional(addr: nat, ds: seq<Descriptor>) {
    forall a :: addr <= a < addr + 4096 ==> Conventional(ds, a)
  }
}
