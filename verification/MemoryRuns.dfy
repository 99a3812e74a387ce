/**
 The firmware's memory map: descriptors in their byte layout, and the maximal runs of
 adjacent conventional ones.
 */
module MemoryRuns {
  import opened Machine
  import opened BootInfos
  import Elf = ElfLoader

  const EFI_CONVENTIONAL_MEMORY: u32 := 7

  datatype Descriptor = Descriptor(typ: u32, start: u64, pages: u64)

  /** The descriptor at byte `off` of the firmware's memory map. */
  function DescriptorAt(fwMap: seq<u8>, off: nat): Descriptor
    requires off + 40 <= |fwMap|
  {
    Descriptor(Elf.U32At(fwMap, off), Elf.U64At(fwMap, off + 8), Elf.U64At(fwMap, off + 24))
  }

  /** Every descriptor of the map from `off` on, `descSize` bytes apart. */
  function Descriptors(fwMap: seq<u8>, descSize: nat, off: nat): seq<Descriptor>
    requires descSize > 0
    decreases |fwMap| + descSize - off
  {
    if off + 40 > |fwMap| then [] else [DescriptorAt(fwMap, off)] + Descriptors(fwMap, descSize, off + descSize)
  }

  // ---- the layout of a descriptor ----

  /** `EFI_MEMORY_DESCRIPTOR`, with the fields the stub ignores. */
  function DescriptorBytes(d: Descriptor, pad: u32, virt: u64, attribute: u64): (r: seq<u8>)
    ensures |r| == 40
  {
    LeBytes(d.typ, 4) + LeBytes(pad, 4) + LeBytes(d.start, 8) + LeBytes(virt, 8) + LeBytes(d.pages, 8) + LeBytes(attribute, 8)
  }

  lemma DescriptorRoundTrip(fwMap: seq<u8>, off: nat, d: Descriptor, pad: u32, virt: u64, attribute: u64)
    requires At(fwMap, off, DescriptorBytes(d, pad, virt, attribute))
    ensures off + 40 <= |fwMap| && DescriptorAt(fwMap, off) == d
  {
    hide LeBytes, At, Elf.U32At, Elf.U64At;
    var a := LeBytes(d.typ, 4);
    var b := a + LeBytes(pad, 4);
    var c := b + LeBytes(d.start, 8);
    var e := c + LeBytes(virt, 8);
    var f := e + LeBytes(d.pages, 8);
    Elf.AtFits(fwMap, off, DescriptorBytes(d, pad, virt, attribute));
    AtSplit(fwMap, off, f, LeBytes(attribute, 8));
    AtSplit(fwMap, off, e, LeBytes(d.pages, 8));
    AtSplit(fwMap, off, c, LeBytes(virt, 8));
    AtSplit(fwMap, off, b, LeBytes(d.start, 8));
    AtSplit(fwMap, off, a, LeBytes(pad, 4));
    Elf.ReadsU32(fwMap, off, d.typ);
    Elf.ReadsU64(fwMap, off + 8, d.start);
    Elf.ReadsU64(fwMap, off + 24, d.pages);
  }

  /** The descriptor `d` stands at byte `off`, whatever its ignored fields hold. */
  ghost predicate Describes(fwMap: seq<u8>, off: nat, d: Descriptor) {
    exists pad: u32, virt: u64, attribute: u64 :: At(fwMap, off, DescriptorBytes(d, pad, virt, attribute))
  }

  /** From `off` on the map holds `ds`, `descSize` bytes apart, and no further descriptor. */
  ghost predicate MapHolds(fwMap: seq<u8>, descSize: nat, off: nat, ds: seq<Descriptor>)
    decreases |ds|
  {
    if ds == [] then off + 40 > |fwMap|
    else Describes(fwMap, off, ds[0]) && MapHolds(fwMap, descSize, off + descSize, ds[1..])
  }

  /** The stub reads back the descriptors a map was built from. */
  lemma {:induction false} MapReads(fwMap: seq<u8>, descSize: nat, off: nat, ds: seq<Descriptor>)
    requires descSize > 0 && MapHolds(fwMap, descSize, off, ds)
    ensures Descriptors(fwMap, descSize, off) == ds
    decreases |ds|
  {
    hide DescriptorAt, DescriptorBytes;
    if ds != [] {
      var pad: u32, virt: u64, attribute: u64 :| At(fwMap, off, DescriptorBytes(ds[0], pad, virt, attribute));
      DescriptorRoundTrip(fwMap, off, ds[0], pad, virt, attribute);
      MapReads(fwMap, descSize, off + descSize, ds[1..]);
      assert ds == [ds[0]] + ds[1..];
    }
  }

  // ---- conventional memory ----

  predicate IsConventional(d: Descriptor) {
    d.typ == EFI_CONVENTIONAL_MEMORY && d.pages > 0
  }

  function EndOf(d: Descriptor): nat {
    d.start + d.pages * 4096
  }

  /** Address `a` belongs to a conventional descriptor. */
  ghost predicate Conventional(ds: seq<Descriptor>, a: nat) {
    exists i :: 0 <= i < |ds| && IsConventional(ds[i]) && ds[i].start <= a < EndOf(ds[i])
  }

  /** Conventional descriptors end inside the address space. */
  ghost predicate NoOverflow(ds: seq<Descriptor>) {
    forall i :: 0 <= i < |ds| && IsConventional(ds[i]) ==> EndOf(ds[i]) <= 0x1_0000_0000_0000_0000
  }

  ghost predicate SomeConventional(ds: seq<Descriptor>) {
    exists i :: 0 <= i < |ds| && IsConventional(ds[i])
  }

  /** The non-empty conventional descriptors, in order. */
  function Usable(ds: seq<Descriptor>): seq<Descriptor> {
    if ds == [] then []
    else Usable(ds[..|ds| - 1]) + if IsConventional(ds[|ds| - 1]) then [ds[|ds| - 1]] else []
  }

  lemma {:induction false} UsableOnly(ds: seq<Descriptor>, i: nat)
    requires i < |Usable(ds)|
    ensures Usable(ds)[i] in ds && IsConventional(Usable(ds)[i])
  {
    var n := |ds| - 1;
    if i < |Usable(ds[..n])| { UsableOnly(ds[..n], i); }
  }

  lemma {:induction false} UsableAll(ds: seq<Descriptor>, i: nat) returns (j: nat)
    requires i < |ds| && IsConventional(ds[i])
    ensures j < |Usable(ds)| && Usable(ds)[j] == ds[i]
  {
    var n := |ds| - 1;
    if i < n { j := UsableAll(ds[..n], i); } else { j := |Usable(ds[..n])|; }
  }

  // ---- runs ----

  /** A maximal run of adjacent descriptors: where it starts and how many bytes it has. */
  datatype Run = Run(base: u64, bytes: nat)

  predicate Adjacent(a: Descriptor, b: Descriptor) {
    EndOf(a) == b.start
  }

  /** A run starts at every descriptor that does not begin where the one before it ends. */
  predicate StartsRun(cs: seq<Descriptor>, k: nat) {
    k < |cs| && (k == 0 || !Adjacent(cs[k - 1], cs[k]))
  }

  /** The places where runs start, in ascending order. */
  function Starts(cs: seq<Descriptor>): (st: seq<nat>)
    ensures forall k: nat :: k in st <==> StartsRun(cs, k)
    ensures forall i, j :: 0 <= i < j < |st| ==> st[i] < st[j]
  {
    if cs == [] then []
    else
      var n := |cs| - 1;
      var st := Starts(cs[..n]);
      assert forall k: nat :: k < n ==> (StartsRun(cs[..n], k) <==> StartsRun(cs, k));
      assert forall i :: 0 <= i < |st| ==> StartsRun(cs[..n], st[i]);
      st + if StartsRun(cs, n) then [n] else []
  }

  function Bytes(cs: seq<Descriptor>): nat {
    if cs == [] then 0 else Bytes(cs[..|cs| - 1]) + 4096 * cs[|cs| - 1].pages
  }

  /** Where run `k` ends: at the start of the next, or with the list. */
  function Ends(cs: seq<Descriptor>, k: nat): nat
    requires k < |Starts(cs)|
  {
    if k + 1 < |Starts(cs)| then Starts(cs)[k + 1] else |cs|
  }

  lemma RunPlace(cs: seq<Descriptor>, k: nat)
    requires k < |Starts(cs)|
    ensures Starts(cs)[k] < Ends(cs, k) <= |cs|
  {
    assert Starts(cs)[k] in Starts(cs);
    assert k + 1 < |Starts(cs)| ==> Starts(cs)[k + 1] in Starts(cs);
  }

  function RunAt(cs: seq<Descriptor>, k: nat): Run
    requires k < |Starts(cs)|
  {
    RunPlace(cs, k);
    Run(cs[Starts(cs)[k]].start, Bytes(cs[Starts(cs)[k] .. Ends(cs, k)]))
  }

  function Runs(cs: seq<Descriptor>): (rs: seq<Run>)
    ensures |rs| == |Starts(cs)|
  {
    seq(|Starts(cs)|, k requires 0 <= k < |Starts(cs)| => RunAt(cs, k))
  }

  /** Runs that are over do not change when a descriptor is added. */
  lemma RunStays(cs: seq<Descriptor>, d: Descriptor, k: nat)
    requires k < |Starts(cs)| && k < |Starts(cs + [d])|
    requires Starts(cs) <= Starts(cs + [d]) && Ends(cs + [d], k) == Ends(cs, k)
    ensures RunAt(cs + [d], k) == RunAt(cs, k)
  {
    hide Starts, Bytes, Ends;
    RunPlace(cs, k);
    var i, j := Starts(cs)[k], Ends(cs, k);
    assert Starts(cs + [d])[k] == i;
    assert (cs + [d])[i..j] == cs[i..j];
  }

  lemma StartsSnoc(cs: seq<Descriptor>, d: Descriptor)
    ensures Starts(cs + [d]) == Starts(cs) + if cs == [] || !Adjacent(cs[|cs| - 1], d) then [|cs|] else []
    ensures cs != [] ==> Starts(cs) != []
  {
    assert (cs + [d])[..|cs|] == cs;
    assert cs != [] ==> StartsRun(cs, 0);
  }

  /** A descriptor that is not adjacent to the last one starts a run of its own. */
  lemma RunsApart(cs: seq<Descriptor>, d: Descriptor)
    requires cs == [] || !Adjacent(cs[|cs| - 1], d)
    ensures Runs(cs + [d]) == Runs(cs) + [Run(d.start, 4096 * d.pages)]
  {
    hide Starts, Bytes, RunAt;
    StartsSnoc(cs, d);
    var n := |Starts(cs)|;
    forall k | 0 <= k < n ensures RunAt(cs + [d], k) == RunAt(cs, k) {
      RunStays(cs, d, k);
    }
    LastRun(cs, d, |cs|);
    assert RunAt(cs + [d], n) == Run(d.start, 4096 * d.pages) by {
      RunIs(cs + [d], n);
      assert cs[|cs|..] == [];
      NoBytes();
    }
  }

  lemma NoBytes()
    ensures Bytes([]) == 0
  {
  }

  lemma RunIs(cs: seq<Descriptor>, k: nat)
    requires k < |Starts(cs)|
    ensures Starts(cs)[k] < Ends(cs, k) <= |cs|
    ensures RunAt(cs, k) == Run(cs[Starts(cs)[k]].start, Bytes(cs[Starts(cs)[k] .. Ends(cs, k)]))
  {
    RunPlace(cs, k);
  }

  lemma LastRun(cs: seq<Descriptor>, d: Descriptor, i: nat)
    requires i <= |cs|
    ensures (cs + [d])[i .. |cs| + 1] == cs[i..] + [d]
    ensures Bytes(cs[i..] + [d]) == Bytes(cs[i..]) + 4096 * d.pages
  {
    assert (cs[i..] + [d])[..|cs| - i] == cs[i..];
  }

  /** One that is adjacent extends the last run. */
  lemma RunsExtend(cs: seq<Descriptor>, d: Descriptor)
    requires cs != [] && Adjacent(cs[|cs| - 1], d)
    ensures Runs(cs) != []
    ensures var n := |Runs(cs)| - 1;
      Runs(cs + [d]) == Runs(cs)[n := Run(Runs(cs)[n].base, Runs(cs)[n].bytes + 4096 * d.pages)]
  {
    hide Starts, Bytes, RunAt;
    StartsSnoc(cs, d);
    var n := |Starts(cs)| - 1;
    forall k | 0 <= k < n ensures RunAt(cs + [d], k) == RunAt(cs, k) {
      RunStays(cs, d, k);
    }
    RunIs(cs, n);
    RunIs(cs + [d], n);
    var i := Starts(cs)[n];
    assert cs[i..|cs|] == cs[i..];
    LastRun(cs, d, i);
  }

  /** The last run ends where the last descriptor does. */
  lemma {:induction false} LastRunEnds(cs: seq<Descriptor>)
    requires cs != []
    ensures Runs(cs) != []
    ensures var r := Runs(cs)[|Runs(cs)| - 1]; r.base + r.bytes == EndOf(cs[|cs| - 1])
    decreases |cs|
  {
    hide Runs, Starts;
    var n := |cs| - 1;
    var d := cs[n];
    assert cs == cs[..n] + [d];
    if n == 0 || !Adjacent(cs[n - 1], d) {
      RunsApart(cs[..n], d);
    } else {
      RunsExtend(cs[..n], d);
      LastRunEnds(cs[..n]);
    }
  }

  /** Runs of descriptors inside the address space end inside it. */
  lemma {:induction false} RunFits(cs: seq<Descriptor>, k: nat)
    requires k < |Runs(cs)| && NoOverflow(cs) && forall i :: 0 <= i < |cs| ==> IsConventional(cs[i])
    ensures Runs(cs)[k].bytes > 0 && Runs(cs)[k].base + Runs(cs)[k].bytes <= 0x1_0000_0000_0000_0000
    decreases |cs|
  {
    hide Runs, Starts;
    assert cs != [] by { NoRuns(); }
    var n := |cs| - 1;
    var d := cs[n];
    assert cs == cs[..n] + [d];
    LastRunEnds(cs);
    if n == 0 || !Adjacent(cs[n - 1], d) {
      RunsApart(cs[..n], d);
    } else {
      RunsExtend(cs[..n], d);
    }
    if k < |Runs(cs)| - 1 {
      RunFits(cs[..n], k);
    }
  }

  lemma NoRuns()
    ensures Runs([]) == []
  {
  }

  ghost predicate InRun(r: Run, a: nat) {
    r.base <= a < r.base + r.bytes
  }

  /** Every address of a descriptor is in a run. */
  lemma {:induction false} RunsCover(cs: seq<Descriptor>, i: nat, a: nat) returns (k: nat)
    requires i < |cs| && cs[i].start <= a < EndOf(cs[i])
    ensures k < |Runs(cs)| && InRun(Runs(cs)[k], a)
    decreases |cs|
  {
    hide Runs, Starts;
    var n := |cs| - 1;
    var d := cs[n];
    assert cs == cs[..n] + [d];
    if n == 0 || !Adjacent(cs[n - 1], d) {
      RunsApart(cs[..n], d);
    } else {
      RunsExtend(cs[..n], d);
      LastRunEnds(cs[..n]);
    }
    if i == n {
      k := |Runs(cs)| - 1;
    } else {
      k := RunsCover(cs[..n], i, a);
    }
  }
}
