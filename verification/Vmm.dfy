/**
 Address spaces: an ordered map of page-granular virtual mappings.
 */
module Vmm {
  import opened Machine
  import P = Pmm
  import Order = FrameOrder

  datatype MapError = ZeroLength | Unaligned | LengthOverflow | Overlap | OutOfMemory
  datatype Mapping = Mapping(va: u64, pa: u64, len: u64)
  type Mappings = map<u64, Mapping>

  // ---- range helpers ----

  /** Length in bytes of the pages needed, or why there is none. */
  function NormaliseLen(len: u64): Result<u64, MapError> {
    if len == 0 then Err(ZeroLength)
    else if len + 4095 >= 0x1_0000_0000_0000_0000 then Err(LengthOverflow)
    else Ok(len + 4095 - (len + 4095) % 4096)
  }

  predicate RangesOverlap(aStart: nat, aEnd: nat, bStart: nat, bEnd: nat) {
    aStart < bEnd && bStart < aEnd
  }

  predicate Contains(m: Mapping, a: nat) {
    m.va <= a < m.va + m.len
  }

  /** Two non-empty ranges overlap iff some address lies in both. */
  lemma OverlapMeansShared(m: Mapping, x: Mapping)
    requires m.len > 0 && x.len > 0
    ensures RangesOverlap(m.va, m.va + m.len, x.va, x.va + x.len) <==> exists a: nat :: Contains(m, a) && Contains(x, a)
  {
    if RangesOverlap(m.va, m.va + m.len, x.va, x.va + x.len) {
      assert Contains(m, Max(m.va, x.va)) && Contains(x, Max(m.va, x.va));
    }
  }

  predicate Aligned(m: Mapping) {
    m.va % 4096 == 0 && m.pa % 4096 == 0 && m.len % 4096 == 0
  }

  /** Where a mapping sends `a`; u64 addition wraps. */
  function Target(m: Mapping, a: u64): u64
    requires Contains(m, a)
  {
    (m.pa + (a - m.va)) % 0x1_0000_0000_0000_0000
  }

  ghost predicate WellFormed(k: u64, m: Mapping) {
    m.va == k && Aligned(m) && m.len > 0 && m.va + m.len < 0x1_0000_0000_0000_0000
  }

  /** Mappings are page-aligned, do not wrap, and are pairwise disjoint. */
  ghost predicate Ordered(ms: Mappings) {
    && (forall k :: k in ms ==> WellFormed(k, ms[k]))
    && forall j, k :: j in ms && k in ms && j < k ==> ms[j].va + ms[j].len <= k
  }

  /** The translation found by looking at every mapping. */
  ghost function Search(ms: Mappings, a: u64): Option<u64> {
    if exists k :: k in ms && Contains(ms[k], a) then
      var k :| k in ms && Contains(ms[k], a);
      Some(Target(ms[k], a))
    else None
  }

  lemma SearchUnique(ms: Mappings, a: u64, k: u64)
    requires Ordered(ms) && k in ms && Contains(ms[k], a)
    ensures Search(ms, a) == Some(Target(ms[k], a))
  {
    hide Target, Aligned;
    forall j | j in ms && Contains(ms[j], a) ensures j == k {
      assert WellFormed(j, ms[j]) && WellFormed(k, ms[k]);
    }
  }

  /** A translation is base plus offset whenever the physical range fits in 64 bits. */
  lemma SearchExact(ms: Mappings, a: u64, k: u64)
    requires Ordered(ms) && k in ms && Contains(ms[k], a) && ms[k].pa + ms[k].len <= 0x1_0000_0000_0000_0000
    ensures Search(ms, a) == Some(ms[k].pa + (a - k))
  {
    hide Search, Target;
    SearchUnique(ms, a, k);
    assert WellFormed(k, ms[k]);
    TargetExact(ms[k], a);
  }

  lemma TargetExact(m: Mapping, a: u64)
    requires Contains(m, a) && m.pa + m.len <= 0x1_0000_0000_0000_0000
    ensures Target(m, a) == m.pa + (a - m.va)
  {
    ModUnique(m.pa + (a - m.va), 0x1_0000_0000_0000_0000, 0, m.pa + (a - m.va));
  }

  /** All addresses of a mapping translate to base plus offset iff its physical range fits in 64 bits. */
  lemma MappingExact(ms: Mappings, k: u64)
    requires Ordered(ms) && k in ms
    ensures (forall a: u64 :: Contains(ms[k], a) ==> SearchIs(ms, a, ms[k].pa + (a - k)))
       <==> ms[k].pa + ms[k].len <= 0x1_0000_0000_0000_0000
  {
    hide Search;
    var m := ms[k];
    assert WellFormed(k, m);
    if m.pa + m.len <= 0x1_0000_0000_0000_0000 {
      forall a: u64 | Contains(m, a) ensures SearchIs(ms, a, m.pa + (a - k)) {
        SearchExact(ms, a, k);
      }
    } else {
      var last: u64 := k + m.len - 1;
      SearchUnique(ms, last, k);
      assert Contains(m, last) && !SearchIs(ms, last, m.pa + (last - k));
    }
  }

  ghost predicate SearchIs(ms: Mappings, a: u64, pa: int) {
    Search(ms, a).Some? && Search(ms, a).value == pa
  }

  /** The mapping a request asks for, before overlap and memory are considered. */
  function Wanted(va: u64, pa: u64, len: u64): Result<Mapping, MapError> {
    var l := NormaliseLen(len);
    if l.Err? then Err(l.error)
    else if va % 4096 != 0 || pa % 4096 != 0 then Err(Unaligned)
    else if va + l.value >= 0x1_0000_0000_0000_0000 then Err(LengthOverflow)
    else Ok(Mapping(va, pa, l.value))
  }

  /**
   Which requests pass, and why others do not. The mapping is the one asked for, rounded up
   to whole pages.
   */
  lemma WantedExact(va: u64, pa: u64, len: u64)
    ensures var w := Wanted(va, pa, len);
      var aligned := va % 4096 == 0 && pa % 4096 == 0;
      && (w == Err(ZeroLength) <==> len == 0)
      && (w == Err(Unaligned) <==> 0 < len <= 0xffff_ffff_ffff_f000 && !aligned)
      && (w == Err(LengthOverflow) <==>
            len > 0xffff_ffff_ffff_f000 || (len > 0 && aligned && va + len > 0xffff_ffff_ffff_f000))
      && (w.Ok? ==> w.value.va == va && w.value.pa == pa && len <= w.value.len < len + 4096 && WellFormed(va, w.value))
  {
    if 0 < len <= 0xffff_ffff_ffff_f000 {
      WholePages(va, len);
    }
  }

  lemma WholePages(va: u64, len: u64)
    requires 0 < len
    ensures var l := len + 4095 - (len + 4095) % 4096;
      && len <= l < len + 4096 && l % 4096 == 0
      && (va % 4096 == 0 ==> (va + l >= 0x1_0000_0000_0000_0000 <==> va + len > 0xffff_ffff_ffff_f000))
  {
  }

  ghost predicate Clashes(ms: Mappings, m: Mapping) {
    exists k :: k in ms && RangesOverlap(m.va, m.va + m.len, ms[k].va, ms[k].va + ms[k].len)
  }

  /** Translation with one more mapping in front. */
  ghost function SearchWith(ms: Mappings, m: Mapping, a: u64): Option<u64> {
    if Contains(m, a) then Some(Target(m, a)) else Search(ms, a)
  }

  /** Inserting a mapping that clashes with none keeps order; removing it restores the map. */
  lemma InsertKeeps(ms: Mappings, m: Mapping)
    requires Ordered(ms) && WellFormed(m.va, m) && !Clashes(ms, m)
    ensures m.va !in ms && Ordered(ms[m.va := m]) && ms[m.va := m] - {m.va} == ms
  {
    hide Aligned;
    forall k | k in ms ensures k != m.va && (k < m.va ==> k + ms[k].len <= m.va) && (m.va < k ==> m.va + m.len <= k) {
      assert WellFormed(k, ms[k]);
      assert !RangesOverlap(m.va, m.va + m.len, ms[k].va, ms[k].va + ms[k].len);
    }
  }

  /** An inserted mapping adds exactly its own range to the translation. */
  lemma InsertSearch(ms: Mappings, m: Mapping, a: u64)
    requires Ordered(ms) && WellFormed(m.va, m) && !Clashes(ms, m)
    ensures Search(ms[m.va := m], a) == SearchWith(ms, m, a)
  {
    hide Target, Aligned, Search;
    InsertKeeps(ms, m);
    var ms' := ms[m.va := m];
    if Contains(m, a) {
      SearchUnique(ms', a, m.va);
    } else if exists k :: k in ms && Contains(ms[k], a) {
      var k :| k in ms && Contains(ms[k], a);
      SearchUnique(ms, a, k);
      SearchUnique(ms', a, k);
    } else {
      NoneFound(ms, a);
      NoneFound(ms', a);
    }
  }

  lemma NoneFound(ms: Mappings, a: u64)
    requires forall k :: k in ms ==> !Contains(ms[k], a)
    ensures Search(ms, a) == None
  {
  }

  /** Removing a mapping keeps order and takes exactly its range out of the translation. */
  lemma RemoveKeeps(ms: Mappings, va: u64, a: u64)
    requires Ordered(ms) && va in ms
    ensures Ordered(ms - {va})
    ensures Search(ms - {va}, a) == if Contains(ms[va], a) then None else Search(ms, a)
  {
    hide Target, Aligned, Search;
    var ms', m := ms - {va}, ms[va];
    assert WellFormed(va, m);
    assert ms'[va := m] == ms;
    assert Ordered(ms');
    InsertBack(ms', m);
    InsertSearch(ms', m, a);
    if Contains(m, a) {
      forall k | k in ms' ensures !Contains(ms'[k], a) {
        assert WellFormed(k, ms[k]);
      }
      NoneFound(ms', a);
    }
  }

  lemma InsertBack(ms: Mappings, m: Mapping)
    requires Ordered(ms[m.va := m]) && m.va !in ms
    ensures !Clashes(ms, m)
  {
    var ms' := ms[m.va := m];
    forall k | k in ms ensures !RangesOverlap(m.va, m.va + m.len, ms[k].va, ms[k].va + ms[k].len) {
      assert ms'[k] == ms[k] && WellFormed(k, ms'[k]) && WellFormed(m.va, ms'[m.va]);
    }
  }

  class AddressSpace {
    var root: nat
    var mappings: Mappings

    ghost predicate Valid()
      reads this
    {
      Ordered(mappings)
    }

    constructor ()
      ensures Valid() && mappings == map[] && root == 0
    {
      root, mappings := 0, map[];
    }

    /** The frame allocator supplies the root table the first time it is needed. */
    method Map(pmm: P.Pmm, va: u64, pa: u64, len: u64) returns (r: Result<(), MapError>)
      requires Valid() && pmm.Valid()
      modifies this, pmm`nextHint, pmm`freeFrames, pmm`live, pmm.bitmap
      ensures Valid() && pmm.Valid()
      ensures r.Err? ==> mappings == old(mappings)
      ensures r.Err? || old(root) != 0 ==> root == old(root) && pmm.live == old(pmm.live)
      ensures r.Ok? && old(root) == 0 ==>
        exists i :: 0 <= i < pmm.numFrames && i !in old(pmm.live) && pmm.live == old(pmm.live) + {i} && root == pmm.Address(i)
      ensures r.Ok? ==>
        && Wanted(va, pa, len).Ok? && !Clashes(old(mappings), Wanted(va, pa, len).value)
        && mappings == old(mappings)[va := Wanted(va, pa, len).value]
      ensures Wanted(va, pa, len).Err? ==> r == Err(Wanted(va, pa, len).error)
      ensures Wanted(va, pa, len).Ok? && Clashes(old(mappings), Wanted(va, pa, len).value) ==> r == Err(Overlap)
      ensures Wanted(va, pa, len).Ok? && !Clashes(old(mappings), Wanted(va, pa, len).value) ==>
        r == (if old(root) == 0 && |old(pmm.live)| == pmm.numFrames then Err(OutOfMemory) else Ok(()))
    {
      hide Wanted, Clashes, Ordered, WellFormed, P.BitAt, Order.Alloc;
      var m := CheckRequest(va, pa, len);
      if m.Err? {
        return Err(m.error);
      }
      var clash := FindClash(m.value);
      if clash {
        return Err(Overlap);
      }
      if root == 0 {
        var frame := pmm.AllocFrame();
        if frame.None? {
          return Err(OutOfMemory);
        }
        root := frame.value;
      }
      WantedExact(va, pa, len);
      InsertKeeps(mappings, m.value);
      mappings := mappings[va := m.value];
      return Ok(());
    }

    /** The loop over existing mappings. */
    method FindClash(m: Mapping) returns (clash: bool)
      requires Valid()
      ensures clash <==> Clashes(mappings, m)
    {
      var keys := mappings.Keys;
      while keys != {}
        invariant keys <= mappings.Keys
        invariant forall k :: k in mappings && k !in keys ==>
          !RangesOverlap(m.va, m.va + m.len, mappings[k].va, mappings[k].va + mappings[k].len)
        decreases |keys|
      {
        var k :| k in keys;
        var existing := mappings[k];
        if RangesOverlap(m.va, m.va + m.len, existing.va, existing.va + existing.len) {
          return true;
        }
        keys := keys - {k};
      }
      return false;
    }

    method Unmap(va: u64) returns (r: Option<Mapping>)
      requires Valid()
      modifies `mappings
      ensures Valid()
      ensures r == if va in old(mappings) then Some(old(mappings)[va]) else None
      ensures mappings == old(mappings) - {va}
    {
      if va !in mappings {
        assert mappings - {va} == mappings;
        return None;
      }
      RemoveKeeps(mappings, va, 0);
      r := Some(mappings[va]);
      mappings := mappings - {va};
    }

    /** Only the mapping with the greatest start at or below `va` is consulted. */
    method Translate(va: u64) returns (r: Option<u64>)
      requires Valid()
      ensures r == Search(mappings, va)
    {
      var start := Predecessor(va);
      if start.None? {
        return None;
      }
      var m := mappings[start.value];
      var offset := va - start.value;
      assert WellFormed(start.value, m);
      if offset < m.len {
        SearchUnique(mappings, va, start.value);
        assert Contains(m, va);
        return Some((m.pa + offset) % 0x1_0000_0000_0000_0000);
      }
      forall k | k in mappings ensures !Contains(mappings[k], va) {
        assert WellFormed(k, mappings[k]);
      }
      return None;
    }

    /** `range(..=va).next_back()` */
    method Predecessor(va: u64) returns (best: Option<u64>)
      ensures best.None? ==> forall k :: k in mappings ==> k > va
      ensures best.Some? ==> best.value in mappings && best.value <= va && forall k :: k in mappings && k <= va ==> k <= best.value
      ensures best.None? && Valid() ==> Search(mappings, va) == None
    {
      best := None;
      var keys := mappings.Keys;
      while keys != {}
        invariant keys <= mappings.Keys
        invariant best.Some? ==> best.value in mappings && best.value <= va
        invariant forall k :: k in mappings && k !in keys && k <= va ==> best.Some? && k <= best.value
        decreases |keys|
      {
        var k :| k in keys;
        if k <= va && (best.None? || best.value < k) {
          best := Some(k);
        }
        keys := keys - {k};
      }
      if best.None? && Valid() {
        forall k | k in mappings ensures !Contains(mappings[k], va) {
          assert WellFormed(k, mappings[k]);
        }
      }
    }
  }

  /** Length, alignment and end checks of `map`, in its order. */
  method CheckRequest(va: u64, pa: u64, len: u64) returns (r: Result<Mapping, MapError>)
    ensures r == Wanted(va, pa, len)
  {
    if len == 0 {
      return Err(ZeroLength);
    }
    if len + 4095 >= 0x1_0000_0000_0000_0000 {
      return Err(LengthOverflow);
    }
    var rounded := PageMask(len + 4095);
    var vaOff := PageOffset(va);
    var paOff := PageOffset(pa);
    if vaOff != 0 || paOff != 0 {
      return Err(Unaligned);
    }
    if va + rounded >= 0x1_0000_0000_0000_0000 {
      return Err(LengthOverflow);
    }
    return Ok(Mapping(va, pa, rounded));
  }

  /** `x & !(PAGE_SIZE - 1)` */
  method PageMask(x: u64) returns (r: u64)
    ensures r == x - x % 4096
  {
    PageBits(x);
    r := BitAndNot(x, 4095);
  }

  /** `x & (PAGE_SIZE - 1)` */
  method PageOffset(x: u64) returns (r: u64)
    ensures r == x % 4096
  {
    PageBits(x);
    r := BitAnd(x, 4095);
  }

  /**
   A mapping accepted although its physical range passes the end of memory: its second
   page translates to address 0.
   */
  method WrappedMapping(pmm: P.Pmm) returns (space: AddressSpace, r: Result<(), MapError>, t: Option<u64>)
    requires pmm.Valid() && |pmm.live| < pmm.numFrames
    modifies pmm`nextHint, pmm`freeFrames, pmm`live, pmm.bitmap
    ensures space.Valid() && r == Ok(()) && t == Some(0)
    ensures 0 in space.mappings && space.mappings[0].pa + 4096 == 0x1_0000_0000_0000_0000
  {
    hide Search, Wanted, Clashes, WellFormed, Aligned, P.BitAt, Target;
    space := new AddressSpace();
    WrapsAccepted();
    r := space.Map(pmm, 0, 0xffff_ffff_ffff_f000, 8192);
    t := space.Translate(4096);
    SearchUnique(space.mappings, 4096, 0);
    WrapsToZero();
  }

  lemma WrapsAccepted()
    ensures Wanted(0, 0xffff_ffff_ffff_f000, 8192) == Ok(Mapping(0, 0xffff_ffff_ffff_f000, 8192))
    ensures !Clashes(map[], Mapping(0, 0xffff_ffff_ffff_f000, 8192))
  {
  }

  lemma WrapsToZero()
    ensures Target(Mapping(0, 0xffff_ffff_ffff_f000, 8192), 4096) == 0
  {
  }
}
