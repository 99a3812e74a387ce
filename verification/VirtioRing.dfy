/**
 The available and used rings at byte level. Both have the same shape: two flag
 bytes, a little-endian u16 index that wraps, `size` fixed-width entries and two
 trailing event bytes.
 */
module VirtioRing {
  import opened Machine

  datatype Kind = Avail | Used

  /** An available entry is one u16; a used entry is two u32. */
  function Width(kind: Kind): nat {
    if kind.Avail? then 2 else 8
  }

  function RingBytes(kind: Kind, size: nat): nat {
    if kind.Avail? then 4 + 2 * size + 2 else 4 + 8 * size + 2
  }

  function Offset(kind: Kind, slot: nat): nat {
    if kind.Avail? then 4 + 2 * slot else 4 + 8 * slot
  }

  /** What `Virtqueue::new` asserts of a u16 size. */
  ghost predicate IsQueueSize(size: nat) {
    exists p :: 0 <= p <= 15 && size == Pow2(p)
  }

  /** `k` modulo `size`, by repeated subtraction. */
  ghost function Residue(k: nat, size: nat): (r: nat)
    requires size > 0
    ensures r < size
  {
    if k < size then k else Residue(k - size, size)
  }

  /** The u16 counter behind an unbounded count. */
  ghost function Wrap(k: nat): u16 {
    Residue(k, 0x1_0000)
  }

  /** `wrapping_add(1)` on u16. */
  function Succ(i: u16): u16 {
    if i == 0xffff then 0 else i + 1
  }

  lemma {:induction false} WrapSucc(k: nat)
    ensures Wrap(k + 1) == Succ(Wrap(k))
  {
    if k >= 0x1_0000 { WrapSucc(k - 0x1_0000); }
  }

  lemma {:induction false} ResidueIsMod(k: nat, size: nat)
    requires size > 0
    ensures Residue(k, size) == k % size
  {
    if k < size {
      ModUnique(k, size, 0, k);
    } else {
      ResidueIsMod(k - size, size);
      var q := (k - size) / size;
      assert k == (q + 1) * size + (k - size) % size;
      ModUnique(k, size, q + 1, (k - size) % size);
    }
  }

  /** `size * 2^p`, by doubling. */
  ghost function Scaled(size: nat, p: nat): nat {
    if p == 0 then size else 2 * Scaled(size, p - 1)
  }

  lemma {:induction false} ScaledPow2(p: nat, q: nat)
    ensures Scaled(Pow2(p), q) == Pow2(p + q) && Pow2(p) <= Pow2(p + q)
  {
    if q > 0 { ScaledPow2(p, q - 1); }
  }

  lemma {:induction false} ResidueShift(k: nat, size: nat, p: nat)
    requires size > 0
    ensures Residue(k + Scaled(size, p), size) == Residue(k, size)
    decreases p
  {
    if p > 0 {
      ResidueShift(k + Scaled(size, p - 1), size, p - 1);
      ResidueShift(k, size, p - 1);
    }
  }

  /** Wrapping a counter at 65536 does not change its slot. */
  lemma {:induction false} ResidueWraps(k: nat, size: nat, p: nat)
    requires size > 0 && Scaled(size, p) == 0x1_0000
    ensures Residue(Wrap(k), size) == Residue(k, size)
  {
    if k >= 0x1_0000 {
      ResidueWraps(k - 0x1_0000, size, p);
      ResidueShift(k - 0x1_0000, size, p);
    }
  }

  lemma Pow2Of1()
    ensures Pow2(1) == 2
  {
  }

  lemma QueueSizeBound(size: nat) returns (p: nat)
    requires IsQueueSize(size)
    ensures p <= 15 && size == Pow2(p)
    ensures 0 < size <= 0x8000 && Scaled(size, 16 - p) == 0x1_0000
  {
    p :| 0 <= p <= 15 && size == Pow2(p);
    ScaledPow2(p, 16 - p);
    ScaledPow2(p, 15 - p);
    hide Pow2, Scaled;
    Pow2Of16();
    Pow2Add(1, 15);
    assert Pow2(1) == 2 by { Pow2Of1(); }
  }

  lemma QueueSizeRange(size: nat)
    requires IsQueueSize(size)
    ensures 0 < size <= 0x8000
  {
    var _ := QueueSizeBound(size);
  }

  /** The mask `idx & (size - 1)` of the code is the residue of the index. */
  lemma MaskedIndex(idx: u16, size: nat)
    requires IsQueueSize(size)
    ensures 0 < size <= 0x8000 && BitAnd(idx, size - 1) == Residue(idx, size)
  {
    var p := QueueSizeBound(size);
    MaskIsMod(idx, p);
    ResidueIsMod(idx, size);
  }

  /** The wrapped index selects the slot of the unbounded count behind it. */
  lemma WrappedSlot(k: nat, size: nat)
    requires IsQueueSize(size)
    ensures 0 < size <= 0x8000 && Residue(Wrap(k), size) == Residue(k, size)
  {
    var p := QueueSizeBound(size);
    ResidueWraps(k, size, 16 - p);
  }

  lemma {:induction false} NearbySlots(j: nat, k: nat, size: nat)
    requires j < k <= j + size && size > 0
    ensures Residue(j, size) == Residue(k, size) <==> k == j + size
  {
    if j >= size {
      NearbySlots(j - size, k - size, size);
    }
  }

  function Index(ring: seq<u8>): u16
    requires |ring| >= 4
  {
    ring[2] as int + 256 * ring[3] as int
  }

  function Entry(kind: Kind, ring: seq<u8>, size: nat, slot: nat): (e: seq<u8>)
    requires |ring| == RingBytes(kind, size) && slot < size
    ensures |e| == Width(kind)
  {
    ring[Offset(kind, slot) .. Offset(kind, slot) + Width(kind)]
  }

  /** Write the entry at the current slot, then the bumped index. */
  ghost function Publish(kind: Kind, ring: seq<u8>, size: nat, e: seq<u8>): (r: seq<u8>)
    requires |ring| == RingBytes(kind, size) && |e| == Width(kind) && size > 0
    ensures |r| == |ring| && Index(r) == Succ(Index(ring))
    ensures forall s :: 0 <= s < size ==>
      Entry(kind, r, size, s) == if s == Residue(Index(ring), size) then e else Entry(kind, ring, size, s)
  {
    Splice(Splice(ring, Offset(kind, Residue(Index(ring), size)), e), 2, Le16(Succ(Index(ring))))
  }

  /** The ring holds the last `size` entries of an unbounded log. */
  ghost predicate RingInv(kind: Kind, ring: seq<u8>, size: nat, log: seq<seq<u8>>) {
    && size > 0 && |ring| == RingBytes(kind, size)
    && Index(ring) == Wrap(|log|)
    && (forall k :: 0 <= k < |log| ==> |log[k]| == Width(kind))
    && forall k :: 0 <= k < |log| && |log| - k <= size ==> Entry(kind, ring, size, Residue(k, size)) == log[k]
  }

  /** Publishing extends the log, however often the index has wrapped. */
  lemma PublishKeeps(kind: Kind, ring: seq<u8>, size: nat, log: seq<seq<u8>>, e: seq<u8>)
    requires IsQueueSize(size) && RingInv(kind, ring, size, log) && |e| == Width(kind)
    ensures RingInv(kind, Publish(kind, ring, size, e), size, log + [e])
  {
    hide Publish, IsQueueSize, Entry;
    QueueSizeRange(size);
    var n, log' := |log|, log + [e];
    var ring' := Publish(kind, ring, size, e);
    assert Index(ring') == Wrap(|log'|) by { WrapSucc(n); }
    assert Residue(Index(ring), size) == Residue(n, size) by { WrappedSlot(n, size); }
    forall k | 0 <= k < |log'| && |log'| - k <= size ensures Entry(kind, ring', size, Residue(k, size)) == log'[k] {
      if k < n { NearbySlots(k, n, size); }
    }
  }

  // ---- the ring as a channel between a producer and a consumer ----

  /** `put` and `got` record everything ever published and consumed. */
  datatype Channel = Channel(ring: seq<u8>, last: u16, put: seq<seq<u8>>, got: seq<seq<u8>>)

  ghost predicate Fifo(kind: Kind, c: Channel, size: nat) {
    && RingInv(kind, c.ring, size, c.put)
    && c.last == Wrap(|c.got|)
    && |c.got| <= |c.put| <= |c.got| + size
    && c.got == c.put[..|c.got|]
  }

  /** What a reader whose own counter is `last` finds. */
  ghost function Peek(kind: Kind, ring: seq<u8>, size: nat, last: u16): Option<seq<u8>>
    requires size > 0 && |ring| == RingBytes(kind, size)
  {
    if Index(ring) == last then None else Some(Entry(kind, ring, size, Residue(last, size)))
  }

  /** The reader sees exactly the next unread entry, and nothing when there is none. */
  lemma PeekIsNext(kind: Kind, c: Channel, size: nat)
    requires IsQueueSize(size) && Fifo(kind, c, size)
    ensures Peek(kind, c.ring, size, c.last) == if |c.got| == |c.put| then None else Some(c.put[|c.got|])
  {
    WrappedSlot(|c.got|, size);
    if |c.got| < |c.put| {
      NearbySlots(|c.got|, |c.put|, 0x1_0000);
      assert Entry(kind, c.ring, size, Residue(|c.got|, size)) == c.put[|c.got|];
    }
  }

  datatype Event = Put(e: seq<u8>) | Get

  ghost function Step(kind: Kind, c: Channel, size: nat, ev: Event): Channel
    requires size > 0 && |c.ring| == RingBytes(kind, size)
    requires ev.Put? ==> |ev.e| == Width(kind)
  {
    match ev
    case Put(e) => c.(ring := Publish(kind, c.ring, size, e), put := c.put + [e])
    case Get =>
      match Peek(kind, c.ring, size, c.last)
      case None => c
      case Some(e) => c.(last := Succ(c.last), got := c.got + [e])
  }

  /** A publication into a window with room keeps first-in first-out order. */
  lemma PutKeepsFifo(kind: Kind, c: Channel, size: nat, e: seq<u8>)
    requires IsQueueSize(size) && Fifo(kind, c, size) && |e| == Width(kind) && |c.put| - |c.got| < size
    ensures Fifo(kind, Step(kind, c, size, Put(e)), size)
  {
    PublishKeeps(kind, c.ring, size, c.put, e);
    assert (c.put + [e])[..|c.got|] == c.put[..|c.got|];
  }

  lemma GetKeepsFifo(kind: Kind, c: Channel, size: nat)
    requires IsQueueSize(size) && Fifo(kind, c, size)
    ensures Fifo(kind, Step(kind, c, size, Get), size)
  {
    PeekIsNext(kind, c, size);
    if |c.got| < |c.put| {
      WrapSucc(|c.got|);
      var c' := Step(kind, c, size, Get);
      assert c'.got == c.put[..|c.got|] + [c.put[|c.got|]] == c.put[..|c'.got|];
    }
  }

  /**
   Publishing into a full window overwrites the oldest unread entry: the reader finds
   the newest entry in its place.
   */
  lemma OverrunLoses(kind: Kind, c: Channel, size: nat, e: seq<u8>)
    requires IsQueueSize(size) && Fifo(kind, c, size) && |c.put| - |c.got| == size && |e| == Width(kind)
    ensures Peek(kind, Publish(kind, c.ring, size, e), size, c.last) == Some(e)
  {
    var g, n := |c.got|, |c.put|;
    WrappedSlot(g, size);
    WrappedSlot(n, size);
    NearbySlots(g, n, size);
    WrapSucc(n);
    NearbySlots(g, n + 1, 0x1_0000);
  }

  /**
   After a publication the reader still finds the next entry of the log iff the window had
   room or the new entry happens to equal the one it overwrites.
   */
  lemma PublishExact(kind: Kind, c: Channel, size: nat, e: seq<u8>)
    requires IsQueueSize(size) && Fifo(kind, c, size) && |e| == Width(kind)
    ensures Peek(kind, Publish(kind, c.ring, size, e), size, c.last) == Some((c.put + [e])[|c.got|])
       <==> |c.put| - |c.got| < size || e == c.put[|c.got|]
  {
    hide Peek, Publish, IsQueueSize, Entry;
    QueueSizeRange(size);
    if |c.put| - |c.got| < size {
      PutKeepsFifo(kind, c, size, e);
      PeekIsNext(kind, Step(kind, c, size, Put(e)), size);
    } else {
      OverrunLoses(kind, c, size, e);
    }
  }

  /** In that second case the next read puts the channel right again. */
  lemma OverrunRecovers(kind: Kind, c: Channel, size: nat, e: seq<u8>)
    requires IsQueueSize(size) && Fifo(kind, c, size) && |c.put| - |c.got| == size && |e| == Width(kind)
    requires e == c.put[|c.got|]
    ensures Fifo(kind, Step(kind, Step(kind, c, size, Put(e)), size, Get), size)
  {
    hide RingInv, Peek, Publish, IsQueueSize;
    QueueSizeRange(size);
    OverrunLoses(kind, c, size, e);
    PublishKeeps(kind, c.ring, size, c.put, e);
    WrapSucc(|c.got|);
    var put' := c.put + [e];
    assert put'[..|c.got| + 1] == c.put[..|c.got|] + [c.put[|c.got|]];
  }

  /** One slot, two different heads in a row: the reader never sees the first. */
  lemma OneSlotLoses(ring: seq<u8>)
    requires |ring| == RingBytes(Avail, 1) && ring[2] == ring[3] == 0
    ensures var c := Step(Avail, Channel(ring, 0, [], []), 1, Put([1, 0]));
      Fifo(Avail, c, 1) && Peek(Avail, Publish(Avail, c.ring, 1, [2, 0]), 1, c.last) == Some([2, 0]) != Some(c.put[0])
  {
    hide RingInv, Peek, Publish, Fifo;
    var empty := Channel(ring, 0, [], []);
    assert IsQueueSize(1) by { OneIsQueueSize(); }
    EmptyIsFifo(Avail, ring, 1);
    PutKeepsFifo(Avail, empty, 1, [1, 0]);
    var c := Step(Avail, empty, 1, Put([1, 0]));
    OverrunLoses(Avail, c, 1, [2, 0]);
    assert c.put[0] == [1, 0] && [1, 0][0] != [2, 0][0];
  }

  lemma OneIsQueueSize()
    ensures IsQueueSize(1)
  {
    assert Pow2(0) == 1;
  }

  /** The channel after a run; `None` if some step published into a full window. */
  ghost function Run(kind: Kind, c: Channel, size: nat, evs: seq<Event>): Option<Channel>
    requires size > 0 && |c.ring| == RingBytes(kind, size)
    requires forall i :: 0 <= i < |evs| && evs[i].Put? ==> |evs[i].e| == Width(kind)
    decreases |evs|
  {
    if evs == [] then Some(c)
    else if evs[0].Put? && |c.put| - |c.got| >= size then None
    else Run(kind, Step(kind, c, size, evs[0]), size, evs[1..])
  }

  /**
   For every interleaving of producer and consumer, over any number of wraps of the
   u16 index, the k-th entry consumed is the k-th entry published.
   */
  lemma {:induction false} RunIsFifo(kind: Kind, c: Channel, size: nat, evs: seq<Event>)
    requires IsQueueSize(size) && Fifo(kind, c, size)
    requires forall i :: 0 <= i < |evs| && evs[i].Put? ==> |evs[i].e| == Width(kind)
    requires Run(kind, c, size, evs).Some?
    ensures Fifo(kind, Run(kind, c, size, evs).value, size)
    decreases |evs|
  {
    if evs != [] {
      match evs[0] {
        case Put(e) => PutKeepsFifo(kind, c, size, e);
        case Get => GetKeepsFifo(kind, c, size);
      }
      RunIsFifo(kind, Step(kind, c, size, evs[0]), size, evs[1..]);
    }
  }

  /** Rings start zeroed, which is the empty channel. */
  lemma EmptyIsFifo(kind: Kind, ring: seq<u8>, size: nat)
    requires size > 0 && |ring| == RingBytes(kind, size) && ring[2] == ring[3] == 0
    ensures Fifo(kind, Channel(ring, 0, [], []), size)
  {
  }
}
