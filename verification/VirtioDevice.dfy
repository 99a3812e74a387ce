/**
 The device's half of a virtqueue, as section 2.6 of VIRTIO 1.1 describes it: it takes
 heads from the available ring, follows the chain, and returns ids on the used ring.
 This is the environment the drivers are verified against.
 */
module VirtioDevice {
  import opened Machine
  import opened DescTable
  import opened VirtioRing
  import opened Virtqueues

  class DeviceSide {
    const q: Virtqueue
    var lastAvail: u16
    /** How many available entries the device has taken. */
    ghost var taken: nat

    constructor (q: Virtqueue)
      ensures this.q == q && taken == 0 && lastAvail == 0
    {
      this.q := q;
      lastAvail, taken := 0, 0;
    }

    ghost predicate Valid()
      reads this, q`availLog, q.avail
    {
      q.AvailValid() && lastAvail == Wrap(taken) && taken <= |q.availLog| <= taken + q.size
    }

    method Take() returns (r: Option<u16>)
      requires Valid()
      modifies this
      ensures Valid()
      ensures r == if old(taken) == |q.availLog| then None else Some(HeadOf(q.availLog[old(taken)]))
      ensures taken == if r.Some? then old(taken) + 1 else old(taken)
    {
      hide Residue, IsQueueSize;
      PeekIsNext(Avail, Channel(q.avail[..], lastAvail, q.availLog, q.availLog[..taken]), q.size);
      var idx := FromLe16(q.avail[2], q.avail[3]);
      assert idx == Index(q.avail[..]);
      if idx == lastAvail {
        return None;
      }
      var slot := q.MaskSlot(lastAvail);
      r := Some(FromLe16(q.avail[4 + slot * 2], q.avail[4 + slot * 2 + 1]));
      WrapSucc(taken);
      lastAvail := Succ(lastAvail);
      taken := taken + 1;
    }

    /** Follow the NEXT flags from `head`: the device sees the chain the driver built. */
    method Collect(head: u16) returns (c: seq<u16>)
      requires q.TableValid() && head in q.table.chains
      ensures |c| == |q.table.chains[head]|
      ensures forall k :: 0 <= k < |c| ==> c[k] == q.table.chains[head][k]
    {
      ghost var chain := q.table.chains[head];
      assert ChainLinked(q.desc[..], chain);
      c := [head];
      while HasNext(q.desc[c[|c| - 1]].flags)
        invariant 1 <= |c| <= |chain|
        invariant forall k :: 0 <= k < |c| ==> c[k] == chain[k]
        decreases |chain| - |c|
      {
        assert c[|c| - 1] == chain[|c| - 1];
        c := c + [q.desc[c[|c| - 1]].next];
      }
      assert c[|c| - 1] == chain[|c| - 1];
    }

    method Return(id: u32, len: u32)
      requires q.UsedValid() && |q.usedLog| < q.popped + q.size
      modifies q`usedLog, q.used
      ensures q.UsedValid() && Elems(q.usedLog) == old(Elems(q.usedLog)) + [UsedElem(id, len)]
    {
      ghost var before := q.used[..];
      var idx := FromLe16(q.used[2], q.used[3]);
      assert idx == Index(before);
      var slot := q.MaskSlot(idx);
      var e := Le32(id) + Le32(len);
      ElemRoundTrip(id, len);
      WriteBytes(q.used, 4 + slot * 8, e);
      WriteBytes(q.used, 2, Le16(Succ(idx)));
      assert q.used[..] == Publish(Used, before, q.size, e);
      PublishKeeps(Used, before, q.size, q.usedLog, e);
      q.usedLog := q.usedLog + [e];
    }
  }

  lemma ElemRoundTrip(id: u32, len: u32)
    ensures ElemOf(Le32(id) + Le32(len)) == UsedElem(id, len)
  {
    Le32RoundTrip(id);
    Le32RoundTrip(len);
  }
}
