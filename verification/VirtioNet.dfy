/**
 The receive path of virtio-net: every descriptor is handed to the device at start-up,
 and each `recv` consumes one returned descriptor and hands it straight back.
 */
module VirtioNet {
  import opened Machine
  import opened DescTable
  import opened VirtioRing
  import opened Virtqueues
  import opened VirtioDevice

  const HDR_BYTES := 12
  const RX_BUF_SIZE: u32 := 1526

  function Ids(log: seq<seq<u8>>): (r: seq<nat>)
    ensures |r| == |log| && forall k :: 0 <= k < |log| ==> r[k] == ElemOf(log[k]).id
  {
    seq(|log|, k requires 0 <= k < |log| => ElemOf(log[k]).id)
  }

  /** Each descriptor below `size` sits in exactly one of the three places. */
  ghost predicate OwnedOnce(pending: seq<nat>, held: seq<nat>, returned: seq<nat>, size: nat) {
    multiset(pending) + multiset(held) + multiset(returned) == multiset(UpTo(size))
  }

  lemma UpToNext(n: nat)
    ensures UpTo(n + 1) == UpTo(n) + [n]
  {
  }

  lemma CountSnoc(s: seq<nat>, x: nat, i: nat)
    ensures multiset(s + [x])[i] == multiset(s)[i] + if i == x then 1 else 0
  {
  }

  lemma {:induction false} UpToCount(n: nat, i: nat)
    ensures multiset(UpTo(n))[i] == if i < n then 1 else 0
  {
    hide UpTo;
    if n == 0 {
      assert UpTo(0) == [];
    } else {
      UpToNext(n - 1);
      UpToCount(n - 1, i);
      CountSnoc(UpTo(n - 1), n - 1, i);
    }
  }

  lemma OwnedFacts(pending: seq<nat>, held: seq<nat>, returned: seq<nat>, size: nat)
    requires OwnedOnce(pending, held, returned, size)
    ensures |pending| + |held| + |returned| == size
    ensures forall i :: i in held ==> i < size && i !in returned
    ensures forall i :: i in returned ==> i < size
  {
    var all := multiset(pending) + multiset(held) + multiset(returned);
    assert |all| == |multiset(UpTo(size))|;
    forall i: nat ensures all[i] == if i < size then 1 else 0 {
      UpToCount(size, i);
    }
    forall i: nat | i in held || i in returned ensures i < size && (i in held ==> i !in returned) {
      assert all[i] == multiset(pending)[i] + multiset(held)[i] + multiset(returned)[i];
    }
  }

  lemma OwnedAtStart(size: nat)
    ensures OwnedOnce(UpTo(size), [], [], size)
  {
  }

  /** The device takes the oldest pending head. */
  lemma TakeMoves(pending: seq<nat>, held: seq<nat>, returned: seq<nat>, size: nat)
    requires OwnedOnce(pending, held, returned, size) && pending != []
    ensures OwnedOnce(pending[1..], held + [pending[0]], returned, size)
  {
    assert pending == [pending[0]] + pending[1..];
  }

  /** The device returns the head at position `k` of those it holds. */
  lemma ReturnMoves(pending: seq<nat>, held: seq<nat>, returned: seq<nat>, size: nat, k: nat)
    requires OwnedOnce(pending, held, returned, size) && k < |held|
    ensures OwnedOnce(pending, held[..k] + held[k + 1..], returned + [held[k]], size)
  {
    assert held == held[..k] + [held[k]] + held[k + 1..];
  }

  /** The driver consumes the oldest returned head and publishes it again. */
  lemma RecycleMoves(pending: seq<nat>, held: seq<nat>, returned: seq<nat>, size: nat)
    requires OwnedOnce(pending, held, returned, size) && returned != []
    ensures OwnedOnce(pending + [returned[0]], held, returned[1..], size)
  {
    assert returned == [returned[0]] + returned[1..];
  }

  ghost function Singles(n: nat): Table {
    Table([], map i | 0 <= i < n :: [i])
  }

  lemma SinglesInv(desc: seq<Desc>)
    requires forall i :: 0 <= i < |desc| ==> !HasNext(desc[i].flags)
    ensures Inv(desc, 0, Singles(|desc|))
  {
    var t := Singles(|desc|);
    forall i | 0 <= i < |desc| ensures InSomeChain(t, i) {
      assert i in t.chains && i in t.chains[i];
    }
  }

  /** First loop of `init`: descriptor i describes buffer i and heads a chain of its own. */
  method FillDescs(q: Virtqueue, bufAddr: seq<u64>)
    requires q.Valid() && |bufAddr| == q.size
    modifies q`table, q`numFree, q`freeHead, q.desc
    ensures q.Valid()
    ensures forall i :: 0 <= i < q.size ==> q.desc[i] == Desc(bufAddr[i], RX_BUF_SIZE, VRING_DESC_F_WRITE, 0)
  {
    hide q.AvailValid, q.UsedValid;
    for i := 0 to q.size
      modifies q.desc
      invariant forall k :: 0 <= k < i ==> q.desc[k] == Desc(bufAddr[k], RX_BUF_SIZE, VRING_DESC_F_WRITE, 0)
    {
      q.desc[i] := Desc(bufAddr[i], RX_BUF_SIZE, VRING_DESC_F_WRITE, 0);
    }
    q.numFree := 0;
    q.freeHead := 0;
    q.table := Singles(q.size);
    assert BitAnd(2, 1) == 0;
    SinglesInv(q.desc[..]);
  }

  /** The two loops of `init` over the receive queue. */
  method Prefill(q: Virtqueue, bufAddr: seq<u64>)
    requires q.Valid() && q.availLog == [] && |bufAddr| == q.size
    modifies q`table, q`numFree, q`freeHead, q`availLog, q.desc, q.avail
    ensures q.Valid() && Heads(q.availLog) == UpTo(q.size)
    ensures forall i :: 0 <= i < q.size ==> q.desc[i] == Desc(bufAddr[i], RX_BUF_SIZE, VRING_DESC_F_WRITE, 0)
  {
    hide HeadOf;
    FillDescs(q, bufAddr);
    for i := 0 to q.size
      modifies q`availLog, q.avail
      invariant q.AvailValid() && |q.availLog| == i && forall k :: 0 <= k < i ==> HeadOf(q.availLog[k]) == k
    {
      ghost var heads := Heads(q.availLog);
      q.PushAvail(i);
      assert forall k :: 0 <= k < i ==> HeadOf(q.availLog[k]) == heads[k];
    }
  }

  class RxPath {
    const rx: Virtqueue
    const side: DeviceSide
    /** Physical address of each receive buffer, fixed for good. */
    const bufAddr: seq<u64>
    var bufs: seq<seq<u8>>
    /** Heads the device has taken and not yet returned. */
    var held: seq<nat>
    /** Every frame the device has delivered, in the order of the used ring. */
    ghost var frames: seq<seq<u8>>

    /** `init`: point descriptor i at buffer i and publish all of them. */
    constructor (queueMax: u32, bufAddr: seq<u64>)
      requires IsQueueSize(Min(16, queueMax % 0x1_0000)) && |bufAddr| == Min(16, queueMax % 0x1_0000)
      requires forall i, j :: 0 <= i < j < |bufAddr| ==> bufAddr[i] != bufAddr[j]
      ensures Valid() && frames == [] && rx.size == |bufAddr| && this.bufAddr == bufAddr
      ensures fresh(rx) && fresh(rx.desc) && fresh(rx.avail) && fresh(rx.used) && fresh(side)
    {
      hide Inv, RingInv, UpTo, HeadOf, ElemOf, IsQueueSize, OwnedOnce;
      var q := new Virtqueue(Min(16, queueMax % 0x1_0000));
      Prefill(q, bufAddr);
      var s := new DeviceSide(q);
      rx, side := q, s;
      var zeros := ZeroBuffers(|bufAddr|);
      this.bufAddr, bufs := bufAddr, zeros;
      held, frames := [], [];
      new;
      assert Ids(rx.usedLog)[0..] == [];
      assert Pending() == UpTo(rx.size);
      OwnedAtStart(rx.size);
    }

    ghost function Pending(): seq<nat>
      requires side.taken <= |rx.availLog|
      reads side, rx
    {
      Heads(rx.availLog)[side.taken..]
    }

    ghost function Returned(): seq<nat>
      requires rx.popped <= |rx.usedLog|
      reads rx
    {
      Ids(rx.usedLog)[rx.popped..]
    }

    ghost predicate RingsLinked()
      reads this`held, side, rx, rx.avail, rx.used
    {
      side.q == rx && rx.AvailValid() && rx.UsedValid() && side.Valid() && side.taken == |rx.usedLog| + |held|
    }

    /** Every descriptor is pending, held by the device or returned, exactly once. */
    ghost predicate RingsValid()
      reads this`held, side, rx, rx.avail, rx.used
    {
      RingsLinked() && OwnedOnce(Pending(), held, Returned(), rx.size)
    }

    /** As `RingsValid`, but the driver has `h` in hand. */
    ghost predicate RingsHolding(h: nat)
      reads this`held, side, rx, rx.avail, rx.used
    {
      RingsLinked() && OwnedOnce(Pending() + [h], held, Returned(), rx.size)
    }

    ghost predicate BuffersValid()
      reads this`bufs, rx.desc
    {
      && |bufAddr| == |bufs| == rx.size == rx.desc.Length
      && (forall i, j :: 0 <= i < j < |bufAddr| ==> bufAddr[i] != bufAddr[j])
      && (forall i :: 0 <= i < |bufs| ==> |bufs[i]| == RX_BUF_SIZE)
      && forall i :: 0 <= i < |bufAddr| ==> rx.desc[i] == Desc(bufAddr[i], RX_BUF_SIZE, VRING_DESC_F_WRITE, 0)
    }

    /** Between calls all `size` descriptors are on the device's side. */
    ghost predicate Valid()
      reads this, side, rx, rx.desc, rx.avail, rx.used
    {
      RingsValid() && BuffersValid() && rx.TableValid() && FramesHeld(bufs, rx.usedLog, frames, rx.popped)
    }

    /** Environment: the device takes one published head. */
    method DeviceTake()
      requires Valid()
      modifies this`held, side
      ensures Valid()
    {
      hide Inv, RingInv, Residue, UpTo, HeadOf, ElemOf;
      ghost var p := Pending();
      if side.taken < |rx.availLog| {
        TakeMoves(p, held, Returned(), rx.size);
      }
      var r := side.Take();
      if r.Some? {
        held := held + [r.value];
        assert Pending() == p[1..];
      }
    }

    /** Environment: the device fills the buffer of a head it holds and returns it. */
    method DeviceDeliver(k: nat, frame: seq<u8>)
      requires Valid() && k < |held| && HDR_BYTES + |frame| <= RX_BUF_SIZE
      modifies this`held, this`bufs, this`frames, rx`usedLog, rx.used
      ensures Valid() && frames == old(frames) + [frame]
    {
      hide Inv, RingInv, Residue, UpTo, HeadOf, ElemOf;
      var h := held[k];
      assert h in held;
      OwnedFacts(Pending(), held, Returned(), rx.size);
      ghost var log := rx.usedLog;
      FillBuffer(h, frame);
      GiveBack(k, HDR_BYTES + |frame|);
      FrameAdded(bufs, log, rx.usedLog, frames, rx.popped, UsedElem(h, HDR_BYTES + |frame|), frame);
      frames := frames + [frame];
    }

    /** The device writes a frame behind the header, where the descriptor points. */
    method FillBuffer(h: nat, frame: seq<u8>)
      requires BuffersValid() && FramesHeld(bufs, rx.usedLog, frames, rx.popped)
      requires h < rx.size && rx.popped <= |rx.usedLog| && h !in Returned() && HDR_BYTES + |frame| <= RX_BUF_SIZE
      modifies this`bufs
      ensures BuffersValid() && FramesHeld(bufs, rx.usedLog, frames, rx.popped)
      ensures Holds(bufs, UsedElem(h, HDR_BYTES + |frame|), frame)
    {
      var addr := rx.desc[h].addr;
      var b :| 0 <= b < |bufAddr| && bufAddr[b] == addr;
      assert b == h;
      KeepsOthers(bufs, rx.usedLog, frames, rx.popped, h, Splice(bufs[h], HDR_BYTES, frame));
      bufs := bufs[b := Splice(bufs[b], HDR_BYTES, frame)];
    }

    method GiveBack(k: nat, len: u32)
      requires RingsValid() && k < |held|
      modifies this`held, rx`usedLog, rx.used
      ensures RingsValid()
      ensures old(held[k]) < rx.size && Elems(rx.usedLog) == old(Elems(rx.usedLog)) + [UsedElem(old(held[k]), len)]
    {
      hide Inv, RingInv, Residue, UpTo, HeadOf, ElemOf;
      var h := held[k];
      assert h in held;
      ghost var pending, returned := Pending(), Returned();
      OwnedFacts(pending, held, returned, rx.size);
      ReturnMoves(pending, held, returned, rx.size, k);
      ghost var elems := Elems(rx.usedLog);
      side.Return(h, len);
      held := held[..k] + held[k + 1..];
      ReturnedGrows(elems, rx.usedLog, rx.popped, UsedElem(h, len));
      assert Returned() == returned + [h];
    }

    method Recv(outLen: nat) returns (r: Option<seq<u8>>)
      requires Valid()
      modifies rx`lastUsedIdx, rx`popped, rx`availLog, rx.desc, rx.avail
      ensures Valid()
      ensures r.None? <==> old(rx.popped) == |frames|
      ensures r.None? ==> rx.popped == old(rx.popped)
      ensures r.Some? ==>
        && rx.popped == old(rx.popped) + 1
        && r.value == frames[old(rx.popped)][..Min(|frames[old(rx.popped)]|, outLen)]
    {
      hide Inv, RingInv, Residue, UpTo, HeadOf, ElemOf, OwnedOnce, IsQueueSize;
      ghost var k := rx.popped;
      var e := PopReturned();
      if e.None? {
        return None;
      }
      assert Holds(bufs, e.value, frames[k]);
      var head, bytes := CopyOut(bufs, e.value, outLen, frames[k]);
      Republish(head);
      r := Some(bytes);
    }

    method PopReturned() returns (e: Option<UsedElem>)
      requires RingsValid()
      modifies rx`lastUsedIdx, rx`popped
      ensures e.None? <==> old(rx.popped) == |rx.usedLog|
      ensures e.None? ==> RingsValid() && rx.popped == old(rx.popped)
      ensures e.Some? ==>
        && rx.popped == old(rx.popped) + 1 && e.value == ElemOf(rx.usedLog[old(rx.popped)])
        && e.value.id < rx.size && RingsHolding(e.value.id)
    {
      hide Inv, RingInv, Residue, UpTo, HeadOf, ElemOf;
      ghost var pending, returned := Pending(), Returned();
      OwnedFacts(pending, held, returned, rx.size);
      e := rx.PopUsed();
      if e.Some? {
        assert returned[0] in returned;
        assert returned[0] == e.value.id && Returned() == returned[1..];
        RecycleMoves(pending, held, returned, rx.size);
        assert Pending() + [e.value.id] == pending + [returned[0]];
      }
    }

    /** Re-arm the descriptor and hand it back to the device. */
    method Republish(head: u16)
      requires RingsHolding(head) && BuffersValid() && rx.TableValid() && head < rx.size
      modifies rx`availLog, rx.desc, rx.avail
      ensures RingsValid() && BuffersValid() && rx.TableValid()
    {
      hide Inv, RingInv, Residue, UpTo, HeadOf, ElemOf, OwnedOnce, IsQueueSize;
      ghost var pending := Pending() + [head];
      OwnedFacts(pending, held, Returned(), rx.size);
      rx.desc[head] := rx.desc[head].(addr := bufAddr[head], len := RX_BUF_SIZE, flags := VRING_DESC_F_WRITE);
      assert rx.desc[..] == old(rx.desc[..]);
      ghost var heads := Heads(rx.availLog);
      rx.PushAvail(head);
      assert Pending() == pending;
    }

    /** The published index runs exactly one queue length ahead of the consumed one. */
    lemma IndexDistance()
      requires Valid()
      ensures Index(rx.avail[..]) == Wrap(rx.popped + rx.size) && rx.lastUsedIdx == Wrap(rx.popped)
      ensures |rx.availLog| == rx.popped + rx.size && |rx.availLog| <= side.taken + rx.size
      ensures forall k :: side.taken <= k < |rx.availLog| ==>
        Entry(Avail, rx.avail[..], rx.size, Residue(k, rx.size)) == rx.availLog[k]
    {
      OwnedFacts(Pending(), held, Returned(), rx.size);
    }
  }

  /** Find the buffer of a used element and copy the frame behind the header. */
  method CopyOut(bufs: seq<seq<u8>>, e: UsedElem, outLen: nat, ghost frame: seq<u8>) returns (head: u16, bytes: seq<u8>)
    requires Holds(bufs, e, frame) && |bufs| <= 0x1_0000
    ensures head == e.id && bytes == frame[..Min(|frame|, outLen)]
  {
    head := e.id % 0x1_0000;
    var n := Min(Max(e.len - HDR_BYTES, 0), outLen);
    bytes := bufs[head][HDR_BYTES .. HDR_BYTES + n];
    assert bytes == bufs[head][HDR_BYTES .. HDR_BYTES + |frame|][..n];
  }

  method ZeroBuffers(n: nat) returns (bufs: seq<seq<u8>>)
    ensures |bufs| == n && forall i :: 0 <= i < n ==> |bufs[i]| == RX_BUF_SIZE
  {
    bufs := seq(n, _ => seq(RX_BUF_SIZE, _ => 0));
  }

  lemma ReturnedGrows(elems: seq<UsedElem>, log: seq<seq<u8>>, popped: nat, e: UsedElem)
    requires popped <= |elems| && Elems(log) == elems + [e]
    ensures Ids(log)[popped..] == seq(|elems|, k requires 0 <= k < |elems| => elems[k].id)[popped..] + [e.id]
  {
    assert forall k :: 0 <= k < |log| ==> Elems(log)[k].id == Ids(log)[k];
  }

  ghost predicate FramesHeld(bufs: seq<seq<u8>>, log: seq<seq<u8>>, frames: seq<seq<u8>>, popped: nat) {
    |frames| == |log| && forall k :: popped <= k < |frames| ==> Holds(bufs, ElemOf(log[k]), frames[k])
  }

  lemma FrameAdded(bufs: seq<seq<u8>>, log: seq<seq<u8>>, log': seq<seq<u8>>, frames: seq<seq<u8>>, popped: nat, e: UsedElem, frame: seq<u8>)
    requires FramesHeld(bufs, log, frames, popped)
    requires Elems(log') == Elems(log) + [e] && Holds(bufs, e, frame)
    ensures FramesHeld(bufs, log', frames + [frame], popped)
  {
    forall k | 0 <= k < |log| ensures ElemOf(log'[k]) == ElemOf(log[k]) {
      assert Elems(log')[k] == Elems(log)[k];
    }
    assert Elems(log')[|log|] == e;
  }

  /** The buffer named by a used element holds the frame behind the header. */
  ghost predicate Holds(bufs: seq<seq<u8>>, e: UsedElem, frame: seq<u8>) {
    && e.id < |bufs| && e.len == HDR_BYTES + |frame| && e.len <= |bufs[e.id]|
    && bufs[e.id][HDR_BYTES .. HDR_BYTES + |frame|] == frame
  }

  lemma KeepsOthers(bufs: seq<seq<u8>>, log: seq<seq<u8>>, frames: seq<seq<u8>>, popped: nat, h: nat, b: seq<u8>)
    requires h < |bufs| && popped <= |log| && h !in Ids(log)[popped..] && FramesHeld(bufs, log, frames, popped)
    ensures FramesHeld(bufs[h := b], log, frames, popped)
  {
    forall k | popped <= k < |frames| ensures Holds(bufs[h := b], ElemOf(log[k]), frames[k]) {
      assert Ids(log)[popped..][k - popped] == ElemOf(log[k]).id;
    }
  }
}
