/**
 The heap-allocated split virtqueue: a descriptor table with an embedded free list and
 two byte-encoded rings shared with the device.
 */
module Virtqueues {
  import opened Machine
  import opened DescTable
  import opened VirtioRing

  datatype UsedElem = UsedElem(id: u32, len: u32)

  function HeadOf(e: seq<u8>): u16 {
    if |e| == 2 then FromLe16(e[0], e[1]) else 0
  }

  function ElemOf(e: seq<u8>): UsedElem {
    if |e| == 8 then UsedElem(FromLe32(e[0], e[1], e[2], e[3]), FromLe32(e[4], e[5], e[6], e[7]))
    else UsedElem(0, 0)
  }

  function Heads(log: seq<seq<u8>>): (r: seq<nat>)
    ensures |r| == |log| && forall k :: 0 <= k < |log| ==> r[k] == HeadOf(log[k])
  {
    seq(|log|, k requires 0 <= k < |log| => HeadOf(log[k]))
  }

  function Elems(log: seq<seq<u8>>): (r: seq<UsedElem>)
    ensures |r| == |log| && forall k :: 0 <= k < |log| ==> r[k] == ElemOf(log[k])
  {
    seq(|log|, k requires 0 <= k < |log| => ElemOf(log[k]))
  }

  /** The loop of `new`: chain all descriptors into one free list. */
  method FreshTable(size: u16) returns (table: array<Desc>)
    ensures fresh(table) && table.Length == size
    ensures forall k :: 0 <= k < size ==>
      table[k] == Desc(0, 0, VRING_DESC_F_NEXT, if k + 1 < size then k + 1 else 0)
  {
    table := new Desc[size](_ => Desc(0, 0, 0, 0));
    for i := 0 to size
      invariant forall k :: 0 <= k < i ==> table[k] == Desc(0, 0, VRING_DESC_F_NEXT, if k + 1 < size then k + 1 else 0)
      invariant forall k :: i <= k < size ==> table[k] == Desc(0, 0, 0, 0)
    {
      table[i] := table[i].(next := if i + 1 < size then i + 1 else 0);
      table[i] := table[i].(flags := VRING_DESC_F_NEXT);
    }
  }

  class Virtqueue {
    const size: u16
    const desc: array<Desc>
    const avail: array<u8>
    const used: array<u8>
    var freeHead: u16
    var numFree: u16
    var lastUsedIdx: u16

    /** Free list and in-flight chains. */
    ghost var table: Table
    /** Every entry the driver has published and every entry the device has returned. */
    ghost var availLog: seq<seq<u8>>
    ghost var usedLog: seq<seq<u8>>
    /** How many returned elements the driver has consumed. */
    ghost var popped: nat

    ghost predicate Shape() {
      && IsQueueSize(size) && size > 0
      && desc.Length == size && avail.Length == RingBytes(Avail, size) && used.Length == RingBytes(Used, size)
      && avail != used
    }

    ghost predicate TableValid()
      reads `freeHead, `numFree, `table, desc
    {
      Shape() && Inv(desc[..], freeHead, table) && numFree == |table.free|
    }

    ghost predicate AvailValid()
      reads `availLog, avail
    {
      Shape() && RingInv(Avail, avail[..], size, availLog)
    }

    ghost predicate UsedValid()
      reads `lastUsedIdx, `usedLog, `popped, used
    {
      && Shape() && RingInv(Used, used[..], size, usedLog)
      && lastUsedIdx == Wrap(popped) && popped <= |usedLog| <= popped + size
    }

    ghost predicate Valid()
      reads this, desc, avail, used
    {
      TableValid() && AvailValid() && UsedValid()
    }

    constructor (size: u16)
      requires IsQueueSize(size)
      ensures Valid() && fresh(desc) && fresh(avail) && fresh(used)
      ensures this.size == size && table == Initial(size)
      ensures availLog == [] && usedLog == [] && popped == 0
    {
      QueueSizeRange(size);
      this.size := size;
      var chained := FreshTable(size);
      desc := chained;
      avail := new u8[4 + 2 * size + 2](_ => 0);
      used := new u8[4 + 8 * size + 2](_ => 0);
      freeHead, numFree, lastUsedIdx := 0, size, 0;
      this.table, availLog, usedLog, popped := Initial(size), [], [], 0;
      new;
      assert AvailValid() && UsedValid();
      InitialInv(desc[..]);
    }

    method AllocDesc() returns (r: Option<u16>)
      requires TableValid()
      modifies `freeHead, `numFree, `table, desc
      ensures TableValid()
      ensures r.None? <==> old(table.free) == []
      ensures r.None? ==> table == old(table) && desc[..] == old(desc[..])
      ensures r.Some? ==> r.value == old(table.free[0]) && table == TakeOne(old(table))
      ensures r.Some? ==> r.value < size && desc[..] == old(desc[..])[r.value := Desc(0, 0, 0, 0)]
    {
      if numFree == 0 {
        return None;
      }
      TakeOneKeeps(desc[..], freeHead, table);
      var idx := freeHead;
      freeHead := desc[idx].next;
      numFree := numFree - 1;
      desc[idx] := Desc(0, 0, 0, 0);
      table := TakeOne(table);
      assert desc[..] == old(desc[..])[idx := Desc(0, 0, 0, 0)];
      return Some(idx);
    }

    method AllocChain(n: nat) returns (r: Option<u16>)
      requires TableValid()
      modifies `freeHead, `numFree, `table, desc
      ensures TableValid()
      ensures (table, r) == DescTable.AllocChain(old(table), n)
      ensures forall i :: 0 <= i < size && i !in old(table.free) ==> desc[i] == old(desc[i])
      ensures r.Some? ==> r.value in table.chains && Blank(desc[..], table.chains[r.value])
    {
      hide Partition, FreeLinked, ChainLinked, IsBlock;
      if n % 0x1_0000 > numFree || n == 0 {
        return None;
      }
      var head := AllocDesc();
      if head.None? {
        return None;
      }
      ghost var t := old(table);
      CarvedFirst(t);
      var prev := head.value;
      var k := 1;
      while k < n
        invariant TableValid()
        invariant 1 <= k <= |t.free| && k <= n
        invariant table == Carved(t, k) && head == Some(t.free[0]) && prev == t.free[k - 1]
        invariant Blank(desc[..], t.free[..k])
        invariant forall i :: 0 <= i < size && i !in t.free ==> desc[i] == old(desc[i])
      {
        var next := ExtendChain(t, k, prev);
        if next.None? {
          return None;
        }
        prev := next.value;
        k := k + 1;
      }
      return head;
    }

    /** The loop body of `alloc_chain`: take one more descriptor and link it behind `prev`. */
    method ExtendChain(ghost t: Table, ghost k: nat, prev: u16) returns (next: Option<u16>)
      requires TableValid() && Partition(t, size) && 1 <= k <= |t.free|
      requires table == Carved(t, k) && prev == t.free[k - 1] && Blank(desc[..], t.free[..k])
      modifies `freeHead, `numFree, `table, desc
      ensures TableValid()
      ensures next.None? <==> k == |t.free|
      ensures next.None? ==> table == old(table) && desc[..] == old(desc[..])
      ensures next.Some? ==> next.value == t.free[k] && table == Carved(t, k + 1) && Blank(desc[..], t.free[..k + 1])
      ensures forall i :: 0 <= i < size && i !in t.free ==> desc[i] == old(desc[i])
    {
      hide Inv, Blank, BitOr;
      ghost var before := desc[..];
      next := AllocDesc();
      if next.Some? {
        CarvedStep(t, size, k);
        BlankLast(before, t.free, k);
        AppendDesc(t.free[0], prev, next.value);
        BlankGrows(before, desc[..], t.free, k);
      }
    }

    /** Link `next` behind `prev`. */
    method AppendDesc(ghost head: nat, prev: u16, next: u16)
      requires TableValid()
      requires head in table.chains && next in table.chains && head != next && table.chains[next] == [next as nat]
      requires prev == table.chains[head][|table.chains[head]| - 1]
      modifies `table, desc
      ensures TableValid() && table == Link(old(table), head, next) && prev < size
      ensures desc[..] == old(desc[..])[prev := old(desc[prev]).(flags := desc[prev].flags, next := next)]
      ensures desc[prev].flags == BitOr(old(desc[prev].flags), VRING_DESC_F_NEXT)
    {
      hide FreeLinked, ChainLinked;
      LinkKeeps(desc[..], freeHead, table, head, prev, next);
      desc[prev] := desc[prev].(flags := BitOr(desc[prev].flags, VRING_DESC_F_NEXT));
      desc[prev] := desc[prev].(next := next);
      table := Link(table, head, next);
      assert desc[..] == old(desc[..])[prev := desc[prev]];
    }

    method FreeChain(head: u16)
      requires TableValid() && head in table.chains
      modifies `freeHead, `numFree, `table, desc
      ensures TableValid() && table == DescTable.FreeChain(old(table), head)
      ensures forall i :: 0 <= i < size && i !in old(table).chains[head] ==> desc[i] == old(desc[i])
    {
      hide Partition, FreeLinked, ChainLinked;
      ghost var t := table;
      ghost var c := table.chains[head];
      ghost var k := 0;
      var idx := head;
      ChainHead(t, size, head);
      ReturnedEnds(t, head);
      while true
        invariant TableValid()
        invariant 0 <= k < |c| && idx == c[k] && table == Returned(t, head, k)
        invariant forall i :: 0 <= i < size && i !in c ==> desc[i] == old(desc[i])
        decreases |c| - k
      {
        ReturnedStep(t, size, head, k);
        var next := ReleaseDesc(idx);
        if next.None? {
          break;
        }
        k := k + 1;
        idx := next.value;
      }
    }

    /** The loop body of `free_chain`: move `idx` to the free list, yield its successor. */
    method ReleaseDesc(idx: u16) returns (next: Option<u16>)
      requires TableValid() && idx in table.chains
      modifies `freeHead, `numFree, `table, desc
      ensures TableValid() && table == Release(old(table), idx)
      ensures next.None? <==> |old(table).chains[idx]| == 1
      ensures next.Some? ==> next.value == old(table).chains[idx][1]
      ensures forall i :: 0 <= i < size && i != idx ==> desc[i] == old(desc[i])
    {
      ReleaseKeeps(desc[..], freeHead, table, idx);
      BlockBound(Release(table, idx).free, size);
      QueueSizeRange(size);
      var succ := desc[idx].next;
      var hasNext := BitAnd(desc[idx].flags, VRING_DESC_F_NEXT) != 0;
      desc[idx] := desc[idx].(flags := VRING_DESC_F_NEXT);
      desc[idx] := desc[idx].(next := freeHead);
      freeHead := idx;
      numFree := numFree + 1;
      table := Release(table, idx);
      assert desc[..] == old(desc[..])[idx := desc[idx]];
      next := if hasNext then Some(succ) else None;
    }

    /** A driver writes the address, length and flags of a descriptor it owns. */
    method EditDesc(idx: u16, addr: u64, len: u32, flags: u16)
      requires TableValid() && idx < size
      requires HasNext(flags) <==> HasNext(desc[idx].flags)
      modifies desc
      ensures TableValid()
      ensures desc[..] == old(desc[..])[idx := Desc(addr, len, flags, old(desc[idx].next))]
    {
      hide Inv;
      EditKeeps(desc[..], freeHead, table, idx, Desc(addr, len, flags, desc[idx].next));
      desc[idx] := desc[idx].(addr := addr);
      desc[idx] := desc[idx].(len := len);
      desc[idx] := desc[idx].(flags := flags);
      assert desc[..] == old(desc[..])[idx := Desc(addr, len, flags, old(desc[idx].next))];
    }

    /** One call, by a driver that frees what is in flight and leaves NEXT bits alone. */
    method Perform(op: Op) returns (head: Option<u16>)
      requires op.Free? ==> op.head in table.chains
      requires op.Edit? ==> op.i < size && !HasNext(op.extra)
      requires TableValid()
      modifies `freeHead, `numFree, `table, desc
      ensures TableValid()
      ensures RunTable(old(table), [op]) == Some(table)
      ensures op.Alloc? ==> head == DescTable.AllocChain(old(table), op.n).1
    {
      hide Inv, Partition, DescTable.AllocChain, DescTable.FreeChain, HasNext;
      head := None;
      assert [op][1..] == [];
      match op
      case Alloc(n) => head := AllocChain(n);
      case Free(h) =>
        HeadInRange(desc[..], freeHead, table, h);
        FreeChain(h);
      case Edit(i, addr, len, extra) =>
        SetNextFlag(extra);
        EditDesc(i, addr, len, if HasNext(desc[i].flags) then BitOr(extra, VRING_DESC_F_NEXT) else extra);
    }

    /** In every run, with driver edits in between, the fields represent the run of the table. */
    method RunOps(ops: seq<Op>) returns (heads: seq<Option<u16>>)
      requires TableValid() && RunTable(table, ops).Some?
      requires forall k :: 0 <= k < |ops| && ops[k].Edit? ==> ops[k].i < size && !HasNext(ops[k].extra)
      modifies `freeHead, `numFree, `table, desc
      ensures TableValid() && Some(table) == RunTable(old(table), ops)
      ensures |heads| == |ops|
      ensures forall k :: 0 <= k < |ops| && ops[k].Alloc? && RunTable(old(table), ops[..k]).Some? ==>
        heads[k] == DescTable.AllocChain(RunTable(old(table), ops[..k]).value, ops[k].n).1
    {
      hide Inv, Partition, DescTable.AllocChain, DescTable.FreeChain, HasNext, RunTable;
      heads := [];
      RunNothing(table, ops);
      for i := 0 to |ops|
        invariant TableValid() && |heads| == i
        invariant RunTable(old(table), ops[..i]) == Some(table) && RunTable(table, ops[i..]) == RunTable(old(table), ops)
        invariant forall k :: 0 <= k < i && ops[k].Alloc? && RunTable(old(table), ops[..k]).Some? ==>
          heads[k] == DescTable.AllocChain(RunTable(old(table), ops[..k]).value, ops[k].n).1
      {
        RunSplit(table, ops[i..]);
        assert ops[i..][0] == ops[i] && ops[i..][1..] == ops[i + 1..];
        ghost var before := table;
        var head := Perform(ops[i]);
        heads := heads + [head];
        RunSnoc(old(table), ops[..i], ops[i]);
        assert ops[..i] + [ops[i]] == ops[..i + 1];
      }
      assert ops[..|ops|] == ops;
    }

    /** `idx & (size - 1)` */
    method MaskSlot(idx: u16) returns (slot: nat)
      requires IsQueueSize(size)
      ensures 0 < size && slot == Residue(idx, size) < size
    {
      MaskedIndex(idx, size);
      slot := BitAnd(idx, size - 1);
    }

    method PushAvail(head: u16)
      requires AvailValid()
      modifies `availLog, avail
      ensures AvailValid() && Heads(availLog) == old(Heads(availLog)) + [head]
    {
      ghost var before := avail[..];
      var availIdx := FromLe16(avail[2], avail[3]);
      assert availIdx == Index(before);
      var slot := MaskSlot(availIdx);
      var off := 4 + slot * 2;
      var bytes := Le16(head);
      avail[off] := bytes[0];
      avail[off + 1] := bytes[1];
      var nb := Le16(Succ(availIdx));
      avail[2] := nb[0];
      avail[3] := nb[1];
      assert avail[..] == Publish(Avail, before, size, bytes);
      PublishKeeps(Avail, before, size, availLog, bytes);
      availLog := availLog + [bytes];
      Le16RoundTrip(head);
    }

    method ReadElem(slot: nat) returns (e: UsedElem)
      requires Shape() && slot < size
      ensures e == ElemOf(Entry(Used, used[..], size, slot))
    {
      hide IsQueueSize;
      var off := 4 + slot * 8;
      var id := FromLe32(used[off], used[off + 1], used[off + 2], used[off + 3]);
      var len := FromLe32(used[off + 4], used[off + 5], used[off + 6], used[off + 7]);
      e := UsedElem(id, len);
    }

    method PopUsed() returns (r: Option<UsedElem>)
      requires UsedValid()
      modifies `lastUsedIdx, `popped
      ensures UsedValid()
      ensures r == if old(popped) == |usedLog| then None else Some(ElemOf(usedLog[old(popped)]))
      ensures popped == if r.Some? then old(popped) + 1 else old(popped)
    {
      hide ElemOf, Residue;
      PeekIsNext(Used, Channel(used[..], lastUsedIdx, usedLog, usedLog[..popped]), size);
      var deviceIdx := FromLe16(used[2], used[3]);
      assert deviceIdx == Index(used[..]);
      if deviceIdx == lastUsedIdx {
        return None;
      }
      var slot := MaskSlot(lastUsedIdx);
      var e := ReadElem(slot);
      r := Some(e);
      WrapSucc(popped);
      lastUsedIdx := Succ(lastUsedIdx);
      popped := popped + 1;
    }
  }
}
