/**
 virtio-blk: a request is a three-descriptor chain (header, data, status). Against a
 device that executes each published chain, the driver behaves as a plain array of
 512-byte sectors.
 */
module VirtioBlk {
  import opened Machine
  import opened DescTable
  import opened VirtioRing
  import opened Virtqueues
  import opened VirtioDevice

  const VIRTIO_BLK_T_IN: u32 := 0
  const VIRTIO_BLK_T_OUT: u32 := 1

  datatype BlkError = BufferTooSmall | QueueFull | DeviceError

  /** Physical memory and the medium behind the device. */
  datatype World = World(mem: seq<u8>, disk: seq<u8>)

  // ---- the medium as an array of sectors ----

  ghost predicate OnDisk(disk: seq<u8>, sector: nat, m: nat) {
    512 * (sector + m) <= |disk|
  }

  function ReadSpec(disk: seq<u8>, sector: nat, m: nat): (r: seq<u8>)
    requires OnDisk(disk, sector, m)
    ensures |r| == 512 * m
  {
    disk[512 * sector .. 512 * (sector + m)]
  }

  function WriteSpec(disk: seq<u8>, sector: nat, data: seq<u8>): (r: seq<u8>)
    requires 512 * sector + |data| <= |disk|
    ensures |r| == |disk|
  {
    Splice(disk, 512 * sector, data)
  }

  /** Sectors read back as written, and no other sector changes. */
  lemma ReadAfterWrite(disk: seq<u8>, sector: nat, m: nat, data: seq<u8>, other: nat)
    requires OnDisk(disk, sector, m) && |data| == 512 * m && OnDisk(disk, other, 1)
    ensures ReadSpec(WriteSpec(disk, sector, data), sector, m) == data
    ensures !(sector <= other < sector + m) ==> ReadSpec(WriteSpec(disk, sector, data), other, 1) == ReadSpec(disk, other, 1)
  {
  }

  /** Sectors moved by a request for `n`: the byte count is truncated to 32 bits. */
  function Moved(n: u64): nat {
    n % 0x80_0000
  }

  lemma MovedIsTruncation(n: u64)
    ensures n * 512 % 0x1_0000_0000 == 512 * Moved(n)
    ensures 512 * Moved(n) <= n * 512 % 0x1_0000_0000_0000_0000
    ensures Moved(n) == n <==> n < 0x80_0000
  {
    var q, r := n / 0x80_0000, n % 0x80_0000;
    ModUnique(n * 512, 0x1_0000_0000, q, 512 * r);
    var q', r' := n / 0x80_0000_0000_0000, n % 0x80_0000_0000_0000;
    ModUnique(n * 512, 0x1_0000_0000_0000_0000, q', 512 * r');
    ModUnique(n, 0x80_0000, q' * 0x1_0000_0000 + r' / 0x80_0000, r' % 0x80_0000);
  }

  // ---- the device ----

  function Load32(mem: seq<u8>, a: nat): u32
    requires a + 4 <= |mem|
  {
    FromLe32(mem[a], mem[a + 1], mem[a + 2], mem[a + 3])
  }

  /** The u64 sector field of the header at `a`. */
  function LoadSector(mem: seq<u8>, a: nat): nat
    requires a + 16 <= |mem|
  {
    Load32(mem, a + 8) + 0x1_0000_0000 * Load32(mem, a + 12)
  }

  function Header(ty: u32, sector: u64): (h: seq<u8>)
    ensures |h| == 16
  {
    Le32(ty) + Le32(0) + Le32(sector % 0x1_0000_0000) + Le32(sector / 0x1_0000_0000)
  }

  lemma HeaderRoundTrip(ty: u32, sector: u64)
    ensures Load32(Header(ty, sector), 0) == ty
    ensures LoadSector(Header(ty, sector), 0) == sector
  {
    Le32RoundTrip(ty);
    Le32RoundTrip(sector % 0x1_0000_0000);
    Le32RoundTrip(sector / 0x1_0000_0000);
  }

  /** Little-endian type, four zero bytes, little-endian sector. */
  lemma HeaderLayout(ty: u32, sector: u64)
    ensures var h := Header(ty, sector);
      LittleEndian(h[..4]) == ty && h[4..8] == [0, 0, 0, 0] && LittleEndian(h[8..]) == sector
  {
    hide LittleEndian, Pow2, Header, Le32;
    HeaderParts(ty, sector);
    SpellWord(ty);
    SpellWord(sector % 0x1_0000_0000);
    SpellWord(sector / 0x1_0000_0000);
    LittleEndianJoin(Le32(sector % 0x1_0000_0000), Le32(sector / 0x1_0000_0000));
    Pow2Of32();
  }

  lemma HeaderParts(ty: u32, sector: u64)
    ensures var h := Header(ty, sector);
      && h[..4] == Le32(ty) && h[4..8] == [0, 0, 0, 0]
      && h[8..] == Le32(sector % 0x1_0000_0000) + Le32(sector / 0x1_0000_0000)
  {
    assert Le32(0) == [0, 0, 0, 0];
    hide Le32;
  }

  lemma SpellWord(w: u32)
    ensures LittleEndian(Le32(w)) == w
  {
    hide LittleEndian, Le32;
    WordsSpell(Le32(w), 0, w);
  }

  predicate InMem(mem: seq<u8>, d: Desc) {
    d.addr + d.len <= |mem|
  }

  predicate Writable(d: Desc) {
    BitAnd(d.flags, VRING_DESC_F_WRITE) != 0
  }

  /** The transfer itself: (memory and medium, bytes written to memory). */
  function Perform(w: World, ty: u32, sector: nat, data: Desc, status: nat): (World, u32)
    requires InMem(w.mem, data) && status < |w.mem|
  {
    var at, len := 512 * sector, data.len;
    if len % 512 != 0 || at + len > |w.disk| then
      (w.(mem := Splice(w.mem, status, [1])), 1)
    else if ty == VIRTIO_BLK_T_IN && Writable(data) then
      (w.(mem := Splice(Splice(w.mem, data.addr, w.disk[at .. at + len]), status, [0])), (len + 1) % 0x1_0000_0000)
    else if ty == VIRTIO_BLK_T_OUT && !Writable(data) then
      (World(Splice(w.mem, status, [0]), Splice(w.disk, at, w.mem[data.addr .. data.addr + len])), 1)
    else
      (w.(mem := Splice(w.mem, status, [2])), 1)
  }

  /** What the device does with a chain of header, data and status. */
  function Execute(w: World, c: seq<Desc>): (World, u32) {
    if |c| == 3 && InMem(w.mem, c[0]) && InMem(w.mem, c[1]) && InMem(w.mem, c[2])
       && c[0].len == 16 && c[2].len == 1 && Writable(c[2]) then
      Perform(w, Load32(w.mem, c[0].addr), LoadSector(w.mem, c[0].addr), c[1], c[2].addr)
    else (w, 0)
  }

  /** Where a request lives in memory: its header box, status box and data buffer. */
  datatype Layout = Layout(header: nat, status: nat, data: nat)

  ghost predicate Placed(mem: seq<u8>, l: Layout, len: nat) {
    PlacedIn(|mem|, l, len)
  }

  ghost predicate PlacedIn(size: nat, l: Layout, len: nat) {
    && size < 0x1_0000_0000_0000_0000
    && l.header + 16 <= size && l.status < size && l.data + len <= size
    && !(l.header <= l.status < l.header + 16)
    && !(l.data <= l.status < l.data + len)
    && (l.header + 16 <= l.data || l.data + len <= l.header)
  }

  /** `p` is `mem` with the header stored; only the two boxes were written. */
  ghost predicate Ready(mem: seq<u8>, p: seq<u8>, l: Layout, ty: u32, sector: u64) {
    && l.header + 16 <= |mem| == |p| && l.status < |mem|
    && Load32(p, l.header) == ty
    && LoadSector(p, l.header) == sector
    && Outside(mem, p, l)
  }

  lemma StoreIsReady(mem: seq<u8>, l: Layout, ty: u32, sector: u64)
    requires l.header + 16 <= |mem| && l.status < |mem| && !(l.header <= l.status < l.header + 16)
    ensures Ready(mem, Splice(Splice(mem, l.header, Header(ty, sector)), l.status, [0xff]), l, ty, sector)
  {
    hide Header, Load32, LoadSector, Splice;
    var p := Splice(Splice(mem, l.header, Header(ty, sector)), l.status, [0xff]);
    assert p[l.header .. l.header + 16] == Header(ty, sector);
    HeaderRoundTrip(ty, sector);
    LoadHeader(p, l.header);
  }

  lemma LoadHeader(mem: seq<u8>, a: nat)
    requires a + 16 <= |mem|
    ensures Load32(mem, a) == Load32(mem[a .. a + 16], 0) && LoadSector(mem, a) == LoadSector(mem[a .. a + 16], 0)
  {
    LoadSlice(mem, a, 0);
    LoadSlice(mem, a, 8);
    LoadSlice(mem, a, 12);
  }

  lemma LoadSlice(mem: seq<u8>, a: nat, k: nat)
    requires a + 16 <= |mem| && k <= 12
    ensures Load32(mem, a + k) == Load32(mem[a .. a + 16], k)
  {
  }

  function ChainFor(l: Layout, ty: u32, len: u32): seq<Desc>
    requires l.header < 0x1_0000_0000_0000_0000 && l.status < 0x1_0000_0000_0000_0000 && l.data < 0x1_0000_0000_0000_0000
  {
    [Desc(l.header, 16, 1, 0), Desc(l.data, len, if ty == VIRTIO_BLK_T_IN then 3 else 1, 0), Desc(l.status, 1, 2, 0)]
  }

  ghost predicate SameButNext(c: seq<Desc>, d: seq<Desc>) {
    |c| == |d| && forall k :: 0 <= k < |c| ==> c[k] == d[k].(next := c[k].next)
  }

  predicate InRequest(l: Layout, m: nat, i: nat) {
    i == l.status || l.header <= i < l.header + 16 || l.data <= i < l.data + 512 * m
  }

  /** The effect of a request for `m` sectors on a plain array of sectors. */
  ghost predicate Served(w: World, w': World, l: Layout, ty: u32, sector: u64, m: nat)
    requires Placed(w.mem, l, 512 * m)
  {
    && |w'.mem| == |w.mem|
    && w'.mem[l.status] == (if OnDisk(w.disk, sector, m) then 0 else 1)
    && w'.mem[l.data .. l.data + 512 * m] ==
         (if ty == VIRTIO_BLK_T_IN && OnDisk(w.disk, sector, m) then ReadSpec(w.disk, sector, m)
          else w.mem[l.data .. l.data + 512 * m])
    && (forall i :: 0 <= i < |w.mem| && !InRequest(l, m, i) ==> w'.mem[i] == w.mem[i])
    && w'.disk == if ty == VIRTIO_BLK_T_OUT && OnDisk(w.disk, sector, m)
                  then WriteSpec(w.disk, sector, w.mem[l.data .. l.data + 512 * m]) else w.disk
  }

  lemma ChainFlags(l: Layout, ty: u32, len: u32, c: seq<Desc>)
    requires l.header < 0x1_0000_0000_0000_0000 && l.status < 0x1_0000_0000_0000_0000 && l.data < 0x1_0000_0000_0000_0000
    requires SameButNext(c, ChainFor(l, ty, len))
    ensures (Writable(c[1]) <==> ty == VIRTIO_BLK_T_IN) && Writable(c[2])
    ensures HasNext(c[0].flags) && HasNext(c[1].flags) && !HasNext(c[2].flags)
  {
    assert c[0].flags == 1 && c[2].flags == 2;
    assert BitAnd(1, 2) == 0 && BitAnd(2, 2) == 2 && BitAnd(3, 2) == 2;
    assert BitAnd(1, 1) == 1 && BitAnd(3, 1) == 1 && BitAnd(2, 1) == 0;
  }

  lemma ExecutePerforms(mem: seq<u8>, p: seq<u8>, disk: seq<u8>, l: Layout, ty: u32, sector: u64, m: nat, c: seq<Desc>)
    requires 512 * m < 0x1_0000_0000 && Placed(mem, l, 512 * m) && Ready(mem, p, l, ty, sector)
    requires SameButNext(c, ChainFor(l, ty, 512 * m))
    ensures c[1].addr == l.data && c[1].len == 512 * m && (Writable(c[1]) <==> ty == VIRTIO_BLK_T_IN)
    ensures Execute(World(p, disk), c) == Perform(World(p, disk), ty, sector, c[1], l.status)
  {
    ChainFlags(l, ty, 512 * m, c);
    assert c[0].addr == l.header && c[2].addr == l.status;
    assert c[0].len == 16 && c[2].len == 1;
  }

  lemma PerformServes(w: World, p: seq<u8>, l: Layout, ty: u32, sector: u64, m: nat, data: Desc)
    requires Placed(w.mem, l, 512 * m) && Outside(w.mem, p, l)
    requires ty == VIRTIO_BLK_T_IN || ty == VIRTIO_BLK_T_OUT
    requires data.addr == l.data && data.len == 512 * m && (Writable(data) <==> ty == VIRTIO_BLK_T_IN)
    ensures Served(w, Perform(World(p, w.disk), ty, sector, data, l.status).0, l, ty, sector, m)
  {
    hide BitAnd, Splice, Outside, InRequest, Writable;
    WholeSectors(m);
    if !OnDisk(w.disk, sector, m) {
      SplicedMemory(w.mem, p, l, m, 1);
    } else if ty == VIRTIO_BLK_T_IN {
      var read := ReadSpec(w.disk, sector, m);
      assert read == w.disk[512 * sector .. 512 * sector + data.len];
      SplicedMemory(w.mem, p, l, m, 0);
      SplicedData(w.mem, p, l, m, read);
    } else {
      SplicedMemory(w.mem, p, l, m, 0);
    }
  }

  lemma WholeSectors(m: nat)
    ensures 512 * m % 512 == 0
  {
  }

  ghost predicate Outside(mem: seq<u8>, p: seq<u8>, l: Layout) {
    |p| == |mem| && forall i :: 0 <= i < |mem| && i != l.status && !(l.header <= i < l.header + 16) ==> p[i] == mem[i]
  }

  lemma SplicedMemory(mem: seq<u8>, p: seq<u8>, l: Layout, m: nat, s: u8)
    requires Placed(mem, l, 512 * m) && Outside(mem, p, l)
    ensures |p| == |mem| && p[l.data .. l.data + 512 * m] == mem[l.data .. l.data + 512 * m]
    ensures var q := Splice(p, l.status, [s]);
      && q[l.status] == s && q[l.data .. l.data + 512 * m] == mem[l.data .. l.data + 512 * m]
      && forall i :: 0 <= i < |mem| && !InRequest(l, m, i) ==> q[i] == mem[i]
  {
  }

  lemma SplicedData(mem: seq<u8>, p: seq<u8>, l: Layout, m: nat, d: seq<u8>)
    requires Placed(mem, l, 512 * m) && Outside(mem, p, l) && |d| == 512 * m
    ensures var q := Splice(Splice(p, l.data, d), l.status, [0]);
      && q[l.status] == 0 && q[l.data .. l.data + 512 * m] == d
      && forall i :: 0 <= i < |mem| && !InRequest(l, m, i) ==> q[i] == mem[i]
  {
  }

  /** The descriptors of a chain, in chain order. */
  ghost function ChainDescs(desc: seq<Desc>, c: seq<nat>): (r: seq<Desc>)
    requires forall k :: 0 <= k < |c| ==> c[k] < |desc|
    ensures |r| == |c| && forall k :: 0 <= k < |c| ==> r[k] == desc[c[k]]
  {
    seq(|c|, k requires 0 <= k < |c| => desc[c[k]])
  }

  lemma ThreeLinked(desc: seq<Desc>, freeHead: nat, t: Table, head: nat)
    requires Inv(desc, freeHead, t) && head in t.chains && |t.chains[head]| == 3
    ensures var c := t.chains[head];
      && c[0] == head && c[0] < |desc| && c[1] < |desc| && c[2] < |desc|
      && c[0] != c[1] && c[0] != c[2] && c[1] != c[2]
      && desc[c[0]].next == c[1] && desc[c[1]].next == c[2]
      && HasNext(desc[c[0]].flags) && HasNext(desc[c[1]].flags) && !HasNext(desc[c[2]].flags)
  {
    assert ChainLinked(desc, t.chains[head]);
  }

  lemma FlagValues()
    ensures HasNext(1) && HasNext(3) && !HasNext(2) && BitOr(1, 2) == 3
  {
    assert BitAnd(1, 1) == 1 && BitAnd(3, 1) == 1 && BitAnd(2, 1) == 0;
  }

  /** Each element returned so far carries the head published at its position. */
  ghost predicate Answered(avail: seq<seq<u8>>, used: seq<seq<u8>>) {
    |used| <= |avail| && forall k :: 0 <= k < |used| ==> ElemOf(used[k]).id == HeadOf(avail[k])
  }

  lemma HeadPublished(avail: seq<seq<u8>>, avail': seq<seq<u8>>, used: seq<seq<u8>>, head: u16)
    requires Answered(avail, used) && Heads(avail') == Heads(avail) + [head]
    ensures Answered(avail', used) && |avail'| == |avail| + 1 && HeadOf(avail'[|avail|]) == head
  {
    assert Heads(avail')[|avail|] == head;
    forall k | 0 <= k < |avail| ensures HeadOf(avail'[k]) == HeadOf(avail[k]) {
      assert Heads(avail')[k] == Heads(avail)[k];
    }
  }

  lemma HeadReturned(avail: seq<seq<u8>>, used: seq<seq<u8>>, used': seq<seq<u8>>)
    requires Answered(avail, used) && |avail| == |used| + 1
    requires exists len: u32 :: Elems(used') == Elems(used) + [UsedElem(HeadOf(avail[|used|]), len)]
    ensures Answered(avail, used') && |used'| == |used| + 1 && ElemOf(used'[|used|]).id == HeadOf(avail[|used|])
  {
    assert Elems(used')[|used|].id == HeadOf(avail[|used|]);
    forall k | 0 <= k < |used| ensures ElemOf(used'[k]) == ElemOf(used[k]) {
      assert Elems(used')[k] == Elems(used)[k];
    }
  }

  class BlkDevice {
    const side: DeviceSide
    var world: World

    constructor (side: DeviceSide, world: World)
      ensures this.side == side && this.world == world
    {
      this.side, this.world := side, world;
    }

    /** Take one published chain, execute it, return it. */
    method Service()
      requires side.Valid() && side.q.Valid()
      requires side.taken < |side.q.availLog|
      requires HeadOf(side.q.availLog[side.taken]) in side.q.table.chains
      requires |side.q.usedLog| < side.q.popped + side.q.size
      modifies this`world, side, side.q`usedLog, side.q.used
      ensures side.Valid() && side.q.Valid() && side.taken == old(side.taken) + 1
      ensures var head := HeadOf(side.q.availLog[old(side.taken)]);
        var outcome := Execute(old(world), ChainDescs(side.q.desc[..], side.q.table.chains[head]));
        world == outcome.0 && Elems(side.q.usedLog) == old(Elems(side.q.usedLog)) + [UsedElem(head, outcome.1)]
    {
      hide RingInv, Residue, Execute;
      var q := side.q;
      var head := side.Take();
      var c := side.Collect(head.value);
      var descs := seq(|c|, k requires 0 <= k < |c| reads q.desc => q.desc[c[k]]);
      assert descs == ChainDescs(q.desc[..], q.table.chains[head.value]);
      var outcome := Execute(world, descs);
      world := outcome.0;
      side.Return(head.value, outcome.1);
    }
  }

  class VirtioBlk {
    const queue: Virtqueue
    const dev: BlkDevice

    /** `init`: a request queue of at most 16 descriptors, nothing outstanding. */
    constructor (queueMax: u32, world: World)
      requires IsQueueSize(Min(16, queueMax % 0x1_0000))
      ensures Idle() && queue.size == Min(16, queueMax % 0x1_0000) && dev.world == world
      ensures fresh(queue) && fresh(queue.desc) && fresh(queue.avail) && fresh(queue.used) && fresh(dev) && fresh(dev.side)
    {
      var q := new Virtqueue(Min(16, queueMax % 0x1_0000));
      var side := new DeviceSide(q);
      var d := new BlkDevice(side, world);
      queue, dev := q, d;
    }

    ghost predicate Wired()
      reads dev.side, queue, queue.desc, queue.avail, queue.used
    {
      dev.side.q == queue && queue.Valid() && dev.side.Valid()
    }

    /** No request outstanding: every descriptor free, both rings drained, every id the head it answers. */
    ghost predicate Idle()
      reads dev.side, queue, queue.desc, queue.avail, queue.used
    {
      && Wired() && queue.table.chains == map[] && |queue.table.free| == queue.size
      && dev.side.taken == |queue.availLog| == |queue.usedLog| == queue.popped
      && Answered(queue.availLog, queue.usedLog)
    }

    method FillChain(head: u16, l: Layout, ty: u32, len: u32)
      requires queue.TableValid() && head in queue.table.chains && |queue.table.chains[head]| == 3
      requires l.header < 0x1_0000_0000_0000_0000 && l.status < 0x1_0000_0000_0000_0000 && l.data < 0x1_0000_0000_0000_0000
      modifies queue.desc
      ensures queue.TableValid()
      ensures SameButNext(ChainDescs(queue.desc[..], queue.table.chains[head]), ChainFor(l, ty, len))
    {
      hide Inv, BitAnd, BitOr, IsQueueSize;
      var q := queue;
      ghost var c := q.table.chains[head];
      ThreeLinked(q.desc[..], q.freeHead, q.table, head);
      FlagValues();
      var idx := head;
      q.EditDesc(idx, l.header, 16, VRING_DESC_F_NEXT);
      idx := q.desc[idx].next;
      q.EditDesc(idx, l.data, len, if ty == VIRTIO_BLK_T_IN then BitOr(VRING_DESC_F_NEXT, VRING_DESC_F_WRITE) else VRING_DESC_F_NEXT);
      idx := q.desc[idx].next;
      q.EditDesc(idx, l.status, 1, VRING_DESC_F_WRITE);
    }

    /** One chain published and not yet taken by the device. */
    ghost predicate Pending(head: u16)
      reads dev.side, queue, queue.desc, queue.avail, queue.used
    {
      && Wired() && queue.table.chains.Keys == {head as nat}
      && |queue.table.free| + |queue.table.chains[head]| == queue.size
      && dev.side.taken + 1 == |queue.availLog| && HeadOf(queue.availLog[dev.side.taken]) == head
      && |queue.usedLog| == queue.popped == dev.side.taken && Answered(queue.availLog, queue.usedLog)
    }

    /** First locked section of `do_request`: build the chain and publish it. */
    method Submit(ty: u32, l: Layout, len: u32) returns (head: Option<u16>)
      requires Idle()
      requires l.header < 0x1_0000_0000_0000_0000 && l.status < 0x1_0000_0000_0000_0000 && l.data < 0x1_0000_0000_0000_0000
      modifies queue`freeHead, queue`numFree, queue`table, queue`availLog, queue.desc, queue.avail
      ensures head.None? <==> queue.size < 3
      ensures head.None? ==> Idle()
      ensures head.Some? ==>
        && Pending(head.value)
        && SameButNext(ChainDescs(queue.desc[..], queue.table.chains[head.value]), ChainFor(l, ty, len))
    {
      hide Inv, RingInv, Residue, Execute;
      head := queue.AllocChain(3);
      if head.Some? {
        assert queue.table.chains == map[head.value as nat := queue.table.chains[head.value]];
        FillChain(head.value, l, ty, len);
        ghost var log := queue.availLog;
        queue.PushAvail(head.value);
        HeadPublished(log, queue.availLog, queue.usedLog, head.value);
      }
    }

    /** Spin until the device, after `delay` polls, has served the request. */
    method WaitUsed(ghost head: u16, delay: nat) returns (e: UsedElem)
      requires Pending(head)
      modifies dev`world, dev.side, queue`usedLog, queue`lastUsedIdx, queue`popped, queue.used
      ensures Wired() && dev.side.taken == |queue.availLog| == |queue.usedLog| == queue.popped == old(queue.popped) + 1
      ensures dev.world == Execute(old(dev.world), ChainDescs(queue.desc[..], queue.table.chains[head])).0
      ensures e.id == head && Answered(queue.availLog, queue.usedLog)
    {
      hide Inv, RingInv, Residue, Execute;
      for i := 0 to delay
        invariant Pending(head) && dev.world == old(dev.world) && queue.popped == old(queue.popped)
      {
        var none := queue.PopUsed();
        assert none.None?;
      }
      ghost var log := queue.usedLog;
      dev.Service();
      HeadReturned(queue.availLog, log, queue.usedLog);
      var r := queue.PopUsed();
      e := r.value;
    }

    /** Second locked section of `do_request`: wait for the device and free the chain. */
    method Finish(head: u16, delay: nat)
      requires Pending(head)
      modifies dev`world, dev.side, queue, queue.desc, queue.used
      ensures Idle() && |queue.usedLog| == old(|queue.usedLog|) + 1
      ensures dev.world == Execute(old(dev.world), old(ChainDescs(queue.desc[..], queue.table.chains[head]))).0
    {
      hide Inv, RingInv, Residue, Execute;
      var _ := WaitUsed(head, delay);
      queue.FreeChain(head);
      assert queue.table.chains == map[];
    }

    /** Box the request header and a status byte of 0xff. */
    method StoreRequest(l: Layout, ty: u32, sector: u64)
      requires Placed(dev.world.mem, l, 0)
      modifies dev`world
      ensures dev.world.disk == old(dev.world.disk) && Ready(old(dev.world.mem), dev.world.mem, l, ty, sector)
    {
      StoreIsReady(dev.world.mem, l, ty, sector);
      dev.world := dev.world.(mem := Splice(Splice(dev.world.mem, l.header, Header(ty, sector)), l.status, [0xff]));
    }

    /** Both locked sections around the device's turn. */
    method Transact(ty: u32, l: Layout, len: u32, delay: nat) returns (ok: bool, ghost c: seq<Desc>)
      requires Idle()
      requires l.header < 0x1_0000_0000_0000_0000 && l.status < 0x1_0000_0000_0000_0000 && l.data < 0x1_0000_0000_0000_0000
      modifies dev`world, dev.side, queue, queue.desc, queue.avail, queue.used
      ensures Idle() && (ok <==> queue.size >= 3)
      ensures !ok ==> dev.world == old(dev.world)
      ensures ok ==> dev.world == Execute(old(dev.world), c).0 && SameButNext(c, ChainFor(l, ty, len))
      ensures ok ==> |queue.usedLog| == old(|queue.usedLog|) + 1
    {
      hide RingInv, Residue, Execute;
      var head := Submit(ty, l, len);
      ok, c := head.Some?, [];
      if ok {
        c := ChainDescs(queue.desc[..], queue.table.chains[head.value]);
        Finish(head.value, delay);
      }
    }

    method DoRequest(ty: u32, sector: u64, n: u64, l: Layout, delay: nat) returns (r: Result<(), BlkError>)
      requires Idle() && Placed(dev.world.mem, l, 512 * Moved(n))
      requires ty == VIRTIO_BLK_T_IN || ty == VIRTIO_BLK_T_OUT
      modifies dev`world, dev.side, queue, queue.desc, queue.avail, queue.used
      ensures Idle()
      ensures queue.size < 3 ==>
        r == Err(QueueFull) && dev.world.disk == old(dev.world.disk) && Outside(old(dev.world.mem), dev.world.mem, l)
      ensures queue.size >= 3 ==>
        && Served(old(dev.world), dev.world, l, ty, sector, Moved(n))
        && r == (if OnDisk(old(dev.world.disk), sector, Moved(n)) then Ok(()) else Err(DeviceError))
        && |queue.usedLog| == old(|queue.usedLog|) + 1
    {
      hide Inv, RingInv, Residue, Execute;
      ghost var w := dev.world;
      StoreRequest(l, ty, sector);
      ghost var p := dev.world.mem;
      var len := ByteLength(n);
      var ok, c := Transact(ty, l, len, delay);
      if !ok {
        return Err(QueueFull);
      }
      RequestServed(w, p, l, ty, sector, Moved(n), c);
      r := if dev.world.mem[l.status] == 0 then Ok(()) else Err(DeviceError);
    }

    method ReadSectors(sector: u64, n: u64, l: Layout, bufLen: nat, delay: nat) returns (r: Result<(), BlkError>)
      requires Idle() && Placed(dev.world.mem, l, bufLen)
      modifies dev`world, dev.side, queue, queue.desc, queue.avail, queue.used
      ensures Idle() && dev.world.disk == old(dev.world.disk) && |dev.world.mem| == old(|dev.world.mem|)
      ensures bufLen < BufferBytes(n) ==> r == Err(BufferTooSmall) && dev.world == old(dev.world)
      ensures bufLen >= BufferBytes(n) && queue.size < 3 ==> r == Err(QueueFull)
      ensures bufLen >= BufferBytes(n) && queue.size >= 3 ==>
        && 512 * Moved(n) <= bufLen && |queue.usedLog| == old(|queue.usedLog|) + 1
        && r == (if OnDisk(old(dev.world.disk), sector, Moved(n)) then Ok(()) else Err(DeviceError))
        && (r.Ok? ==> dev.world.mem[l.data .. l.data + 512 * Moved(n)] == ReadSpec(dev.world.disk, sector, Moved(n)))
        && (forall i :: 0 <= i < |dev.world.mem| && !InRequest(l, Moved(n), i) ==> dev.world.mem[i] == old(dev.world.mem)[i])
    {
      hide Inv, RingInv, Residue, Execute;
      if bufLen < BufferBytes(n) {
        return Err(BufferTooSmall);
      }
      MovedFits(n, bufLen);
      r := DoRequest(VIRTIO_BLK_T_IN, sector, n, l, delay);
    }

    /** `l.data` is the temporary copy of the caller's bytes. */
    method WriteSectors(sector: u64, n: u64, buf: seq<u8>, l: Layout, delay: nat) returns (r: Result<(), BlkError>)
      requires Idle() && Placed(dev.world.mem, l, if |buf| < BufferBytes(n) then 0 else BufferBytes(n))
      modifies dev`world, dev.side, queue, queue.desc, queue.avail, queue.used
      ensures Idle() && |dev.world.mem| == old(|dev.world.mem|)
      ensures |buf| < BufferBytes(n) ==> r == Err(BufferTooSmall) && dev.world == old(dev.world)
      ensures |buf| >= BufferBytes(n) && queue.size < 3 ==> r == Err(QueueFull) && dev.world.disk == old(dev.world.disk)
      ensures |buf| >= BufferBytes(n) && queue.size >= 3 ==>
        && 512 * Moved(n) <= |buf| && |queue.usedLog| == old(|queue.usedLog|) + 1
        && r == (if OnDisk(old(dev.world.disk), sector, Moved(n)) then Ok(()) else Err(DeviceError))
        && dev.world.disk == (if r.Ok? then WriteSpec(old(dev.world.disk), sector, buf[..512 * Moved(n)])
                              else old(dev.world.disk))
      ensures |buf| >= BufferBytes(n) ==> ElsewhereSame(old(dev.world.mem), dev.world.mem, l, BufferBytes(n))
    {
      hide Inv, RingInv, Residue, Execute, BufferBytes, Moved, Splice, Wired;
      if |buf| < BufferBytes(n) {
        return Err(BufferTooSmall);
      }
      MovedFits(n, BufferBytes(n));
      SplicedPrefix(dev.world.mem, l.data, buf[..BufferBytes(n)], 512 * Moved(n));
      assert buf[..BufferBytes(n)][..512 * Moved(n)] == buf[..512 * Moved(n)];
      ghost var mem0 := dev.world.mem;
      dev.world := dev.world.(mem := Splice(dev.world.mem, l.data, buf[..BufferBytes(n)]));
      ghost var mem1 := dev.world.mem;
      r := DoRequest(VIRTIO_BLK_T_OUT, sector, n, l, delay);
      CopiedElsewhere(mem0, mem1, dev.world.mem, l, buf[..BufferBytes(n)], Moved(n));
    }

    /** Any run of requests, one at a time, is a run of the plain array. */
    method Run(reqs: seq<Req>) returns (results: seq<Result<seq<u8>, BlkError>>)
      requires Idle() && queue.size >= 3
      requires forall i :: 0 <= i < |reqs| ==> reqs[i].Fits(|dev.world.mem|)
      modifies dev`world, dev.side, queue, queue.desc, queue.avail, queue.used
      ensures Idle()
      ensures (dev.world.disk, results) == ArrayRun(old(dev.world.disk), reqs)
      ensures (forall i :: 0 <= i < |reqs| ==> reqs[i].n < 0x80_0000) ==>
        (dev.world.disk, results) == PlainRun(old(dev.world.disk), reqs)
    {
      hide Inv, RingInv, Residue, Execute;
      results := [];
      for i := 0 to |reqs|
        invariant Idle() && |dev.world.mem| == old(|dev.world.mem|)
        invariant (dev.world.disk, results) == ArrayRun(old(dev.world.disk), reqs[..i])
      {
        assert reqs[..i + 1][..i] == reqs[..i];
        assert reqs[i].Fits(|dev.world.mem|);
        var res := RunOne(reqs[i]);
        results := results + [res];
      }
      assert reqs[..|reqs|] == reqs;
      if forall i :: 0 <= i < |reqs| ==> reqs[i].n < 0x80_0000 {
        RunIsPlain(old(dev.world.disk), reqs);
      }
    }

    method RunOne(req: Req) returns (res: Result<seq<u8>, BlkError>)
      requires Idle() && queue.size >= 3 && req.Fits(|dev.world.mem|)
      modifies dev`world, dev.side, queue, queue.desc, queue.avail, queue.used
      ensures Idle() && |dev.world.mem| == old(|dev.world.mem|)
      ensures (dev.world.disk, res) == ArrayStep(old(dev.world.disk), req)
    {
      hide Inv, RingInv, Residue, Execute;
      match req
      case Read(sector, n, l, bufLen, delay) =>
        var r := ReadSectors(sector, n, l, bufLen, delay);
        res := if r.Ok? then Ok(dev.world.mem[l.data .. l.data + 512 * Moved(n)]) else Err(r.error);
      case Write(sector, n, buf, l, delay) =>
        var r := WriteSectors(sector, n, buf, l, delay);
        res := if r.Ok? then Ok([]) else Err(r.error);
    }
  }

  // ---- the array of sectors, as driven and as promised ----

  /** A request with the places its buffers happen to occupy and the device's delay. */
  datatype Req =
    | Read(sector: u64, n: u64, l: Layout, bufLen: nat, delay: nat)
    | Write(sector: u64, n: u64, buf: seq<u8>, l: Layout, delay: nat)
  {
    ghost predicate Fits(memSize: nat) {
      match this
      case Read(_, _, l, bufLen, _) => PlacedIn(memSize, l, bufLen)
      case Write(_, n, buf, l, _) => PlacedIn(memSize, l, if |buf| < BufferBytes(n) then 0 else BufferBytes(n))
    }
  }

  /** What the driver does: `Moved(n)` sectors, after a size check that wraps at 2^64. */
  function ArrayStep(disk: seq<u8>, req: Req): (seq<u8>, Result<seq<u8>, BlkError>) {
    var m := Moved(req.n);
    MovedFits(req.n, BufferBytes(req.n));
    if (if req.Read? then req.bufLen else |req.buf|) < BufferBytes(req.n) then (disk, Err(BufferTooSmall))
    else if 512 * (req.sector + m) > |disk| then (disk, Err(DeviceError))
    else if req.Read? then (disk, Ok(ReadSpec(disk, req.sector, m)))
    else (WriteSpec(disk, req.sector, req.buf[..512 * m]), Ok([]))
  }

  /** The array of sectors the driver promises: `n` whole sectors, sizes without bound. */
  function PlainStep(disk: seq<u8>, req: Req): (seq<u8>, Result<seq<u8>, BlkError>) {
    if (if req.Read? then req.bufLen else |req.buf|) < 512 * req.n then (disk, Err(BufferTooSmall))
    else if 512 * (req.sector + req.n) > |disk| then (disk, Err(DeviceError))
    else if req.Read? then (disk, Ok(ReadSpec(disk, req.sector, req.n)))
    else (WriteSpec(disk, req.sector, req.buf[..512 * req.n]), Ok([]))
  }

  function PlainRun(disk: seq<u8>, reqs: seq<Req>): (seq<u8>, seq<Result<seq<u8>, BlkError>>) {
    if reqs == [] then (disk, [])
    else
      var (d, rs) := PlainRun(disk, reqs[..|reqs| - 1]);
      var (d', r) := PlainStep(d, reqs[|reqs| - 1]);
      (d', rs + [r])
  }

  /** Both steps refuse, or the truncation of the byte count does not show. */
  predicate Harmless(disk: seq<u8>, req: Req) {
    || req.n < 0x80_0000
    || (if req.Read? then req.bufLen else |req.buf|) < BufferBytes(req.n)
    || (req.n < 0x80_0000_0000_0000 && 512 * (req.sector + Moved(req.n)) > |disk|)
  }

  /** A read answers as the plain array does iff one of those holds. */
  lemma ReadExact(disk: seq<u8>, req: Req)
    requires req.Read? && req.bufLen < 0x1_0000_0000_0000_0000
    ensures ArrayStep(disk, req) == PlainStep(disk, req) <==> Harmless(disk, req)
  {
    MovedFacts(req.n);
    var m := Moved(req.n);
    if req.n >= 0x80_0000 && ArrayStep(disk, req).1.Ok? && PlainStep(disk, req).1.Ok? {
      assert |ArrayStep(disk, req).1.value| == 512 * m != |PlainStep(disk, req).1.value|;
    }
  }

  /** The bytes of a write that the truncation drops are on the medium already. */
  predicate DroppedAnyway(disk: seq<u8>, req: Req)
    requires req.Write?
  {
    && 512 * req.n <= |req.buf| && 512 * (req.sector + req.n) <= |disk|
    && Present(disk, 512 * req.sector, req.buf, 512 * Moved(req.n), 512 * req.n)
  }

  /** A write does as the plain array does iff one of those holds or the dropped bytes make no difference. */
  lemma WriteExact(disk: seq<u8>, req: Req)
    requires req.Write? && |req.buf| < 0x1_0000_0000_0000_0000
    ensures ArrayStep(disk, req) == PlainStep(disk, req) <==> Harmless(disk, req) || DroppedAnyway(disk, req)
  {
    MovedFacts(req.n);
    hide Moved, BufferBytes, WriteSpec;
    if req.n < 0x80_0000 {
      SmallStep(disk, req);
    } else if |req.buf| >= BufferBytes(req.n) && req.n < 0x80_0000_0000_0000 {
      LargeWrite(disk, req);
    }
  }

  lemma LargeWrite(disk: seq<u8>, req: Req)
    requires req.Write? && 0x80_0000 <= req.n < 0x80_0000_0000_0000 && |req.buf| >= BufferBytes(req.n)
    ensures ArrayStep(disk, req) == PlainStep(disk, req)
       <==> 512 * (req.sector + Moved(req.n)) > |disk| || DroppedAnyway(disk, req)
  {
    MovedFacts(req.n);
    hide Moved, BufferBytes, Splice;
    if 512 * (req.sector + req.n) <= |disk| {
      hide Present;
      SameWrite(disk, 512 * req.sector, req.buf, 512 * Moved(req.n), 512 * req.n);
    }
  }

  /** `disk` holds buf[j..k] where a write of `buf` at `at` would put it. */
  predicate Present(disk: seq<u8>, at: nat, buf: seq<u8>, j: nat, k: nat)
    requires j <= k <= |buf| && at + k <= |disk|
  {
    forall i :: j <= i < k ==> buf[i] == disk[at + i]
  }

  /** Memory outside the two boxes and `len` bytes of data is unchanged. */
  ghost predicate ElsewhereSame(mem: seq<u8>, mem': seq<u8>, l: Layout, len: nat) {
    && |mem'| == |mem|
    && forall i :: 0 <= i < |mem| && i != l.status && !(l.header <= i < l.header + 16) && !(l.data <= i < l.data + len) ==>
      mem'[i] == mem[i]
  }

  lemma CopiedElsewhere(mem: seq<u8>, copied: seq<u8>, after: seq<u8>, l: Layout, d: seq<u8>, m: nat)
    requires l.data + |d| <= |mem| && copied == Splice(mem, l.data, d) && |after| == |mem| && 512 * m <= |d|
    requires forall i :: 0 <= i < |mem| && !InRequest(l, m, i) ==> after[i] == copied[i]
    ensures ElsewhereSame(mem, after, l, |d|)
  {
    hide Splice;
  }

  lemma SplicedPrefix(mem: seq<u8>, at: nat, d: seq<u8>, k: nat)
    requires at + |d| <= |mem| && k <= |d|
    ensures Splice(mem, at, d)[at .. at + k] == d[..k]
  {
  }

  /** Writing a prefix is writing the whole iff the rest is there already. */
  lemma SameWrite(disk: seq<u8>, at: nat, buf: seq<u8>, j: nat, k: nat)
    requires j <= k <= |buf| && at + k <= |disk|
    ensures Splice(disk, at, buf[..j]) == Splice(disk, at, buf[..k]) <==> Present(disk, at, buf, j, k)
  {
    hide Splice;
    var x, y := Splice(disk, at, buf[..j]), Splice(disk, at, buf[..k]);
    if x == y {
      forall i | j <= i < k ensures buf[i] == disk[at + i] {
        assert x[at + i] == y[at + i];
      }
    }
    if Present(disk, at, buf, j, k) {
      forall i | 0 <= i < |disk| ensures x[i] == y[i] {
        if at + j <= i < at + k { assert buf[i - at] == disk[at + (i - at)]; }
      }
    }
  }

  lemma MovedFacts(n: u64)
    ensures Moved(n) <= n && (Moved(n) == n <==> n < 0x80_0000)
    ensures BufferBytes(n) <= 512 * n && (BufferBytes(n) == 512 * n <==> n < 0x80_0000_0000_0000)
    ensures BufferBytes(n) < 0x1_0000_0000_0000_0000
  {
    MovedIsTruncation(n);
  }

  /** 2^23 sectors asked for: the answer is Ok, and nothing was moved. */
  lemma EightMillionSectors(disk: seq<u8>, l: Layout, delay: nat)
    ensures ArrayStep(disk, Read(0, 0x80_0000, l, 0x1_0000_0000, delay)) == (disk, Ok([]))
    ensures PlainStep(disk, Read(0, 0x80_0000, l, 0x1_0000_0000, delay)).1 != Ok([])
  {
    var req := Read(0, 0x80_0000, l, 0x1_0000_0000, delay);
    MovedFacts(0x80_0000);
    assert Moved(0x80_0000) == 0;
    assert ReadSpec(disk, 0, 0) == [];
  }

  /** Below 2^23 sectors per request the driver is the plain array, over whole runs. */
  lemma {:induction false} RunIsPlain(disk: seq<u8>, reqs: seq<Req>)
    requires forall i :: 0 <= i < |reqs| ==> reqs[i].n < 0x80_0000
    ensures ArrayRun(disk, reqs) == PlainRun(disk, reqs)
  {
    hide ArrayStep, PlainStep;
    if reqs != [] {
      var last := |reqs| - 1;
      RunIsPlain(disk, reqs[..last]);
      SmallStep(ArrayRun(disk, reqs[..last]).0, reqs[last]);
    }
  }

  lemma SmallStep(disk: seq<u8>, req: Req)
    requires req.n < 0x80_0000
    ensures ArrayStep(disk, req) == PlainStep(disk, req)
  {
    MovedFacts(req.n);
  }

  function ArrayRun(disk: seq<u8>, reqs: seq<Req>): (seq<u8>, seq<Result<seq<u8>, BlkError>>) {
    if reqs == [] then (disk, [])
    else
      var (d, rs) := ArrayRun(disk, reqs[..|reqs| - 1]);
      var (d', r) := ArrayStep(d, reqs[|reqs| - 1]);
      (d', rs + [r])
  }

  lemma MovedFits(n: u64, k: nat)
    requires k >= BufferBytes(n)
    ensures 512 * Moved(n) <= k
  {
    MovedIsTruncation(n);
  }

  /** `n * SECTOR_SIZE` in a 64-bit usize. */
  function BufferBytes(n: u64): nat {
    n * 512 % 0x1_0000_0000_0000_0000
  }

  /** `(n * SECTOR_SIZE) as u32` */
  method ByteLength(n: u64) returns (len: u32)
    ensures len == 512 * Moved(n)
  {
    MovedIsTruncation(n);
    len := n * 512 % 0x1_0000_0000;
  }

  lemma RequestServed(w: World, p: seq<u8>, l: Layout, ty: u32, sector: u64, m: nat, c: seq<Desc>)
    requires 512 * m < 0x1_0000_0000 && Placed(w.mem, l, 512 * m) && Ready(w.mem, p, l, ty, sector)
    requires ty == VIRTIO_BLK_T_IN || ty == VIRTIO_BLK_T_OUT
    requires SameButNext(c, ChainFor(l, ty, 512 * m))
    ensures Served(w, Execute(World(p, w.disk), c).0, l, ty, sector, m)
  {
    ExecutePerforms(w.mem, p, w.disk, l, ty, sector, m, c);
    PerformServes(w, p, l, ty, sector, m, c[1]);
  }
}
