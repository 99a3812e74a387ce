/**
 The descriptor table of a split virtqueue as a value: a free list threaded through
 the `next` fields and, beside it, the chains that are in flight. The class in
 Virtqueue.dfy keeps `Inv` between its real fields and a `Table`.
 */
module DescTable {
  import opened Machine

  const VRING_DESC_F_NEXT: u16 := 1
  const VRING_DESC_F_WRITE: u16 := 2

  datatype Desc = Desc(addr: u64, len: u32, flags: u16, next: u16)

  /** `free` in allocation order; `chains` by head index, each in link order. */
  datatype Table = Table(free: seq<nat>, chains: map<nat, seq<nat>>)

  predicate HasNext(flags: u16) {
    BitAnd(flags, VRING_DESC_F_NEXT) != 0
  }

  predicate Distinct(s: seq<nat>) {
    forall i, j :: 0 <= i < j < |s| ==> s[i] != s[j]
  }

  /** Every index below `size` is on the free list or in exactly one chain. */
  ghost predicate Partition(t: Table, size: nat) {
    Separate(t, size) && Covers(t, size)
  }

  ghost predicate Separate(t: Table, size: nat) {
    && IsBlock(t.free, size)
    && (forall h :: h in t.chains ==> IsBlock(t.chains[h], size) && t.chains[h] != [] && t.chains[h][0] == h)
    && (forall h :: h in t.chains ==> Apart(t.free, t.chains[h]))
    && (forall h, g :: h in t.chains && g in t.chains && h != g ==> Apart(t.chains[h], t.chains[g]))
  }

  ghost predicate Covers(t: Table, size: nat) {
    forall i :: 0 <= i < size ==> i in t.free || InSomeChain(t, i)
  }

  ghost predicate IsBlock(c: seq<nat>, size: nat) {
    Distinct(c) && forall k :: 0 <= k < |c| ==> c[k] < size
  }

  ghost predicate Apart(c: seq<nat>, d: seq<nat>) {
    forall j, k :: 0 <= j < |c| && 0 <= k < |d| ==> c[j] != d[k]
  }

  ghost predicate InSomeChain(t: Table, i: nat) {
    exists h :: h in t.chains && i in t.chains[h]
  }

  ghost predicate FreeLinked(desc: seq<Desc>, freeHead: nat, free: seq<nat>)
    requires IsBlock(free, |desc|)
  {
    && (free != [] ==> freeHead == free[0])
    && forall j, k :: 0 <= j < k < |free| && k == j + 1 ==> desc[free[j]].next == free[k]
  }

  ghost predicate ChainLinked(desc: seq<Desc>, c: seq<nat>)
    requires IsBlock(c, |desc|)
  {
    && (forall k :: 0 <= k < |c| ==> (HasNext(desc[c[k]].flags) <==> k < |c| - 1))
    && (forall j, k :: 0 <= j < k < |c| && k == j + 1 ==> desc[c[j]].next == c[k])
  }

  /** The fields of the queue represent the table. */
  ghost predicate Inv(desc: seq<Desc>, freeHead: nat, t: Table) {
    && Partition(t, |desc|)
    && FreeLinked(desc, freeHead, t.free)
    && forall h :: h in t.chains ==> ChainLinked(desc, t.chains[h])
  }

  // ---- the three pointer updates every operation is made of ----

  function TakeOne(t: Table): Table
    requires t.free != []
  {
    Table(t.free[1..], t.chains[t.free[0] := [t.free[0]]])
  }

  function Link(t: Table, head: nat, next: nat): Table
    requires head in t.chains
  {
    Table(t.free, (t.chains - {next})[head := t.chains[head] + [next]])
  }

  function Release(t: Table, head: nat): Table
    requires head in t.chains && t.chains[head] != []
  {
    var c := t.chains[head];
    var rest := t.chains - {head};
    Table([head] + t.free, if |c| == 1 then rest else rest[c[1] := c[1..]])
  }

  lemma TakeOnePartition(t: Table, size: nat)
    requires Partition(t, size) && t.free != []
    ensures Partition(TakeOne(t), size)
  {
    TakeOneSeparate(t, size);
    hide Separate;
    var t', h := TakeOne(t), t.free[0];
    assert t.free == [h] + t'.free;
    forall i | 0 <= i < size ensures i in t'.free || InSomeChain(t', i) {
      assert i in t.free || InSomeChain(t, i);
      if i == h {
        assert h in t'.chains && i in t'.chains[h];
      } else if i !in t.free {
        var g :| g in t.chains && i in t.chains[g];
        FreshHead(t, size, g);
        assert g in t'.chains && i in t'.chains[g];
      }
    }
  }

  lemma FreshHead(t: Table, size: nat, g: nat)
    requires Separate(t, size) && t.free != [] && g in t.chains
    ensures g != t.free[0]
  {
    assert Apart(t.free, t.chains[g]) && t.chains[g][0] == g;
  }

  lemma TakeOneSeparate(t: Table, size: nat)
    requires Separate(t, size) && t.free != []
    ensures Separate(TakeOne(t), size)
  {
    var t', h := TakeOne(t), t.free[0];
    RestApart(t.free, size);
    forall g | g in t.chains
      ensures g != h && Apart(t'.free, t.chains[g]) && Apart([h], t.chains[g]) && Apart(t.chains[g], [h])
    {
      FreshHead(t, size, g);
      ApartParts(t.free, t.chains[g]);
    }
  }

  lemma RestApart(c: seq<nat>, size: nat)
    requires IsBlock(c, size) && c != []
    ensures IsBlock(c[1..], size) && IsBlock([c[0]], size) && Apart(c[1..], [c[0]]) && Apart([c[0]], c[1..])
  {
  }

  lemma ApartParts(c: seq<nat>, d: seq<nat>)
    requires Apart(c, d) && c != []
    ensures Apart(c[1..], d) && Apart([c[0]], d) && Apart(d, [c[0]]) && Apart(d, c[1..])
  {
  }

  lemma TakeOneKeeps(desc: seq<Desc>, freeHead: u16, t: Table)
    requires Inv(desc, freeHead, t) && t.free != []
    ensures freeHead == t.free[0] < |desc|
    ensures Inv(desc[freeHead := Desc(0, 0, 0, 0)], desc[freeHead].next, TakeOne(t))
  {
    TakeOnePartition(t, |desc|);
  }

  lemma LinkPartition(t: Table, size: nat, head: nat, next: nat)
    requires Partition(t, size) && head in t.chains && next in t.chains && head != next && t.chains[next] == [next]
    ensures Partition(Link(t, head, next), size)
  {
    LinkSeparate(t, size, head, next);
    var t' := Link(t, head, next);
    forall i | 0 <= i < size && i !in t.free ensures InSomeChain(t', i) {
      var g :| g in t.chains && i in t.chains[g];
      var g' := if g == next then head else g;
      assert g' in t'.chains && i in t'.chains[g'];
    }
  }

  lemma LinkSeparate(t: Table, size: nat, head: nat, next: nat)
    requires Separate(t, size) && head in t.chains && next in t.chains && head != next && t.chains[next] == [next]
    ensures Separate(Link(t, head, next), size)
  {
    var t', c := Link(t, head, next), t.chains[head];
    var c' := c + [next];
    ApartConcat(t.free, c, [next]);
    assert Apart(c, t.chains[next]);
    assert IsBlock(c', size);
    forall g | g in t'.chains && g != head ensures Apart(t.chains[g], c') && Apart(c', t.chains[g]) {
      ApartConcat(t.chains[g], c, [next]);
    }
  }

  lemma ApartConcat(a: seq<nat>, c: seq<nat>, d: seq<nat>)
    requires Apart(a, c) && Apart(a, d)
    ensures Apart(a, c + d) && Apart(c + d, a)
  {
  }

  lemma LinkKeeps(desc: seq<Desc>, freeHead: u16, t: Table, head: nat, prev: nat, next: u16)
    requires Inv(desc, freeHead, t)
    requires head in t.chains && next in t.chains && head != next && t.chains[next] == [next as nat]
    requires prev == t.chains[head][|t.chains[head]| - 1]
    ensures prev < |desc| && BitOr(desc[prev].flags, VRING_DESC_F_NEXT) < 0x1_0000
    ensures Inv(desc[prev := desc[prev].(flags := BitOr(desc[prev].flags, VRING_DESC_F_NEXT), next := next)],
                freeHead, Link(t, head, next))
  {
    hide BitOr, BitAnd, Covers;
    var c := t.chains[head];
    var f := BitOr(desc[prev].flags, VRING_DESC_F_NEXT);
    SetNextFlag(desc[prev].flags);
    var desc' := desc[prev := desc[prev].(flags := f, next := next)];
    LinkPartition(t, |desc|, head, next);
    KeepsFree(desc, desc', freeHead, t.free, prev);
    GrownChain(desc, desc', c, next);
    forall g | g in t.chains && g != head ensures ChainLinked(desc', t.chains[g]) {
      assert Apart(c, t.chains[g]);
      KeepsChain(desc, desc', t.chains[g], prev);
    }
  }

  lemma KeepsFree(desc: seq<Desc>, desc': seq<Desc>, freeHead: nat, free: seq<nat>, i: nat)
    requires IsBlock(free, |desc|) && FreeLinked(desc, freeHead, free) && i < |desc| && i !in free
    requires |desc'| == |desc| && forall k :: 0 <= k < |desc| && k != i ==> desc'[k] == desc[k]
    ensures FreeLinked(desc', freeHead, free)
  {
  }

  lemma KeepsChain(desc: seq<Desc>, desc': seq<Desc>, c: seq<nat>, i: nat)
    requires IsBlock(c, |desc|) && ChainLinked(desc, c) && i < |desc| && i !in c
    requires |desc'| == |desc| && forall k :: 0 <= k < |desc| && k != i ==> desc'[k] == desc[k]
    ensures ChainLinked(desc', c)
  {
  }

  lemma PushedFree(desc: seq<Desc>, freeHead: nat, free: seq<nat>, head: nat)
    requires IsBlock(free, |desc|) && IsBlock([head] + free, |desc|) && FreeLinked(desc, freeHead, free)
    requires head < |desc| && desc[head].next == freeHead
    ensures FreeLinked(desc, head, [head] + free)
  {
    assert ([head] + free)[0] == head;
    forall j, k | 0 <= j < k < |[head] + free| && k == j + 1
      ensures desc[([head] + free)[j]].next == ([head] + free)[k]
    {
      if j > 0 { assert desc[free[j - 1]].next == free[k - 1]; }
    }
  }

  lemma ShortenedChain(desc: seq<Desc>, desc': seq<Desc>, c: seq<nat>)
    requires c != [] && IsBlock(c, |desc|) && IsBlock(c[1..], |desc|) && ChainLinked(desc, c)
    requires |desc'| == |desc| && forall k :: 0 <= k < |desc| && k != c[0] ==> desc'[k] == desc[k]
    ensures ChainLinked(desc', c[1..])
  {
    var d := c[1..];
    forall k | 0 <= k < |d| ensures HasNext(desc'[d[k]].flags) <==> k < |d| - 1 {
      assert d[k] == c[k + 1];
    }
    forall j, k | 0 <= j < k < |d| && k == j + 1 ensures desc'[d[j]].next == d[k] {
      assert d[j] == c[j + 1] && d[k] == c[k + 1];
    }
  }

  lemma GrownChain(desc: seq<Desc>, desc': seq<Desc>, c: seq<nat>, next: u16)
    requires IsBlock(c, |desc|) && IsBlock([next as nat], |desc|) && IsBlock(c + [next as nat], |desc|) && c != []
    requires ChainLinked(desc, c) && ChainLinked(desc, [next as nat])
    requires |desc'| == |desc| && forall k :: 0 <= k < |desc| && k != c[|c| - 1] ==> desc'[k] == desc[k]
    requires HasNext(desc'[c[|c| - 1]].flags) && desc'[c[|c| - 1]].next == next
    ensures ChainLinked(desc', c + [next as nat])
  {
    var d := c + [next as nat];
    var n := |c| - 1;
    assert d[n] == c[n] && d[n + 1] == next != d[n];
    assert !HasNext(desc[[next as nat][0]].flags);
    forall k | 0 <= k < |d| ensures HasNext(desc'[d[k]].flags) <==> k < |d| - 1 {
      if k < n { assert d[k] == c[k] != c[n]; }
    }
    forall j, k | 0 <= j < k < |d| && k == j + 1 ensures desc'[d[j]].next == d[k] {
      if k <= n { assert d[j] == c[j] != c[n] && d[k] == c[k]; }
    }
  }

  lemma SetNextFlag(f: u16)
    ensures BitOr(f, VRING_DESC_F_NEXT) < 0x1_0000 && HasNext(BitOr(f, VRING_DESC_F_NEXT))
  {
    assert BitOr(f / 2, 0) == f / 2;
  }

  lemma ReleasePartition(t: Table, size: nat, head: nat)
    requires Partition(t, size) && head in t.chains
    ensures Partition(Release(t, head), size)
  {
    ReleaseSeparate(t, size, head);
    var t', c := Release(t, head), t.chains[head];
    assert c == [head] + c[1..];
    forall i | 0 <= i < size && i !in t'.free ensures InSomeChain(t', i) {
      assert i !in t.free;
      var g :| g in t.chains && i in t.chains[g];
      if g == head {
        assert i in c[1..];
        assert c[1] in t'.chains && i in t'.chains[c[1]];
      } else {
        assert Apart(c, t.chains[g]);
        assert g in t'.chains && i in t'.chains[g];
      }
    }
  }

  lemma ReleaseSeparate(t: Table, size: nat, head: nat)
    requires Separate(t, size) && head in t.chains
    ensures Separate(Release(t, head), size)
  {
    var t', c := Release(t, head), t.chains[head];
    RestApart(c, size);
    ApartParts(c, t.free);
    FrontBlock(t.free, c, size);
    forall g | g in t.chains && g != head
      ensures Apart(t'.free, t.chains[g]) && Apart(c[1..], t.chains[g]) && Apart(t.chains[g], c[1..])
    {
      ApartParts(c, t.chains[g]);
      FrontApart(head, t.free, t.chains[g]);
    }
  }

  lemma FrontBlock(free: seq<nat>, c: seq<nat>, size: nat)
    requires IsBlock(free, size) && IsBlock(c, size) && c != [] && Apart(free, c)
    ensures IsBlock([c[0]] + free, size) && Apart([c[0]] + free, c[1..])
  {
  }

  lemma FrontApart(h: nat, free: seq<nat>, d: seq<nat>)
    requires Apart([h], d) && Apart(free, d)
    ensures Apart([h] + free, d)
  {
    assert [h][0] == h;
  }

  lemma ReleaseKeeps(desc: seq<Desc>, freeHead: u16, t: Table, head: nat)
    requires Inv(desc, freeHead, t) && head in t.chains
    ensures head < |desc|
    ensures HasNext(desc[head].flags) <==> |t.chains[head]| > 1
    ensures |t.chains[head]| > 1 ==> desc[head].next == t.chains[head][1]
    ensures Inv(desc[head := desc[head].(flags := VRING_DESC_F_NEXT, next := freeHead)], head, Release(t, head))
  {
    var c, t' := t.chains[head], Release(t, head);
    var desc' := desc[head := desc[head].(flags := VRING_DESC_F_NEXT, next := freeHead)];
    ReleasePartition(t, |desc|, head);
    hide HasNext;
    assert ChainLinked(desc, c);
    assert Apart(t.free, c);
    KeepsFree(desc, desc', freeHead, t.free, head);
    PushedFree(desc', freeHead, t.free, head);
    ShortenedChain(desc, desc', c);
    forall g | g in t.chains && g != head ensures ChainLinked(desc', t.chains[g]) {
      assert Apart(c, t.chains[g]);
      KeepsChain(desc, desc', t.chains[g], head);
    }
  }

  /** A driver rewrites a descriptor without touching its link. */
  lemma EditKeeps(desc: seq<Desc>, freeHead: nat, t: Table, i: nat, d: Desc)
    requires Inv(desc, freeHead, t) && i < |desc|
    requires d.next == desc[i].next && (HasNext(d.flags) <==> HasNext(desc[i].flags))
    ensures Inv(desc[i := d], freeHead, t)
  {
    forall h | h in t.chains ensures ChainLinked(desc[i := d], t.chains[h]) {}
  }

  // ---- whole operations ----

  function UpTo(n: nat): (r: seq<nat>)
    ensures |r| == n && forall i :: 0 <= i < n ==> r[i] == i
  {
    if n == 0 then [] else UpTo(n - 1) + [n - 1]
  }

  function Initial(size: nat): Table {
    Table(UpTo(size), map[])
  }

  /** The table after the first `k` descriptors have moved into a chain. */
  function Carved(t: Table, k: nat): Table
    requires 1 <= k <= |t.free|
  {
    Table(t.free[k..], t.chains[t.free[0] := t.free[..k]])
  }

  /** The table after the first `k` descriptors of a chain are back on the free list. */
  function Returned(t: Table, head: nat, k: nat): Table
    requires head in t.chains && k <= |t.chains[head]|
  {
    var c, rest := t.chains[head], t.chains - {head};
    Table(Reverse(c[..k]) + t.free, if k == |c| then rest else rest[c[k] := c[k..]])
  }

  function Reverse(s: seq<nat>): (r: seq<nat>)
    ensures |r| == |s| && forall k :: 0 <= k < |s| ==> r[k] == s[|s| - 1 - k]
  {
    seq(|s|, k requires 0 <= k < |s| => s[|s| - 1 - k])
  }

  /**
   `alloc_chain(n)`: the guard compares `n` truncated to 16 bits, and the loop hands
   out descriptors until it has `n` or the free list is empty.
   */
  function AllocChain(t: Table, n: nat): (Table, Option<nat>) {
    if n == 0 || n % 0x1_0000 > |t.free| || t.free == [] then (t, None)
    else if n <= |t.free| then (Carved(t, n), Some(t.free[0]))
    else (Carved(t, |t.free|), None)
  }

  function FreeChain(t: Table, head: nat): Table
    requires head in t.chains
  {
    Table(Reverse(t.chains[head]) + t.free, t.chains - {head})
  }

  /** Distinct indices below `size` number at most `size`. */
  lemma {:induction false} BlockBound(c: seq<nat>, size: nat)
    requires IsBlock(c, size)
    ensures |c| <= size
  {
    if c != [] {
      assert c[0] < size;
      var last := size - 1;
      if last in c {
        var k :| 0 <= k < |c| && c[k] == last;
        var rest := c[..k] + c[k + 1..];
        BlockBound(rest, last);
      } else {
        BlockBound(c, last);
      }
    }
  }

  lemma FreeIsNoHead(t: Table, size: nat, k: nat)
    requires Partition(t, size) && k < |t.free|
    ensures t.free[k] !in t.chains
  {
    forall g | g in t.chains ensures g != t.free[k] {
      assert Apart(t.free, t.chains[g]);
    }
  }

  lemma InnerIsNoHead(t: Table, size: nat, head: nat, k: nat)
    requires Partition(t, size) && head in t.chains && k < |t.chains[head]|
    ensures t.chains[head][k] == head || t.chains[head][k] !in t.chains
  {
    forall g | g in t.chains && g != head ensures g != t.chains[head][k] {
      assert Apart(t.chains[head], t.chains[g]);
    }
  }

  lemma CarvedFirst(t: Table)
    requires t.free != []
    ensures Carved(t, 1) == TakeOne(t)
  {
    assert t.free[..1] == [t.free[0]];
  }

  lemma CarvedStep(t: Table, size: nat, k: nat)
    requires Partition(t, size) && 1 <= k < |t.free|
    ensures var u := TakeOne(Carved(t, k));
      && t.free[0] in u.chains && t.free[k] in u.chains
      && t.free[0] != t.free[k] && u.chains[t.free[k]] == [t.free[k]] && u.chains[t.free[0]] == t.free[..k]
      && Carved(t, k + 1) == Link(u, t.free[0], t.free[k])
  {
    var h, n := t.free[0], t.free[k];
    FreeIsNoHead(t, size, k);
    var u := TakeOne(Carved(t, k));
    assert t.free[k..][1..] == t.free[k + 1..];
    assert t.free[..k + 1] == t.free[..k] + [n];
    assert u.chains - {n} == t.chains[h := t.free[..k]];
    assert (u.chains - {n})[h := t.free[..k + 1]] == t.chains[h := t.free[..k + 1]];
  }

  lemma {:induction false} CarvedPartition(t: Table, size: nat, k: nat)
    requires Partition(t, size) && 1 <= k <= |t.free|
    ensures Partition(Carved(t, k), size)
  {
    hide Partition;
    if k == 1 {
      TakeOnePartition(t, size);
      CarvedFirst(t);
    } else {
      CarvedPartition(t, size, k - 1);
      CarvedStep(t, size, k - 1);
      TakeOnePartition(Carved(t, k - 1), size);
      LinkPartition(TakeOne(Carved(t, k - 1)), size, t.free[0], t.free[k - 1]);
    }
  }

  lemma ReturnedEnds(t: Table, head: nat)
    requires head in t.chains && t.chains[head] != [] && t.chains[head][0] == head
    ensures Returned(t, head, 0) == t
    ensures Returned(t, head, |t.chains[head]|) == FreeChain(t, head)
  {
    var c := t.chains[head];
    assert c[..0] == [] && c[0..] == c && c[..|c|] == c;
    assert (t.chains - {head})[head := c] == t.chains;
    assert Reverse(c[..0]) + t.free == t.free;
  }

  lemma ReturnedStep(t: Table, size: nat, head: nat, k: nat)
    requires Partition(t, size) && head in t.chains && k < |t.chains[head]|
    ensures var c, u := t.chains[head], Returned(t, head, k);
      c[k] in u.chains && u.chains[c[k]] == c[k..] && Returned(t, head, k + 1) == Release(u, c[k])
  {
    var c := t.chains[head];
    InnerIsNoHead(t, size, head, k);
    assert (t.chains - {head})[c[k] := c[k..]] - {c[k]} == t.chains - {head};
    assert Reverse(c[..k + 1]) + t.free == [c[k]] + (Reverse(c[..k]) + t.free);
    assert c[k..][1..] == c[k + 1..];
  }

  lemma {:induction false} ReturnedPartition(t: Table, size: nat, head: nat, k: nat)
    requires Partition(t, size) && head in t.chains && k <= |t.chains[head]|
    ensures Partition(Returned(t, head, k), size)
  {
    hide Partition;
    if k == 0 {
      ChainHead(t, size, head);
      ReturnedEnds(t, head);
    } else {
      ReturnedPartition(t, size, head, k - 1);
      ReturnedStep(t, size, head, k - 1);
      ReleasePartition(Returned(t, head, k - 1), size, t.chains[head][k - 1]);
    }
  }

  lemma ChainHead(t: Table, size: nat, head: nat)
    requires Partition(t, size) && head in t.chains
    ensures t.chains[head] != [] && t.chains[head][0] == head
  {
  }

  /** No address, no length and no flag but NEXT on every descriptor of the chain. */
  ghost predicate Blank(desc: seq<Desc>, c: seq<nat>) {
    forall k :: 0 <= k < |c| ==>
      c[k] < |desc| && desc[c[k]] == Desc(0, 0, if k < |c| - 1 then VRING_DESC_F_NEXT else 0, desc[c[k]].next)
  }

  lemma BlankLast(desc: seq<Desc>, free: seq<nat>, k: nat)
    requires 1 <= k < |free| && IsBlock(free, |desc|) && Blank(desc, free[..k])
    ensures desc[free[k - 1]] == Desc(0, 0, 0, desc[free[k - 1]].next) && free[k - 1] != free[k]
    ensures BitOr(0, VRING_DESC_F_NEXT) == VRING_DESC_F_NEXT
  {
    assert free[..k][k - 1] == free[k - 1];
  }

  lemma BlankGrows(desc: seq<Desc>, desc': seq<Desc>, free: seq<nat>, k: nat)
    requires 1 <= k < |free| && IsBlock(free, |desc|) && Blank(desc, free[..k])
    requires |desc'| == |desc| && desc'[free[k]] == Desc(0, 0, 0, 0)
    requires desc'[free[k - 1]] == Desc(0, 0, VRING_DESC_F_NEXT, desc'[free[k - 1]].next)
    requires forall i :: 0 <= i < |desc| && i != free[k] && i != free[k - 1] ==> desc'[i] == desc[i]
    ensures Blank(desc', free[..k + 1])
  {
  }

  // ---- runs ----

  /** An edit is a driver's: address, length and flags, with the NEXT bit left as it is. */
  datatype Op = Alloc(n: nat) | Free(head: nat) | Edit(i: nat, addr: u64, len: u32, extra: u16)

  /** The table after a run; `None` when some step frees a chain that is not in flight. */
  function RunTable(t: Table, ops: seq<Op>): Option<Table>
    decreases |ops|
  {
    if ops == [] then Some(t)
    else match ops[0]
      case Alloc(n) => RunTable(AllocChain(t, n).0, ops[1..])
      case Free(h) => if h in t.chains then RunTable(FreeChain(t, h), ops[1..]) else None
      case Edit(_, _, _, _) => RunTable(t, ops[1..])
  }

  lemma RunNothing(t: Table, ops: seq<Op>)
    ensures RunTable(t, ops[..0]) == Some(t) && ops[0..] == ops
  {
  }

  lemma RunSplit(t: Table, ops: seq<Op>)
    requires ops != [] && RunTable(t, ops).Some?
    ensures RunTable(t, [ops[0]]).Some? && RunTable(RunTable(t, [ops[0]]).value, ops[1..]) == RunTable(t, ops)
    ensures ops[0].Free? ==> ops[0].head in t.chains
  {
    hide AllocChain, FreeChain;
    assert [ops[0]][1..] == [];
  }

  lemma {:induction false} RunSnoc(t: Table, ops: seq<Op>, op: Op)
    requires RunTable(t, ops).Some?
    ensures RunTable(t, ops + [op]) == RunTable(RunTable(t, ops).value, [op])
    decreases |ops|
  {
    hide AllocChain, FreeChain;
    if ops == [] {
      assert ops + [op] == [op];
    } else {
      assert (ops + [op])[0] == ops[0] && (ops + [op])[1..] == ops[1..] + [op];
      RunSplit(t, ops);
      assert [ops[0]][1..] == [];
      RunSnoc(RunTable(t, [ops[0]]).value, ops[1..], op);
    }
  }

  lemma HeadInRange(desc: seq<Desc>, freeHead: nat, t: Table, head: nat)
    requires Inv(desc, freeHead, t) && head in t.chains
    ensures head < |desc|
  {
    assert t.chains[head][0] == head;
  }

  /** In every run the free list and the in-flight chains partition the table. */
  lemma {:induction false} RunPartition(t: Table, size: nat, ops: seq<Op>)
    requires Partition(t, size) && RunTable(t, ops).Some?
    ensures Partition(RunTable(t, ops).value, size)
    decreases |ops|
  {
    hide Partition;
    if ops != [] {
      match ops[0]
      case Alloc(n) =>
        if t.free != [] { CarvedPartition(t, size, if 0 < n <= |t.free| then n else |t.free|); }
        RunPartition(AllocChain(t, n).0, size, ops[1..]);
      case Free(h) =>
        ChainHead(t, size, h);
        ReturnedEnds(t, h);
        ReturnedPartition(t, size, h, |t.chains[h]|);
        RunPartition(FreeChain(t, h), size, ops[1..]);
      case Edit(_, _, _, _) => RunPartition(t, size, ops[1..]);
    }
  }

  lemma InitialPartition(size: nat)
    ensures Partition(Initial(size), size)
  {
    forall i | 0 <= i < size ensures i in Initial(size).free {
      assert Initial(size).free[i] == i;
    }
  }

  /** The freshly built table: every descriptor free, linked in index order. */
  lemma InitialInv(desc: seq<Desc>)
    requires forall k :: 0 <= k < |desc| ==> desc[k].next == if k + 1 < |desc| then k + 1 else 0
    ensures Inv(desc, 0, Initial(|desc|))
  {
    InitialPartition(|desc|);
  }

  /**
   A failed allocation changes nothing, except that a request above 65535 whose low
   16 bits pass the guard drains the whole free list into a chain nobody is told about.
   */
  lemma AllocAllOrNothing(t: Table, size: nat, n: nat)
    requires Partition(t, size)
    ensures AllocChain(t, n).1.Some? <==> 0 < n <= |t.free| && n % 0x1_0000 <= |t.free|
    ensures (AllocChain(t, n).1.None? ==> AllocChain(t, n).0 == t)
            <==> !(t.free != [] && n % 0x1_0000 <= |t.free| < n)
    ensures AllocChain(t, n).1.None? && AllocChain(t, n).0 != t ==> AllocChain(t, n).0.free == []
  {
    var t' := AllocChain(t, n).0;
    if t.free != [] && n % 0x1_0000 <= |t.free| < n {
      assert t'.free == [] != t.free;
    }
  }

  /** 65536 descriptors asked of a queue of four: nothing is returned and nothing stays free. */
  lemma FourDrained()
    ensures AllocChain(Initial(4), 0x1_0000).1 == None && AllocChain(Initial(4), 0x1_0000).0.free == []
  {
  }

  /** Freeing what was just allocated puts the same descriptors back, in reverse order. */
  lemma FreeUndoesAlloc(t: Table, size: nat, n: nat)
    requires Partition(t, size) && 0 < n <= |t.free| && n < 0x1_0000
    ensures FreeChain(AllocChain(t, n).0, t.free[0]) == Table(Reverse(t.free[..n]) + t.free[n..], t.chains)
  {
    FreeIsNoHead(t, size, 0);
    assert t.chains[t.free[0] := t.free[..n]] - {t.free[0]} == t.chains;
  }
}
