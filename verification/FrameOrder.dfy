/**
 The frame allocator as a set of live frame numbers with a cyclic search hint.
 */
module FrameOrder {
  import opened Machine

  /** `(start + i) % n` for a start below `n` and at most one lap. */
  function Cyc(n: nat, start: nat, i: nat): nat {
    if start + i < n then start + i else start + i - n
  }

  lemma CycIsMod(n: nat, start: nat, i: nat)
    requires start < n && i <= n
    ensures (start + i) % n == Cyc(n, start, i) < n
  {
    if start + i < n {
      ModUnique(start + i, n, 0, start + i);
    } else {
      ModUnique(start + i, n, 1, start + i - n);
    }
  }

  /** Free frames met at laps `i..n` of a search from `start`, in search order. */
  function FreeFrom(n: nat, live: set<nat>, start: nat, i: nat): (r: seq<nat>)
    requires start < n
    ensures forall k :: 0 <= k < |r| ==> r[k] < n && r[k] !in live
    decreases n - i
  {
    if i >= n then []
    else
      var idx := Cyc(n, start, i);
      (if idx in live then [] else [idx]) + FreeFrom(n, live, start, i + 1)
  }

  /** Free frames in the cyclic order the allocator hands them out. */
  function FreeOrder(n: nat, live: set<nat>, hint: nat): (r: seq<nat>)
    requires hint < n
    ensures forall k :: 0 <= k < |r| ==> r[k] < n && r[k] !in live
  {
    FreeFrom(n, live, hint, 0)
  }

  lemma {:induction false} SkipLive(n: nat, live: set<nat>, start: nat, i: nat, k: nat)
    requires start < n && i <= k <= n && forall j :: i <= j < k ==> Cyc(n, start, j) in live
    ensures FreeFrom(n, live, start, i) == FreeFrom(n, live, start, k)
    decreases k - i
  {
    if i < k {
      assert Cyc(n, start, i) in live;
      SkipLive(n, live, start, i + 1, k);
    }
  }

  lemma AllLive(n: nat, live: set<nat>, start: nat)
    requires start < n && forall j :: 0 <= j < n ==> Cyc(n, start, j) in live
    ensures FreeOrder(n, live, start) == []
  {
    SkipLive(n, live, start, 0, n);
  }

  /** The frame `k` laps on is the first free one: taking it leaves the rest of the order. */
  lemma TakeFirst(n: nat, live: set<nat>, hint: nat, k: nat)
    requires hint < n && k < n && Cyc(n, hint, k) !in live
    requires forall j :: 0 <= j < k ==> Cyc(n, hint, j) in live
    ensures var idx := Cyc(n, hint, k); var order := FreeOrder(n, live, hint);
      && order != [] && order[0] == idx && Cyc(n, idx, 1) < n
      && FreeOrder(n, live + {idx}, Cyc(n, idx, 1)) == order[1..]
  {
    var idx := Cyc(n, hint, k);
    SkipLive(n, live, hint, 0, k);
    assert FreeFrom(n, live, hint, k) == [idx] + FreeFrom(n, live, hint, k + 1);
    Rotate(n, live, hint, k, 0);
  }

  lemma {:induction false} Rotate(n: nat, live: set<nat>, hint: nat, k: nat, j: nat)
    requires hint < n && k < n && j <= n - k - 1
    requires forall i :: 0 <= i < k ==> Cyc(n, hint, i) in live
    ensures var idx := Cyc(n, hint, k);
      FreeFrom(n, live + {idx}, Cyc(n, idx, 1), j) == FreeFrom(n, live, hint, k + 1 + j)
    decreases n - j
  {
    hide FreeFrom, Cyc;
    var idx := Cyc(n, hint, k);
    var s, live' := Cyc(n, idx, 1), live + {idx};
    NextStart(n, hint, k);
    if j < n - k - 1 {
      Ahead(n, hint, k, j);
      FreeFromNext(n, live', s, j);
      FreeFromNext(n, live, hint, k + 1 + j);
      Rotate(n, live, hint, k, j + 1);
    } else {
      forall i | j <= i < n ensures Cyc(n, s, i) in live' {
        Behind(n, hint, k, i);
      }
      SkipLive(n, live', s, j, n);
      FreeFromEnd(n, live', s);
      FreeFromEnd(n, live, hint);
    }
  }

  lemma NextStart(n: nat, hint: nat, k: nat)
    requires hint < n && k < n
    ensures Cyc(n, hint, k) < n && Cyc(n, Cyc(n, hint, k), 1) < n
  {
  }

  /** Before the lap closes, a search from behind `idx` meets what the first search met later. */
  lemma Ahead(n: nat, hint: nat, k: nat, j: nat)
    requires hint < n && k < n && j < n - k - 1
    ensures Cyc(n, Cyc(n, Cyc(n, hint, k), 1), j) == Cyc(n, hint, k + 1 + j) != Cyc(n, hint, k)
  {
  }

  /** After that it meets what the first search passed over, and `idx` last. */
  lemma Behind(n: nat, hint: nat, k: nat, i: nat)
    requires hint < n && k < n && n - k - 1 <= i < n
    ensures var s := Cyc(n, Cyc(n, hint, k), 1);
      Cyc(n, s, i) == if i == n - 1 then Cyc(n, hint, k) else Cyc(n, hint, i - (n - k - 1))
  {
  }

  lemma FreeFromNext(n: nat, live: set<nat>, start: nat, i: nat)
    requires start < n && i < n
    ensures FreeFrom(n, live, start, i)
         == (if Cyc(n, start, i) in live then [] else [Cyc(n, start, i)]) + FreeFrom(n, live, start, i + 1)
  {
  }

  lemma FreeFromEnd(n: nat, live: set<nat>, start: nat)
    requires start < n
    ensures FreeFrom(n, live, start, n) == []
  {
  }

  // ---- runs of allocations ----

  datatype Frames = Frames(live: set<nat>, hint: nat)

  function Alloc(n: nat, f: Frames): (Frames, Option<nat>) {
    if f.hint >= n then (f, None)
    else
      var order := FreeOrder(n, f.live, f.hint);
      if order == [] then (f, None)
      else (Frames(f.live + {order[0]}, Cyc(n, order[0], 1)), Some(order[0]))
  }

  /** Results of `m` consecutive allocations. */
  function AllocRun(n: nat, f: Frames, m: nat): seq<Option<nat>>
    decreases m
  {
    if m == 0 then [] else [Alloc(n, f).1] + AllocRun(n, Alloc(n, f).0, m - 1)
  }

  lemma {:induction false} FirstFree(n: nat, live: set<nat>, hint: nat, i: nat) returns (k: nat)
    requires hint < n && i <= n && FreeFrom(n, live, hint, i) != []
    ensures i <= k < n && Cyc(n, hint, k) !in live && forall j :: i <= j < k ==> Cyc(n, hint, j) in live
    decreases n - i
  {
    if Cyc(n, hint, i) in live {
      k := FirstFree(n, live, hint, i + 1);
    } else {
      k := i;
    }
  }

  /**
   From a state with k free frames exactly the next k allocations succeed, and they
   return the free frames in cyclic order from the hint.
   */
  lemma {:induction false} AllocRunExact(n: nat, f: Frames, m: nat)
    requires f.hint < n
    ensures |AllocRun(n, f, m)| == m
    ensures forall j :: 0 <= j < m ==>
      var order := FreeOrder(n, f.live, f.hint);
      AllocRun(n, f, m)[j] == if j < |order| then Some(order[j]) else None
    decreases m
  {
    hide FreeFrom;
    if m > 0 {
      var order := FreeOrder(n, f.live, f.hint);
      if order != [] {
        var k := FirstFree(n, f.live, f.hint, 0);
        TakeFirst(n, f.live, f.hint, k);
      }
      AllocRunExact(n, Alloc(n, f).0, m - 1);
    }
  }

  /** The order lists every free frame, so its length is the free count. */
  lemma {:induction false} FreeCount(n: nat, live: set<nat>, hint: nat)
    requires hint < n && forall x :: x in live ==> x < n
    ensures |FreeOrder(n, live, hint)| == n - |live|
    decreases |FreeOrder(n, live, hint)|
  {
    if FreeOrder(n, live, hint) == [] {
      forall x: nat | x < n ensures x in live {
        var i := if x >= hint then x - hint else x + n - hint;
        assert Cyc(n, hint, i) == x;
        NoneFree(n, live, hint, 0, i);
      }
      FullSet(n, live);
    } else {
      var k := FirstFree(n, live, hint, 0);
      TakeFirst(n, live, hint, k);
      var idx := Cyc(n, hint, k);
      FreeCount(n, live + {idx}, Cyc(n, idx, 1));
    }
  }

  lemma {:induction false} NoneFree(n: nat, live: set<nat>, start: nat, i: nat, k: nat)
    requires start < n && i <= k < n && FreeFrom(n, live, start, i) == []
    ensures Cyc(n, start, k) in live
    decreases k - i
  {
    if i < k { NoneFree(n, live, start, i + 1, k); }
  }

  lemma {:induction false} FullSet(n: nat, s: set<nat>)
    requires forall x: nat :: x in s <==> x < n
    ensures |s| == n
  {
    if n > 0 {
      FullSet(n - 1, s - {n - 1});
    } else {
      assert s == {};
    }
  }
}
