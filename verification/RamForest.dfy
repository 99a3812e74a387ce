/**
 The nodes of the filesystem as a forest, and what creating and removing an entry does
 to the resolution of every path.
 */
module RamForest {
  import opened Machine
  import opened Ramfs

  /** A snapshot of every node's data. */
  type Store = map<RamNode, NodeData>

  ghost predicate Edge(s: Store, d: RamNode, n: string, c: RamNode) {
    d in s && s[d].DirData? && n in s[d].entries && s[d].entries[n] == c
  }

  /** Directory entries lead to known nodes. */
  ghost predicate Closed(s: Store) {
    forall d, n :: d in s && s[d].DirData? && n in s[d].entries ==> s[d].entries[n] in s
  }

  /** Parents rank below their children. */
  ghost predicate Ranked(s: Store, rank: map<RamNode, nat>)
    requires s.Keys <= rank.Keys
  {
    forall d, n, c :: d in s && c in s && Edge(s, d, n, c) ==> rank[d] < rank[c]
  }

  /** Every node has at most one parent entry. */
  ghost predicate OneParent(s: Store) {
    forall d, n, d', n', c :: d in s && d' in s && c in s && Edge(s, d, n, c) && Edge(s, d', n', c) ==> d == d' && n == n'
  }

  ghost predicate Forest(s: Store, rank: map<RamNode, nat>) {
    Closed(s) && s.Keys <= rank.Keys && Ranked(s, rank) && OneParent(s)
  }

  /** The loop of `resolve` over path components. */
  ghost function Resolve(s: Store, cur: RamNode, path: seq<string>): (r: Result<RamNode, FsError>)
    requires Closed(s) && cur in s
    ensures r.Ok? ==> r.value in s
    decreases |path|
  {
    if path == [] then Ok(cur)
    else if s[cur].FileData? then Err(NotADirectory)
    else if path[0] !in s[cur].entries then Err(NotFound)
    else Resolve(s, s[cur].entries[path[0]], path[1..])
  }

  /** Resolving one more component. */
  ghost function Descend(s: Store, r: Result<RamNode, FsError>, n: string): Result<RamNode, FsError>
    requires r.Ok? ==> r.value in s
  {
    if r.Err? then r
    else if s[r.value].FileData? then Err(NotADirectory)
    else if n !in s[r.value].entries then Err(NotFound)
    else Ok(s[r.value].entries[n])
  }

  lemma {:induction false} ResolveSnoc(s: Store, cur: RamNode, path: seq<string>, n: string)
    requires Closed(s) && cur in s
    ensures Resolve(s, cur, path + [n]) == Descend(s, Resolve(s, cur, path), n)
    decreases |path|
  {
    if path == [] {
      assert (path + [n])[1..] == [];
    } else if s[cur].DirData? && path[0] in s[cur].entries {
      assert (path + [n])[1..] == path[1..] + [n];
      ResolveSnoc(s, s[cur].entries[path[0]], path[1..], n);
    }
  }

  /** The first `k` components lead to a directory without the next one. */
  ghost predicate MissingAt(s: Store, cur: RamNode, path: seq<string>, k: nat)
    requires Closed(s) && cur in s && k < |path|
  {
    var d := Resolve(s, cur, path[..k]);
    d.Ok? && s[d.value].DirData? && path[k] !in s[d.value].entries
  }

  /** The first `k` components lead to a file, and there are more. */
  ghost predicate FileAt(s: Store, cur: RamNode, path: seq<string>, k: nat)
    requires Closed(s) && cur in s && k < |path|
  {
    var d := Resolve(s, cur, path[..k]);
    d.Ok? && s[d.value].FileData?
  }

  /** Each error of a resolution, from what its prefixes lead to. */
  lemma {:induction false} ResolveErrors(s: Store, cur: RamNode, path: seq<string>)
    requires Closed(s) && cur in s
    ensures Resolve(s, cur, path) == Err(NotFound) <==> exists k :: 0 <= k < |path| && MissingAt(s, cur, path, k)
    ensures Resolve(s, cur, path) == Err(NotADirectory) <==> exists k :: 0 <= k < |path| && FileAt(s, cur, path, k)
    ensures Resolve(s, cur, path).Err? ==> Resolve(s, cur, path).error in {NotFound, NotADirectory}
    decreases |path|
  {
    if path != [] {
      hide Resolve, Closed, MissingAt, FileAt;
      var n := |path| - 1;
      assert path == path[..n] + [path[n]];
      ResolveSnoc(s, cur, path[..n], path[n]);
      ResolveErrors(s, cur, path[..n]);
      LastStep(s, cur, path);
      forall k | 0 <= k < n
        ensures MissingAt(s, cur, path[..n], k) <==> MissingAt(s, cur, path, k)
        ensures FileAt(s, cur, path[..n], k) <==> FileAt(s, cur, path, k)
      {
        EarlierStep(s, cur, path, n, k);
      }
    }
  }

  lemma LastStep(s: Store, cur: RamNode, path: seq<string>)
    requires Closed(s) && cur in s && path != []
    ensures var n := |path| - 1; var d := Resolve(s, cur, path[..n]);
      && (MissingAt(s, cur, path, n) <==> d.Ok? && Descend(s, d, path[n]) == Err(NotFound))
      && (FileAt(s, cur, path, n) <==> d.Ok? && Descend(s, d, path[n]) == Err(NotADirectory))
  {
    hide Resolve, Closed;
  }

  lemma EarlierStep(s: Store, cur: RamNode, path: seq<string>, n: nat, k: nat)
    requires Closed(s) && cur in s && k < n <= |path|
    ensures MissingAt(s, cur, path[..n], k) <==> MissingAt(s, cur, path, k)
    ensures FileAt(s, cur, path[..n], k) <==> FileAt(s, cur, path, k)
  {
    hide Resolve, Closed;
    assert path[..n][..k] == path[..k];
  }

  /** In a forest each node is reached by at most one path from a root. */
  lemma {:induction false} UniquePath(s: Store, rank: map<RamNode, nat>, root: RamNode, p: seq<string>, q: seq<string>)
    requires Forest(s, rank) && root in s && rank[root] == 0
    requires Resolve(s, root, p).Ok? && Resolve(s, root, p) == Resolve(s, root, q)
    ensures p == q
    decreases |p|
  {
    var x := Resolve(s, root, p).value;
    if p == [] || q == [] {
      if p != [] { LastEdge(s, root, p); } else if q != [] { LastEdge(s, root, q); }
    } else {
      LastEdge(s, root, p);
      LastEdge(s, root, q);
      UniquePath(s, rank, root, p[..|p| - 1], q[..|q| - 1]);
    }
  }

  lemma DescendOk(s: Store, r: Result<RamNode, FsError>, n: string)
    requires (r.Ok? ==> r.value in s) && Descend(s, r, n).Ok?
    ensures r.Ok? && Edge(s, r.value, n, Descend(s, r, n).value)
  {
  }

  /** When a path grows by one component, it comes to pass through `pd + [n]` only by being it. */
  lemma PrefixGrows(pd: seq<string>, n: string, q: seq<string>, m: string)
    ensures pd + [n] <= q ==> pd + [n] < q + [m]
    ensures pd + [n] <= q + [m] && !(pd + [n] <= q) ==> q == pd && m == n
    ensures q == pd && m == n ==> pd + [n] == q + [m]
  {
    var a, b := pd + [n], q + [m];
    if a <= b {
      if |a| <= |q| {
        assert q[..|a|] == b[..|a|];
      } else {
        assert a == b;
        assert pd == a[..|pd|] && q == b[..|q|] && a[|pd|] == n && b[|q|] == m;
      }
    }
    if a <= q {
      assert b[..|a|] == q[..|a|];
    }
  }

  lemma LastEdge(s: Store, root: RamNode, p: seq<string>)
    requires Closed(s) && root in s && p != [] && Resolve(s, root, p).Ok?
    ensures Resolve(s, root, p[..|p| - 1]).Ok?
    ensures Edge(s, Resolve(s, root, p[..|p| - 1]).value, p[|p| - 1], Resolve(s, root, p).value)
    ensures p == p[..|p| - 1] + [p[|p| - 1]]
  {
    hide Resolve, Closed, Descend, Edge;
    var p0, n := p[..|p| - 1], p[|p| - 1];
    assert p == p0 + [n];
    ResolveSnoc(s, root, p0, n);
    DescendOk(s, Resolve(s, root, p0), n);
  }

  // ---- creating and removing an entry ----

  ghost function Created(s: Store, d: RamNode, n: string, c: RamNode, data: NodeData): Store
    requires d in s && s[d].DirData?
  {
    s[d := DirData(s[d].entries[n := c])][c := data]
  }

  ghost function Removed(s: Store, d: RamNode, n: string): Store
    requires d in s && s[d].DirData?
  {
    s[d := DirData(s[d].entries - {n})]
  }

  lemma CreateKeepsForest(s: Store, rank: map<RamNode, nat>, d: RamNode, n: string, c: RamNode, data: NodeData)
    requires Forest(s, rank) && d in s && s[d].DirData? && n !in s[d].entries && c !in s
    requires data.DirData? ==> data.entries == map[]
    ensures Forest(Created(s, d, n, c, data), rank[c := rank[d] + 1])
  {
    var s' := Created(s, d, n, c, data);
    forall e, m, x | e in s' && x in s' && Edge(s', e, m, x) ensures (e == d && m == n && x == c) || (x != c && Edge(s, e, m, x)) {
    }
  }

  lemma RemoveKeepsForest(s: Store, rank: map<RamNode, nat>, d: RamNode, n: string)
    requires Forest(s, rank) && d in s && s[d].DirData?
    ensures Forest(Removed(s, d, n), rank)
  {
    var s' := Removed(s, d, n);
    forall e, m, x | e in s' && x in s' && Edge(s', e, m, x) ensures Edge(s, e, m, x) {
    }
  }

  /** Effect of a new entry `n` in the directory at `pd`, on every path `q`. */
  lemma {:induction false} CreateEffect(
      s: Store, rank: map<RamNode, nat>, root: RamNode, pd: seq<string>, n: string, c: RamNode, data: NodeData, q: seq<string>)
    requires Forest(s, rank) && root in s && rank[root] == 0 && c !in s
    requires Resolve(s, root, pd).Ok?
    requires var d := Resolve(s, root, pd).value; s[d].DirData? && n !in s[d].entries
    requires data.DirData? ==> data.entries == map[]
    requires Closed(Created(s, Resolve(s, root, pd).value, n, c, data))
    ensures var s' := Created(s, Resolve(s, root, pd).value, n, c, data);
      && (!(pd + [n] <= q) ==> Resolve(s', root, q) == Resolve(s, root, q))
      && (q == pd + [n] ==> Resolve(s', root, q) == Ok(c) && Resolve(s, root, q) == Err(NotFound))
      && (pd + [n] < q ==> Resolve(s', root, q).Err? && Resolve(s, root, q) == Err(NotFound))
    decreases |q|
  {
    var d := Resolve(s, root, pd).value;
    var s' := Created(s, d, n, c, data);
    if q != [] {
      var q', m := q[..|q| - 1], q[|q| - 1];
      assert q == q' + [m];
      CreateEffect(s, rank, root, pd, n, c, data, q');
      ResolveSnoc(s, root, q', m);
      ResolveSnoc(s', root, q', m);
      if Resolve(s, root, q') == Ok(d) {
        UniquePath(s, rank, root, q', pd);
      }
      PrefixGrows(pd, n, q', m);
    }
  }

  /**
   Effect of removing entry `n`, which leads to a file or an empty directory, on every
   path `q`: only the removed path and paths through it change.
   */
  lemma {:induction false} RemoveEffect(
      s: Store, rank: map<RamNode, nat>, root: RamNode, pd: seq<string>, n: string, q: seq<string>)
    requires Forest(s, rank) && root in s && rank[root] == 0
    requires Resolve(s, root, pd).Ok?
    requires var d := Resolve(s, root, pd).value;
      s[d].DirData? && n in s[d].entries && (s[s[d].entries[n]].DirData? ==> s[s[d].entries[n]].entries == map[])
    requires Closed(Removed(s, Resolve(s, root, pd).value, n))
    ensures var d := Resolve(s, root, pd).value; var s' := Removed(s, d, n);
      && (!(pd + [n] <= q) ==> Resolve(s', root, q) == Resolve(s, root, q))
      && (pd + [n] <= q ==> Resolve(s', root, q) == Err(NotFound))
      && (q == pd + [n] ==> Resolve(s, root, q) == Ok(s[d].entries[n]))
      && (pd + [n] < q ==> Resolve(s, root, q).Err?)
    decreases |q|
  {
    var d := Resolve(s, root, pd).value;
    var s' := Removed(s, d, n);
    if q != [] {
      var q', m := q[..|q| - 1], q[|q| - 1];
      assert q == q' + [m];
      RemoveEffect(s, rank, root, pd, n, q');
      ResolveSnoc(s, root, q', m);
      ResolveSnoc(s', root, q', m);
      if Resolve(s, root, q') == Ok(d) {
        UniquePath(s, rank, root, q', pd);
      }
      PrefixGrows(pd, n, q', m);
    }
  }

  // ---- writing a file ----

  lemma WriteKeepsForest(s: Store, rank: map<RamNode, nat>, f: RamNode, bytes: seq<u8>)
    requires Forest(s, rank) && f in s && s[f].FileData?
    ensures Forest(s[f := FileData(bytes)], rank)
  {
    var s' := s[f := FileData(bytes)];
    forall e, m, x | e in s' && x in s' && Edge(s', e, m, x) ensures Edge(s, e, m, x) {
    }
  }

  /** The contents of files play no part in resolution. */
  lemma {:induction false} WriteEffect(s: Store, f: RamNode, bytes: seq<u8>, cur: RamNode, q: seq<string>)
    requires Closed(s) && f in s && s[f].FileData? && cur in s && Closed(s[f := FileData(bytes)])
    ensures Resolve(s[f := FileData(bytes)], cur, q) == Resolve(s, cur, q)
    decreases |q|
  {
    if q != [] && s[cur].DirData? && q[0] in s[cur].entries {
      WriteEffect(s, f, bytes, s[cur].entries[q[0]], q[1..]);
    }
  }
}
