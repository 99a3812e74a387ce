/**
 The VFS root: path resolution, open, remove, and open handles with offsets.
 */
module Vfs {
  import opened Machine
  import opened Ramfs
  import opened RamForest
  import opened Paths

  datatype OpenFlags = OpenFlags(read: bool, write: bool, create: bool, append: bool)

  /** `resolve` on a snapshot. */
  ghost function Lookup(s: Store, root: RamNode, path: string): (r: Result<RamNode, FsError>)
    requires Closed(s) && root in s
    ensures r.Ok? ==> r.value in s
  {
    if path == "" then Err(InvalidPath) else Resolve(s, root, Components(path))
  }

  ghost predicate Rooted(s: Store, rank: map<RamNode, nat>, root: RamNode) {
    Forest(s, rank) && root in s && s[root].DirData? && rank[root] == 0
  }

  predicate EndsInSlash(path: string) {
    path != "" && path[|path| - 1] == '/'
  }

  /** Redundant slashes never change what a path with a component resolves to. */
  lemma SlashesIrrelevant(s: Store, root: RamNode, a: string, b: string)
    requires Closed(s) && root in s
    ensures a != "" ==> Lookup(s, root, "/" + a) == Lookup(s, root, a) == Lookup(s, root, a + "/")
    ensures Lookup(s, root, a + "//" + b) == Lookup(s, root, a + "/" + b)
  {
    RedundantSlashes(a, b);
  }

  /**
   When a path is not found but its parent is, the parent is a directory, the last name
   is a proper name and free; creating it there makes the path resolve to the new node.
   */
  lemma CreateByPath(s: Store, rank: map<RamNode, nat>, root: RamNode, path: string)
    requires Rooted(s, rank, root) && Lookup(s, root, path) == Err(NotFound)
    ensures var (parent, name) := SplitParent(path);
      && (Lookup(s, root, parent).Err? ==> Lookup(s, root, parent) == Err(NotFound))
      && (Lookup(s, root, parent).Ok? ==>
            var d := Lookup(s, root, parent).value;
            s[d].DirData? && name !in s[d].entries && name != "" && '/' !in name)
  {
    var (parent, name) := SplitParent(path);
    ParentComponents(path);
    if name == "" {
      assert Components(path) == Components(parent);
    } else {
      ResolveSnoc(s, root, Components(parent), name);
    }
  }

  /** After creation under the found parent `d`, the path resolves to the new node. */
  lemma CreatedResolves(
      s: Store, rank: map<RamNode, nat>, root: RamNode, path: string, d: RamNode, c: RamNode, data: NodeData, q: string)
    requires Rooted(s, rank, root) && Lookup(s, root, path) == Err(NotFound) && c !in s
    requires data.DirData? ==> data.entries == map[]
    requires Lookup(s, root, SplitParent(path).0) == Ok(d)
    ensures s[d].DirData? && Rooted(Created(s, d, SplitParent(path).1, c, data), rank[c := rank[d] + 1], root)
    ensures Lookup(Created(s, d, SplitParent(path).1, c, data), root, path) == Ok(c)
    ensures !(Components(path) <= Components(q)) ==>
      Lookup(Created(s, d, SplitParent(path).1, c, data), root, q) == Lookup(s, root, q)
  {
    hide Components, SplitParent, Resolve, Ranked, OneParent;
    var (parent, name) := SplitParent(path);
    CreateByPath(s, rank, root, path);
    ParentComponents(path);
    CreateKeepsForest(s, rank, d, name, c, data);
    CreateEffect(s, rank, root, Components(parent), name, c, data, Components(path));
    CreateEffect(s, rank, root, Components(parent), name, c, data, Components(q));
  }

  /** The entry a removal takes out: present, and a file or an empty directory. */
  ghost predicate Removable(s: Store, d: RamNode, name: string)
    requires Closed(s)
  {
    && d in s && s[d].DirData? && name in s[d].entries
    && (s[s[d].entries[name]].DirData? ==> s[s[d].entries[name]].entries == map[])
  }

  lemma RemovedElsewhere(s: Store, rank: map<RamNode, nat>, root: RamNode, path: string, q: string)
    requires Rooted(s, rank, root)
    requires var (parent, name) := SplitParent(path);
      Lookup(s, root, parent).Ok? && Removable(s, Lookup(s, root, parent).value, name)
    ensures var (parent, name) := SplitParent(path);
      var s' := Removed(s, Lookup(s, root, parent).value, name);
      && Rooted(s', rank, root)
      && (name == "" || !(Components(path) <= Components(q)) ==> Lookup(s', root, q) == Lookup(s, root, q))
      && (name != "" && Components(path) <= Components(q) ==> Lookup(s', root, q).Err?)
      && (name != "" && Components(path) < Components(q) ==> Lookup(s, root, q).Err?)
      && (name != "" && Components(path) == Components(q) ==> Lookup(s, root, q).Ok? || q == "")
  {
    hide Components, SplitParent, Resolve;
    var (parent, name) := SplitParent(path);
    ParentComponents(path);
    var d, pd := Lookup(s, root, parent).value, Components(parent);
    RemoveKeepsForest(s, rank, d, name);
    RemoveEffect(s, rank, root, pd, name, Components(q));
    if name == "" {
      NotAComponent(pd, q);
    }
  }

  /**
   A successful removal makes its path unresolvable iff the path does not end in a
   slash; no other path changes, except that paths through the removed node, which led
   nowhere before, still lead nowhere.
   */
  lemma RemovedResolves(s: Store, rank: map<RamNode, nat>, root: RamNode, path: string, q: string)
    requires Rooted(s, rank, root)
    requires var (parent, name) := SplitParent(path);
      Lookup(s, root, parent).Ok? && Removable(s, Lookup(s, root, parent).value, name)
    ensures var (parent, name) := SplitParent(path);
      var s' := Removed(s, Lookup(s, root, parent).value, name);
      && Rooted(s', rank, root)
      && (Lookup(s', root, path).Ok? <==> EndsInSlash(path))
      && (!EndsInSlash(path) && path != "" ==> Lookup(s, root, path).Ok?)
      && (EndsInSlash(path) || path == "" || !(Components(path) <= Components(q)) ==> Lookup(s', root, q) == Lookup(s, root, q))
      && (Components(path) < Components(q) && !EndsInSlash(path) && path != "" ==> Lookup(s, root, q).Err? && Lookup(s', root, q).Err?)
  {
    hide Components, SplitParent, Resolve;
    ParentComponents(path);
    var parent := Components(SplitParent(path).0);
    assert parent + [] == parent;
    RemovedElsewhere(s, rank, root, path, path);
    RemovedElsewhere(s, rank, root, path, q);
  }

  lemma NotAComponent(pd: seq<string>, q: string)
    ensures !(pd + [""] <= Components(q))
  {
    ComponentsClean(q);
    assert (pd + [""])[|pd|] == "";
    assert |pd| < |Components(q)| ==> Components(q)[|pd|] != "";
  }

  /** Writing through a handle changes what no path resolves to. */
  lemma WrittenResolves(s: Store, rank: map<RamNode, nat>, root: RamNode, f: RamNode, bytes: seq<u8>, q: string)
    requires Rooted(s, rank, root) && f in s && s[f].FileData?
    ensures Rooted(s[f := FileData(bytes)], rank, root)
    ensures Lookup(s[f := FileData(bytes)], root, q) == Lookup(s, root, q)
  {
    WriteKeepsForest(s, rank, f, bytes);
    WriteEffect(s, f, bytes, root, Components(q));
  }

  /** The entry `name` of directory `d` is a directory that has an entry. */
  ghost predicate Occupied(s: Store, d: RamNode, name: string)
    requires Closed(s) && d in s
  {
    && s[d].DirData? && name in s[d].entries
    && s[s[d].entries[name]].DirData? && exists n :: n in s[s[d].entries[name]].entries
  }

  /** A directory without the entry `name`. */
  ghost predicate Lacks(d: NodeData, name: string) {
    d.DirData? && name !in d.entries
  }

  /** The two errors a lookup of a non-empty path can have. */
  lemma LookupErrors(s: Store, root: RamNode, path: string)
    requires Closed(s) && root in s && path != ""
    ensures Lookup(s, root, path).Err? ==> Lookup(s, root, path).error in {NotFound, NotADirectory}
  {
    ResolveErrors(s, root, Components(path));
  }

  lemma CreatedIs(s: Store, s': Store, d: RamNode, n: string, c: RamNode, data: NodeData)
    requires d in s && s[d].DirData? && c !in s && s'.Keys == s.Keys + {c}
    requires s'[c] == data && s'[d] == DirData(s[d].entries[n := c])
    requires forall x :: x in s && x != d ==> s'[x] == s[x]
    ensures s' == Created(s, d, n, c, data)
  {
  }

  lemma CreateKeepsRooted(s: Store, rank: map<RamNode, nat>, root: RamNode, d: RamNode, n: string, c: RamNode, data: NodeData)
    requires Rooted(s, rank, root) && d in s && s[d].DirData? && n !in s[d].entries && c !in s
    requires data.DirData? ==> data.entries == map[]
    ensures d in rank && Rooted(Created(s, d, n, c, data), rank[c := rank[d] + 1], root)
  {
    CreateKeepsForest(s, rank, d, n, c, data);
  }

  class Root {
    const mount: RamNode
    /** Every node ever created, reachable or held only by open handles. */
    ghost var nodes: set<RamNode>
    ghost var rank: map<RamNode, nat>

    ghost function Snapshot(): Store
      reads this, nodes
    {
      map n | n in nodes :: n.data
    }

    ghost predicate Valid()
      reads this, nodes
    {
      Rooted(Snapshot(), rank, mount)
    }

    constructor ()
      ensures Valid() && fresh(nodes) && nodes == {mount} && mount.data == DirData(map[])
    {
      var m := new RamNode("", DirData(map[]));
      mount := m;
      nodes, rank := {m}, map[m := 0];
    }

    method Resolve(path: string) returns (r: Result<RamNode, FsError>)
      requires Valid()
      ensures r == Lookup(Snapshot(), mount, path)
    {
      hide Components;
      if path == "" {
        return Err(InvalidPath);
      }
      var rest := if path[0] == '/' then path[1..] else path;
      ghost var comps := Components(path);
      assert Components(rest) == comps by {
        RedundantSlashes(rest, "");
        assert path[0] == '/' ==> path == "/" + rest;
      }
      var cur := mount;
      if rest == "" {
        ComponentsPlain("");
        return Ok(cur);
      }
      var parts := Components(rest);
      var i := 0;
      assert comps == parts[0..];
      while i < |parts|
        invariant 0 <= i <= |parts| && cur in nodes
        invariant Lookup(Snapshot(), mount, path) == RamForest.Resolve(Snapshot(), cur, parts[i..])
      {
        if !cur.IsDir() {
          return Err(NotADirectory);
        }
        var next := cur.Lookup(parts[i]);
        if next.None? {
          return Err(NotFound);
        }
        assert parts[i..][1..] == parts[i + 1..];
        cur := next.value;
        i := i + 1;
      }
      return Ok(cur);
    }

    /** `create_file` or `create_dir` on any node, through a path or an old handle. */
    method CreateIn(d: RamNode, name: string, contents: NodeData) returns (r: Result<RamNode, FsError>)
      requires Valid() && d in nodes && (contents.DirData? ==> contents.entries == map[])
      modifies this, d`data
      ensures Valid()
      ensures r.Ok? <==> old(d.data).DirData? && name !in old(d.data).entries
      ensures r.Err? ==> Snapshot() == old(Snapshot()) && nodes == old(nodes)
      ensures r.Err? ==> r.error == if old(d.data).FileData? then NotADirectory else AlreadyExists
      ensures r.Ok? ==> fresh(r.value) && r.value.name == name && nodes == old(nodes) + {r.value}
      ensures r.Ok? ==> Snapshot() == Created(old(Snapshot()), d, name, r.value, contents)
    {
      hide Rooted, Created;
      ghost var s := Snapshot();
      r := d.Create(name, contents);
      if r.Ok? {
        CreateKeepsRooted(s, rank, mount, d, name, r.value, contents);
        nodes, rank := nodes + {r.value}, rank[r.value := rank[d] + 1];
        CreatedIs(s, Snapshot(), d, name, r.value, contents);
      } else {
        assert Snapshot() == s;
      }
    }

    method RemoveIn(d: RamNode, name: string) returns (r: Result<(), FsError>)
      requires Valid() && d in nodes
      modifies d`data
      ensures Valid()
      ensures r.Ok? <==> Removable(old(Snapshot()), d, name)
      ensures r == Err(NotADirectory) <==> old(d.data).FileData?
      ensures r == Err(NotFound) <==> Lacks(old(d.data), name)
      ensures r == Err(NotEmpty) <==> Occupied(old(Snapshot()), d, name)
      ensures r.Err? ==> Snapshot() == old(Snapshot())
      ensures r.Ok? ==> Snapshot() == Removed(old(Snapshot()), d, name)
    {
      ghost var s := Snapshot();
      r := d.Remove(name);
      if r.Ok? {
        RemoveKeepsForest(s, rank, d, name);
        assert Snapshot() == Removed(s, d, name);
      } else {
        assert Snapshot() == s;
      }
    }

    method Open(path: string, flags: OpenFlags) returns (r: Result<File, FsError>)
      requires Valid()
      modifies this, nodes
      ensures Valid()
      ensures var was := old(Lookup(Snapshot(), mount, path));
        var (parent, name) := SplitParent(path);
        if was == Err(NotFound) && flags.create && old(Lookup(Snapshot(), mount, parent)).Ok? then
          var d := old(Lookup(Snapshot(), mount, parent)).value;
          && r.Ok? && fresh(r.value.inode) && r.value.inode.name == name && name != "" && '/' !in name
          && old(Snapshot())[d].DirData?
          && Snapshot() == Created(old(Snapshot()), d, name, r.value.inode, FileData([]))
          && Lookup(Snapshot(), mount, path) == Ok(r.value.inode)
        else
          && Snapshot() == old(Snapshot())
          && (was.Ok? ==> r.Ok? && r.value.inode == was.value)
          && (was.Err? ==> r == Err(was.error))
      ensures r.Ok? ==> fresh(r.value) && r.value.offset == 0 && r.value.flags == flags && r.value.inode in nodes
    {
      hide Components, SplitParent, Ranked, OneParent, Closed, Created;
      var found := Resolve(path);
      if found.Err? {
        if found.error != NotFound || !flags.create {
          return Err(found.error);
        }
        found := CreateMissing(path);
        if found.Err? {
          return Err(found.error);
        }
      }
      var f := new File(found.value, flags);
      return Ok(f);
    }

    /** The CREATE branch of `open`. */
    method CreateMissing(path: string) returns (r: Result<RamNode, FsError>)
      requires Valid() && Lookup(Snapshot(), mount, path) == Err(NotFound)
      modifies this, nodes
      ensures Valid()
      ensures var (parent, name) := SplitParent(path);
        var d := old(Lookup(Snapshot(), mount, parent));
        if d.Ok? then
          && r.Ok? && fresh(r.value) && r.value.name == name && name != "" && '/' !in name
          && old(Snapshot())[d.value].DirData?
          && Snapshot() == Created(old(Snapshot()), d.value, name, r.value, FileData([]))
          && Lookup(Snapshot(), mount, path) == Ok(r.value)
        else
          Snapshot() == old(Snapshot()) && r == Err(NotFound)
      ensures r.Ok? ==> r.value in nodes
    {
      hide Components, SplitParent, Ranked, OneParent, Closed, Created;
      var (parentPath, name) := SplitParent(path);
      var parent := Resolve(parentPath);
      CreateByPath(Snapshot(), rank, mount, path);
      if parent.Err? {
        return Err(parent.error);
      }
      ghost var s, rk := Snapshot(), rank;
      r := CreateIn(parent.value, name, FileData([]));
      CreatedResolves(s, rk, mount, path, parent.value, r.value, FileData([]), path);
    }

    method Remove(path: string) returns (r: Result<(), FsError>)
      requires Valid()
      modifies nodes
      ensures Valid()
      ensures var (parent, name) := SplitParent(path);
        var d := old(Lookup(Snapshot(), mount, parent));
        && (r.Ok? <==> d.Ok? && Removable(old(Snapshot()), d.value, name))
        && (r == Err(NotEmpty) <==> d.Ok? && Occupied(old(Snapshot()), d.value, name))
        && (r == Err(NotFound) <==> d == Err(NotFound) || (d.Ok? && Lacks(old(Snapshot())[d.value], name)))
        && (r == Err(NotADirectory) <==> d == Err(NotADirectory) || (d.Ok? && old(Snapshot())[d.value].FileData?))
        && Snapshot() == if r.Ok? then Removed(old(Snapshot()), d.value, name) else old(Snapshot())
      ensures r.Ok? ==> (Lookup(Snapshot(), mount, path).Ok? <==> EndsInSlash(path))
      ensures r.Ok? ==> forall q: string :: EndsInSlash(path) || path == "" || !(Components(path) <= Components(q)) ==>
        Lookup(Snapshot(), mount, q) == old(Lookup(Snapshot(), mount, q))
    {
      hide Components, SplitParent, EndsInSlash, Ranked, OneParent, Removed;
      ghost var s := Snapshot();
      var (parentPath, name) := SplitParent(path);
      var parent := Resolve(parentPath);
      if parent.Err? {
        LookupErrors(s, mount, parentPath);
        return Err(parent.error);
      }
      r := RemoveIn(parent.value, name);
      if r.Ok? {
        forall q: string
          ensures Lookup(Snapshot(), mount, path).Ok? <==> EndsInSlash(path)
          ensures EndsInSlash(path) || path == "" || !(Components(path) <= Components(q)) ==>
            Lookup(Snapshot(), mount, q) == Lookup(s, mount, q)
        {
          RemovedResolves(s, rank, mount, path, q);
        }
        RemovedResolves(s, rank, mount, path, path);
      }
    }
  }

  class File {
    const inode: RamNode
    const flags: OpenFlags
    var offset: nat

    constructor (inode: RamNode, flags: OpenFlags)
      ensures this.inode == inode && this.flags == flags && offset == 0
    {
      this.inode, this.flags, offset := inode, flags, 0;
    }

    method Read(len: nat) returns (r: Result<seq<u8>, FsError>)
      modifies `offset
      ensures r == if flags.read then Ramfs.ReadSpec(inode.data, old(offset), len) else Err(Io)
      ensures offset == old(offset) + if r.Ok? then |r.value| else 0
    {
      if !flags.read {
        return Err(Io);
      }
      r := inode.ReadAt(offset, len);
      if r.Ok? {
        ReadDetermined(inode.data.bytes, offset, len, r.value);
        offset := offset + |r.value|;
      }
    }

    /** Where a write goes: the end when appending, else the handle's offset. */
    ghost function Target(): nat
      reads this, inode
    {
      if !flags.append then offset
      else match inode.data
        case FileData(bytes) => |bytes|
        case DirData(entries) => |entries|
    }

    /** Panics iff the write would end past a 64-bit usize. */
    method Write(buf: seq<u8>) returns (panics: bool, r: Result<nat, FsError>)
      modifies `offset, inode`data
      ensures panics <==> flags.write && old(inode.data).FileData? && old(Target()) + |buf| >= 0x1_0000_0000_0000_0000
      ensures !panics ==> r == if flags.write && old(inode.data).FileData? then Ok(|buf|) else Err(Io)
      ensures inode.data.FileData? <==> old(inode.data).FileData?
      ensures !panics && r.Err? ==> inode.data == old(inode.data)
      ensures !panics && r.Err? ==> offset == if flags.write then old(Target()) else old(offset)
      ensures !panics && r.Ok? ==>
        && inode.data == FileData(WriteSpec(old(inode.data).bytes, old(Target()), buf))
        && offset == old(Target()) + |buf|
      ensures !panics && r.Ok? && flags.append ==>
        inode.data == FileData(old(inode.data).bytes + buf) && offset == |inode.data.bytes|
    {
      if !flags.write {
        return false, Err(Io);
      }
      if flags.append {
        offset := inode.Size();
      }
      panics, r := inode.WriteAt(offset, buf);
      if r.Ok? {
        WriteAtEnd(old(inode.data).bytes, buf);
        offset := offset + r.value;
      }
    }

    method Seek(off: nat)
      modifies `offset
      ensures offset == off
    {
      offset := off;
    }
  }

  /** `read_to_string`, up to the conversion of the bytes to text. */
  method ReadAll(root: Root, path: string) returns (r: Result<seq<u8>, FsError>)
    requires root.Valid()
    modifies root, root.nodes
    ensures root.Valid() && root.Snapshot() == old(root.Snapshot())
    ensures var n := old(Lookup(root.Snapshot(), root.mount, path));
      r == if n.Err? then Err(n.error)
           else if old(root.Snapshot())[n.value].DirData? then Err(Io)
           else Ok(old(root.Snapshot())[n.value].bytes)
  {
    hide Ranked, OneParent, Closed, Components, SplitParent;
    var opened' := root.Open(path, OpenFlags(true, false, false, false));
    if opened'.Err? {
      return Err(opened'.error);
    }
    var f := opened'.value;
    var out := [];
    while true
      invariant root.Valid() && root.Snapshot() == old(root.Snapshot())
      invariant old(Lookup(root.Snapshot(), root.mount, path)) == Ok(f.inode) && f.flags.read && f.inode in root.nodes
      invariant f.inode.data.FileData? ==> f.offset <= |f.inode.data.bytes| && out == f.inode.data.bytes[..f.offset]
      decreases if f.inode.data.FileData? then |f.inode.data.bytes| - f.offset else 0
    {
      var chunk := f.Read(256);
      if chunk.Err? {
        return Err(chunk.error);
      }
      if chunk.value == [] {
        assert out == f.inode.data.bytes && old(root.Snapshot())[f.inode] == f.inode.data;
        return Ok(out);
      }
      out := out + chunk.value;
    }
  }

  /**
   The case of the trailing slash is reachable: `mkdir /` creates an entry with an empty
   name, and removing "/" then succeeds while "/" goes on resolving to the root.
   */
  method MkdirSlashThenRemove() returns (root: Root, made: Result<RamNode, FsError>, r: Result<(), FsError>)
    ensures root.Valid() && made.Ok? && r == Ok(())
    ensures Lookup(root.Snapshot(), root.mount, "/") == Ok(root.mount)
  {
    root := new Root();
    SlashIsRoot();
    SplitSlash();
    ghost var s := root.Snapshot();
    var (parent, name) := SplitParent("/");
    var d := root.Resolve(parent);
    made := root.CreateIn(d.value, name, DirData(map[]));
    assert root.Snapshot()[root.mount].entries[""] == made.value;
    assert root.Snapshot()[made.value] == DirData(map[]);
    assert Removable(root.Snapshot(), root.mount, "");
    hide Components, Created, Removed, Rooted, Forest, Removable;
    r := root.Remove("/");
    assert r.value == ();
    var again := root.Resolve("/");
  }

  lemma SplitSlash()
    ensures SplitParent("/") == ("/", "")
  {
    assert RSplitOnce("/").Some? && RSplitOnce("/").value.1 == "";
  }

  /** A handle moved to the last offset cannot write a byte. */
  method WritePastEnd() returns (panics: bool)
    ensures panics
  {
    var node := new RamNode("f", FileData([]));
    var f := new File(node, OpenFlags(false, true, false, false));
    f.Seek(0xffff_ffff_ffff_ffff);
    var r;
    panics, r := f.Write([0]);
  }
}
