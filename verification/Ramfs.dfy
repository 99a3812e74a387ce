/**
 The in-memory filesystem: nodes that are files (bytes) or directories (name to node).
 `Store` is a snapshot of all nodes; resolution and the forest property are stated on it.
 */
module Ramfs {
  import opened Machine

  datatype FsError = NotFound | NotADirectory | AlreadyExists | InvalidPath | Io | NotEmpty

  datatype NodeData = FileData(bytes: seq<u8>) | DirData(entries: map<string, RamNode>)

  class RamNode {
    const name: string
    var data: NodeData

    constructor (name: string, data: NodeData)
      ensures this.name == name && this.data == data
    {
      this.name, this.data := name, data;
    }

    predicate IsDir()
      reads this
    {
      data.DirData?
    }

    function Size(): nat
      reads this
    {
      if data.FileData? then |data.bytes| else |data.entries|
    }

    /** Bytes copied out of at most `len` asked for. */
    method ReadAt(offset: nat, len: nat) returns (r: Result<seq<u8>, FsError>)
      ensures data.DirData? ==> r == Err(Io)
      ensures data.FileData? ==>
        && r.Ok? && |r.value| == Min(len, Max(|data.bytes| - offset, 0))
        && forall i :: 0 <= i < |r.value| ==> r.value[i] == data.bytes[offset + i]
    {
      if data.DirData? {
        return Err(Io);
      }
      if offset >= |data.bytes| {
        return Ok([]);
      }
      var n := Min(|data.bytes| - offset, len);
      return Ok(data.bytes[offset .. offset + n]);
    }

    /**
     The end of the write is computed in a 64-bit usize. When it wraps, the slice starts
     behind its end or is shorter than the buffer, and the copy panics.
     */
    method WriteAt(offset: nat, buf: seq<u8>) returns (panics: bool, r: Result<nat, FsError>)
      modifies `data
      ensures data.FileData? <==> old(data.FileData?)
      ensures panics <==> data.FileData? && offset + |buf| >= 0x1_0000_0000_0000_0000
      ensures data.DirData? ==> r == Err(Io) && data == old(data)
      ensures data.FileData? && !panics ==> r == Ok(|buf|) && data.bytes == WriteSpec(old(data.bytes), offset, buf)
    {
      if data.DirData? {
        return false, Err(Io);
      }
      var v, end := data.bytes, (offset + |buf|) % 0x1_0000_0000_0000_0000;
      if end > |v| {
        v := v + seq(end - |v|, _ => 0);
        data := FileData(v);
      }
      if offset > end || end - offset != |buf| {
        return true, Err(Io);
      }
      v := v[..offset] + buf + v[end..];
      data := FileData(v);
      return false, Ok(|buf|);
    }

    method Lookup(name: string) returns (r: Option<RamNode>)
      ensures r == if data.DirData? && name in data.entries then Some(data.entries[name]) else None
    {
      r := if data.DirData? && name in data.entries then Some(data.entries[name]) else None;
    }

    /** `create_file` and `create_dir` differ only in the data of the new node. */
    method Create(name: string, contents: NodeData) returns (r: Result<RamNode, FsError>)
      requires contents.DirData? ==> contents.entries == map[]
      modifies `data
      ensures r.Ok? <==> old(data).DirData? && name !in old(data).entries
      ensures r.Err? ==> data == old(data) && r.error == if data.FileData? then NotADirectory else AlreadyExists
      ensures r.Ok? ==> fresh(r.value) && r.value.name == name && r.value.data == contents
      ensures r.Ok? ==> data == DirData(old(data.entries)[name := r.value])
    {
      if data.FileData? {
        return Err(NotADirectory);
      }
      if name in data.entries {
        return Err(AlreadyExists);
      }
      var n := new RamNode(name, contents);
      data := DirData(data.entries[name := n]);
      return Ok(n);
    }

    method Remove(name: string) returns (r: Result<(), FsError>)
      modifies `data
      ensures r == Err(NotADirectory) <==> old(data).FileData?
      ensures r == Err(NotFound) <==> old(data).DirData? && name !in old(data).entries
      ensures r == Err(NotEmpty) <==> old(Occupied(name))
      ensures r.Ok? <==> old(data).DirData? && name in old(data).entries && !old(Occupied(name))
      ensures r.Err? ==> data == old(data)
      ensures r.Ok? ==> data == DirData(old(data.entries) - {name})
    {
      if data.FileData? {
        return Err(NotADirectory);
      }
      if name !in data.entries {
        return Err(NotFound);
      }
      var entry := data.entries[name];
      if entry.IsDir() && |entry.data.entries| != 0 {
        EntryCount(entry.data.entries);
        return Err(NotEmpty);
      }
      data := DirData(data.entries - {name});
      return Ok(());
    }

    /** The entry `name` is a directory that has an entry. */
    ghost predicate Occupied(name: string)
      reads this, if data.DirData? && name in data.entries then {data.entries[name]} else {}
    {
      && data.DirData? && name in data.entries
      && data.entries[name].data.DirData? && exists n :: n in data.entries[name].data.entries
    }
  }

  // ---- one node ----

  function ReadSpec(d: NodeData, offset: nat, len: nat): Result<seq<u8>, FsError> {
    if d.DirData? then Err(Io)
    else if offset >= |d.bytes| then Ok([])
    else Ok(d.bytes[offset .. offset + Min(|d.bytes| - offset, len)])
  }

  /** Old bytes, `buf` from `offset`, zeros in any gap. */
  function WriteSpec(v: seq<u8>, offset: nat, buf: seq<u8>): (r: seq<u8>)
    ensures |r| == Max(|v|, offset + |buf|)
    ensures forall i :: 0 <= i < |r| ==>
      r[i] == if offset <= i < offset + |buf| then buf[i - offset] else if i < |v| then v[i] else 0
  {
    seq(Max(|v|, offset + |buf|), i requires 0 <= i =>
      if offset <= i < offset + |buf| then buf[i - offset] else if i < |v| then v[i] else 0)
  }

  /** Length and bytes determine what was read. */
  lemma ReadDetermined(bytes: seq<u8>, offset: nat, len: nat, out: seq<u8>)
    requires |out| == Min(len, Max(|bytes| - offset, 0))
    requires forall i :: 0 <= i < |out| ==> out[i] == bytes[offset + i]
    ensures ReadSpec(FileData(bytes), offset, len) == Ok(out)
  {
    if offset < |bytes| {
      assert bytes[offset .. offset + |out|] == out;
    }
  }

  /** Reading back what was written. */
  lemma WriteThenRead(v: seq<u8>, offset: nat, buf: seq<u8>)
    ensures ReadSpec(FileData(WriteSpec(v, offset, buf)), offset, |buf|) == Ok(buf)
  {
    var w := WriteSpec(v, offset, buf);
    assert w[offset .. offset + |buf|] == buf;
    assert |w| > offset ==> Min(|w| - offset, |buf|) == |buf|;
  }

  /** A map with entries has a first one. */
  lemma EntryCount(m: map<string, RamNode>)
    ensures |m| != 0 <==> exists n :: n in m
  {
    if n :| n in m { assert |m.Keys| != 0; }
  }

  /** Writing at the end appends. */
  lemma WriteAtEnd(v: seq<u8>, buf: seq<u8>)
    ensures WriteSpec(v, |v|, buf) == v + buf
  {
  }
}
