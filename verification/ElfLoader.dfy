/**
 The boot stub's ELF loader: two passes over the program headers, one to find the page
 range, one to copy segments into it.
 */
module ElfLoader {
  import opened Machine

  const PT_LOAD: u32 := 1

  /** `Elf64_Ehdr` */
  datatype Ehdr = Ehdr(
    ident: seq<u8>, typ: u16, machine: u16, version: u32, entry: u64, phoff: u64, shoff: u64, flags: u32,
    ehsize: u16, phentsize: u16, phnum: u16, shentsize: u16, shnum: u16, shstrndx: u16)

  /** `Elf64_Phdr` */
  datatype Phdr = Phdr(
    ptype: u32, flags: u32, offset: u64, vaddr: u64, paddr: u64, filesz: u64, memsz: u64, align: u64)

  function U16At(b: seq<u8>, o: nat): u16
    requires o + 2 <= |b|
  {
    FromLe16(b[o], b[o + 1])
  }

  function U32At(b: seq<u8>, o: nat): u32
    requires o + 4 <= |b|
  {
    FromLe32(b[o], b[o + 1], b[o + 2], b[o + 3])
  }

  function U64At(b: seq<u8>, o: nat): u64
    requires o + 8 <= |b|
  {
    U32At(b, o) + 0x1_0000_0000 * U32At(b, o + 4)
  }

  /** `read_at::<Elf64Ehdr>` at offset 0. */
  function EhdrAt(image: seq<u8>): Option<Ehdr> {
    if 64 > |image| then None
    else Some(Ehdr(
      image[..16], U16At(image, 16), U16At(image, 18), U32At(image, 20), U64At(image, 24), U64At(image, 32),
      U64At(image, 40), U32At(image, 48), U16At(image, 52), U16At(image, 54), U16At(image, 56), U16At(image, 58),
      U16At(image, 60), U16At(image, 62)))
  }

  /** `read_at::<Elf64Phdr>` */
  function PhdrAt(image: seq<u8>, off: nat): Option<Phdr> {
    if off + 56 > |image| then None
    else Some(Phdr(
      U32At(image, off), U32At(image, off + 4), U64At(image, off + 8), U64At(image, off + 16), U64At(image, off + 24),
      U64At(image, off + 32), U64At(image, off + 40), U64At(image, off + 48)))
  }

  // ---- the layout of the headers ----

  /** The header's fields in file order, each of its own width. */
  function EhdrBytes(h: Ehdr): (r: seq<u8>)
    ensures |r| == |h.ident| + 48
  {
    EhdrHead(h) + EhdrTail(h)
  }

  function EhdrHead(h: Ehdr): (r: seq<u8>)
    ensures |r| == |h.ident| + 24
  {
    h.ident + LeBytes(h.typ, 2) + LeBytes(h.machine, 2) + LeBytes(h.version, 4) + LeBytes(h.entry, 8) + LeBytes(h.phoff, 8)
  }

  function EhdrTail(h: Ehdr): (r: seq<u8>)
    ensures |r| == 24
  {
    LeBytes(h.shoff, 8) + LeBytes(h.flags, 4) + LeBytes(h.ehsize, 2) + LeBytes(h.phentsize, 2)
    + LeBytes(h.phnum, 2) + LeBytes(h.shentsize, 2) + LeBytes(h.shnum, 2) + LeBytes(h.shstrndx, 2)
  }

  function PhdrBytes(p: Phdr): (r: seq<u8>)
    ensures |r| == 56
  {
    LeBytes(p.ptype, 4) + LeBytes(p.flags, 4) + LeBytes(p.offset, 8) + LeBytes(p.vaddr, 8)
    + LeBytes(p.paddr, 8) + LeBytes(p.filesz, 8) + LeBytes(p.memsz, 8) + LeBytes(p.align, 8)
  }

  lemma ReadsU16(b: seq<u8>, o: nat, v: u16)
    requires At(b, o, LeBytes(v, 2))
    ensures U16At(b, o) == v
  {
    hide LeBytes, LittleEndian, Pow2;
    Pow2Of16();
    BytesSpell(v, 2);
    assert b[o .. o + 2] == [b[o], b[o + 1]];
    WordsSpell([b[o], b[o + 1], 0, 0], 0, 0);
    assert [b[o], b[o + 1], 0, 0][..2] == [b[o], b[o + 1]];
  }

  lemma U32Spells(b: seq<u8>, o: nat)
    requires o + 4 <= |b|
    ensures U32At(b, o) == LittleEndian(b[o .. o + 4])
  {
    WordsSpell(b[o .. o + 4], 0, 0);
  }

  lemma ReadsU32(b: seq<u8>, o: nat, v: u32)
    requires At(b, o, LeBytes(v, 4))
    ensures U32At(b, o) == v
  {
    hide LeBytes, LittleEndian, Pow2;
    Pow2Of32();
    BytesSpell(v, 4);
    U32Spells(b, o);
  }

  lemma ReadsU64(b: seq<u8>, o: nat, v: u64)
    requires At(b, o, LeBytes(v, 8))
    ensures U64At(b, o) == v
  {
    hide LeBytes, LittleEndian, Pow2, U32At;
    Pow2Of64();
    BytesSpell(v, 8);
    U32Spells(b, o);
    U32Spells(b, o + 4);
    assert b[o .. o + 8] == b[o .. o + 4] + b[o + 4 .. o + 8];
    LittleEndianJoin(b[o .. o + 4], b[o + 4 .. o + 8]);
    Pow2Of32();
  }

  /** A program header is read back from its bytes, wherever they stand. */
  lemma PhdrRoundTrip(image: seq<u8>, off: nat, p: Phdr)
    requires At(image, off, PhdrBytes(p))
    ensures PhdrAt(image, off) == Some(p)
  {
    hide LeBytes, At, U32At, U64At;
    var a := LeBytes(p.ptype, 4);
    var b := a + LeBytes(p.flags, 4);
    var c := b + LeBytes(p.offset, 8);
    var d := c + LeBytes(p.vaddr, 8);
    var e := d + LeBytes(p.paddr, 8);
    var f := e + LeBytes(p.filesz, 8);
    var g := f + LeBytes(p.memsz, 8);
    AtSplit(image, off, g, LeBytes(p.align, 8));
    AtSplit(image, off, f, LeBytes(p.memsz, 8));
    AtSplit(image, off, e, LeBytes(p.filesz, 8));
    AtSplit(image, off, d, LeBytes(p.paddr, 8));
    AtSplit(image, off, c, LeBytes(p.vaddr, 8));
    AtSplit(image, off, b, LeBytes(p.offset, 8));
    AtSplit(image, off, a, LeBytes(p.flags, 4));
    ReadsU32(image, off, p.ptype);
    ReadsU32(image, off + 4, p.flags);
    ReadsU64(image, off + 8, p.offset);
    ReadsU64(image, off + 16, p.vaddr);
    ReadsU64(image, off + 24, p.paddr);
    ReadsU64(image, off + 32, p.filesz);
    ReadsU64(image, off + 40, p.memsz);
    ReadsU64(image, off + 48, p.align);
    AtFits(image, off, PhdrBytes(p));
  }

  lemma AtFits(b: seq<u8>, c: nat, s: seq<u8>)
    requires At(b, c, s)
    ensures c + |s| <= |b|
  {
  }

  lemma EhdrRoundTrip(image: seq<u8>, h: Ehdr)
    requires |h.ident| == 16 && At(image, 0, EhdrBytes(h))
    ensures EhdrAt(image) == Some(h)
  {
    hide At, EhdrHead, EhdrTail, U16At, U32At, U64At;
    AtFits(image, 0, EhdrBytes(h));
    AtSplit(image, 0, EhdrHead(h), EhdrTail(h));
    HeadReads(image, h);
    TailReads(image, h);
  }

  lemma HeadReads(image: seq<u8>, h: Ehdr)
    requires |h.ident| == 16 && |image| >= 64 && At(image, 0, EhdrHead(h))
    ensures image[..16] == h.ident && U16At(image, 16) == h.typ && U16At(image, 18) == h.machine
    ensures U32At(image, 20) == h.version && U64At(image, 24) == h.entry && U64At(image, 32) == h.phoff
  {
    hide LeBytes, At, U16At, U32At, U64At;
    var a := h.ident + LeBytes(h.typ, 2);
    var b := a + LeBytes(h.machine, 2);
    var c := b + LeBytes(h.version, 4);
    var d := c + LeBytes(h.entry, 8);
    AtSplit(image, 0, d, LeBytes(h.phoff, 8));
    AtSplit(image, 0, c, LeBytes(h.entry, 8));
    AtSplit(image, 0, b, LeBytes(h.version, 4));
    AtSplit(image, 0, a, LeBytes(h.machine, 2));
    AtSplit(image, 0, h.ident, LeBytes(h.typ, 2));
    assert image[..16] == h.ident by { AtFront(image, h.ident); }
    ReadsU16(image, 16, h.typ);
    ReadsU16(image, 18, h.machine);
    ReadsU32(image, 20, h.version);
    ReadsU64(image, 24, h.entry);
    ReadsU64(image, 32, h.phoff);
  }

  lemma TailReads(image: seq<u8>, h: Ehdr)
    requires |image| >= 64 && At(image, 40, EhdrTail(h))
    ensures U64At(image, 40) == h.shoff && U32At(image, 48) == h.flags && U16At(image, 52) == h.ehsize
    ensures U16At(image, 54) == h.phentsize && U16At(image, 56) == h.phnum && U16At(image, 58) == h.shentsize
    ensures U16At(image, 60) == h.shnum && U16At(image, 62) == h.shstrndx
  {
    hide LeBytes, At, U16At, U32At, U64At;
    var a := LeBytes(h.shoff, 8);
    var b := a + LeBytes(h.flags, 4);
    var c := b + LeBytes(h.ehsize, 2);
    var d := c + LeBytes(h.phentsize, 2);
    var e := d + LeBytes(h.phnum, 2);
    var f := e + LeBytes(h.shentsize, 2);
    var g := f + LeBytes(h.shnum, 2);
    AtSplit(image, 40, g, LeBytes(h.shstrndx, 2));
    AtSplit(image, 40, f, LeBytes(h.shnum, 2));
    AtSplit(image, 40, e, LeBytes(h.shentsize, 2));
    AtSplit(image, 40, d, LeBytes(h.phnum, 2));
    AtSplit(image, 40, c, LeBytes(h.phentsize, 2));
    AtSplit(image, 40, b, LeBytes(h.ehsize, 2));
    AtSplit(image, 40, a, LeBytes(h.flags, 4));
    ReadsU64(image, 40, h.shoff);
    ReadsU32(image, 48, h.flags);
    ReadsU16(image, 52, h.ehsize);
    ReadsU16(image, 54, h.phentsize);
    ReadsU16(image, 56, h.phnum);
    ReadsU16(image, 58, h.shentsize);
    ReadsU16(image, 60, h.shnum);
    ReadsU16(image, 62, h.shstrndx);
  }

  lemma AtFront(b: seq<u8>, s: seq<u8>)
    requires At(b, 0, s)
    ensures |s| <= |b| && b[..|s|] == s
  {
  }

  /** A 64-bit little-endian image for this machine, with program headers of the expected size. */
  predicate Bootable(h: Ehdr, machine: u16) {
    && |h.ident| == 16 && h.ident[..6] == [0x7f, 0x45, 0x4c, 0x46, 2, 1]
    && h.machine == machine && h.phentsize == 56
  }

  predicate HeaderOk(image: seq<u8>, machine: u16) {
    EhdrAt(image).Some? && Bootable(EhdrAt(image).value, machine)
  }

  /** The first `n` program headers, if all can be read. */
  function Phdrs(image: seq<u8>, phoff: nat, n: nat): (r: Option<seq<Phdr>>)
    ensures r.Some? ==> |r.value| == n
  {
    if n == 0 then Some([])
    else
      var init, last := Phdrs(image, phoff, n - 1), PhdrAt(image, phoff + (n - 1) * 56);
      if init.None? || last.None? then None else Some(init.value + [last.value])
  }

  function Segments(image: seq<u8>): Option<seq<Phdr>>
    requires |image| >= 64
  {
    Phdrs(image, EhdrAt(image).value.phoff, EhdrAt(image).value.phnum)
  }

  // ---- the page range ----

  function PageDown(v: nat): nat {
    v - v % 4096
  }

  /** `align_up`, which fails on overflow. */
  function PageUp(v: nat): Option<nat> {
    if v + 4095 >= 0x1_0000_0000_0000_0000 then None else Some(PageDown(v + 4095))
  }

  lemma PageFacts(v: nat)
    ensures PageDown(v) <= v < PageDown(v) + 4096 && PageDown(v) % 4096 == 0
  {
  }

  predicate Occupies(p: Phdr) {
    p.ptype == PT_LOAD && p.memsz != 0
  }

  predicate HasBytes(p: Phdr) {
    p.ptype == PT_LOAD && p.filesz != 0
  }

  /** The running minimum and maximum over page-aligned segments; `None` on overflow. */
  function Range(segs: seq<Phdr>): Option<(nat, nat)> {
    if segs == [] then Some((0xffff_ffff_ffff_ffff, 0))
    else
      var init, p := Range(segs[..|segs| - 1]), segs[|segs| - 1];
      if init.None? || !Occupies(p) then init
      else
        var end := PageUp(p.paddr + p.memsz);
        if end.None? then None
        else Some((Min(init.value.0, PageDown(p.paddr)), Max(init.value.1, end.value)))
  }

  lemma {:induction false} RangeCovers(segs: seq<Phdr>, i: nat)
    requires Range(segs).Some? && i < |segs| && Occupies(segs[i])
    ensures Range(segs).value.0 <= segs[i].paddr && segs[i].paddr + segs[i].memsz <= Range(segs).value.1
  {
    var n := |segs| - 1;
    if i < n {
      RangeCovers(segs[..n], i);
    } else {
      PageFacts(segs[n].paddr);
      PageFacts(segs[n].paddr + segs[n].memsz + 4095);
    }
  }

  lemma {:induction false} RangeAligned(segs: seq<Phdr>)
    requires Range(segs).Some?
    ensures var (lo, hi) := Range(segs).value; lo < hi ==> lo % 4096 == 0 && hi % 4096 == 0
    ensures var (lo, hi) := Range(segs).value; hi % 4096 == 0 && (lo % 4096 == 0 || lo == 0xffff_ffff_ffff_ffff)
    ensures Range(segs).value.1 < 0x1_0000_0000_0000_0000
  {
    if segs != [] {
      var p := segs[|segs| - 1];
      RangeAligned(segs[..|segs| - 1]);
      PageFacts(p.paddr);
      PageFacts(p.paddr + p.memsz + 4095);
    }
  }

  // ---- the loaded bytes ----

  predicate Covers(p: Phdr, a: nat) {
    HasBytes(p) && p.paddr <= a < p.paddr + p.filesz
  }

  predicate InFile(image: seq<u8>, p: Phdr) {
    HasBytes(p) ==> p.offset + p.filesz <= |image|
  }

  /** The last segment with file bytes at `a` supplies the byte; zero if there is none. */
  function LoadedByte(image: seq<u8>, segs: seq<Phdr>, a: nat): u8
    requires forall i :: 0 <= i < |segs| ==> InFile(image, segs[i])
  {
    if segs == [] then 0
    else
      var p := segs[|segs| - 1];
      assert InFile(image, p);
      if Covers(p, a) then image[p.offset + (a - p.paddr)] else LoadedByte(image, segs[..|segs| - 1], a)
  }

  /** With disjoint segments the byte is that of the one segment covering it. */
  lemma {:induction false} LoadedByteUnique(image: seq<u8>, segs: seq<Phdr>, a: nat)
    requires forall i :: 0 <= i < |segs| ==> InFile(image, segs[i])
    requires forall i, j :: 0 <= i < j < |segs| ==> !(Covers(segs[i], a) && Covers(segs[j], a))
    ensures forall i :: 0 <= i < |segs| && Covers(segs[i], a) && InFile(image, segs[i]) ==>
      LoadedByte(image, segs, a) == image[segs[i].offset + (a - segs[i].paddr)]
    ensures (forall i :: 0 <= i < |segs| ==> !Covers(segs[i], a)) ==> LoadedByte(image, segs, a) == 0
  {
    if segs != [] {
      LoadedByteUnique(image, segs[..|segs| - 1], a);
    }
  }

  /** Some segment has a file byte at `a`. */
  predicate Covered(segs: seq<Phdr>, a: nat) {
    segs != [] && (Covers(segs[|segs| - 1], a) || Covered(segs[..|segs| - 1], a))
  }

  lemma {:induction false} CoveredIff(segs: seq<Phdr>, a: nat)
    ensures Covered(segs, a) <==> exists i :: 0 <= i < |segs| && Covers(segs[i], a)
  {
    if segs != [] {
      var n := |segs| - 1;
      CoveredIff(segs[..n], a);
      if Covered(segs[..n], a) {
        var i :| 0 <= i < n && Covers(segs[..n][i], a);
        assert Covers(segs[i], a);
      }
    }
  }

  lemma CoveredByPrefix(segs: seq<Phdr>, i: nat)
    requires i <= |segs|
    ensures forall a :: Covered(segs[..i], a) ==> Covered(segs, a)
  {
    forall a | Covered(segs[..i], a) ensures Covered(segs, a) {
      CoveredIff(segs[..i], a);
      CoveredIff(segs, a);
      var k :| 0 <= k < i && Covers(segs[..i][k], a);
      assert Covers(segs[k], a);
    }
  }

  /** File bytes land in memory that exists. */
  ghost predicate Fits(segs: seq<Phdr>, size: nat) {
    forall i :: 0 <= i < |segs| && HasBytes(segs[i]) ==> segs[i].paddr + segs[i].filesz <= size
  }

  /** No file byte goes outside the page range. */
  ghost predicate StaysInside(segs: seq<Phdr>)
    requires Range(segs).Some?
  {
    forall a: nat :: Covered(segs, a) ==> Range(segs).value.0 <= a < Range(segs).value.1
  }

  ghost predicate PartInside(segs: seq<Phdr>, p: Phdr)
    requires Range(segs).Some?
  {
    HasBytes(p) ==> Range(segs).value.0 <= p.paddr && p.paddr + p.filesz <= Range(segs).value.1
  }

  /** Nothing outside the page range is written iff each segment's file bytes lie inside it. */
  lemma NothingOutside(segs: seq<Phdr>)
    requires Range(segs).Some?
    ensures StaysInside(segs) <==> forall i :: 0 <= i < |segs| ==> PartInside(segs, segs[i])
  {
    hide Range, Covered;
    if forall i :: 0 <= i < |segs| ==> PartInside(segs, segs[i]) {
      forall a: nat | Covered(segs, a) ensures Range(segs).value.0 <= a < Range(segs).value.1 {
        CoveredIff(segs, a);
        var i :| 0 <= i < |segs| && Covers(segs[i], a);
        assert PartInside(segs, segs[i]);
      }
    }
    if StaysInside(segs) {
      forall i | 0 <= i < |segs| ensures PartInside(segs, segs[i]) {
        var p := segs[i];
        if HasBytes(p) {
          CoveredIff(segs, p.paddr);
          CoveredIff(segs, p.paddr + p.filesz - 1);
          assert Covers(segs[i], p.paddr) && Covers(segs[i], p.paddr + p.filesz - 1);
        }
      }
    }
  }

  /** Segments that ask for no more file bytes than they occupy stay inside. */
  lemma WellFormedStaysInside(segs: seq<Phdr>)
    requires Range(segs).Some?
    requires forall i :: 0 <= i < |segs| && HasBytes(segs[i]) ==> segs[i].filesz <= segs[i].memsz
    ensures StaysInside(segs)
  {
    forall i | 0 <= i < |segs| ensures PartInside(segs, segs[i]) {
      if HasBytes(segs[i]) { RangeCovers(segs, i); }
    }
    NothingOutside(segs);
  }

  /** One byte of memory with a page and a byte of file: the last byte falls behind the range. */
  lemma LongFileSpills()
    ensures var segs := [Phdr(PT_LOAD, 0, 64, 0, 0x1000, 4097, 1, 0)];
      Range(segs) == Some((0x1000, 0x2000)) && Covered(segs, 0x2000) && !StaysInside(segs)
  {
    var segs := [Phdr(PT_LOAD, 0, 64, 0, 0x1000, 4097, 1, 0)];
    assert segs[..0] == [];
    assert Range(segs[..0]) == Some((0xffff_ffff_ffff_ffff, 0));
    assert Covers(segs[0], 0x2000);
    assert Covered(segs, 0x2000);
  }

  ghost predicate Accepts(image: seq<u8>, machine: u16, granted: bool) {
    && HeaderOk(image, machine) && Segments(image).Some? && Range(Segments(image).value).Some?
    && Range(Segments(image).value).value.0 < Range(Segments(image).value).value.1 && granted
    && forall i :: 0 <= i < |Segments(image).value| ==> InFile(image, Segments(image).value[i])
  }

  // ---- the loader ----

  /** `value & !(EFI_PAGE_SIZE - 1)` */
  method AlignDown(v: u64) returns (r: u64)
    ensures r == PageDown(v)
  {
    PageBits(v);
    r := BitAndNot(v, 4095);
  }

  method AlignUp(v: nat) returns (r: Option<u64>)
    ensures r == PageUp(v)
  {
    if v + 4095 >= 0x1_0000_0000_0000_0000 {
      return None;
    }
    var d := AlignDown(v + 4095);
    return Some(d);
  }

  /** First pass: the page range of all loadable segments, or nothing. */
  method FindRange(image: seq<u8>, phoff: u64, phnum: u16) returns (r: Option<(u64, u64)>)
    ensures r == if Phdrs(image, phoff, phnum).None? then None else
      var range := Range(Phdrs(image, phoff, phnum).value);
      if range.None? || range.value.0 >= range.value.1 then None else range
  {
    hide PhdrAt, PageDown, PageUp;
    var lo, hi := 0xffff_ffff_ffff_ffff, 0;
    ghost var segs: seq<Phdr> := [];
    for i := 0 to phnum
      invariant Phdrs(image, phoff, i) == Some(segs) && Range(segs) == Some((lo, hi))
      invariant 0 <= lo < 0x1_0000_0000_0000_0000 && 0 <= hi < 0x1_0000_0000_0000_0000
    {
      var p := PhdrAt(image, phoff + i * 56);
      if p.None? {
        PhdrsShort(image, phoff, i + 1, phnum);
        return None;
      }
      ghost var segs' := segs + [p.value];
      assert segs'[..|segs'| - 1] == segs;
      if Occupies(p.value) {
        var start := AlignDown(p.value.paddr);
        var end := AlignUp(p.value.paddr + p.value.memsz);
        if end.None? {
          PhdrsOverflow(image, phoff, i + 1, phnum);
          return None;
        }
        lo, hi := Min(lo, start), Max(hi, end.value);
      }
      segs := segs';
    }
    if lo == 0xffff_ffff_ffff_ffff || hi <= lo {
      RangeAligned(segs);
      return None;
    }
    return Some((lo, hi));
  }

  lemma {:induction false} PhdrsShort(image: seq<u8>, phoff: nat, i: nat, n: nat)
    requires Phdrs(image, phoff, i).None? && i <= n
    ensures Phdrs(image, phoff, n).None?
  {
    hide PhdrAt;
    if i < n { PhdrsShort(image, phoff, i, n - 1); }
  }

  lemma {:induction false} PhdrsOverflow(image: seq<u8>, phoff: nat, i: nat, n: nat)
    requires Phdrs(image, phoff, i).Some? && Range(Phdrs(image, phoff, i).value).None? && i <= n
    ensures Phdrs(image, phoff, n).None? || Range(Phdrs(image, phoff, n).value).None?
  {
    hide PhdrAt;
    if i < n {
      PhdrsOverflow(image, phoff, i, n - 1);
      var segs := Phdrs(image, phoff, n);
      if segs.Some? {
        assert segs.value[..n - 1] == Phdrs(image, phoff, n - 1).value;
      }
    }
  }

  /** Second pass: copy every segment's file bytes; `false` if one lies outside the image. */
  method CopySegments(image: seq<u8>, phoff: u64, phnum: u16, mem: array<u8>) returns (ok: bool)
    requires Phdrs(image, phoff, phnum).Some? && Fits(Phdrs(image, phoff, phnum).value, mem.Length)
    modifies mem
    ensures ok <==> forall i :: 0 <= i < phnum ==> InFile(image, Phdrs(image, phoff, phnum).value[i])
    ensures ok ==> forall a :: 0 <= a < mem.Length ==>
      mem[a] == if Covered(Phdrs(image, phoff, phnum).value, a)
                then LoadedByte(image, Phdrs(image, phoff, phnum).value, a) else old(mem[a])
    ensures forall a :: 0 <= a < mem.Length && !Covered(Phdrs(image, phoff, phnum).value, a) ==> mem[a] == old(mem[a])
  {
    hide PhdrAt, Phdrs;
    ghost var segs := Phdrs(image, phoff, phnum).value;
    for i := 0 to phnum
      invariant forall k :: 0 <= k < i ==> InFile(image, segs[k])
      invariant forall a :: 0 <= a < mem.Length ==>
        mem[a] == if Covered(segs[..i], a) then LoadedByte(image, segs[..i], a) else old(mem[a])
    {
      PhdrsIndex(image, phoff, phnum, i);
      var p := PhdrAt(image, phoff + i * 56).value;
      assert segs[..i + 1][..i] == segs[..i];
      if HasBytes(p) {
        if p.offset + p.filesz > |image| {
          assert !InFile(image, segs[i]);
          CoveredByPrefix(segs, i);
          return false;
        }
        ghost var before := mem[..];
        WriteBytes(mem, p.paddr, image[p.offset .. p.offset + p.filesz]);
        forall a | 0 <= a < mem.Length
          ensures mem[a] == if Covers(p, a) then image[p.offset + (a - p.paddr)] else before[a]
        {
          assert mem[..][a] == mem[a];
        }
      }
    }
    assert segs[..phnum] == segs;
    return true;
  }

  lemma {:induction false} PhdrsIndex(image: seq<u8>, phoff: nat, n: nat, i: nat)
    requires Phdrs(image, phoff, n).Some? && i < n
    ensures PhdrAt(image, phoff + i * 56) == Some(Phdrs(image, phoff, n).value[i])
  {
    hide PhdrAt;
    if i < n - 1 { PhdrsIndex(image, phoff, n - 1, i); }
  }

  method Zero(mem: array<u8>, lo: nat, hi: nat)
    requires lo <= hi <= mem.Length
    modifies mem
    ensures forall a :: lo <= a < hi ==> mem[a] == 0
    ensures forall a :: 0 <= a < mem.Length && !(lo <= a < hi) ==> mem[a] == old(mem[a])
  {
    for a := lo to hi
      invariant forall k :: lo <= k < a ==> mem[k] == 0
      invariant forall k :: 0 <= k < mem.Length && !(lo <= k < a) ==> mem[k] == old(mem[k])
    {
      mem[a] := 0;
    }
  }

  /**
   `load_kernel_elf`. `granted` is the outcome of AllocatePages, which only grants
   memory that exists.
   */
  method LoadKernelElf(image: seq<u8>, machine: u16, granted: bool, mem: array<u8>) returns (entry: Option<u64>)
    requires HeaderOk(image, machine) && Segments(image).Some? ==> Fits(Segments(image).value, mem.Length)
    requires granted && HeaderOk(image, machine) && Segments(image).Some? && Range(Segments(image).value).Some?
      ==> Range(Segments(image).value).value.1 <= mem.Length
    modifies mem
    ensures entry.Some? <==> Accepts(image, machine, granted)
    ensures entry.Some? ==>
      var segs := Segments(image).value;
      var (lo, hi) := Range(segs).value;
      && entry.value == EhdrAt(image).value.entry && hi <= mem.Length && lo % 4096 == 0 && hi % 4096 == 0
      && (forall a :: 0 <= a < mem.Length ==>
            mem[a] == if Covered(segs, a) then LoadedByte(image, segs, a) else if lo <= a < hi then 0 else old(mem[a]))
    ensures forall a :: 0 <= a < mem.Length && !Loadable(image, machine, a) ==> mem[a] == old(mem[a])
  {
    hide Phdrs, Range, PhdrAt, Bootable, U16At, U32At, U64At;
    var ehdr := EhdrAt(image);
    if ehdr.None? || !Bootable(ehdr.value, machine) {
      return None;
    }
    var phoff, phnum := ehdr.value.phoff, ehdr.value.phnum;
    var range := FindRange(image, phoff, phnum);
    if range.None? || !granted {
      return None;
    }
    var (lo, hi) := range.value;
    RangeAligned(Segments(image).value);
    Zero(mem, lo, hi);
    var ok := CopySegments(image, phoff, phnum, mem);
    if !ok {
      return None;
    }
    return Some(ehdr.value.entry);
  }

  // ---- a whole image ----

  /** filesz <= memsz, and no two segments have a file byte at the same address. */
  ghost predicate WellFormed(ps: seq<Phdr>) {
    && (forall i :: 0 <= i < |ps| && HasBytes(ps[i]) ==> ps[i].filesz <= ps[i].memsz)
    && forall i, j :: 0 <= i < j < |ps| && HasBytes(ps[i]) && HasBytes(ps[j]) ==>
         ps[i].paddr + ps[i].filesz <= ps[j].paddr || ps[j].paddr + ps[j].filesz <= ps[i].paddr
  }

  /** The image holds this header, this table of program headers, and each segment's contents. */
  ghost predicate LaidOut(image: seq<u8>, h: Ehdr, ps: seq<Phdr>, contents: seq<seq<u8>>) {
    && |h.ident| == 16 && At(image, 0, EhdrBytes(h)) && |ps| == |contents| == h.phnum
    && (forall i :: 0 <= i < |ps| ==> At(image, h.phoff + i * 56, PhdrBytes(ps[i])))
    && forall i :: 0 <= i < |ps| && HasBytes(ps[i]) ==> HoldsContents(image, ps[i], contents[i])
  }

  ghost predicate HoldsContents(image: seq<u8>, p: Phdr, bytes: seq<u8>) {
    |bytes| == p.filesz && At(image, p.offset, bytes)
  }

  /** The loader reads back the headers an image was built from. */
  lemma LaidOutReads(image: seq<u8>, h: Ehdr, ps: seq<Phdr>, contents: seq<seq<u8>>)
    requires LaidOut(image, h, ps, contents)
    ensures EhdrAt(image) == Some(h) && Segments(image) == Some(ps)
  {
    hide EhdrBytes, PhdrBytes, At, PhdrAt, EhdrAt;
    EhdrRoundTrip(image, h);
    TableReads(image, h.phoff, ps, |ps|);
    assert ps[..|ps|] == ps;
    assert |image| >= 64 by { AtFits(image, 0, EhdrBytes(h)); }
  }

  lemma {:induction false} TableReads(image: seq<u8>, phoff: nat, ps: seq<Phdr>, n: nat)
    requires n <= |ps| && forall i :: 0 <= i < |ps| ==> At(image, phoff + i * 56, PhdrBytes(ps[i]))
    ensures Phdrs(image, phoff, n) == Some(ps[..n])
  {
    hide PhdrBytes, At, PhdrAt;
    if n > 0 {
      TableReads(image, phoff, ps, n - 1);
      PhdrRoundTrip(image, phoff + (n - 1) * 56, ps[n - 1]);
      assert ps[..n] == ps[..n - 1] + [ps[n - 1]];
    }
  }

  /** The smallest run of whole pages from `lo` to `hi` that holds every segment in memory. */
  ghost predicate IsPageRange(ps: seq<Phdr>, lo: nat, hi: nat) {
    && lo % 4096 == 0 && hi % 4096 == 0
    && (forall i :: 0 <= i < |ps| && Occupies(ps[i]) ==> lo <= ps[i].paddr && ps[i].paddr + ps[i].memsz <= hi)
    && (exists i :: 0 <= i < |ps| && Occupies(ps[i]) && ps[i].paddr < lo + 4096)
    && (exists i :: 0 <= i < |ps| && Occupies(ps[i]) && hi < ps[i].paddr + ps[i].memsz + 4096)
  }

  ghost predicate AnyOccupies(ps: seq<Phdr>) {
    exists i :: 0 <= i < |ps| && Occupies(ps[i])
  }

  /** Segments in memory end a page before the end of the address space. */
  ghost predicate AllFit(ps: seq<Phdr>) {
    forall i :: 0 <= i < |ps| && Occupies(ps[i]) ==> ps[i].paddr + ps[i].memsz + 4095 < 0x1_0000_0000_0000_0000
  }

  lemma {:induction false} RangeFits(ps: seq<Phdr>)
    ensures Range(ps).Some? <==> AllFit(ps)
  {
    if ps != [] {
      var n := |ps| - 1;
      RangeFits(ps[..n]);
      assert AllFit(ps) <==> AllFit(ps[..n]) && (Occupies(ps[n]) ==> PageUp(ps[n].paddr + ps[n].memsz).Some?) by {
        assert forall i :: 0 <= i < n ==> ps[..n][i] == ps[i];
      }
    }
  }

  /** The ends of the range lie within a page of some segment's start and of some segment's end. */
  lemma {:induction false} RangeTight(ps: seq<Phdr>) returns (i: nat, j: nat)
    requires Range(ps).Some? && AnyOccupies(ps)
    ensures i < |ps| && Occupies(ps[i]) && ps[i].paddr < Range(ps).value.0 + 4096
    ensures j < |ps| && Occupies(ps[j]) && Range(ps).value.1 < ps[j].paddr + ps[j].memsz + 4096
  {
    var n := |ps| - 1;
    i, j := n, n;
    PageFacts(ps[n].paddr);
    PageFacts(ps[n].paddr + ps[n].memsz + 4095);
    if AnyOccupies(ps[..n]) {
      var i', j' := RangeTight(ps[..n]);
      if !Occupies(ps[n]) || Range(ps[..n]).value.0 < PageDown(ps[n].paddr) { i := i'; }
      if !Occupies(ps[n]) || Range(ps[..n]).value.1 > PageDown(ps[n].paddr + ps[n].memsz + 4095) { j := j'; }
    } else {
      NothingToLoad(ps[..n]);
      assert forall k :: 0 <= k < n ==> ps[..n][k] == ps[k];
    }
  }

  lemma {:induction false} NothingToLoad(ps: seq<Phdr>)
    requires !AnyOccupies(ps)
    ensures Range(ps) == Some((0xffff_ffff_ffff_ffff, 0))
  {
    if ps != [] {
      var n := |ps| - 1;
      assert !Occupies(ps[n]) && forall k :: 0 <= k < n ==> ps[..n][k] == ps[k];
      NothingToLoad(ps[..n]);
    }
  }

  /** The first pass yields the smallest page range, and fails iff there is nothing to map or it does not fit. */
  lemma RangeExact(ps: seq<Phdr>)
    ensures Range(ps).Some? && Range(ps).value.0 < Range(ps).value.1 <==> AnyOccupies(ps) && AllFit(ps)
    ensures AnyOccupies(ps) && AllFit(ps) ==> IsPageRange(ps, Range(ps).value.0, Range(ps).value.1)
  {
    hide Range, AllFit;
    RangeFits(ps);
    if !AnyOccupies(ps) {
      NothingToLoad(ps);
    } else if AllFit(ps) {
      RangeAligned(ps);
      var i, j := RangeTight(ps);
      RangeCovers(ps, i);
      forall k | 0 <= k < |ps| && Occupies(ps[k])
        ensures Range(ps).value.0 <= ps[k].paddr && ps[k].paddr + ps[k].memsz <= Range(ps).value.1
      {
        RangeCovers(ps, k);
      }
    }
  }

  /** Each segment's contents are at its address, zeros elsewhere between `lo` and `hi`, the rest is unchanged. */
  ghost predicate LoadedInto(ps: seq<Phdr>, contents: seq<seq<u8>>, before: seq<u8>, after: seq<u8>, lo: nat, hi: nat)
    requires |ps| == |contents| && hi <= |before| == |after|
  {
    && (forall i :: 0 <= i < |ps| && HasBytes(ps[i]) ==> lo <= ps[i].paddr && At(after[..hi], ps[i].paddr, contents[i]))
    && (forall a :: lo <= a < hi && !Covered(ps, a) ==> after[a] == 0)
    && (forall a :: 0 <= a < |after| && !(lo <= a < hi) ==> after[a] == before[a])
  }

  /**
   `load_kernel_elf` on an image built from a header, a list of well-formed segments and
   their contents: accepted iff the header is right, the segments can be mapped and the
   pages are granted. Then each segment's contents are at its physical address, the rest of
   the smallest page range is zero, and nothing outside the range is written.
   */
  method LoadWellFormed(
      image: seq<u8>, machine: u16, granted: bool, mem: array<u8>,
      ghost h: Ehdr, ghost ps: seq<Phdr>, ghost contents: seq<seq<u8>>)
    returns (entry: Option<u64>)
    requires LaidOut(image, h, ps, contents) && WellFormed(ps) && Fits(ps, mem.Length)
    requires granted && Range(ps).Some? ==> Range(ps).value.1 <= mem.Length
    modifies mem
    ensures entry.Some? <==> Bootable(h, machine) && AnyOccupies(ps) && AllFit(ps) && granted
    ensures entry.Some? ==>
      && entry.value == h.entry
      && exists lo, hi :: 0 <= lo <= hi <= mem.Length && |contents| == |ps|
           && IsPageRange(ps, lo, hi) && LoadedInto(ps, contents, old(mem[..]), mem[..], lo, hi)
  {
    hide Phdrs, Range, PhdrAt, EhdrAt, Covered, LoadedByte, AnyOccupies, AllFit, IsPageRange, LoadedInto, Bootable;
    LaidOutReads(image, h, ps, contents);
    RangeExact(ps);
    ContentsInFile(image, h, ps, contents);
    entry := LoadKernelElf(image, machine, granted, mem);
    if entry.Some? {
      var (lo, hi) := Range(ps).value;
      ContentsLoaded(image, h, ps, contents, old(mem[..]), mem[..], lo, hi);
    }
  }

  lemma ContentsInFile(image: seq<u8>, h: Ehdr, ps: seq<Phdr>, contents: seq<seq<u8>>)
    requires LaidOut(image, h, ps, contents)
    ensures forall i :: 0 <= i < |ps| ==> InFile(image, ps[i])
  {
    hide EhdrBytes, PhdrBytes;
    forall i | 0 <= i < |ps| && HasBytes(ps[i]) ensures InFile(image, ps[i]) {
      assert HoldsContents(image, ps[i], contents[i]);
    }
  }

  lemma ContentsLoaded(
      image: seq<u8>, h: Ehdr, ps: seq<Phdr>, contents: seq<seq<u8>>, before: seq<u8>, after: seq<u8>, lo: nat, hi: nat)
    requires LaidOut(image, h, ps, contents) && WellFormed(ps)
    requires Range(ps) == Some((lo, hi)) && hi <= |before| == |after|
    requires forall i :: 0 <= i < |ps| ==> InFile(image, ps[i])
    requires forall a :: 0 <= a < |after| ==>
      after[a] == if Covered(ps, a) then LoadedByte(image, ps, a) else if lo <= a < hi then 0 else before[a]
    ensures LoadedInto(ps, contents, before, after, lo, hi)
  {
    hide Range, Covered, LoadedByte, EhdrBytes, PhdrBytes;
    WellFormedStaysInside(ps);
    forall i | 0 <= i < |ps| && HasBytes(ps[i])
      ensures lo <= ps[i].paddr && At(after[..hi], ps[i].paddr, contents[i])
    {
      RangeCovers(ps, i);
      SegmentLoaded(image, ps, contents[i], after, i);
      var p := ps[i];
      assert after[..hi][p.paddr .. p.paddr + p.filesz] == after[p.paddr .. p.paddr + p.filesz];
    }
  }

  lemma SegmentLoaded(image: seq<u8>, ps: seq<Phdr>, bytes: seq<u8>, after: seq<u8>, i: nat)
    requires i < |ps| && HasBytes(ps[i]) && HoldsContents(image, ps[i], bytes) && WellFormed(ps)
    requires forall i :: 0 <= i < |ps| ==> InFile(image, ps[i])
    requires ps[i].paddr + ps[i].filesz <= |after|
    requires forall a :: 0 <= a < |after| && Covered(ps, a) ==> after[a] == LoadedByte(image, ps, a)
    ensures after[ps[i].paddr .. ps[i].paddr + ps[i].filesz] == bytes
  {
    hide Covered, LoadedByte;
    var p := ps[i];
    forall a | p.paddr <= a < p.paddr + p.filesz ensures after[a] == bytes[a - p.paddr] {
      assert Covers(ps[i], a);
      CoveredIff(ps, a);
      LoadedByteUnique(image, ps, a);
      assert image[p.offset .. p.offset + p.filesz][a - p.paddr] == bytes[a - p.paddr];
    }
  }

  /** `a` lies in the page range of the image or under one of its segments' file bytes. */
  ghost predicate Loadable(image: seq<u8>, machine: u16, a: nat) {
    && HeaderOk(image, machine) && Segments(image).Some? && Range(Segments(image).value).Some?
    && (Range(Segments(image).value).value.0 <= a < Range(Segments(image).value).value.1 || Covered(Segments(image).value, a))
  }
}
