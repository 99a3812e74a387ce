/**
 What a node's list of properties says: each field of its record is read from the last
 property that can give it.
 */
module FdtNodes {
  import opened Machine
  import opened BootInfos
  import opened Utf8
  import opened Fdt

  datatype Property = Property(name: seq<u8>, value: seq<u8>)

  /** What a property's value must be to count. */
  datatype Need = AtLeast(bytes: nat) | ValidText

  predicate Gives(p: Property, name: string, need: Need) {
    && p.name == Ascii(name)
    && match need
       case AtLeast(n) => |p.value| >= n
       case ValidText => ValidUtf8(UntilNul(p.value))
  }

  /** The value of the last property of that name that counts. */
  function Last(ps: seq<Property>, name: string, need: Need): (v: Option<seq<u8>>)
    ensures v.Some? && need.AtLeast? ==> |v.value| >= need.bytes
  {
    if ps == [] then None
    else if Gives(ps[|ps| - 1], name, need) then Some(ps[|ps| - 1].value)
    else Last(ps[..|ps| - 1], name, need)
  }

  lemma {:induction false} LastIs(ps: seq<Property>, name: string, need: Need) returns (k: nat)
    ensures Last(ps, name, need).None? ==> forall i :: 0 <= i < |ps| ==> !Gives(ps[i], name, need)
    ensures Last(ps, name, need).Some? ==>
      && k < |ps| && Gives(ps[k], name, need) && Last(ps, name, need).value == ps[k].value
      && forall i :: k < i < |ps| ==> !Gives(ps[i], name, need)
  {
    hide Gives;
    k := 0;
    if ps != [] {
      var n := |ps| - 1;
      if Gives(ps[n], name, need) { k := n; } else { k := LastIs(ps[..n], name, need); }
    }
  }

  /** The number in the first four bytes. */
  function Word(v: seq<u8>): u32
    requires |v| >= 4
  {
    BigEndianBound(v[..4]);
    Pow2Of32();
    BigEndian(v[..4])
  }

  /** The last well-formed word property of that name, else `otherwise`. */
  function WordOf(ps: seq<Property>, name: string, otherwise: u32): u32 {
    var v := Last(ps, name, AtLeast(4));
    if v.Some? then Word(v.value) else otherwise
  }

  /** The last property of that name, where a short value counts as 0. */
  function WordOr0(ps: seq<Property>, name: string): u32 {
    var v := Last(ps, name, AtLeast(0));
    if v.Some? && |v.value| >= 4 then Word(v.value) else 0
  }

  /** `#address-cells` and `#size-cells`. */
  datatype Cells = Cells(address: u32, size: u32)

  /** A node's own cell counts; what it does not give it inherits. */
  function CellsOf(ps: seq<Property>, inherited: Cells): Cells {
    Cells(WordOf(ps, "#address-cells", inherited.address), WordOf(ps, "#size-cells", inherited.size))
  }

  /** A number of up to two cells; wider ones are read as 0. */
  function Number(s: seq<u8>): u64 {
    BigEndianBound(s);
    Pow2Of64();
    if |s| <= 8 then (Pow2Mono(8 * |s|, 64); BigEndian(s)) else 0
  }

  /** The register: address and size in the parent's cell counts, at least one cell each. */
  function RegOf(ps: seq<Property>, parent: Cells): Option<Reg> {
    var ac, sc := 4 * Max(parent.address, 1), 4 * Max(parent.size, 1);
    var v := Last(ps, "reg", AtLeast(ac + sc));
    if v.None? then None else Some(Reg(Number(v.value[..ac]), Number(v.value[ac .. ac + sc])))
  }

  function TextOf(ps: seq<Property>, name: string): seq<u8> {
    var v := Last(ps, name, AtLeast(0));
    if v.Some? then Utf8OrEmpty(UntilNul(v.value)) else []
  }

  function FormatOf(ps: seq<Property>): PixelFormat {
    var v := Last(ps, "format", ValidText);
    if v.Some? && UntilNul(v.value) in {Ascii("a8b8g8r8"), Ascii("x8b8g8r8"), Ascii("r8g8b8a8"), Ascii("r8g8b8x8")}
    then Rgba8888 else Bgra8888
  }

  predicate Mentions(ps: seq<Property>, name: string) {
    Last(ps, name, AtLeast(0)).Some?
  }

  predicate MentionsScreen(ps: seq<Property>) {
    Mentions(ps, "width") || Mentions(ps, "height") || Mentions(ps, "stride") || Mentions(ps, "format")
  }

  function Geometry(ps: seq<Property>): FramebufferInfo {
    FramebufferInfo(0, WordOr0(ps, "width"), WordOr0(ps, "height"), WordOr0(ps, "stride"), 32, FormatOf(ps))
  }

  /** Any of the four framebuffer properties makes a node describe one. */
  function ScreenOf(ps: seq<Property>): Option<FramebufferInfo> {
    if MentionsScreen(ps) then Some(Geometry(ps)) else None
  }

  /** The record of a node called `name` with these properties below a parent with these cell counts. */
  function RecordOf(name: seq<u8>, ps: seq<Property>, parent: Cells): Level {
    var cells := CellsOf(ps, parent);
    Level(cells.address, cells.size, name, TextOf(ps, "compatible"), RegOf(ps, parent),
          WordOf(ps, "clock-frequency", 0), ScreenOf(ps))
  }

  function CellsAt(lv: Level): Cells {
    Cells(lv.addressCells, lv.sizeCells)
  }

  // ---- the record as the walk builds it ----

  lemma NamesDiffer()
    ensures |Ascii("#address-cells")| == 14 && |Ascii("#size-cells")| == 11 && |Ascii("compatible")| == 10
    ensures |Ascii("reg")| == 3 && |Ascii("clock-frequency")| == 15 && |Ascii("width")| == 5
    ensures |Ascii("height")| == |Ascii("stride")| == |Ascii("format")| == 6
    ensures Ascii("height") != Ascii("stride") && Ascii("height") != Ascii("format") && Ascii("stride") != Ascii("format")
  {
    assert Ascii("height")[0] == 'h' as int && Ascii("stride")[0] == 's' as int && Ascii("format")[0] == 'f' as int;
  }

  /** One more property changes only what it gives. */
  lemma LastSnoc(ps: seq<Property>, p: Property, name: string, need: Need)
    ensures Last(ps + [p], name, need) == if Gives(p, name, need) then Some(p.value) else Last(ps, name, need)
  {
    hide Gives;
    assert (ps + [p])[..|ps|] == ps;
  }

  lemma FirstWord(v: seq<u8>)
    ensures Be32(v, 0).Some? <==> |v| >= 4
    ensures |v| >= 4 ==> Be32(v, 0) == Some(Word(v))
  {
    if |v| >= 4 { Be32Spells(v, 0); }
  }

  lemma WordSnoc(ps: seq<Property>, p: Property, name: string, otherwise: u32)
    ensures WordOf(ps + [p], name, otherwise) ==
      if p.name == Ascii(name) && |p.value| >= 4 then Word(p.value) else WordOf(ps, name, otherwise)
  {
    hide Word;
    LastSnoc(ps, p, name, AtLeast(4));
  }

  lemma ReadsNumber(v: seq<u8>, off: nat, cells: nat)
    requires off + 4 * cells <= |v| && cells >= 1
    ensures ReadCells(v, off, cells) == Number(v[off .. off + 4 * cells])
  {
    if cells == 1 { Be32Spells(v, off); } else if cells == 2 { Be64Spells(v, off); }
  }

  lemma RegSnoc(ps: seq<Property>, p: Property, parent: Level, lv: Level)
    requires lv.reg == RegOf(ps, CellsAt(parent))
    ensures RegOf(ps + [p], CellsAt(parent)) ==
      if p.name == Ascii("reg") then SetReg(lv, parent, p.value).reg else RegOf(ps, CellsAt(parent))
  {
    hide ReadCells, Number;
    var ac, sc := Max(parent.addressCells, 1), Max(parent.sizeCells, 1);
    LastSnoc(ps, p, "reg", AtLeast(4 * ac + 4 * sc));
    if p.name == Ascii("reg") && |p.value| >= 4 * ac + 4 * sc {
      ReadsNumber(p.value, 0, ac);
      ReadsNumber(p.value, ac * 4, sc);
    }
  }

  lemma TextSnoc(ps: seq<Property>, p: Property, name: string)
    ensures TextOf(ps + [p], name) == if p.name == Ascii(name) then Utf8OrEmpty(UntilNul(p.value)) else TextOf(ps, name)
  {
    LastSnoc(ps, p, name, AtLeast(0));
  }

  lemma Or0Snoc(ps: seq<Property>, p: Property, name: string)
    ensures WordOr0(ps + [p], name) == if p.name == Ascii(name) then Be32Or0(p.value) else WordOr0(ps, name)
    ensures Mentions(ps + [p], name) <==> p.name == Ascii(name) || Mentions(ps, name)
  {
    hide Word, Be32;
    LastSnoc(ps, p, name, AtLeast(0));
    FirstWord(p.value);
  }

  lemma FormatSnoc(ps: seq<Property>, p: Property)
    ensures FormatOf(ps + [p]) ==
      if p.name == Ascii("format") then SetFormat(Geometry(ps), p.value).format else FormatOf(ps)
    ensures SetFormat(Geometry(ps), p.value) == Geometry(ps).(format := SetFormat(Geometry(ps), p.value).format)
  {
    hide WordOr0;
    LastSnoc(ps, p, "format", ValidText);
  }

  lemma {:induction false} ShortMention(ps: seq<Property>, name: string)
    ensures Last(ps, name, ValidText).Some? ==> Mentions(ps, name)
  {
    if ps != [] { ShortMention(ps[..|ps| - 1], name); }
  }

  lemma GeometryDefault(ps: seq<Property>)
    ensures FbOrDefault(ScreenOf(ps)) == Geometry(ps)
  {
    ShortMention(ps, "format");
  }

  lemma ScreenSnoc(ps: seq<Property>, p: Property)
    ensures ScreenOf(ps + [p]) ==
      if p.name == Ascii("width") then Some(Geometry(ps).(width := Be32Or0(p.value)))
      else if p.name == Ascii("height") then Some(Geometry(ps).(height := Be32Or0(p.value)))
      else if p.name == Ascii("stride") then Some(Geometry(ps).(strideBytes := Be32Or0(p.value)))
      else if p.name == Ascii("format") then Some(SetFormat(Geometry(ps), p.value))
      else ScreenOf(ps)
  {
    hide WordOr0, FormatOf, SetFormat, Be32Or0, Mentions, Ascii;
    NamesDiffer();
    Or0Snoc(ps, p, "width");
    Or0Snoc(ps, p, "height");
    Or0Snoc(ps, p, "stride");
    Or0Snoc(ps, p, "format");
    FormatSnoc(ps, p);
  }

  /** What one property does to a record, field by field. */
  lemma SetPropCells(lv: Level, parent: Level, name: seq<u8>, value: seq<u8>)
    ensures var r := SetProp(lv, parent, name, value);
      && r.name == lv.name
      && r.addressCells == (if name == Ascii("#address-cells") && |value| >= 4 then Word(value) else lv.addressCells)
      && r.sizeCells == (if name == Ascii("#size-cells") && |value| >= 4 then Word(value) else lv.sizeCells)
  {
    hide Word, Ascii, SetFormat, Be32Or0, FbOrDefault, Be32, UntilNul, Utf8OrEmpty;
    NamesDiffer();
    FirstWord(value);
    SetRegOnly(lv, parent, value);
    hide SetReg;
  }

  lemma SetPropClock(lv: Level, parent: Level, name: seq<u8>, value: seq<u8>)
    ensures SetProp(lv, parent, name, value).clock ==
      if name == Ascii("clock-frequency") && |value| >= 4 then Word(value) else lv.clock
  {
    hide Word, Ascii, SetFormat, Be32Or0, FbOrDefault, Be32, UntilNul, Utf8OrEmpty;
    NamesDiffer();
    FirstWord(value);
    SetRegOnly(lv, parent, value);
    hide SetReg;
  }

  lemma SetPropText(lv: Level, parent: Level, name: seq<u8>, value: seq<u8>)
    ensures SetProp(lv, parent, name, value).compatible ==
      if name == Ascii("compatible") then Utf8OrEmpty(UntilNul(value)) else lv.compatible
  {
    hide Ascii, SetFormat, Be32Or0, FbOrDefault, Be32, UntilNul, Utf8OrEmpty;
    NamesDiffer();
    SetRegOnly(lv, parent, value);
    hide SetReg;
  }

  lemma SetPropReg(lv: Level, parent: Level, name: seq<u8>, value: seq<u8>)
    ensures SetProp(lv, parent, name, value).reg == if name == Ascii("reg") then SetReg(lv, parent, value).reg else lv.reg
  {
    hide Ascii, SetFormat, Be32Or0, FbOrDefault, Be32, UntilNul, Utf8OrEmpty, SetReg;
    NamesDiffer();
  }

  lemma SetRegOnly(lv: Level, parent: Level, value: seq<u8>)
    ensures SetReg(lv, parent, value) == lv.(reg := SetReg(lv, parent, value).reg)
  {
    hide ReadCells;
  }

  lemma SetPropScreen(lv: Level, parent: Level, name: seq<u8>, value: seq<u8>)
    ensures SetProp(lv, parent, name, value).fb ==
      if name == Ascii("width") then Some(FbOrDefault(lv.fb).(width := Be32Or0(value)))
      else if name == Ascii("height") then Some(FbOrDefault(lv.fb).(height := Be32Or0(value)))
      else if name == Ascii("stride") then Some(FbOrDefault(lv.fb).(strideBytes := Be32Or0(value)))
      else if name == Ascii("format") then Some(SetFormat(FbOrDefault(lv.fb), value))
      else lv.fb
  {
    hide Ascii, SetFormat, Be32Or0, FbOrDefault, Be32, UntilNul, Utf8OrEmpty;
    NamesDiffer();
    SetRegOnly(lv, parent, value);
    hide SetReg;
  }

  /** One more property seen is one more property in the list. */
  lemma RecordSnoc(name: seq<u8>, ps: seq<Property>, parent: Level, p: Property)
    ensures SetProp(RecordOf(name, ps, CellsAt(parent)), parent, p.name, p.value) == RecordOf(name, ps + [p], CellsAt(parent))
  {
    hide SetProp, SetReg, RegOf, TextOf, WordOf, ScreenOf, Geometry, Word, Ascii, Be32Or0, SetFormat, FbOrDefault;
    var lv := RecordOf(name, ps, CellsAt(parent));
    SetPropCells(lv, parent, p.name, p.value);
    SetPropClock(lv, parent, p.name, p.value);
    SetPropText(lv, parent, p.name, p.value);
    SetPropReg(lv, parent, p.name, p.value);
    SetPropScreen(lv, parent, p.name, p.value);
    WordSnoc(ps, p, "#address-cells", parent.addressCells);
    WordSnoc(ps, p, "#size-cells", parent.sizeCells);
    WordSnoc(ps, p, "clock-frequency", 0);
    TextSnoc(ps, p, "compatible");
    RegSnoc(ps, p, parent, lv);
    ScreenSnoc(ps, p);
    GeometryDefault(ps);
  }

  /** A node starts out as one without properties. */
  lemma RecordEmpty(name: seq<u8>, parent: Level)
    ensures RecordOf(name, [], CellsAt(parent)) == Opened(name, parent)
  {
  }

  // ---- registers as they are written ----

  predicate ReadableCells(cells: nat, v: nat) {
    cells <= 2 || v == 0
  }

  /**
   A register written with the parent's cell counts, whatever follows it, is read back iff
   each of its numbers has at most two cells or is 0.
   */
  lemma RegExact(ps: seq<Property>, parent: Cells, base: u64, size: u64, rest: seq<u8>)
    requires base < Pow2(32 * Max(parent.address, 1)) && size < Pow2(32 * Max(parent.size, 1))
    requires var ac, sc := 4 * Max(parent.address, 1), 4 * Max(parent.size, 1);
      Last(ps, "reg", AtLeast(ac + sc)) == Some(BeBytes(base, ac) + BeBytes(size, sc) + rest)
    ensures RegOf(ps, parent).Some?
    ensures RegOf(ps, parent) == Some(Reg(base, size)) <==>
      ReadableCells(Max(parent.address, 1), base) && ReadableCells(Max(parent.size, 1), size)
  {
    hide Pow2, BeBytes, BigEndian, Last;
    var ac, sc := 4 * Max(parent.address, 1), 4 * Max(parent.size, 1);
    var v := BeBytes(base, ac) + BeBytes(size, sc) + rest;
    assert v[..ac] == BeBytes(base, ac);
    assert v[ac .. ac + sc] == BeBytes(size, sc);
    BytesSpell(base, ac);
    BytesSpell(size, sc);
  }

  /** An address of three cells is read as 0. */
  lemma ThreeCellsLost()
    ensures RegOf([Property(Ascii("reg"), BeBytes(0x4000_0000, 12) + BeBytes(0x1000, 4))], Cells(3, 1)) == Some(Reg(0, 0x1000))
  {
    hide BeBytes, BigEndian, Ascii, Pow2;
    var v := BeBytes(0x4000_0000, 12) + BeBytes(0x1000, 4);
    var p := Property(Ascii("reg"), v);
    assert [] + [p] == [p];
    LastSnoc([], p, "reg", AtLeast(16));
    assert v[12..16] == BeBytes(0x1000, 4);
    Pow2Of32();
    BytesSpell(0x1000, 4);
  }
}
