/**
 The flattened device tree walker: byte readers, per-node property handling and the
 token loop, as functions. `FdtWalk` holds the loop itself; `FdtTree` its meaning.
 */
module Fdt {
  import opened Machine
  import opened BootInfos
  import opened Utf8

  const MAX_DEPTH := 8

  const FDT_BEGIN_NODE: u32 := 1
  const FDT_END_NODE: u32 := 2
  const FDT_PROP: u32 := 3
  const FDT_NOP: u32 := 4

  // ---- byte readers ----

  function Be32(b: seq<u8>, off: nat): Option<u32> {
    if off + 4 > |b| then None
    else Some(0x100_0000 * b[off] as int + 0x1_0000 * b[off + 1] as int + 0x100 * b[off + 2] as int + b[off + 3] as int)
  }

  function Be64(b: seq<u8>, off: nat): Option<u64> {
    if off + 8 > |b| then None
    else Some(0x1_0000_0000 * Be32(b, off).value + Be32(b, off + 4).value)
  }

  /** Both readers are big-endian. */
  lemma Be32Spells(b: seq<u8>, off: nat)
    requires off + 4 <= |b|
    ensures Be32(b, off) == Some(BigEndian(b[off .. off + 4]))
  {
    var s := b[off .. off + 4];
    assert BigEndian(s[..3][..2][..1][..0]) == 0;
    assert BigEndian(s[..3][..2][..1]) == s[0] as int;
    assert BigEndian(s[..3][..2]) == 256 * s[0] as int + s[1] as int;
    assert BigEndian(s[..3]) == 0x1_0000 * s[0] as int + 256 * s[1] as int + s[2] as int;
  }

  lemma Be64Spells(b: seq<u8>, off: nat)
    requires off + 8 <= |b|
    ensures Be64(b, off) == Some(BigEndian(b[off .. off + 8]))
  {
    hide Be32, BigEndian, Pow2;
    Be32Spells(b, off);
    Be32Spells(b, off + 4);
    assert b[off .. off + 8] == b[off .. off + 4] + b[off + 4 .. off + 8];
    BigEndianJoin(b[off .. off + 4], b[off + 4 .. off + 8]);
    Pow2Of32();
  }

  /** The bytes before the first NUL. */
  function UntilNul(s: seq<u8>): (r: seq<u8>)
    ensures |r| <= |s| && r == s[..|r|]
    ensures forall i :: 0 <= i < |r| ==> r[i] != 0
    ensures |r| < |s| ==> s[|r|] == 0
  {
    if s == [] || s[0] == 0 then [] else [s[0]] + UntilNul(s[1..])
  }

  function Utf8OrEmpty(s: seq<u8>): (r: seq<u8>)
    ensures |r| <= |s|
  {
    if ValidUtf8(s) then s else []
  }

  function Cstr(b: seq<u8>, off: nat): (r: seq<u8>)
    ensures off <= |b| ==> off + |r| <= |b|
    ensures off > |b| ==> r == []
  {
    if off >= |b| then [] else Utf8OrEmpty(UntilNul(b[off..]))
  }

  function Ascii(s: string): (r: seq<u8>)
    ensures |r| == |s|
  {
    seq(|s|, i requires 0 <= i < |s| => s[i] as int % 256)
  }

  /** The next multiple of four. */
  function Align4(x: nat): (r: nat)
    ensures x <= r < x + 4
  {
    if x == 0 then 0 else if x <= 4 then 4 else 4 + Align4(x - 4)
  }

  /** The mask `(x + 3) & !3` of the code rounds up to a multiple of four. */
  lemma {:induction false} MaskAligns(x: nat)
    ensures BitAndNot(x + 3, 3) == Align4(x)
  {
    AndNotSplit(x + 3, 3);
    MaskIsMod(x + 3, 2);
    assert Pow2(2) == 4;
    RoundUp(x);
  }

  lemma {:induction false} RoundUp(x: nat)
    ensures Align4(x) == x + 3 - (x + 3) % 4
  {
    if x > 4 { RoundUp(x - 4); }
  }

  function ReadCells(b: seq<u8>, off: nat, cells: nat): u64 {
    if cells == 1 then (var r := Be32(b, off); if r.Some? then r.value else 0)
    else if cells == 2 then (var r := Be64(b, off); if r.Some? then r.value else 0)
    else 0
  }

  // ---- per-node state ----

  datatype Reg = Reg(base: u64, size: u64)

  /** One index of the per-depth arrays. */
  datatype Level = Level(
    addressCells: u32,
    sizeCells: u32,
    name: seq<u8>,
    compatible: seq<u8>,
    reg: Option<Reg>,
    clock: u32,
    fb: Option<FramebufferInfo>)

  const BLANK := Level(0, 0, [], [], None, 0, None)
  const TOP := Level(2, 1, [], [], None, 0, None)

  /** What a node starts from: its name and the cell counts inherited from its parent. */
  function Opened(name: seq<u8>, parent: Level): Level {
    Level(parent.addressCells, parent.sizeCells, name, [], None, 0, None)
  }

  function FbOrDefault(fb: Option<FramebufferInfo>): FramebufferInfo {
    if fb.Some? then fb.value else FramebufferInfo(0, 0, 0, 0, 32, Bgra8888)
  }

  function Be32Or0(v: seq<u8>): u32 {
    var r := Be32(v, 0);
    if r.Some? then r.value else 0
  }

  function SetFormat(fb: FramebufferInfo, value: seq<u8>): FramebufferInfo {
    var s := UntilNul(value);
    if !ValidUtf8(s) then fb
    else if s in {Ascii("a8b8g8r8"), Ascii("x8b8g8r8"), Ascii("r8g8b8a8"), Ascii("r8g8b8x8")} then
      fb.(format := Rgba8888, bpp := 32)
    else fb.(format := Bgra8888, bpp := 32)
  }

  function SetReg(lv: Level, parent: Level, value: seq<u8>): Level {
    var ac, sc := Max(parent.addressCells, 1), Max(parent.sizeCells, 1);
    if |value| < (ac + sc) * 4 then lv
    else lv.(reg := Some(Reg(ReadCells(value, 0, ac), ReadCells(value, ac * 4, sc))))
  }

  /** The effect of one property on its own node. */
  function SetProp(lv: Level, parent: Level, pname: seq<u8>, value: seq<u8>): Level {
    var v := Be32(value, 0);
    if pname == Ascii("#address-cells") then (if v.Some? then lv.(addressCells := v.value) else lv)
    else if pname == Ascii("#size-cells") then (if v.Some? then lv.(sizeCells := v.value) else lv)
    else if pname == Ascii("compatible") then lv.(compatible := Utf8OrEmpty(UntilNul(value)))
    else if pname == Ascii("reg") then SetReg(lv, parent, value)
    else if pname == Ascii("clock-frequency") then (if v.Some? then lv.(clock := v.value) else lv)
    else if pname == Ascii("width") then lv.(fb := Some(FbOrDefault(lv.fb).(width := Be32Or0(value))))
    else if pname == Ascii("height") then lv.(fb := Some(FbOrDefault(lv.fb).(height := Be32Or0(value))))
    else if pname == Ascii("stride") then lv.(fb := Some(FbOrDefault(lv.fb).(strideBytes := Be32Or0(value))))
    else if pname == Ascii("format") then lv.(fb := Some(SetFormat(FbOrDefault(lv.fb), value)))
    else lv
  }

  /** What outlives a node: the result so far and the /chosen state. */
  datatype Env = Env(info: BootInfo, stdout: seq<u8>, inChosen: bool)

  /** The effect of one property on the console path. */
  function SetStdout(env: Env, depth: nat, pname: seq<u8>, value: seq<u8>): Env {
    if pname == Ascii("stdout-path") && depth >= 1 && env.inChosen && ValidUtf8(UntilNul(value))
    then env.(stdout := UntilNul(value)) else env
  }

  function Enter(env: Env, name: seq<u8>): Env {
    env.(inChosen := env.inChosen || name == Ascii("chosen"))
  }

  // ---- act_on_node ----

  predicate StartsWith(s: seq<u8>, p: seq<u8>) {
    p <= s
  }

  predicate Contains(s: seq<u8>, p: seq<u8>) {
    p <= s || (s != [] && Contains(s[1..], p))
  }

  ghost predicate Within(p: seq<u8>, s: seq<u8>) {
    exists i: nat :: At(s, i, p)
  }

  lemma ContainsHead(s: seq<u8>, p: seq<u8>)
    ensures Contains(s, p) <==> At(s, 0, p) || (s != [] && Contains(s[1..], p))
    ensures s == [] ==> forall i: nat :: At(s, i, p) ==> At(s, 0, p)
  {
    assert p <= s <==> At(s, 0, p);
  }

  lemma {:induction false} ContainsExact(s: seq<u8>, p: seq<u8>)
    ensures Contains(s, p) <==> Within(p, s)
    decreases |s|
  {
    ContainsHead(s, p);
    hide Contains, At;
    if s != [] {
      ContainsExact(s[1..], p);
      if i: nat :| At(s[1..], i, p) { AtBehind(s, p, i); }
      if i: nat :| At(s, i, p) { if i > 0 { AtBehind(s, p, i - 1); } }
    }
  }

  lemma AtBehind(s: seq<u8>, p: seq<u8>, i: nat)
    requires s != []
    ensures At(s[1..], i, p) <==> At(s, i + 1, p)
  {
    if i + 1 + |p| <= |s| { assert s[1..][i .. i + |p|] == s[i + 1 .. i + 1 + |p|]; }
  }

  /** The bytes before the first `sep`. */
  function Before(s: seq<u8>, sep: u8): (r: seq<u8>)
    ensures r <= s && sep !in r && (|r| < |s| ==> s[|r|] == sep)
  {
    if s == [] || s[0] == sep then [] else [s[0]] + Before(s[1..], sep)
  }

  /** The bytes behind the last `sep`. */
  function AfterLast(s: seq<u8>, sep: u8): (r: seq<u8>)
    ensures |r| <= |s| && r == s[|s| - |r|..] && sep !in r && (|r| < |s| ==> s[|s| - |r| - 1] == sep)
    decreases |s|
  {
    if s == [] || s[|s| - 1] == sep then [] else AfterLast(s[..|s| - 1], sep) + [s[|s| - 1]]
  }

  predicate PathMatchesNode(path: seq<u8>, node: seq<u8>) {
    if path == [] || node == [] then false
    else
      var last := AfterLast(Before(path, ':' as int), '/' as int);
      last == node
      || (last in {Ascii("serial0"), Ascii("serial1"), Ascii("serial2")} && Contains(node, Ascii("serial")))
      || Contains(node, last)
      || Contains(last, Before(node, '@' as int))
  }

  /**
   A path selects a node iff both are non-empty and, with the path's last component cut at
   its first colon and the node's name cut at its unit address, the component occurs in the
   name, or the cut name in the component, or the component is a serial alias and the name
   mentions "serial".
   */
  lemma PathMatchExact(path: seq<u8>, node: seq<u8>)
    ensures PathMatchesNode(path, node) <==>
      && path != [] && node != []
      && Selects(AfterLast(Before(path, ':' as int), '/' as int), Before(node, '@' as int), node)
  {
    hide Before, AfterLast, Contains, Ascii;
    var last := AfterLast(Before(path, ':' as int), '/' as int);
    ContainsExact(node, Ascii("serial"));
    ContainsExact(node, last);
    ContainsExact(last, Before(node, '@' as int));
    assert last == node ==> At(node, 0, last);
  }

  ghost predicate Selects(last: seq<u8>, base: seq<u8>, node: seq<u8>) {
    || Within(last, node) || Within(base, last)
    || (last in {Ascii("serial0"), Ascii("serial1"), Ascii("serial2")} && Within(Ascii("serial"), node))
  }

  function UartKindFor(c: seq<u8>): Option<ConsoleKind> {
    if c in {Ascii("arm,pl011"), Ascii("arm,primecell")} then Some(Pl011)
    else if c in {Ascii("ns16550"), Ascii("ns16550a"), Ascii("snps,dw-apb-uart"), Ascii("fsl,16550"), Ascii("nvidia,tegra20-uart")}
    then Some(Ns16550)
    else if c in {Ascii("brcm,bcm2835-aux-uart"), Ascii("brcm,bcm2837-aux-uart")} then Some(BcmMiniUart)
    else None
  }

  function ActOnMemory(info: BootInfo, r: Reg): BootInfo {
    var memory := if info.fwTableAddr != 0 && info.memory == [FALLBACK_BANK] then [] else info.memory;
    info.(memory := Push(memory, MemoryRegion(r.base, r.size)))
  }

  function ActOnUart(env: Env, kind: ConsoleKind, lv: Level, r: Reg): BootInfo {
    var info, spec := env.info, ConsoleSpec(kind, RegSpec(r.base, r.size), lv.clock);
    if env.stdout != [] then
      (if PathMatchesNode(env.stdout, lv.name) then info.(console := spec) else info)
    else if info.fwTableAddr != 0 && info.console.regs.base == 0x0900_0000 && info.console.kind == Pl011 then
      info.(console := spec)
    else info
  }

  function ActOnFramebuffer(info: BootInfo, fb: FramebufferInfo, r: Reg): BootInfo {
    var stride := if fb.strideBytes == 0 && fb.bpp != 0 && fb.width != 0
                  then Min(fb.width * (fb.bpp / 8), 0xffff_ffff) else fb.strideBytes;
    info.(framebuffer := Some(fb.(base := r.base, strideBytes := stride)))
  }

  /** The step function applied when a node closes. */
  function ActOnNode(env: Env, lv: Level): BootInfo {
    var info, c, reg := env.info, lv.compatible, lv.reg;
    if StartsWith(lv.name, Ascii("memory")) then
      (if reg.Some? then ActOnMemory(info, reg.value) else info)
    else if c == Ascii("arm,gic-v3") then
      (if reg.Some? then info.(intc := IntcSpec(GicV3, RegSpec(reg.value.base, reg.value.size), info.intc.secondary)) else info)
    else if c in {Ascii("arm,gic-400"), Ascii("arm,cortex-a15-gic"), Ascii("arm,cortex-a9-gic"), Ascii("arm,gic")} then
      (if reg.Some? then info.(intc := IntcSpec(GicV2, RegSpec(reg.value.base, reg.value.size), info.intc.secondary)) else info)
    else if c in {Ascii("arm,armv8-timer"), Ascii("arm,armv7-timer")} && lv.clock != 0 then
      info.(timerFreqHz := lv.clock)
    else if UartKindFor(c).Some? then
      (if reg.Some? then ActOnUart(env, UartKindFor(c).value, lv, reg.value) else info)
    else if (c == Ascii("simple-framebuffer") || (env.inChosen && StartsWith(lv.name, Ascii("framebuffer"))))
            && lv.fb.Some? && reg.Some? then
      ActOnFramebuffer(info, lv.fb.value, reg.value)
    else info
  }

  function Leave(env: Env, lv: Level): Env {
    env.(info := ActOnNode(env, lv), inChosen := env.inChosen && lv.name != Ascii("chosen"))
  }
}
