/**
 Which nodes decide the interrupt controller, timer, console and framebuffer of the boot
 information, read off the events of a tree.
 */
module FdtDevices {
  import opened Machine
  import opened BootInfos
  import opened Utf8
  import opened Fdt
  import opened FdtWalk
  import opened FdtTree
  import opened FdtNodes
  import opened FdtTrace
  import opened FdtMemory

  // ---- what kind of node it is ----

  predicate IsMemory(lv: Level) {
    StartsWith(lv.name, Ascii("memory"))
  }

  predicate IsGicV3(c: seq<u8>) {
    c == Ascii("arm,gic-v3")
  }

  predicate IsGicV2(c: seq<u8>) {
    c == Ascii("arm,gic-400") || c == Ascii("arm,cortex-a15-gic") || c == Ascii("arm,cortex-a9-gic") || c == Ascii("arm,gic")
  }

  predicate IsTimer(c: seq<u8>) {
    c == Ascii("arm,armv8-timer") || c == Ascii("arm,armv7-timer")
  }

  predicate IsUart(c: seq<u8>, kind: ConsoleKind) {
    match kind
    case Pl011 => c == Ascii("arm,pl011") || c == Ascii("arm,primecell")
    case Ns16550 =>
      c == Ascii("ns16550") || c == Ascii("ns16550a") || c == Ascii("snps,dw-apb-uart")
      || c == Ascii("fsl,16550") || c == Ascii("nvidia,tegra20-uart")
    case BcmMiniUart => c == Ascii("brcm,bcm2835-aux-uart") || c == Ascii("brcm,bcm2837-aux-uart")
  }

  predicate IsSomeUart(c: seq<u8>) {
    IsUart(c, Pl011) || IsUart(c, Ns16550) || IsUart(c, BcmMiniUart)
  }

  // ---- which nodes decide ----

  predicate IsController(lv: Level) {
    !IsMemory(lv) && lv.reg.Some? && (IsGicV3(lv.compatible) || IsGicV2(lv.compatible))
  }

  predicate IsClock(lv: Level) {
    !IsMemory(lv) && IsTimer(lv.compatible) && lv.clock != 0
  }

  predicate IsConsole(lv: Level) {
    !IsMemory(lv) && lv.reg.Some? && IsSomeUart(lv.compatible)
  }

  /** By its compatible string anywhere, or by its name inside /chosen unless it is another device. */
  predicate IsScreen(lv: Level, inChosen: bool) {
    && !IsMemory(lv) && lv.reg.Some? && lv.fb.Some?
    && (lv.compatible == Ascii("simple-framebuffer")
        || (inChosen && StartsWith(lv.name, Ascii("framebuffer"))
            && !IsGicV3(lv.compatible) && !IsGicV2(lv.compatible) && !IsClock(lv) && !IsSomeUart(lv.compatible)))
  }

  function ControllerAt(lv: Level, was: IntcSpec): IntcSpec
    requires lv.reg.Some?
  {
    IntcSpec(if IsGicV3(lv.compatible) then GicV3 else GicV2, RegSpec(lv.reg.value.base, lv.reg.value.size), was.secondary)
  }

  function ConsoleAt(lv: Level): ConsoleSpec
    requires lv.reg.Some?
  {
    ConsoleSpec(
      if IsUart(lv.compatible, Pl011) then Pl011 else if IsUart(lv.compatible, Ns16550) then Ns16550 else BcmMiniUart,
      RegSpec(lv.reg.value.base, lv.reg.value.size), lv.clock)
  }

  /** A missing stride is the width in bytes, saturated. */
  function ScreenAt(lv: Level): FramebufferInfo
    requires lv.reg.Some? && lv.fb.Some?
  {
    var fb := lv.fb.value;
    FramebufferInfo(
      lv.reg.value.base, fb.width, fb.height,
      if fb.strideBytes == 0 then Min(fb.width * (fb.bpp / 8), 0xffff_ffff) else fb.strideBytes, fb.bpp, fb.format)
  }

  // ---- the effect of one closing node ----

  lemma CompatiblesDiffer()
    ensures |Ascii("arm,gic-v3")| == 10 && |Ascii("arm,gic-400")| == 11 && |Ascii("arm,cortex-a15-gic")| == 18
    ensures |Ascii("arm,cortex-a9-gic")| == 17 && |Ascii("arm,gic")| == 7
    ensures |Ascii("arm,armv8-timer")| == |Ascii("arm,armv7-timer")| == 15
    ensures |Ascii("arm,pl011")| == 9 && |Ascii("arm,primecell")| == 13
    ensures |Ascii("ns16550")| == 7 && |Ascii("ns16550a")| == 8 && |Ascii("snps,dw-apb-uart")| == 16
    ensures |Ascii("fsl,16550")| == 9 && |Ascii("nvidia,tegra20-uart")| == 19
    ensures |Ascii("brcm,bcm2835-aux-uart")| == |Ascii("brcm,bcm2837-aux-uart")| == 21
    ensures |Ascii("simple-framebuffer")| == 18
    ensures Ascii("arm,gic") != Ascii("ns16550") && Ascii("arm,pl011") != Ascii("fsl,16550")
    ensures Ascii("simple-framebuffer") != Ascii("arm,cortex-a15-gic")
  {
    assert Ascii("arm,gic")[0] == Ascii("arm,pl011")[0] == Ascii("arm,cortex-a15-gic")[0] == 'a' as int;
    assert Ascii("ns16550")[0] == 'n' as int && Ascii("fsl,16550")[0] == 'f' as int && Ascii("simple-framebuffer")[0] == 's' as int;
  }

  /** No compatible string names two devices. */
  lemma OneKind(c: seq<u8>)
    ensures IsGicV3(c) ==> !IsGicV2(c) && !IsTimer(c) && !IsSomeUart(c) && c != Ascii("simple-framebuffer")
    ensures IsGicV2(c) ==> !IsTimer(c) && !IsSomeUart(c) && c != Ascii("simple-framebuffer")
    ensures IsTimer(c) ==> !IsSomeUart(c) && c != Ascii("simple-framebuffer")
    ensures IsSomeUart(c) ==> c != Ascii("simple-framebuffer")
    ensures IsUart(c, Pl011) ==> !IsUart(c, Ns16550) && !IsUart(c, BcmMiniUart)
    ensures IsUart(c, Ns16550) ==> !IsUart(c, BcmMiniUart)
  {
    hide Ascii;
    CompatiblesDiffer();
  }

  lemma UartKinds(c: seq<u8>)
    ensures UartKindFor(c).Some? <==> IsSomeUart(c)
    ensures UartKindFor(c).Some? ==>
      UartKindFor(c).value == if IsUart(c, Pl011) then Pl011 else if IsUart(c, Ns16550) then Ns16550 else BcmMiniUart
  {
    hide Ascii;
  }

  /** The console after a UART node closes. */
  ghost predicate TakesConsole(env: Env, lv: Level) {
    && IsConsole(lv)
    && if env.stdout != [] then PathMatchesNode(env.stdout, lv.name)
       else env.info.fwTableAddr != 0 && LikeFallback(env.info.console)
  }

  predicate LikeFallback(c: ConsoleSpec) {
    c.kind == Pl011 && c.regs.base == 0x0900_0000
  }

  lemma ScreenSet(info: BootInfo, lv: Level)
    requires lv.reg.Some? && lv.fb.Some?
    ensures ActOnFramebuffer(info, lv.fb.value, lv.reg.value) == info.(framebuffer := Some(ScreenAt(lv)))
  {
    var fb := lv.fb.value;
    assert fb.bpp == 0 ==> fb.bpp / 8 == 0;
    assert fb.bpp == 0 || fb.width == 0 ==> fb.width * (fb.bpp / 8) == 0;
  }

  lemma LeaveDevices(env: Env, lv: Level)
    ensures var info := Leave(env, lv).info;
      && info.intc == (if IsController(lv) then ControllerAt(lv, env.info.intc) else env.info.intc)
      && info.timerFreqHz == (if IsClock(lv) then lv.clock else env.info.timerFreqHz)
      && info.console == (if TakesConsole(env, lv) then ConsoleAt(lv) else env.info.console)
      && info.framebuffer == (if IsScreen(lv, env.inChosen) then Some(ScreenAt(lv)) else env.info.framebuffer)
  {
    hide Ascii, PathMatchesNode, IsUart, UartKindFor, StartsWith, ActOnFramebuffer, ScreenAt;
    OneKind(lv.compatible);
    UartKinds(lv.compatible);
    if lv.reg.Some? && lv.fb.Some? { ScreenSet(env.info, lv); }
  }

  // ---- /chosen and the console path ----

  predicate OpensChosen(e: Event) {
    e.Opens? && e.name == Ascii("chosen")
  }

  predicate ClosesChosen(e: Event) {
    e.Closes? && e.node.name == Ascii("chosen")
  }

  /** A node called "chosen" was opened and none was closed since. */
  ghost predicate InChosen(es: seq<Event>) {
    exists i :: 0 <= i < |es| && OpensChosen(es[i]) && forall j :: i < j < |es| ==> !ClosesChosen(es[j])
  }

  lemma InChosenSnoc(es: seq<Event>, e: Event)
    ensures InChosen(es + [e]) <==> OpensChosen(e) || (InChosen(es) && !ClosesChosen(e))
  {
    hide OpensChosen, ClosesChosen;
    var es', n := es + [e], |es|;
    assert es'[n] == e && forall j :: 0 <= j < n ==> es'[j] == es[j];
    if InChosen(es) && !ClosesChosen(e) {
      var i :| 0 <= i < |es| && OpensChosen(es[i]) && forall j :: i < j < |es| ==> !ClosesChosen(es[j]);
      assert OpensChosen(es'[i]);
    }
    if InChosen(es') && !OpensChosen(e) {
      var i :| 0 <= i < |es'| && OpensChosen(es'[i]) && forall j :: i < j < |es'| ==> !ClosesChosen(es'[j]);
      assert OpensChosen(es[i]) && !ClosesChosen(es'[n]);
      assert forall j :: i < j < n ==> !ClosesChosen(es'[j]);
    }
    assert OpensChosen(e) ==> OpensChosen(es'[n]);
  }

  /** Event `k` is a readable console path inside /chosen. */
  ghost predicate SetsPath(es: seq<Event>, k: nat)
    requires k < |es|
  {
    es[k].Sees? && Gives(es[k].prop, "stdout-path", ValidText) && InChosen(es[..k])
  }

  /** The last console path set, if any. */
  ghost function ConsolePath(es: seq<Event>): seq<u8> {
    if es == [] then []
    else if SetsPath(es, |es| - 1) then UntilNul(es[|es| - 1].prop.value)
    else ConsolePath(es[..|es| - 1])
  }

  lemma ChosenName(env: Env, e: Event)
    ensures After(env, e).inChosen == (OpensChosen(e) || (env.inChosen && !ClosesChosen(e)))
    ensures After(env, e).stdout ==
      if e.Sees? && Gives(e.prop, "stdout-path", ValidText) && env.inChosen then UntilNul(e.prop.value) else env.stdout
  {
    hide Ascii, UntilNul, ValidUtf8, ActOnNode;
  }

  lemma {:induction false} ContextIs(info: BootInfo, es: seq<Event>)
    ensures Replay(Env(info, [], false), es).inChosen == InChosen(es)
    ensures Replay(Env(info, [], false), es).stdout == ConsolePath(es)
  {
    if es != [] {
      hide After, OpensChosen, ClosesChosen, InChosen, Gives;
      var n := |es| - 1;
      ContextIs(info, es[..n]);
      assert es == es[..n] + [es[n]];
      InChosenSnoc(es[..n], es[n]);
      ChosenName(Replay(Env(info, [], false), es[..n]), es[n]);
    }
  }

  // ---- the deciding node ----

  datatype Device = Controller | Clock | Screen

  ghost predicate Decides(es: seq<Event>, k: nat, dev: Device)
    requires k < |es|
  {
    && es[k].Closes?
    && match dev
       case Controller => IsController(es[k].node)
       case Clock => IsClock(es[k].node)
       case Screen => IsScreen(es[k].node, InChosen(es[..k]))
  }

  /** The record of the last node to close that decides about a device. */
  ghost function Decider(es: seq<Event>, dev: Device): (r: Option<Level>)
    ensures r.Some? && dev != Clock ==> r.value.reg.Some?
    ensures r.Some? && dev == Screen ==> r.value.fb.Some?
  {
    if es == [] then None
    else if Decides(es, |es| - 1, dev) then Some(es[|es| - 1].node)
    else Decider(es[..|es| - 1], dev)
  }

  lemma {:induction false} DeciderIsLast(es: seq<Event>, dev: Device) returns (k: nat)
    ensures Decider(es, dev).None? ==> forall i :: 0 <= i < |es| ==> !Decides(es, i, dev)
    ensures Decider(es, dev).Some? ==>
      k < |es| && Decides(es, k, dev) && es[k].node == Decider(es, dev).value && forall i :: k < i < |es| ==> !Decides(es, i, dev)
  {
    k := 0;
    if es != [] {
      var n := |es| - 1;
      forall i | 0 <= i < n ensures Decides(es[..n], i, dev) <==> Decides(es, i, dev) {
        assert es[..n][..i] == es[..i];
      }
      if Decides(es, n, dev) { k := n; } else { k := DeciderIsLast(es[..n], dev); }
    }
  }

  // ---- the console ----

  /**
   The consoles that may be settled on: the one at first, then the UARTs that close while no
   path is set, starting over with each UART that the path selects.
   */
  ghost function Offers(found: bool, first: ConsoleSpec, es: seq<Event>): (os: seq<ConsoleSpec>)
    ensures os != []
  {
    if es == [] then [first]
    else
      var before, e := es[..|es| - 1], es[|es| - 1];
      var os, path := Offers(found, first, before), ConsolePath(before);
      if !e.Closes? || !IsConsole(e.node) then os
      else if path != [] then (if PathMatchesNode(path, e.node.name) then [ConsoleAt(e.node)] else os)
      else if found then os + [ConsoleAt(e.node)]
      else os
  }

  /** The first console on offer that is not like the fallback's, or else the last. */
  function Settled(os: seq<ConsoleSpec>): ConsoleSpec
    requires os != []
  {
    if |os| == 1 || !LikeFallback(os[0]) then os[0] else Settled(os[1..])
  }

  lemma {:induction false} SettledSnoc(os: seq<ConsoleSpec>, c: ConsoleSpec)
    requires os != []
    ensures Settled(os + [c]) == if LikeFallback(Settled(os)) then c else Settled(os)
  {
    if |os| > 1 && LikeFallback(os[0]) {
      assert (os + [c])[1..] == os[1..] + [c];
      SettledSnoc(os[1..], c);
    } else {
      assert (os + [c])[1..] == os[1..] + [c];
    }
  }

  // ---- the whole boot information ----

  /** What a tree's events make of the boot information. */
  ghost function Described(start: BootInfo, es: seq<Event>): BootInfo {
    var found := start.fwTableAddr != 0;
    var intc, clock, screen := Decider(es, Controller), Decider(es, Clock), Decider(es, Screen);
    BootInfo(
      Settled(Offers(found, start.console, es)),
      Banks(found, start.memory, MemoryRegs(es)),
      if intc.Some? then ControllerAt(intc.value, start.intc) else start.intc,
      if clock.Some? then clock.value.clock else start.timerFreqHz,
      if screen.Some? then Some(ScreenAt(screen.value)) else start.framebuffer,
      start.fwTableAddr)
  }

  /** Every field is that of its deciding node, or as it was at first. */
  lemma {:induction false} ReplayDescribes(start: BootInfo, es: seq<Event>)
    ensures Replay(Env(start, [], false), es).info == Described(start, es)
  {
    ReplayBanks(Env(start, [], false), es);
    if es != [] {
      hide MemoryRegs, Banks, ConsolePath, InChosen, IsController, IsClock, IsScreen, IsConsole, PathMatchesNode, ScreenAt, ConsoleAt,
        Settled, LikeFallback, After;
      var n := |es| - 1;
      var env := Replay(Env(start, [], false), es[..n]);
      ReplayDescribes(start, es[..n]);
      ReplayBanks(Env(start, [], false), es[..n]);
      ContextIs(start, es[..n]);
      if es[n].Closes? {
        LeaveStep(env, es[n]);
        SettledSnoc(Offers(start.fwTableAddr != 0, start.console, es[..n]), ConsoleAtOr(es[n].node, start.console));
        SettledOne(ConsoleAtOr(es[n].node, start.console));
      } else {
        OnlyClosing(env, es[n]);
      }
    }
  }

  function ConsoleAtOr(lv: Level, c: ConsoleSpec): ConsoleSpec {
    if lv.reg.Some? then ConsoleAt(lv) else c
  }

  lemma SettledOne(c: ConsoleSpec)
    ensures Settled([c]) == c
  {
  }

  lemma LeaveStep(env: Env, e: Event)
    requires e.Closes?
    ensures After(env, e).info == Leave(env, e.node).info
    ensures var info := After(env, e).info; var lv := e.node;
      && info.intc == (if IsController(lv) then ControllerAt(lv, env.info.intc) else env.info.intc)
      && info.timerFreqHz == (if IsClock(lv) then lv.clock else env.info.timerFreqHz)
      && info.console == (if TakesConsole(env, lv) then ConsoleAt(lv) else env.info.console)
      && info.framebuffer == (if IsScreen(lv, env.inChosen) then Some(ScreenAt(lv)) else env.info.framebuffer)
  {
    LeaveDevices(env, e.node);
    hide Leave, IsController, IsClock, IsScreen, TakesConsole, ScreenAt, ConsoleAt, ControllerAt;
  }

  /** A parse of a blob that holds a tree: every field of the result, from the tree. */
  method ParsedInfo(sb: seq<u8>, strings: seq<u8>, dtb: u64, ghost k: nat, ghost root: Tree) returns (info: BootInfo)
    requires Holds(sb, k, root)
    ensures info == Described(BeforeWalk(dtb), Trace(root, strings, 1, ROOT_CELLS))
  {
    hide Holds, Trace, Replay, Described;
    info := WalkTraced(sb, strings, BeforeWalk(dtb), k, root);
    ReplayDescribes(BeforeWalk(dtb), Trace(root, strings, 1, ROOT_CELLS));
  }

  /**
   What a parse returns, node by node: for a block that holds a tree with properties
   first, each node's own properties and its parent's complete cell counts decide.
   */
  method WalkMeans(sb: seq<u8>, strings: seq<u8>, start: BootInfo, ghost k: nat, ghost root: Tree) returns (info: BootInfo)
    requires Holds(sb, k, root) && PropsFirst(root)
    ensures info == Described(start, Whole(root, strings, 1, ROOT_CELLS))
  {
    hide Holds, Trace, Whole, Replay, Described, PropsFirst;
    info := WalkTraced(sb, strings, start, k, root);
    TraceIsWhole(root, strings, 1, ROOT_CELLS);
    ReplayDescribes(start, Trace(root, strings, 1, ROOT_CELLS));
  }

  // ---- without a console path ----

  ghost predicate NoPath(es: seq<Event>) {
    forall k :: 0 <= k < |es| ==> !SetsPath(es, k)
  }

  /** The UARTs of a tree, in the order they close. */
  function Uarts(es: seq<Event>): seq<ConsoleSpec> {
    if es == [] then []
    else
      var e := es[|es| - 1];
      Uarts(es[..|es| - 1]) + if e.Closes? && IsConsole(e.node) then [ConsoleAt(e.node)] else []
  }

  lemma {:induction false} AllOffered(first: ConsoleSpec, es: seq<Event>)
    requires NoPath(es)
    ensures Offers(true, first, es) == [first] + Uarts(es) && ConsolePath(es) == []
  {
    if es != [] {
      hide IsConsole, ConsoleAt, SetsPath;
      var n := |es| - 1;
      forall k | 0 <= k < n ensures !SetsPath(es[..n], k) {
        EarlierPath(es, n, k);
      }
      AllOffered(first, es[..n]);
    }
  }

  lemma EarlierPath(es: seq<Event>, n: nat, k: nat)
    requires k < n <= |es|
    ensures SetsPath(es[..n], k) <==> SetsPath(es, k)
  {
    hide InChosen;
    assert es[..n][..k] == es[..k];
  }

  lemma {:induction false} SettledFirst(us: seq<ConsoleSpec>)
    requires us != []
    ensures Settled(us) == us[0] <==>
      !LikeFallback(us[0]) || ((forall i :: 0 <= i < |us| ==> LikeFallback(us[i])) && us[|us| - 1] == us[0])
    ensures (forall i :: 0 <= i < |us| ==> LikeFallback(us[i])) ==> Settled(us) == us[|us| - 1]
    ensures !(forall i :: 0 <= i < |us| ==> LikeFallback(us[i])) ==> !LikeFallback(Settled(us))
  {
    if |us| > 1 {
      var rest := us[1..];
      SettledFirst(rest);
      assert us == [us[0]] + rest;
    }
  }

  /**
   Without a console path the console is the first UART iff that one is not like the
   fallback's, or every UART is and the last equals the first.
   */
  lemma FirstUartExact(start: BootInfo, es: seq<Event>)
    requires start.fwTableAddr != 0 && LikeFallback(start.console) && NoPath(es) && Uarts(es) != []
    ensures var us := Uarts(es);
      Described(start, es).console == us[0] <==>
        !LikeFallback(us[0]) || ((forall i :: 0 <= i < |us| ==> LikeFallback(us[i])) && us[|us| - 1] == us[0])
  {
    hide LikeFallback, NoPath, Uarts, Banks, MemoryRegs, Decider;
    var us := Uarts(es);
    AllOffered(start.console, es);
    assert ([start.console] + us)[1..] == us;
    SettledFirst(us);
  }

  // ---- a tree that loses its first UART ----

  const UART_STRINGS: seq<u8> := Ascii("compatible") + [0] + Ascii("reg") + [0]

  /** A PL011 with a register of one page. */
  function UartNode(base: u64): Tree {
    Node(Ascii("uart"), Prop(0, Ascii("arm,pl011") + [0], Prop(11, BeBytes(base, 8) + BeBytes(0x1000, 4), End)))
  }

  const TWO_UARTS: Tree := Node([], Sub(UartNode(0x0900_0000), Sub(UartNode(0x0a00_0000), End)))

  lemma UartNames()
    ensures Cstr(UART_STRINGS, 0) == Ascii("compatible") && Cstr(UART_STRINGS, 11) == Ascii("reg")
    ensures Utf8OrEmpty(UntilNul(Ascii("arm,pl011") + [0])) == Ascii("arm,pl011")
  {
    assert At(UART_STRINGS, 0, Ascii("compatible") + [0]) && At(UART_STRINGS, 11, Ascii("reg") + [0]);
    CstrAt(UART_STRINGS, 0, "compatible");
    CstrAt(UART_STRINGS, 11, "reg");
    TextIs("arm,pl011");
  }

  /** The record of such a node is a console at its register. */
  lemma UartRecord(base: u64)
    ensures var ps := [Property(Ascii("compatible"), Ascii("arm,pl011") + [0]),
                       Property(Ascii("reg"), BeBytes(base, 8) + BeBytes(0x1000, 4))];
      var lv := RecordOf(Ascii("uart"), ps, ROOT_CELLS);
      IsConsole(lv) && ConsoleAt(lv) == ConsoleSpec(Pl011, RegSpec(base, 0x1000), 0)
  {
    hide BeBytes, Ascii, Pow2, UntilNul, Utf8OrEmpty, ScreenOf, RegOf, BigEndian;
    var c, r := Property(Ascii("compatible"), Ascii("arm,pl011") + [0]), Property(Ascii("reg"), BeBytes(base, 8) + BeBytes(0x1000, 4));
    UartNames();
    NamesDiffer();
    assert [] + [c] == [c] && [c] + [r] == [c, r] && r.value + [] == r.value;
    TextSnoc([c], r, "compatible");
    TextSnoc([], c, "compatible");
    LastSnoc([c], r, "reg", AtLeast(12));
    WordSnoc([c], r, "clock-frequency", 0);
    WordSnoc([], c, "clock-frequency", 0);
    Pow2Of64();
    Pow2Of32();
    RegExact([c, r], ROOT_CELLS, base, 0x1000, []);
    assert !StartsWith(Ascii("uart"), Ascii("memory")) by { assert |Ascii("uart")| == 4 && |Ascii("memory")| == 6; }
  }

  lemma {:induction false} UartsConcat(a: seq<Event>, b: seq<Event>)
    ensures Uarts(a + b) == Uarts(a) + Uarts(b)
  {
    hide IsConsole, ConsoleAt;
    if b == [] {
      assert a + b == a;
    } else {
      assert (a + b)[..|a + b| - 1] == a + b[..|b| - 1];
      UartsConcat(a, b[..|b| - 1]);
    }
  }

  lemma One(e: Event)
    ensures Uarts([e]) == if e.Closes? && IsConsole(e.node) then [ConsoleAt(e.node)] else []
    ensures PathFree([e]) <==> (e.Sees? ==> e.prop.name != Ascii("stdout-path"))
  {
    hide IsConsole, ConsoleAt, Ascii;
    assert [e][..0] == [];
    assert Uarts([e][..0]) == [];
  }

  /** The events of such a node: no console path, one UART. */
  lemma UartEvents(base: u64, es: seq<Event>)
    requires es == Trace(UartNode(base), UART_STRINGS, 2, ROOT_CELLS)
    ensures Uarts(es) == [ConsoleSpec(Pl011, RegSpec(base, 0x1000), 0)] && PathFree(es)
  {
    hide RecordOf, Cstr, Ascii, BeBytes, IsConsole, ConsoleAt, Uarts, PathFree;
    var c, r := Property(Ascii("compatible"), Ascii("arm,pl011") + [0]), Property(Ascii("reg"), BeBytes(base, 8) + BeBytes(0x1000, 4));
    var name := Ascii("uart");
    UartNames();
    UartRecord(base);
    assert [] + [c] == [c] && [c] + [r] == [c, r];
    var close := Closes(RecordOf(name, [c, r], ROOT_CELLS));
    assert TraceBody(End, UART_STRINGS, 2, ROOT_CELLS, name, [c, r]) == [close];
    assert TraceBody(Prop(11, r.value, End), UART_STRINGS, 2, ROOT_CELLS, name, [c]) == [Sees(r)] + [close];
    FourEvents(Opens(name), Sees(c), Sees(r), close, es);
    One(Opens(name));
    One(Sees(c));
    One(Sees(r));
    One(close);
    assert |Ascii("stdout-path")| == 11 && |Ascii("compatible")| == 10 && |Ascii("reg")| == 3;
  }

  lemma FourEvents(a: Event, b: Event, c: Event, d: Event, es: seq<Event>)
    requires es == [a] + ([b] + ([c] + [d]))
    ensures Uarts(es) == Uarts([a]) + Uarts([b]) + Uarts([c]) + Uarts([d])
    ensures PathFree(es) <==> PathFree([a]) && PathFree([b]) && PathFree([c]) && PathFree([d])
  {
    hide Uarts, PathFree;
    Joined([a], [b] + ([c] + [d]));
    Joined([b], [c] + [d]);
    Joined([c], [d]);
  }

  lemma Joined(a: seq<Event>, b: seq<Event>)
    ensures Uarts(a + b) == Uarts(a) + Uarts(b) && (PathFree(a + b) <==> PathFree(a) && PathFree(b))
  {
    UartsConcat(a, b);
    PathFreeConcat(a, b);
  }

  /** No event shows a console path. */
  ghost predicate PathFree(es: seq<Event>) {
    forall k :: 0 <= k < |es| ==> es[k].Sees? ==> es[k].prop.name != Ascii("stdout-path")
  }

  lemma PathFreeConcat(a: seq<Event>, b: seq<Event>)
    ensures PathFree(a + b) <==> PathFree(a) && PathFree(b)
  {
    hide Ascii;
    if PathFree(a + b) {
      assert forall k :: 0 <= k < |a| ==> a[k] == (a + b)[k];
      assert forall k :: 0 <= k < |b| ==> b[k] == (a + b)[|a| + k];
    }
  }

  /** Two PL011s, the first where the fallback has one: the console is the second. */
  lemma SecondUartWins(dtb: u64)
    requires dtb != 0
    ensures var es := Trace(TWO_UARTS, UART_STRINGS, 1, ROOT_CELLS);
      && NoPath(es)
      && Uarts(es) == [ConsoleSpec(Pl011, RegSpec(0x0900_0000, 0x1000), 0), ConsoleSpec(Pl011, RegSpec(0x0a00_0000, 0x1000), 0)]
      && Described(BeforeWalk(dtb), es).console == Uarts(es)[1]
  {
    hide Trace, Uarts, RecordOf, CellsOf, Ascii, UartNode, Banks, MemoryRegs, Decider, Offers, NoPath, PathFree, IsConsole, ConsoleAt;
    var a, b := UartNode(0x0900_0000), UartNode(0x0a00_0000);
    var ta, tb := Trace(a, UART_STRINGS, 2, ROOT_CELLS), Trace(b, UART_STRINGS, 2, ROOT_CELLS);
    UartEvents(0x0900_0000, ta);
    UartEvents(0x0a00_0000, tb);
    var es := Trace(TWO_UARTS, UART_STRINGS, 1, ROOT_CELLS);
    TwoUartEvents(a, b, ta, tb, es);
    NoPathIn(es);
    var us := Uarts(es);
    AllOffered(BeforeWalk(dtb).console, es);
    assert ([BeforeWalk(dtb).console] + us)[1..] == us && us[1..] == [us[1]];
    assert Settled(us) == us[1];
  }

  lemma NoPathIn(es: seq<Event>)
    requires PathFree(es)
    ensures NoPath(es)
  {
  }

  lemma TwoUartEvents(a: Tree, b: Tree, ta: seq<Event>, tb: seq<Event>, es: seq<Event>)
    requires ta == Trace(a, UART_STRINGS, 2, ROOT_CELLS) && tb == Trace(b, UART_STRINGS, 2, ROOT_CELLS)
    requires es == Trace(Node([], Sub(a, Sub(b, End))), UART_STRINGS, 1, ROOT_CELLS) && PathFree(ta) && PathFree(tb)
    ensures Uarts(es) == Uarts(ta) + Uarts(tb) && PathFree(es)
  {
    hide Uarts, RecordOf, CellsOf, Ascii, IsConsole, ConsoleAt, PathFree;
    assert CellsOf([], ROOT_CELLS) == ROOT_CELLS by { NoOwnCells(ROOT_CELLS); }
    var close := Closes(RecordOf([], [], ROOT_CELLS));
    assert TraceBody(End, UART_STRINGS, 1, ROOT_CELLS, [], []) == [close];
    assert TraceBody(Sub(b, End), UART_STRINGS, 1, ROOT_CELLS, [], []) == tb + [close];
    assert es == [Opens([])] + (ta + (tb + [close]));
    Joined([Opens([])], ta + (tb + [close]));
    Joined(ta, tb + [close]);
    Joined(tb, [close]);
    One(Opens([]));
    One(close);
    NotConsole();
  }

  lemma NotConsole()
    ensures !IsConsole(RecordOf([], [], ROOT_CELLS))
  {
    hide Ascii;
  }
}
