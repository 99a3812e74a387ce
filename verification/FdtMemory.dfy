/**
 Which memory banks a device tree leaves in the boot information, and when they are the
 tree's memory nodes: a bank that looks like the fallback is replaced by the next one.
 */
module FdtMemory {
  import opened Machine
  import opened BootInfos
  import opened Utf8
  import opened Fdt
  import opened FdtWalk
  import opened FdtTree
  import opened FdtNodes
  import opened FdtTrace

  /** The banks the memory nodes describe, in the order the nodes close. */
  function MemoryRegs(es: seq<Event>): seq<MemoryRegion> {
    if es == [] then []
    else MemoryRegs(es[..|es| - 1]) + if es[|es| - 1].Closes? then OwnMemory(es[|es| - 1].node) else []
  }

  function OwnMemory(lv: Level): seq<MemoryRegion> {
    if StartsWith(lv.name, Ascii("memory")) && lv.reg.Some? then [MemoryRegion(lv.reg.value.base, lv.reg.value.size)] else []
  }

  /** What one memory node does to the map; `replace` tells that a firmware table is present. */
  function Bank(replace: bool, m: MemoryMap, r: MemoryRegion): MemoryMap {
    Push(if replace && m == [FALLBACK_BANK] then [] else m, r)
  }

  function Banks(replace: bool, m: MemoryMap, regs: seq<MemoryRegion>): MemoryMap {
    if regs == [] then m else Bank(replace, Banks(replace, m, regs[..|regs| - 1]), regs[|regs| - 1])
  }

  lemma {:induction false} BanksConcat(replace: bool, m: MemoryMap, a: seq<MemoryRegion>, b: seq<MemoryRegion>)
    ensures Banks(replace, m, a + b) == Banks(replace, Banks(replace, m, a), b)
  {
    if b == [] {
      assert a + b == a;
    } else {
      var n := |b| - 1;
      assert (a + b)[..|a + b| - 1] == a + b[..n];
      BanksConcat(replace, m, a, b[..n]);
    }
  }

  lemma LeaveBanks(env: Env, lv: Level)
    ensures Leave(env, lv).info.memory == Banks(env.info.fwTableAddr != 0, env.info.memory, OwnMemory(lv))
    ensures Leave(env, lv).info.fwTableAddr == env.info.fwTableAddr
  {
    hide Ascii, UartKindFor, PathMatchesNode;
    var regs, replace := OwnMemory(lv), env.info.fwTableAddr != 0;
    if regs != [] {
      assert regs[..0] == [];
      assert Banks(replace, env.info.memory, regs) == Bank(replace, Banks(replace, env.info.memory, []), regs[0]);
    }
  }

  /** The memory map after any events is the run of the memory nodes closed. */
  lemma {:induction false} ReplayBanks(env: Env, es: seq<Event>)
    ensures Replay(env, es).info.memory == Banks(env.info.fwTableAddr != 0, env.info.memory, MemoryRegs(es))
    ensures Replay(env, es).info.fwTableAddr == env.info.fwTableAddr
  {
    hide Leave, SetStdout, OwnMemory;
    if es != [] {
      var n, replace := |es| - 1, env.info.fwTableAddr != 0;
      var before := Replay(env, es[..n]);
      ReplayBanks(env, es[..n]);
      if es[n].Closes? {
        LeaveBanks(before, es[n].node);
        BanksConcat(replace, env.info.memory, MemoryRegs(es[..n]), OwnMemory(es[n].node));
      } else {
        assert MemoryRegs(es) == MemoryRegs(es[..n]);
        OnlyClosing(before, es[n]);
      }
    }
  }

  /** Nodes act only when they close. */
  lemma OnlyClosing(env: Env, e: Event)
    requires !e.Closes?
    ensures After(env, e).info == env.info
  {
    hide Ascii, UntilNul, ValidUtf8;
  }

  // ---- when the map lists the memory nodes ----

  /** Some memory node comes after nodes whose only bank is the fallback's. */
  ghost predicate FallbackReplaced(regs: seq<MemoryRegion>) {
    exists i :: 0 < i < |regs| && NonEmpty(regs[..i]) == [FALLBACK_BANK]
  }

  /** One more memory node, unless the list so far looks like the fallback. */
  lemma BankListed(listed: seq<MemoryRegion>, r: MemoryRegion)
    requires listed != [FALLBACK_BANK]
    ensures Bank(true, FirstEight(listed), r) == FirstEight(listed + if r.size > 0 then [r] else [])
  {
  }

  lemma {:induction false} BanksListed(regs: seq<MemoryRegion>)
    requires regs != [] && !FallbackReplaced(regs)
    ensures Banks(true, [FALLBACK_BANK], regs) == FirstEight(NonEmpty(regs))
  {
    var n := |regs| - 1;
    var prev := regs[..n];
    if n == 0 {
      assert prev == [];
    } else {
      forall i | 0 < i < n ensures NonEmpty(prev[..i]) != [FALLBACK_BANK] {
        assert prev[..i] == regs[..i];
      }
      BanksListed(prev);
      hide FallbackReplaced;
      BankListed(NonEmpty(prev), regs[n]);
    }
  }

  /** Past the replacement the first bank is never the fallback's with others behind it. */
  lemma {:induction false} BanksReplaced(regs: seq<MemoryRegion>, i: nat)
    requires 0 < i < |regs| && Banks(true, [FALLBACK_BANK], regs[..i]) == [FALLBACK_BANK]
    requires NonEmpty(regs[..i]) == [FALLBACK_BANK]
    ensures NonEmpty(regs) != [] && NonEmpty(regs)[0] == FALLBACK_BANK
    ensures var b := Banks(true, [FALLBACK_BANK], regs);
      b == [] || b[0] != FALLBACK_BANK || (|b| == 1 && |NonEmpty(regs)| >= 2)
    decreases |regs|
  {
    var n := |regs| - 1;
    if i < n {
      assert regs[..n][..i] == regs[..i];
      BanksReplaced(regs[..n], i);
    }
    BankReplaces(Banks(true, [FALLBACK_BANK], regs[..n]), NonEmpty(regs[..n]), regs[n]);
    hide Bank;
  }

  lemma BankReplaces(b: MemoryMap, listed: seq<MemoryRegion>, r: MemoryRegion)
    requires listed != [] && listed[0] == FALLBACK_BANK
    requires b == listed || b == [] || b[0] != FALLBACK_BANK || (|b| == 1 && |listed| >= 2)
    requires b == listed ==> listed == [FALLBACK_BANK]
    ensures var b', listed' := Bank(true, b, r), listed + if r.size > 0 then [r] else [];
      b' == [] || b'[0] != FALLBACK_BANK || (|b'| == 1 && |listed'| >= 2)
  {
  }

  /** The map is the first eight non-empty memory nodes iff no such replacement happens. */
  lemma BanksExact(regs: seq<MemoryRegion>)
    requires regs != []
    ensures Banks(true, [FALLBACK_BANK], regs) == FirstEight(NonEmpty(regs)) <==> !FallbackReplaced(regs)
  {
    if FallbackReplaced(regs) {
      var i := FirstReplacement(regs);
      BanksListed(regs[..i]);
      BanksReplaced(regs, i);
    } else {
      BanksListed(regs);
    }
  }

  lemma FirstReplacement(regs: seq<MemoryRegion>) returns (i: nat)
    requires FallbackReplaced(regs)
    ensures 0 < i < |regs| && NonEmpty(regs[..i]) == [FALLBACK_BANK] && !FallbackReplaced(regs[..i])
  {
    i :| 0 < i < |regs| && NonEmpty(regs[..i]) == [FALLBACK_BANK];
    while FallbackReplaced(regs[..i])
      invariant 0 < i < |regs| && NonEmpty(regs[..i]) == [FALLBACK_BANK]
      decreases i
    {
      var j :| 0 < j < |regs[..i]| && NonEmpty(regs[..i][..j]) == [FALLBACK_BANK];
      assert regs[..i][..j] == regs[..j];
      i := j;
    }
  }

  /** `parse_or_fallback` behind its header checks: the walk starts from the fallback. */
  function BeforeWalk(dtb: u64): BootInfo {
    QemuVirtFallback().(fwTableAddr := dtb)
  }

  /**
   The memory map of a parse is the first eight non-empty memory nodes of the tree iff
   the tree has a memory node and none of them replaces a bank like the fallback's.
   */
  method ParsedBanks(sb: seq<u8>, strings: seq<u8>, dtb: u64, ghost k: nat, ghost root: Tree) returns (info: BootInfo)
    requires Holds(sb, k, root) && dtb != 0
    ensures var regs := MemoryRegs(Trace(root, strings, 1, ROOT_CELLS));
      info.memory == FirstEight(NonEmpty(regs)) <==> regs != [] && !FallbackReplaced(regs)
  {
    hide Holds, Trace, Replay, MemoryRegs, Banks, FallbackReplaced;
    info := WalkTraced(sb, strings, BeforeWalk(dtb), k, root);
    ghost var es := Trace(root, strings, 1, ROOT_CELLS);
    ReplayBanks(Env(BeforeWalk(dtb), [], false), es);
    ghost var regs := MemoryRegs(es);
    if regs == [] {
      NoBanks();
    } else {
      BanksExact(regs);
    }
  }

  lemma NoBanks()
    ensures Banks(true, [FALLBACK_BANK], []) == [FALLBACK_BANK] != FirstEight(NonEmpty([]))
  {
  }

  /** Two memory nodes, the first like the fallback: the second replaces it. */
  lemma FallbackBankLost(r: MemoryRegion)
    requires r.size > 0
    ensures Banks(true, [FALLBACK_BANK], [FALLBACK_BANK, r]) == [r]
    ensures FirstEight(NonEmpty([FALLBACK_BANK, r])) == [FALLBACK_BANK, r]
  {
    var one, regs := [FALLBACK_BANK], [FALLBACK_BANK, r];
    assert regs[..1] == one && one[..0] == [];
    assert Banks(true, one, one) == Bank(true, Banks(true, one, []), FALLBACK_BANK) == one;
    assert NonEmpty(one) == NonEmpty([]) + one == one;
  }

  /** The strings block "reg" and a tree with two memory nodes, at 1 GiB and at 2 GiB. */
  const REG_STRINGS: seq<u8> := Ascii("reg") + [0]

  function MemoryNode(base: u64, size: u32): Tree {
    Node(Ascii("memory"), Prop(0, BeBytes(base, 8) + BeBytes(size, 4), End))
  }

  const TWO_BANKS: Tree :=
    Node([], Sub(MemoryNode(0x4000_0000, 0x1000_0000), Sub(MemoryNode(0x8000_0000, 0x1000_0000), End)))

  lemma RegName()
    ensures Cstr(REG_STRINGS, 0) == Ascii("reg")
  {
    assert At(REG_STRINGS, 0, Ascii("reg") + [0]);
    CstrAt(REG_STRINGS, 0, "reg");
  }

  lemma {:induction false} MemoryRegsConcat(a: seq<Event>, b: seq<Event>)
    ensures MemoryRegs(a + b) == MemoryRegs(a) + MemoryRegs(b)
  {
    hide OwnMemory;
    if b == [] {
      assert a + b == a;
    } else {
      assert (a + b)[..|a + b| - 1] == a + b[..|b| - 1];
      MemoryRegsConcat(a, b[..|b| - 1]);
    }
  }

  lemma MemoryRegsOne(e: Event)
    ensures MemoryRegs([e]) == if e.Closes? then OwnMemory(e.node) else []
  {
    hide OwnMemory;
    assert [e][..0] == [];
    assert MemoryRegs([e][..0]) == [];
  }

  /** A memory node whose one property is its register. */
  lemma MemoryNodeReg(base: u64, size: u32, depth: nat)
    requires depth < MAX_DEPTH
    ensures MemoryRegs(Trace(MemoryNode(base, size), REG_STRINGS, depth, ROOT_CELLS)) == [MemoryRegion(base, size)]
  {
    hide RecordOf, Cstr, OwnMemory, Ascii, MemoryRegs, BeBytes;
    RegName();
    var p := Property(Ascii("reg"), BeBytes(base, 8) + BeBytes(size, 4));
    var name := Ascii("memory");
    var lv := RecordOf(name, [p], ROOT_CELLS);
    assert [] + [p] == [p];
    assert TraceBody(End, REG_STRINGS, depth, ROOT_CELLS, name, [p]) == [Closes(lv)];
    assert TraceBody(Prop(0, p.value, End), REG_STRINGS, depth, ROOT_CELLS, name, []) == [Sees(p)] + [Closes(lv)];
    MemoryRegsConcat([Opens(name)], [Sees(p)] + [Closes(lv)]);
    MemoryRegsConcat([Sees(p)], [Closes(lv)]);
    MemoryRegsOne(Opens(name));
    MemoryRegsOne(Sees(p));
    MemoryRegsOne(Closes(lv));
    OneReg(p, base, size);
  }

  lemma OneReg(p: Property, base: u64, size: u32)
    requires p == Property(Ascii("reg"), BeBytes(base, 8) + BeBytes(size, 4))
    ensures OwnMemory(RecordOf(Ascii("memory"), [p], ROOT_CELLS)) == [MemoryRegion(base, size)]
  {
    hide BeBytes, Ascii, Pow2, WordOf, TextOf, ScreenOf, RegOf;
    assert [] + [p] == [p] && p.value + [] == p.value;
    LastSnoc([], p, "reg", AtLeast(12));
    Pow2Of64();
    Pow2Of32();
    RegExact([p], ROOT_CELLS, base, size, []);
  }

  /** Such a tree breaks the equality: its first bank is lost. */
  lemma TwoBanksLoseOne()
    ensures MemoryRegs(Trace(TWO_BANKS, REG_STRINGS, 1, ROOT_CELLS)) == [FALLBACK_BANK, MemoryRegion(0x8000_0000, 0x1000_0000)]
    ensures Banks(true, [FALLBACK_BANK], [FALLBACK_BANK, MemoryRegion(0x8000_0000, 0x1000_0000)])
         == [MemoryRegion(0x8000_0000, 0x1000_0000)]
  {
    hide OwnMemory, Ascii, Banks, MemoryNode, MemoryRegs, RecordOf;
    var a, b := MemoryNode(0x4000_0000, 0x1000_0000), MemoryNode(0x8000_0000, 0x1000_0000);
    MemoryNodeReg(0x4000_0000, 0x1000_0000, 2);
    MemoryNodeReg(0x8000_0000, 0x1000_0000, 2);
    TwoSubs(a, b);
    FallbackBankLost(MemoryRegion(0x8000_0000, 0x1000_0000));
  }

  /** A root without a name and properties shows its two subnodes. */
  lemma TwoSubs(a: Tree, b: Tree)
    ensures MemoryRegs(Trace(Node([], Sub(a, Sub(b, End))), REG_STRINGS, 1, ROOT_CELLS))
         == MemoryRegs(Trace(a, REG_STRINGS, 2, ROOT_CELLS)) + MemoryRegs(Trace(b, REG_STRINGS, 2, ROOT_CELLS))
  {
    hide MemoryRegs, RecordOf, CellsOf, Ascii;
    assert CellsOf([], ROOT_CELLS) == ROOT_CELLS by { NoOwnCells(ROOT_CELLS); }
    var ta, tb, close := Trace(a, REG_STRINGS, 2, ROOT_CELLS), Trace(b, REG_STRINGS, 2, ROOT_CELLS), Closes(RecordOf([], [], ROOT_CELLS));
    assert TraceBody(End, REG_STRINGS, 1, ROOT_CELLS, [], []) == [close];
    assert TraceBody(Sub(b, End), REG_STRINGS, 1, ROOT_CELLS, [], []) == tb + [close];
    assert TraceBody(Sub(a, Sub(b, End)), REG_STRINGS, 1, ROOT_CELLS, [], []) == ta + (tb + [close]);
    MemoryRegsConcat([Opens([])], ta + (tb + [close]));
    MemoryRegsConcat(ta, tb + [close]);
    MemoryRegsConcat(tb, [close]);
    MemoryRegsOne(Opens([]));
    MemoryRegsOne(close);
    NoMemoryName();
  }

  lemma NoOwnCells(cells: Cells)
    ensures CellsOf([], cells) == cells
  {
  }

  lemma NoMemoryName()
    ensures OwnMemory(RecordOf([], [], ROOT_CELLS)) == []
  {
  }
}
