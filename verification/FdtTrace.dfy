/**
 A device tree as the events of reading it: nodes open, show their properties and close.
 The walk's result depends on nothing but these events.
 */
module FdtTrace {
  import opened Machine
  import opened BootInfos
  import opened Utf8
  import opened Fdt
  import opened FdtWalk
  import opened FdtTree
  import opened FdtNodes

  datatype Event =
    | Opens(name: seq<u8>)
    | Sees(prop: Property)
    | Closes(node: Level)

  /** The events of a node at `depth` below a parent with these cell counts. */
  function Trace(t: Tree, strings: seq<u8>, depth: nat, cells: Cells): seq<Event> {
    if depth >= MAX_DEPTH then [] else [Opens(t.name)] + TraceBody(t.body, strings, depth, cells, t.name, [])
  }

  /** Subnodes inherit the cell counts given so far; the node closes with all it has seen. */
  function TraceBody(b: Body, strings: seq<u8>, depth: nat, cells: Cells, name: seq<u8>, seen: seq<Property>): seq<Event> {
    match b
    case End => [Closes(RecordOf(name, seen, cells))]
    case Nop(rest) => TraceBody(rest, strings, depth, cells, name, seen)
    case Prop(nameoff, value, rest) =>
      var p := Property(Cstr(strings, nameoff), value);
      [Sees(p)] + TraceBody(rest, strings, depth, cells, name, seen + [p])
    case Sub(node, rest) =>
      Trace(node, strings, depth + 1, CellsOf(seen, cells)) + TraceBody(rest, strings, depth, cells, name, seen)
  }

  // ---- replaying events ----

  function After(env: Env, e: Event): Env {
    match e
    case Opens(name) => Enter(env, name)
    case Sees(p) => SetStdout(env, 1, p.name, p.value)
    case Closes(node) => Leave(env, node)
  }

  function Replay(env: Env, es: seq<Event>): Env {
    if es == [] then env else After(Replay(env, es[..|es| - 1]), es[|es| - 1])
  }

  lemma {:induction false} ReplayConcat(env: Env, a: seq<Event>, b: seq<Event>)
    ensures Replay(env, a + b) == Replay(Replay(env, a), b)
  {
    hide After;
    if b == [] {
      assert a + b == a;
    } else {
      var n := |b| - 1;
      assert (a + b)[..|a + b| - 1] == a + b[..n];
      ReplayConcat(env, a, b[..n]);
    }
  }

  lemma ReplayOne(env: Env, e: Event)
    ensures Replay(env, [e]) == After(env, e)
  {
    hide After;
    assert [e][..0] == [];
    assert Replay(env, [e][..0]) == env;
  }

  /** Folding a node is replaying its events. */
  lemma {:induction false} FoldIsReplay(t: Tree, strings: seq<u8>, depth: nat, parent: Level, env: Env)
    requires depth >= 1
    ensures FoldTree(t, strings, depth, parent, env) == Replay(env, Trace(t, strings, depth, CellsAt(parent)))
    decreases t
  {
    hide RecordOf, CellsAt, Opened, Enter, Leave, Replay;
    if depth < MAX_DEPTH {
      var cells := CellsAt(parent);
      RecordEmpty(t.name, parent);
      FoldBodyIsReplay(t.body, strings, depth, parent, t.name, [], Enter(env, t.name));
      ReplayOne(env, Opens(t.name));
      ReplayConcat(env, [Opens(t.name)], TraceBody(t.body, strings, depth, cells, t.name, []));
    } else {
      ReplayNone(env);
    }
  }

  lemma ReplayNone(env: Env)
    ensures Replay(env, []) == env
  {
  }

  lemma {:induction false} FoldBodyIsReplay(
      b: Body, strings: seq<u8>, depth: nat, parent: Level, name: seq<u8>, seen: seq<Property>, env: Env)
    requires depth >= 1
    ensures var cells := CellsAt(parent);
      var (lv, env') := FoldBody(b, strings, depth, parent, RecordOf(name, seen, cells), env);
      Leave(env', lv) == Replay(env, TraceBody(b, strings, depth, cells, name, seen))
    decreases b
  {
    hide RecordOf, Leave, Replay, FoldTree, Trace, SetStdout, SetProp, CellsOf, Cstr;
    var cells := CellsAt(parent);
    var lv := RecordOf(name, seen, cells);
    match b
    case End =>
      ReplayOne(env, Closes(lv));
    case Nop(rest) =>
      FoldBodyIsReplay(rest, strings, depth, parent, name, seen, env);
    case Prop(nameoff, value, rest) =>
      var p := Property(Cstr(strings, nameoff), value);
      RecordSnoc(name, seen, parent, p);
      StdoutBelow(env, depth, p);
      ReplayOne(env, Sees(p));
      FoldBodyIsReplay(rest, strings, depth, parent, name, seen + [p], SetStdout(env, 1, p.name, p.value));
      ReplayConcat(env, [Sees(p)], TraceBody(rest, strings, depth, cells, name, seen + [p]));
    case Sub(node, rest) =>
      OwnCells(name, seen, cells);
      FoldIsReplay(node, strings, depth + 1, lv, env);
      var es := Trace(node, strings, depth + 1, CellsOf(seen, cells));
      FoldBodyIsReplay(rest, strings, depth, parent, name, seen, Replay(env, es));
      ReplayConcat(env, es, TraceBody(rest, strings, depth, cells, name, seen));
  }

  lemma OwnCells(name: seq<u8>, ps: seq<Property>, cells: Cells)
    ensures CellsAt(RecordOf(name, ps, cells)) == CellsOf(ps, cells)
  {
    hide WordOf, TextOf, RegOf, ScreenOf;
  }

  lemma StdoutBelow(env: Env, depth: nat, p: Property)
    requires depth >= 1
    ensures SetStdout(env, depth, p.name, p.value) == SetStdout(env, 1, p.name, p.value)
  {
    hide UntilNul, ValidUtf8, Ascii;
  }

  /** The default cell counts, which the root inherits. */
  const ROOT_CELLS := Cells(2, 1)

  /** The in-place walk of a block that holds a tree replays the tree's events. */
  method WalkTraced(sb: seq<u8>, strings: seq<u8>, start: BootInfo, ghost k: nat, ghost root: Tree) returns (info: BootInfo)
    requires Holds(sb, k, root)
    ensures info == Replay(Env(start, [], false), Trace(root, strings, 1, ROOT_CELLS)).info
  {
    hide Holds, Walk, FoldTree, Trace, Replay;
    info := WalkBlock(sb, strings, start);
    WalkIsFold(sb, strings, start, k, root);
    FoldIsReplay(root, strings, 1, TOP, Env(start, [], false));
  }

  // ---- properties first ----

  /** No property follows a subnode, in this node or below. */
  ghost predicate PropsFirst(t: Tree) {
    PropsFirstBody(t.body)
  }

  ghost predicate PropsFirstBody(b: Body) {
    match b
    case End => true
    case Nop(rest) => PropsFirstBody(rest)
    case Prop(_, _, rest) => PropsFirstBody(rest)
    case Sub(node, rest) => PropsFirst(node) && PropsFirstBody(rest) && !HasProps(rest)
  }

  predicate HasProps(b: Body) {
    match b
    case End => false
    case Nop(rest) => HasProps(rest)
    case Prop(_, _, _) => true
    case Sub(_, rest) => HasProps(rest)
  }

  /** All properties of a body, wherever they stand. */
  function PropsOf(b: Body, strings: seq<u8>): seq<Property> {
    match b
    case End => []
    case Nop(rest) => PropsOf(rest, strings)
    case Prop(nameoff, value, rest) => [Property(Cstr(strings, nameoff), value)] + PropsOf(rest, strings)
    case Sub(_, rest) => PropsOf(rest, strings)
  }

  function Seen(ps: seq<Property>): (es: seq<Event>)
    ensures |es| == |ps| && forall i :: 0 <= i < |ps| ==> es[i] == Sees(ps[i])
  {
    seq(|ps|, i requires 0 <= i < |ps| => Sees(ps[i]))
  }

  /** Node by node: subnodes and the node itself have the use of all its properties. */
  function Whole(t: Tree, strings: seq<u8>, depth: nat, cells: Cells): seq<Event> {
    if depth >= MAX_DEPTH then []
    else
      var ps := PropsOf(t.body, strings);
      [Opens(t.name)] + (Seen(ps) + WholeSubs(t.body, strings, depth, CellsOf(ps, cells)) + [Closes(RecordOf(t.name, ps, cells))])
  }

  function WholeSubs(b: Body, strings: seq<u8>, depth: nat, cells: Cells): seq<Event> {
    match b
    case End => []
    case Nop(rest) => WholeSubs(rest, strings, depth, cells)
    case Prop(_, _, rest) => WholeSubs(rest, strings, depth, cells)
    case Sub(node, rest) => Whole(node, strings, depth + 1, cells) + WholeSubs(rest, strings, depth, cells)
  }

  /** When properties precede subnodes, each node's record and its subnodes' cell counts use all of them. */
  lemma {:induction false} TraceIsWhole(t: Tree, strings: seq<u8>, depth: nat, cells: Cells)
    requires PropsFirst(t)
    ensures Trace(t, strings, depth, cells) == Whole(t, strings, depth, cells)
    decreases t
  {
    hide RecordOf, CellsOf, TraceBody, WholeSubs;
    TraceBodyIsWhole(t.body, strings, depth, cells, t.name, []);
    assert [] + PropsOf(t.body, strings) == PropsOf(t.body, strings);
  }

  lemma {:induction false} TraceBodyIsWhole(
      b: Body, strings: seq<u8>, depth: nat, cells: Cells, name: seq<u8>, seen: seq<Property>)
    requires PropsFirstBody(b)
    ensures var ps := seen + PropsOf(b, strings);
      TraceBody(b, strings, depth, cells, name, seen)
        == Seen(PropsOf(b, strings)) + WholeSubs(b, strings, depth, CellsOf(ps, cells)) + [Closes(RecordOf(name, ps, cells))]
    decreases b
  {
    hide RecordOf, CellsOf, Cstr, Trace, Whole;
    match b
    case End =>
      assert seen + [] == seen;
    case Nop(rest) =>
      TraceBodyIsWhole(rest, strings, depth, cells, name, seen);
    case Prop(nameoff, value, rest) =>
      var p := Property(Cstr(strings, nameoff), value);
      TraceBodyIsWhole(rest, strings, depth, cells, name, seen + [p]);
      assert seen + [p] + PropsOf(rest, strings) == seen + ([p] + PropsOf(rest, strings));
      assert Seen([p] + PropsOf(rest, strings)) == [Sees(p)] + Seen(PropsOf(rest, strings));
    case Sub(node, rest) =>
      NoProps(rest, strings);
      assert seen + [] == seen;
      TraceIsWhole(node, strings, depth + 1, CellsOf(seen, cells));
      TraceBodyIsWhole(rest, strings, depth, cells, name, seen);
  }

  lemma {:induction false} NoProps(b: Body, strings: seq<u8>)
    requires !HasProps(b)
    ensures PropsOf(b, strings) == []
  {
    match b
    case End =>
    case Nop(rest) => NoProps(rest, strings);
    case Sub(_, rest) => NoProps(rest, strings);
  }
}
