/**
 Device trees, their flattening (section 5.4 of the Devicetree Specification) and what
 the walker computes for them: a recursive fold.
 */
module FdtTree {
  import opened Machine
  import opened BootInfos
  import opened Utf8
  import opened Fdt
  import opened FdtWalk

  datatype Tree = Node(name: seq<u8>, body: Body)

  /** A node's contents in file order: properties, subnodes, and NOP tokens anywhere. */
  datatype Body =
    | End
    | Nop(rest: Body)
    | Prop(nameoff: u32, value: seq<u8>, rest: Body)
    | Sub(node: Tree, rest: Body)

  // ---- flattening ----

  function Token(t: u8): seq<u8> {
    [0, 0, 0, t]
  }

  /** `s` followed by zeros up to a multiple of four. */
  function Padded(s: seq<u8>): (r: seq<u8>)
    ensures |r| == Align4(|s|) && s <= r
  {
    s + seq(Align4(|s|) - |s|, _ => 0)
  }

  function FlattenTree(t: Tree): seq<u8> {
    Token(1) + Padded(t.name + [0]) + FlattenBody(t.body) + Token(2)
  }

  function FlattenBody(b: Body): seq<u8> {
    match b
    case End => []
    case Nop(rest) => Token(4) + FlattenBody(rest)
    case Prop(nameoff, value, rest) =>
      Token(3) + BeBytes(|value|, 4) + BeBytes(nameoff, 4) + Padded(value) + FlattenBody(rest)
    case Sub(node, rest) => FlattenTree(node) + FlattenBody(rest)
  }

  /** Names are NUL-free UTF-8 and lengths fit their fields. */
  ghost predicate WellFormed(t: Tree) {
    0 !in t.name && ValidUtf8(t.name) && WellFormedBody(t.body)
  }

  ghost predicate WellFormedBody(b: Body) {
    match b
    case End => true
    case Nop(rest) => WellFormedBody(rest)
    case Prop(_, value, rest) => |value| < 0x1_0000_0000 && WellFormedBody(rest)
    case Sub(node, rest) => WellFormed(node) && WellFormedBody(rest)
  }

  // ---- meaning ----

  /** A node at `depth` below a parent with the given record. */
  function FoldTree(t: Tree, strings: seq<u8>, depth: nat, parent: Level, env: Env): Env {
    if depth >= MAX_DEPTH then env
    else
      var (lv, env') := FoldBody(t.body, strings, depth, parent, Opened(t.name, parent), Enter(env, t.name));
      Leave(env', lv)
  }

  function FoldBody(b: Body, strings: seq<u8>, depth: nat, parent: Level, lv: Level, env: Env): (Level, Env) {
    match b
    case End => (lv, env)
    case Nop(rest) => FoldBody(rest, strings, depth, parent, lv, env)
    case Prop(nameoff, value, rest) =>
      var pname := Cstr(strings, nameoff);
      FoldBody(rest, strings, depth, parent, SetProp(lv, parent, pname, value), SetStdout(env, depth, pname, value))
    case Sub(node, rest) =>
      FoldBody(rest, strings, depth, parent, lv, FoldTree(node, strings, depth + 1, lv, env))
  }

  // ---- bytes at a position ----

  lemma AtToken(sb: seq<u8>, c: nat, t: u8)
    requires At(sb, c, Token(t))
    ensures c + 4 <= |sb| && Be32(sb, c) == Some(t as u32)
  {
    var s := sb[c .. c + 4];
    assert sb[c] == s[0] && sb[c + 1] == s[1] && sb[c + 2] == s[2] && sb[c + 3] == s[3];
  }

  lemma AtBe32(sb: seq<u8>, c: nat, v: u32)
    requires At(sb, c, BeBytes(v, 4))
    ensures Be32(sb, c) == Some(v)
  {
    hide BeBytes, BigEndian, Pow2;
    Be32Spells(sb, c);
    Pow2Of32();
    BytesSpell(v, 4);
  }

  lemma {:induction false} UntilNulStops(s: seq<u8>, name: seq<u8>)
    requires name + [0] <= s && 0 !in name
    ensures UntilNul(s) == name
  {
    if name != [] {
      assert s[1..][..|name|] == name[1..] + [0];
      UntilNulStops(s[1..], name[1..]);
    }
  }

  lemma {:induction false} AsciiValid(s: seq<u8>)
    requires forall i :: 0 <= i < |s| ==> s[i] < 0x80
    ensures ValidUtf8(s)
  {
    if s != [] { AsciiValid(s[1..]); }
  }

  /** Text without control characters, as a string constant. */
  predicate Plain(text: string) {
    forall i :: 0 <= i < |text| ==> ' ' <= text[i] <= '~'
  }

  lemma TextIs(text: string)
    requires Plain(text)
    ensures Utf8OrEmpty(UntilNul(Ascii(text) + [0])) == Ascii(text)
  {
    UntilNulStops(Ascii(text) + [0], Ascii(text));
    AsciiValid(Ascii(text));
  }

  lemma CstrAt(sb: seq<u8>, c: nat, text: string)
    requires Plain(text) && At(sb, c, Ascii(text) + [0])
    ensures Cstr(sb, c) == Ascii(text)
  {
    assert sb[c..][..|text| + 1] == Ascii(text) + [0];
    UntilNulStops(sb[c..], Ascii(text));
    AsciiValid(Ascii(text));
  }

  lemma AtName(sb: seq<u8>, c: nat, name: seq<u8>)
    requires At(sb, c, Padded(name + [0])) && 0 !in name && ValidUtf8(name)
    ensures Cstr(sb, c) == name
  {
    assert name + [0] <= sb[c..] by {
      assert sb[c..][..|name| + 1] == Padded(name + [0])[..|name| + 1];
    }
    UntilNulStops(sb[c..], name);
  }

  lemma AtValue(sb: seq<u8>, c: nat, value: seq<u8>)
    requires At(sb, c, Padded(value))
    ensures c + |value| <= |sb| && sb[c .. c + |value|] == value
  {
    hide Align4;
    assert sb[c .. c + |value|] == Padded(value)[..|value|];
  }

  lemma {:induction false} AlignShift(c: nat, k: nat)
    requires c % 4 == 0
    ensures Align4(c + k) == c + Align4(k) && Align4(k) % 4 == 0
  {
    if c > 0 {
      AlignShift(c - 4, k);
    } else if k > 4 {
      AlignShift(0, k - 4);
    }
  }

  // ---- what the cursor meets, token by token ----

  function BodyStart(c: nat, t: Tree): nat {
    c + 4 + Align4(|t.name| + 1)
  }

  lemma MeetsNode(sb: seq<u8>, c: nat, t: Tree)
    requires At(sb, c, FlattenTree(t)) && c % 4 == 0 && WellFormed(t)
    ensures c + 4 <= |sb| && Be32(sb, c) == Some(1) && Cstr(sb, c + 4) == t.name
    ensures PastName(sb, c + 4) == BodyStart(c, t) && BodyStart(c, t) % 4 == 0
    ensures At(sb, BodyStart(c, t), FlattenBody(t.body))
    ensures var e := BodyStart(c, t) + |FlattenBody(t.body)|;
      e + 4 <= |sb| && Be32(sb, e) == Some(2) && e + 4 == c + |FlattenTree(t)|
  {
    hide At, Padded, Be32, Cstr, Align4, FlattenBody;
    var name := Padded(t.name + [0]);
    AtSplit(sb, c, Token(1) + name + FlattenBody(t.body), Token(2));
    AtSplit(sb, c, Token(1) + name, FlattenBody(t.body));
    AtSplit(sb, c, Token(1), name);
    AtToken(sb, c, 1);
    AtName(sb, c + 4, t.name);
    AlignShift(c + 4, |t.name| + 1);
    AtToken(sb, BodyStart(c, t) + |FlattenBody(t.body)|, 2);
  }

  function PastProp(c: nat, value: seq<u8>): nat {
    c + 12 + Align4(|value|)
  }

  lemma MeetsProp(sb: seq<u8>, c: nat, nameoff: u32, value: seq<u8>, rest: Body)
    requires At(sb, c, FlattenBody(Prop(nameoff, value, rest))) && c % 4 == 0 && |value| < 0x1_0000_0000
    ensures c + 12 + |value| <= |sb| && Be32(sb, c) == Some(3)
    ensures Be32(sb, c + 4) == Some(|value| as u32) && Be32(sb, c + 8) == Some(nameoff)
    ensures sb[c + 12 .. c + 12 + |value|] == value
    ensures Align4(c + 12 + |value|) == PastProp(c, value) && PastProp(c, value) % 4 == 0
    ensures At(sb, PastProp(c, value), FlattenBody(rest))
    ensures PastProp(c, value) + |FlattenBody(rest)| == c + |FlattenBody(Prop(nameoff, value, rest))|
  {
    hide BeBytes, Padded, Be32, Align4, At, FlattenBody;
    FlattenProp(nameoff, value, rest);
    var len, off, pad := BeBytes(|value|, 4), BeBytes(nameoff, 4), Padded(value);
    AtFive(sb, c, Token(3), len, off, pad, FlattenBody(rest));
    AtToken(sb, c, 3);
    AtBe32(sb, c + 4, |value|);
    AtBe32(sb, c + 8, nameoff);
    AlignShift(c + 12, |value|);
    AtValue(sb, c + 12, value);
  }

  lemma AtFive(sb: seq<u8>, c: nat, p: seq<u8>, q: seq<u8>, r: seq<u8>, s: seq<u8>, t: seq<u8>)
    requires At(sb, c, p + q + r + s + t)
    ensures At(sb, c, p) && At(sb, c + |p|, q) && At(sb, c + |p| + |q|, r) && At(sb, c + |p| + |q| + |r|, s)
    ensures At(sb, c + |p| + |q| + |r| + |s|, t)
  {
    hide At;
    AtSplit(sb, c, p + q + r + s, t);
    AtSplit(sb, c, p + q + r, s);
    AtSplit(sb, c, p + q, r);
    AtSplit(sb, c, p, q);
  }

  lemma FlattenProp(nameoff: u32, value: seq<u8>, rest: Body)
    ensures FlattenBody(Prop(nameoff, value, rest))
         == Token(3) + BeBytes(|value|, 4) + BeBytes(nameoff, 4) + Padded(value) + FlattenBody(rest)
  {
    hide BeBytes, Padded, Token;
  }

  lemma MeetsNop(sb: seq<u8>, c: nat, rest: Body)
    requires At(sb, c, FlattenBody(Body.Nop(rest)))
    ensures c + 4 <= |sb| && Be32(sb, c) == Some(4) && At(sb, c + 4, FlattenBody(rest))
    ensures c + 4 + |FlattenBody(rest)| == c + |FlattenBody(Body.Nop(rest))|
  {
    AtSplit(sb, c, Token(4), FlattenBody(rest));
    AtToken(sb, c, 4);
  }

  lemma MeetsSub(sb: seq<u8>, c: nat, node: Tree, rest: Body)
    requires At(sb, c, FlattenBody(Sub(node, rest)))
    ensures At(sb, c, FlattenTree(node)) && At(sb, c + |FlattenTree(node)|, FlattenBody(rest))
    ensures c + |FlattenTree(node)| + |FlattenBody(rest)| == c + |FlattenBody(Sub(node, rest))|
  {
    AtSplit(sb, c, FlattenTree(node), FlattenBody(rest));
  }

  lemma EndIsEmpty()
    ensures FlattenBody(End) == []
  {
  }

  // ---- skipping ----

  /** Below the depth limit a whole subtree is passed over, to just behind its END token. */
  lemma {:induction false} SkipTree(sb: seq<u8>, c: nat, t: Tree, nesting: nat)
    requires At(sb, c, FlattenTree(t)) && c % 4 == 0 && WellFormed(t) && nesting > 0
    ensures Skip(sb, c, nesting) == Skip(sb, c + |FlattenTree(t)|, nesting)
    ensures (c + |FlattenTree(t)|) % 4 == 0
    decreases t
  {
    hide Cstr, Be32, FlattenTree, FlattenBody, Align4;
    MeetsNode(sb, c, t);
    SkipBody(sb, BodyStart(c, t), t.body, nesting + 1);
  }

  lemma {:induction false} SkipBody(sb: seq<u8>, c: nat, b: Body, nesting: nat)
    requires At(sb, c, FlattenBody(b)) && c % 4 == 0 && WellFormedBody(b) && nesting > 0
    ensures Skip(sb, c, nesting) == Skip(sb, c + |FlattenBody(b)|, nesting)
    ensures (c + |FlattenBody(b)|) % 4 == 0
    decreases b
  {
    hide Cstr, Be32, FlattenTree, FlattenBody, Align4, At;
    match b
    case End => EndIsEmpty();
    case Nop(rest) =>
      MeetsNop(sb, c, rest);
      SkipBody(sb, c + 4, rest, nesting);
    case Prop(nameoff, value, rest) =>
      MeetsProp(sb, c, nameoff, value, rest);
      SkipBody(sb, PastProp(c, value), rest, nesting);
    case Sub(node, rest) =>
      MeetsSub(sb, c, node, rest);
      SkipTree(sb, c, node, nesting);
      SkipBody(sb, c + |FlattenTree(node)|, rest, nesting);
  }

  // ---- walking ----

  /** `st'` is `st` moved to `cursor`, with the records down to `depth` unchanged. */
  ghost predicate Moved(st: State, st': State, cursor: nat, kept: nat) {
    && InRange(st) && InRange(st') && st'.cursor == cursor && st'.depth == st.depth
    && kept <= MAX_DEPTH && st'.levels[..kept] == st.levels[..kept]
  }

  /** A move that keeps the records down to the open node keeps the open node's and its parent's. */
  lemma MovedKeeps(st: State, mid: State, cursor: nat)
    requires st.depth > 0 && Moved(st, mid, cursor, st.depth + 1)
    ensures mid.levels[st.depth] == st.levels[st.depth] && mid.levels[st.depth - 1] == st.levels[st.depth - 1]
    ensures mid.levels[..st.depth] == st.levels[..st.depth]
  {
    assert mid.levels[..st.depth + 1][st.depth] == st.levels[st.depth];
    assert mid.levels[..st.depth] == mid.levels[..st.depth + 1][..st.depth];
  }

  lemma StepNode(sb: seq<u8>, strings: seq<u8>, st: State, t: Tree)
    requires InRange(st) && At(sb, st.cursor, FlattenTree(t)) && st.cursor % 4 == 0 && WellFormed(t)
    ensures st.cursor + 4 <= |sb|
    ensures st.depth + 1 < MAX_DEPTH ==>
      Step(sb, strings, st) == Some(OpenNode(st, t.name, BodyStart(st.cursor, t)))
    ensures st.depth + 1 >= MAX_DEPTH ==>
      Step(sb, strings, st) == Some(st.(cursor := st.cursor + |FlattenTree(t)|))
  {
    hide At, Cstr, Be32, Align4, FlattenTree, FlattenBody, OpenNode, TakeProp, CloseNode;
    var c := st.cursor;
    MeetsNode(sb, c, t);
    SkipBody(sb, BodyStart(c, t), t.body, 1);
  }

  lemma StepProp(sb: seq<u8>, strings: seq<u8>, st: State, nameoff: u32, value: seq<u8>, rest: Body)
    requires InRange(st) && At(sb, st.cursor, FlattenBody(Prop(nameoff, value, rest))) && st.cursor % 4 == 0
    requires |value| < 0x1_0000_0000
    ensures st.cursor + 4 <= |sb|
    ensures Step(sb, strings, st) == Some(TakeProp(st, Cstr(strings, nameoff), value, PastProp(st.cursor, value)))
  {
    hide At, Cstr, Be32, Align4, FlattenTree, FlattenBody, OpenNode, TakeProp, CloseNode;
    MeetsProp(sb, st.cursor, nameoff, value, rest);
  }

  lemma StepNop(sb: seq<u8>, strings: seq<u8>, st: State, rest: Body)
    requires InRange(st) && At(sb, st.cursor, FlattenBody(Body.Nop(rest)))
    ensures st.cursor + 4 <= |sb| && Step(sb, strings, st) == Some(st.(cursor := st.cursor + 4))
  {
    hide At, Be32, FlattenBody;
    MeetsNop(sb, st.cursor, rest);
  }

  lemma StepEnd(sb: seq<u8>, strings: seq<u8>, st: State)
    requires InRange(st) && st.depth > 0 && st.cursor + 4 <= |sb| && Be32(sb, st.cursor) == Some(2)
    ensures Step(sb, strings, st) == Some(CloseNode(st))
  {
    hide Be32, CloseNode;
  }

  /** Walking a node's bytes has the effect of its fold and leaves its ancestors' records alone. */
  lemma {:induction false} WalkTree(sb: seq<u8>, strings: seq<u8>, st: State, t: Tree) returns (st': State)
    requires InRange(st) && At(sb, st.cursor, FlattenTree(t)) && st.cursor % 4 == 0 && WellFormed(t)
    ensures Moved(st, st', st.cursor + |FlattenTree(t)|, st.depth + 1)
    ensures Walk(sb, strings, st) == Walk(sb, strings, st')
    ensures st'.env == FoldTree(t, strings, st.depth + 1, st.levels[st.depth], st.env)
    decreases t
  {
    hide At, Be32, Align4, FlattenTree, FlattenBody, Step, SetProp, SetStdout, Opened, Enter, Leave, FoldBody;
    StepNode(sb, strings, st, t);
    if st.depth + 1 >= MAX_DEPTH {
      st' := st.(cursor := st.cursor + |FlattenTree(t)|);
    } else {
      MeetsNode(sb, st.cursor, t);
      var entered := OpenNode(st, t.name, BodyStart(st.cursor, t));
      var inner := WalkBody(sb, strings, entered, t.body);
      StepEnd(sb, strings, inner);
      st' := CloseNode(inner);
      assert st'.levels[..st.depth + 1] == inner.levels[..entered.depth];
    }
  }

  lemma {:induction false} WalkBody(sb: seq<u8>, strings: seq<u8>, st: State, b: Body) returns (st': State)
    requires InRange(st) && st.depth > 0 && At(sb, st.cursor, FlattenBody(b)) && st.cursor % 4 == 0 && WellFormedBody(b)
    ensures Moved(st, st', st.cursor + |FlattenBody(b)|, st.depth)
    ensures Walk(sb, strings, st) == Walk(sb, strings, st')
    ensures (st'.levels[st.depth], st'.env)
         == FoldBody(b, strings, st.depth, st.levels[st.depth - 1], st.levels[st.depth], st.env)
    decreases b
  {
    hide At, Be32, Align4, FlattenTree, FlattenBody, Step, Cstr, SetProp, SetStdout, FoldTree, Walk, PastProp, Padded, WellFormed,
      BeBytes, Skip;
    match b
    case End =>
      EndIsEmpty();
      st' := st;
    case Nop(rest) =>
      StepNop(sb, strings, st, rest);
      WalkOnce(sb, strings, st);
      MeetsNop(sb, st.cursor, rest);
      st' := WalkBody(sb, strings, st.(cursor := st.cursor + 4), rest);
    case Prop(nameoff, value, rest) =>
      StepProp(sb, strings, st, nameoff, value, rest);
      WalkOnce(sb, strings, st);
      MeetsProp(sb, st.cursor, nameoff, value, rest);
      st' := WalkBody(sb, strings, TakeProp(st, Cstr(strings, nameoff), value, PastProp(st.cursor, value)), rest);
    case Sub(node, rest) =>
      MeetsSub(sb, st.cursor, node, rest);
      SkipTree(sb, st.cursor, node, 1);
      var mid := WalkTree(sb, strings, st, node);
      MovedKeeps(st, mid, st.cursor + |FlattenTree(node)|);
      st' := WalkBody(sb, strings, mid, rest);
  }

  // ---- the whole block ----

  /** From `c` on, at depth 0: NOP tokens, then FDT_END or the end of the block. */
  ghost predicate Ends(sb: seq<u8>, c: nat)
    decreases |sb| + 4 - c
  {
    c + 4 > |sb| || Be32(sb, c) == Some(9) || (Be32(sb, c) == Some(4) && Ends(sb, c + 4))
  }

  lemma {:induction false} WalkEnds(sb: seq<u8>, strings: seq<u8>, st: State)
    requires InRange(st) && Ends(sb, st.cursor)
    ensures Walk(sb, strings, st) == st.env.info
    decreases |sb| + 4 - st.cursor
  {
    hide Be32, OpenNode, CloseNode, TakeProp;
    if st.cursor + 4 <= |sb| && Be32(sb, st.cursor) == Some(4) {
      StepOverNop(sb, strings, st);
      WalkEnds(sb, strings, st.(cursor := st.cursor + 4));
    }
  }

  /** `k` NOP tokens from `c` on. */
  ghost predicate Nops(sb: seq<u8>, c: nat, k: nat)
    decreases k
  {
    k == 0 || (Be32(sb, c) == Some(4) && Nops(sb, c + 4, k - 1))
  }

  lemma {:induction false} WalkNops(sb: seq<u8>, strings: seq<u8>, st: State, k: nat)
    requires InRange(st) && Nops(sb, st.cursor, k)
    ensures Walk(sb, strings, st) == Walk(sb, strings, st.(cursor := st.cursor + 4 * k))
    decreases k
  {
    hide Be32, Walk, Step;
    if k > 0 {
      var next := st.(cursor := st.cursor + 4);
      StepOverNop(sb, strings, st);
      WalkOnce(sb, strings, st);
      WalkNops(sb, strings, next, k - 1);
      assert next.(cursor := next.cursor + 4 * (k - 1)) == st.(cursor := st.cursor + 4 * k);
    }
  }

  lemma StepOverNop(sb: seq<u8>, strings: seq<u8>, st: State)
    requires InRange(st) && Be32(sb, st.cursor) == Some(4)
    ensures st.cursor + 4 <= |sb| && Step(sb, strings, st) == Some(st.(cursor := st.cursor + 4))
  {
    hide OpenNode, CloseNode, TakeProp;
  }

  /** The structure block of a tree: `k` NOP tokens, the tree, NOP tokens and an end. */
  ghost predicate Holds(sb: seq<u8>, k: nat, root: Tree) {
    && WellFormed(root) && At(sb, 4 * k, FlattenTree(root))
    && Nops(sb, 0, k)
    && Ends(sb, 4 * k + |FlattenTree(root)|)
  }

  /**
   Walking a flattened tree, with NOP tokens anywhere, changes the boot information
   exactly as folding the tree does.
   */
  lemma WalkIsFold(sb: seq<u8>, strings: seq<u8>, info: BootInfo, k: nat, root: Tree)
    requires Holds(sb, k, root)
    ensures Walk(sb, strings, Start(info)) == FoldTree(root, strings, 1, TOP, Env(info, [], false)).info
  {
    hide Be32, FlattenTree, FoldTree, Walk;
    var st := Start(info);
    WalkNops(sb, strings, st, k);
    var st' := WalkTree(sb, strings, st.(cursor := 4 * k), root);
    WalkEnds(sb, strings, st');
  }
}
