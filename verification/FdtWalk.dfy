/**
 The token loop of the device tree walker: a cursor and per-depth records stand in for
 recursion. `Walk` is the loop as a function; the method `WalkBlock` runs it in place.
 */
module FdtWalk {
  import opened Machine
  import opened BootInfos
  import opened Utf8
  import opened Fdt

  datatype State = State(cursor: nat, depth: nat, levels: seq<Level>, env: Env)

  ghost predicate InRange(st: State) {
    |st.levels| == MAX_DEPTH && st.depth < MAX_DEPTH
  }

  /** Cursor after the NUL-terminated, padded name at `c`. */
  function PastName(sb: seq<u8>, c: nat): (r: nat)
    ensures r > c
  {
    Align4(c + |Cstr(sb, c)| + 1)
  }

  /**
   Skip to the end of a subtree nested `nesting` deep; `None` when the walk ends there.
   */
  function Skip(sb: seq<u8>, cursor: nat, nesting: nat): (r: Option<nat>)
    ensures r.Some? ==> r.value >= cursor
    decreases |sb| + 4 - cursor
  {
    if nesting == 0 || cursor + 4 > |sb| then Some(cursor)
    else
      var t := Be32(sb, cursor).value;
      if t == FDT_BEGIN_NODE then Skip(sb, PastName(sb, cursor + 4), nesting + 1)
      else if t == FDT_END_NODE then Skip(sb, cursor + 4, nesting - 1)
      else if t == FDT_PROP then
        var plen := Be32(sb, cursor + 4);
        if plen.None? then None else Skip(sb, Align4(cursor + 12 + plen.value), nesting)
      else if t == FDT_NOP then Skip(sb, cursor + 4, nesting)
      else None
  }

  function OpenNode(st: State, name: seq<u8>, cursor: nat): State
    requires InRange(st) && st.depth + 1 < MAX_DEPTH
  {
    State(cursor, st.depth + 1, st.levels[st.depth + 1 := Opened(name, st.levels[st.depth])], Enter(st.env, name))
  }

  function CloseNode(st: State): State
    requires InRange(st) && st.depth > 0
  {
    State(st.cursor + 4, st.depth - 1, st.levels, Leave(st.env, st.levels[st.depth]))
  }

  function TakeProp(st: State, pname: seq<u8>, value: seq<u8>, cursor: nat): State
    requires InRange(st)
  {
    var parent := st.levels[if st.depth == 0 then 0 else st.depth - 1];
    State(cursor, st.depth, st.levels[st.depth := SetProp(st.levels[st.depth], parent, pname, value)],
          SetStdout(st.env, st.depth, pname, value))
  }

  /** One iteration: `None` ends the walk with the state's result as it stands. */
  function Step(sb: seq<u8>, strings: seq<u8>, st: State): (r: Option<State>)
    requires InRange(st) && st.cursor + 4 <= |sb|
    ensures r.Some? ==> InRange(r.value) && r.value.cursor >= st.cursor + 4
  {
    var t, c := Be32(sb, st.cursor).value, st.cursor + 4;
    if t == FDT_BEGIN_NODE then
      var name := Cstr(sb, c);
      if st.depth + 1 >= MAX_DEPTH then
        var after := Skip(sb, PastName(sb, c), 1);
        if after.Some? then Some(st.(cursor := after.value)) else None
      else Some(OpenNode(st, name, PastName(sb, c)))
    else if t == FDT_END_NODE then
      if st.depth == 0 then None else Some(CloseNode(st))
    else if t == FDT_PROP then
      var plen, pnameoff := Be32(sb, c), Be32(sb, c + 4);
      if plen.None? || pnameoff.None? || c + 8 + plen.value > |sb| then None
      else
        var value := sb[c + 8 .. c + 8 + plen.value];
        Some(TakeProp(st, Cstr(strings, pnameoff.value), value, Align4(c + 8 + plen.value)))
    else if t == FDT_NOP then Some(st.(cursor := c))
    else None
  }

  function Walk(sb: seq<u8>, strings: seq<u8>, st: State): BootInfo
    requires InRange(st)
    decreases |sb| + 4 - st.cursor
  {
    if st.cursor + 4 > |sb| then st.env.info
    else
      var next := Step(sb, strings, st);
      if next.None? then st.env.info else Walk(sb, strings, next.value)
  }

  function Start(info: BootInfo): State {
    State(0, 0, [TOP, BLANK, BLANK, BLANK, BLANK, BLANK, BLANK, BLANK], Env(info, [], false))
  }

  /** `(x + 3) & !3` */
  method AlignUp4(x: nat) returns (r: nat)
    ensures r == Align4(x)
  {
    MaskAligns(x);
    r := BitAndNot(x + 3, 3);
  }

  lemma HasBe32(sb: seq<u8>, c: nat)
    ensures Be32(sb, c).Some? <==> c + 4 <= |sb|
  {
  }

  lemma WalkOnce(sb: seq<u8>, strings: seq<u8>, st: State)
    requires InRange(st) && st.cursor + 4 <= |sb|
    ensures var next := Step(sb, strings, st);
      Walk(sb, strings, st) == if next.None? then st.env.info else Walk(sb, strings, next.value)
  {
  }

  lemma WalkStops(sb: seq<u8>, strings: seq<u8>, st: State)
    requires InRange(st) && st.cursor + 4 > |sb|
    ensures Walk(sb, strings, st) == st.env.info
  {
  }

  /** The inner loop: walk forward counting BEGIN and END tokens. */
  method SkipSubtree(sb: seq<u8>, start: nat) returns (r: Option<nat>)
    ensures r == Skip(sb, start, 1)
  {
    hide Be32, Cstr, Align4;
    var cursor, nesting := start, 1;
    while nesting > 0 && cursor + 4 <= |sb|
      invariant Skip(sb, cursor, nesting) == Skip(sb, start, 1)
      decreases |sb| + 4 - cursor
    {
      HasBe32(sb, cursor);
      var t := Be32(sb, cursor).value;
      cursor := cursor + 4;
      if t == FDT_BEGIN_NODE {
        cursor := AlignUp4(cursor + |Cstr(sb, cursor)| + 1);
        nesting := nesting + 1;
      } else if t == FDT_END_NODE {
        nesting := nesting - 1;
      } else if t == FDT_PROP {
        var plen := Be32(sb, cursor);
        if plen.None? {
          return None;
        }
        cursor := AlignUp4(cursor + 8 + plen.value);
      } else if t != FDT_NOP {
        return None;
      }
    }
    return Some(cursor);
  }

  /** The per-property dispatch, on the record of the open node and the console path. */
  method HandleProp(levels: array<Level>, depth: nat, env: Env, pname: seq<u8>, value: seq<u8>) returns (env': Env)
    requires depth < levels.Length
    modifies levels
    ensures env' == SetStdout(env, depth, pname, value)
    ensures levels[..] == old(levels[..])[depth :=
      SetProp(old(levels[depth]), old(levels[if depth == 0 then 0 else depth - 1]), pname, value)]
  {
    hide Be32, UntilNul, ValidUtf8, SetReg, SetFormat, FbOrDefault, Be32Or0;
    env' := env;
    PropNames();
    if pname == Ascii("stdout-path") {
      if depth >= 1 && env.inChosen {
        var s := UntilNul(value);
        if ValidUtf8(s) {
          env' := env.(stdout := s);
        }
      }
      assert levels[..] == old(levels[..])[depth := old(levels[depth])];
      return;
    }
    var lv := levels[depth];
    if pname == Ascii("#address-cells") || pname == Ascii("#size-cells") || pname == Ascii("clock-frequency") {
      var v := Be32(value, 0);
      if v.Some? {
        lv := if pname == Ascii("#address-cells") then lv.(addressCells := v.value)
              else if pname == Ascii("#size-cells") then lv.(sizeCells := v.value)
              else lv.(clock := v.value);
      }
    } else if pname == Ascii("compatible") {
      lv := lv.(compatible := Utf8OrEmpty(UntilNul(value)));
    } else if pname == Ascii("reg") {
      lv := SetReg(lv, levels[if depth == 0 then 0 else depth - 1], value);
    } else if pname == Ascii("width") || pname == Ascii("height") || pname == Ascii("stride") || pname == Ascii("format") {
      var fb := FbOrDefault(lv.fb);
      fb := if pname == Ascii("width") then fb.(width := Be32Or0(value))
            else if pname == Ascii("height") then fb.(height := Be32Or0(value))
            else if pname == Ascii("stride") then fb.(strideBytes := Be32Or0(value))
            else SetFormat(fb, value);
      lv := lv.(fb := Some(fb));
    }
    levels[depth] := lv;
  }

  lemma PropNames()
    ensures Ascii("stdout-path") !in {Ascii("#address-cells"), Ascii("#size-cells"), Ascii("compatible"), Ascii("reg"),
              Ascii("clock-frequency"), Ascii("width"), Ascii("height"), Ascii("stride"), Ascii("format")}
    ensures Ascii("clock-frequency") !in {Ascii("#address-cells"), Ascii("#size-cells"), Ascii("compatible"), Ascii("reg")}
  {
    assert Ascii("stdout-path")[0] == 's' as int && |Ascii("stdout-path")| == 11;
    assert Ascii("clock-frequency")[0] == 'c' as int && |Ascii("clock-frequency")| == 15;
    assert Ascii("#size-cells")[0] == '#' as int && Ascii("#address-cells")[0] == '#' as int;
  }

  /** Start the record of a node below the one at `depth`. */
  method PushNode(levels: array<Level>, depth: nat, env: Env, name: seq<u8>) returns (env': Env)
    requires depth + 1 < levels.Length
    modifies levels
    ensures levels[..] == old(levels[..])[depth + 1 := Opened(name, old(levels[depth]))] && env' == Enter(env, name)
  {
    levels[depth + 1] := Opened(name, levels[depth]);
    env' := Enter(env, name);
  }

  /** One round of the loop; `more` is false where the walk returns. */
  method OneToken(sb: seq<u8>, strings: seq<u8>, levels: array<Level>, cursor: nat, depth: nat, env: Env)
    returns (more: bool, cursor': nat, depth': nat, env': Env)
    requires levels.Length == MAX_DEPTH && depth < MAX_DEPTH && cursor + 4 <= |sb|
    modifies levels
    ensures var next := Step(sb, strings, State(cursor, depth, old(levels[..]), env));
      && more == next.Some?
      && (more ==> next == Some(State(cursor', depth', levels[..], env')))
  {
    hide SetProp, SetStdout, Leave, Enter, Opened, Cstr, Skip, Be32, Align4;
    HasBe32(sb, cursor);
    var token := Be32(sb, cursor).value;
    more, cursor', depth', env' := false, cursor + 4, depth, env;
    if token == FDT_BEGIN_NODE {
      var name := Cstr(sb, cursor');
      cursor' := AlignUp4(cursor' + |name| + 1);
      if depth + 1 >= MAX_DEPTH {
        var after := SkipSubtree(sb, cursor');
        if after.Some? {
          more, cursor' := true, after.value;
        }
      } else {
        env' := PushNode(levels, depth, env, name);
        more, depth' := true, depth + 1;
      }
    } else if token == FDT_END_NODE {
      if depth > 0 {
        env' := Leave(env, levels[depth]);
        more, depth' := true, depth - 1;
      }
    } else if token == FDT_PROP {
      var plen, pnameoff := Be32(sb, cursor'), Be32(sb, cursor' + 4);
      if plen.None? || pnameoff.None? || cursor' + 8 + plen.value > |sb| {
        return;
      }
      cursor' := cursor' + 8;
      var valueEnd := cursor' + plen.value;
      var value, pname := sb[cursor' .. valueEnd], Cstr(strings, pnameoff.value);
      env' := HandleProp(levels, depth, env, pname, value);
      cursor' := AlignUp4(valueEnd);
      more := true;
    } else {
      more := token == FDT_NOP;
    }
  }

  /** `walk`: total on every structure and strings block, however malformed. */
  method WalkBlock(sb: seq<u8>, strings: seq<u8>, start: BootInfo) returns (info: BootInfo)
    ensures info == Walk(sb, strings, Start(start))
  {
    hide Walk, Step;
    var levels := new Level[MAX_DEPTH](_ => BLANK);
    levels[0] := TOP;
    var cursor, depth, env := 0, 0, Env(start, [], false);
    assert levels[..] == Start(start).levels;
    ghost var st := State(cursor, depth, levels[..], env);
    while cursor + 4 <= |sb|
      invariant st == State(cursor, depth, levels[..], env) && InRange(st)
      invariant Walk(sb, strings, st) == Walk(sb, strings, Start(start))
      decreases |sb| + 4 - cursor
    {
      WalkOnce(sb, strings, st);
      var more, cursor', depth', env' := OneToken(sb, strings, levels, cursor, depth, env);
      if !more {
        return env.info;
      }
      cursor, depth, env := cursor', depth', env';
      st := State(cursor, depth, levels[..], env);
    }
    WalkStops(sb, strings, st);
    return env.info;
  }
}
