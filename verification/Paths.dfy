/**
 Path strings: splitting into components and splitting off the last one.
 */
module Paths {
  import opened Machine

  /** `str::split('/')` */
  function Split(s: string): (r: seq<string>)
    ensures r != []
  {
    if s == "" then [""]
    else
      var r := Split(s[1..]);
      if s[0] == '/' then [""] + r else [[s[0]] + r[0]] + r[1..]
  }

  function DropEmpty(cs: seq<string>): seq<string> {
    if cs == [] then [] else (if cs[0] == "" then [] else [cs[0]]) + DropEmpty(cs[1..])
  }

  /** The components `resolve` walks over. */
  function Components(path: string): seq<string> {
    DropEmpty(Split(path))
  }

  /** `str::rsplit_once('/')` */
  function RSplitOnce(s: string): (r: Option<(string, string)>)
    ensures r.None? <==> '/' !in s
    ensures r.Some? ==> s == r.value.0 + "/" + r.value.1 && '/' !in r.value.1
  {
    if s == "" then None
    else
      var n := |s| - 1;
      if s[n] == '/' then Some((s[..n], ""))
      else
        var r := RSplitOnce(s[..n]);
        if r.None? then None else Some((r.value.0, r.value.1 + [s[n]]))
  }

  /** `split_parent`: the parent's path and the last name. */
  function SplitParent(path: string): (r: (string, string))
    ensures r.0 != "" && '/' !in r.1
  {
    var r := RSplitOnce(path);
    if r.None? then ("/", path)
    else if r.value.0 == "" then ("/", r.value.1)
    else r.value
  }

  lemma {:induction false} SplitJoin(a: string, b: string)
    ensures Split(a + "/" + b) == Split(a) + Split(b)
  {
    var s := a + "/" + b;
    if a == "" {
      assert s[1..] == b;
    } else {
      assert s[1..] == a[1..] + "/" + b;
      SplitJoin(a[1..], b);
    }
  }

  lemma {:induction false} DropEmptyConcat(a: seq<string>, b: seq<string>)
    ensures DropEmpty(a + b) == DropEmpty(a) + DropEmpty(b)
  {
    if a == [] {
      assert a + b == b;
    } else {
      assert (a + b)[1..] == a[1..] + b;
      DropEmptyConcat(a[1..], b);
    }
  }

  lemma ComponentsJoin(a: string, b: string)
    ensures Components(a + "/" + b) == Components(a) + Components(b)
  {
    SplitJoin(a, b);
    DropEmptyConcat(Split(a), Split(b));
  }

  lemma {:induction false} SplitPlain(s: string)
    requires '/' !in s
    ensures Split(s) == [s]
  {
    if s != "" {
      assert s[0] in s && '/' !in s[1..];
      SplitPlain(s[1..]);
      assert [s[0]] + s[1..] == s;
    }
  }

  lemma ComponentsPlain(s: string)
    requires '/' !in s
    ensures Components(s) == if s == "" then [] else [s]
  {
    SplitPlain(s);
    assert DropEmpty([s]) == (if s == "" then [] else [s]) + DropEmpty([s][1..]);
    assert DropEmpty([s][1..]) == [];
  }

  /** Components are non-empty and slash-free. */
  lemma {:induction false} ComponentsClean(s: string)
    ensures forall i :: 0 <= i < |Components(s)| ==> Components(s)[i] != "" && '/' !in Components(s)[i]
  {
    SplitClean(s);
    DropEmptyClean(Split(s));
  }

  lemma {:induction false} SplitClean(s: string)
    ensures forall i :: 0 <= i < |Split(s)| ==> '/' !in Split(s)[i]
  {
    if s != "" { SplitClean(s[1..]); }
  }

  lemma {:induction false} DropEmptyClean(cs: seq<string>)
    requires forall i :: 0 <= i < |cs| ==> '/' !in cs[i]
    ensures forall i :: 0 <= i < |DropEmpty(cs)| ==> DropEmpty(cs)[i] != "" && '/' !in DropEmpty(cs)[i]
  {
    if cs != [] { DropEmptyClean(cs[1..]); }
  }

  /** A slash at either end, or a doubled slash, leaves the components alone. */
  lemma RedundantSlashes(a: string, b: string)
    ensures Components("/" + a) == Components(a) == Components(a + "/")
    ensures Components(a + "//" + b) == Components(a + "/" + b)
  {
    hide Components;
    ComponentsPlain("");
    ComponentsJoin("", a);
    assert "" + "/" + a == "/" + a;
    ComponentsJoin(a, "");
    assert a + "/" + "" == a + "/";
    ComponentsJoin(a, b);
    ComponentsJoin(a + "/", b);
    assert a + "/" + "/" + b == a + "//" + b;
  }

  lemma SlashIsRoot()
    ensures Components("/") == []
  {
    ComponentsPlain("");
    RedundantSlashes("", "");
    assert "/" + "" == "/";
  }

  /** The two halves of a path hold its components between them. */
  lemma ParentComponents(path: string)
    ensures var (parent, name) := SplitParent(path);
      Components(path) == Components(parent) + if name == "" then [] else [name]
    ensures SplitParent(path).1 == "" <==> path == "" || path[|path| - 1] == '/'
  {
    hide Components, RSplitOnce;
    var (parent, name) := SplitParent(path);
    ComponentsPlain(name);
    ComponentsPlain("");
    SlashIsRoot();
    assert [] + Components(name) == Components(name);
    var r := RSplitOnce(path);
    if r.Some? {
      ComponentsJoin(r.value.0, r.value.1);
      if name != "" { assert path[|path| - 1] == name[|name| - 1]; }
    } else if path != "" {
      assert path[|path| - 1] in path;
    }
  }
}
