/**
  Path strings and absolute paths, standing in for Ruby's `Pathname` and
  `File.expand_path`. An absolute, expanded path is the sequence of its
  components from the root down; the root itself is `[]`. Expansion is
  lexical: "." is dropped and ".." removes the previous component.
 */
module Paths {
  import opened Common

  type Path = seq<string>

  /** A piece of a path string between separators. */
  predicate IsComponent(c: string) {
    c != "" && '/' !in c
  }

  /** A component that names a directory entry (neither "." nor ".."). */
  predicate IsName(c: string) {
    IsComponent(c) && c != "." && c != ".."
  }

  predicate AllNames(p: Path) {
    forall i :: 0 <= i < |p| ==> IsName(p[i])
  }

  predicate EndsWith(s: string, suffix: string) {
    |suffix| <= |s| && s[|s| - |suffix|..] == suffix
  }

  predicate IsAbsolute(s: string) {
    |s| > 0 && s[0] == '/'
  }

  /** The index of the last separator in `s`, if any. */
  function LastSlash(s: string): (r: Option<nat>)
    ensures r.Some? ==> r.value < |s| && s[r.value] == '/' && '/' !in s[r.value + 1..]
    ensures r.None? ==> '/' !in s
  {
    if s == [] then None
    else if s[|s| - 1] == '/' then Some(|s| - 1)
    else
      var r := LastSlash(s[..|s| - 1]);
      assert s == s[..|s| - 1] + [s[|s| - 1]];
      assert r.Some? ==> s[r.value + 1..] == s[..|s| - 1][r.value + 1..] + [s[|s| - 1]];
      r
  }

  /** The components of a path string, empty pieces (from "//" or a trailing "/") dropped. */
  function Split(s: string): (r: seq<string>)
    ensures forall i :: 0 <= i < |r| ==> IsComponent(r[i])
    decreases |s|
  {
    match LastSlash(s)
    case None => if s == "" then [] else [s]
    case Some(i) => Split(s[..i]) + (if i + 1 == |s| then [] else [s[i + 1..]])
  }

  /** The components of `p`, each preceded by a separator. */
  function Below(p: Path): (r: string)
    ensures p != [] ==> IsAbsolute(r)
    decreases |p|
  {
    if p == [] then "" else Below(p[..|p| - 1]) + "/" + p[|p| - 1]
  }

  /** `Pathname#to_s` of an absolute, expanded path. */
  function Render(p: Path): (r: string)
    ensures IsAbsolute(r)
  {
    if p == [] then "/" else Below(p)
  }

  /** One component applied to a directory: "." stays, ".." goes up (never above the root). */
  function Step(dir: Path, c: string): (r: Path)
    ensures AllNames(dir) && IsComponent(c) ==> AllNames(r)
    ensures IsName(c) ==> r == dir + [c]
    ensures c == "." ==> r == dir
    ensures c == ".." ==> |r| == (if dir == [] then 0 else |dir| - 1) && r == dir[..|r|]
  {
    if c == "." then dir
    else if c == ".." then (if dir == [] then [] else dir[..|dir| - 1])
    else dir + [c]
  }

  /** The components `cs`, left to right, applied to the directory `base`. */
  function Resolve(base: Path, cs: seq<string>): (r: Path)
    ensures AllNames(base) && (forall i :: 0 <= i < |cs| ==> IsComponent(cs[i])) ==> AllNames(r)
    decreases |cs|
  {
    if cs == [] then base
    else Step(Resolve(base, cs[..|cs| - 1]), cs[|cs| - 1])
  }

  /** `File.expand_path(s)` with working directory `cwd`: absolute strings from the root, others from `cwd`. */
  function Expand(cwd: Path, s: string): (r: Path)
    ensures AllNames(cwd) ==> AllNames(r)
  {
    Resolve(if IsAbsolute(s) then [] else cwd, Split(s))
  }

  /** `Pathname(s) + name` for a single-component `name`. */
  function Join(s: string, name: string): (r: string)
    ensures |s| <= |r| && r[..|s|] == s
    ensures s != "" ==> EndsWith(r, "/" + name)
  {
    if s == "" then name
    else if s[|s| - 1] == '/' then s + name
    else s + "/" + name
  }

  lemma {:induction false} LastSlashBefore(a: string, t: string)
    requires '/' !in t
    ensures LastSlash(a + "/" + t) == Some(|a|)
    decreases |t|
  {
    if t != [] {
      var s := a + "/" + t;
      assert s[|s| - 1] == t[|t| - 1];
      assert s[..|s| - 1] == a + "/" + t[..|t| - 1];
      LastSlashBefore(a, t[..|t| - 1]);
    }
  }

  /** Appending "/" and a component adds exactly that component to the split. */
  lemma SplitSnoc(a: string, c: string)
    requires IsComponent(c)
    ensures Split(a + "/" + c) == Split(a) + [c]
  {
    var s := a + "/" + c;
    LastSlashBefore(a, c);
    assert s[..|a|] == a;
    assert s[|a| + 1..] == c;
  }

  /** A trailing separator adds nothing to the split. */
  lemma SplitTrailingSlash(a: string)
    ensures Split(a + "/") == Split(a)
  {
    LastSlashBefore(a, "");
    assert (a + "/")[..|a|] == a;
  }

  lemma {:induction false} SplitBelow(p: Path)
    requires AllNames(p)
    ensures Split(Below(p)) == p
    decreases |p|
  {
    if p != [] {
      var q := p[..|p| - 1];
      SplitSnoc(Below(q), p[|p| - 1]);
      SplitBelow(q);
      assert p == q + [p[|p| - 1]];
    }
  }

  /** Splitting a rendered path gives back its components. */
  lemma SplitRender(p: Path)
    requires AllNames(p)
    ensures Split(Render(p)) == p
  {
    if p == [] {
      SplitTrailingSlash("");
    } else {
      SplitBelow(p);
    }
  }

  /** The rendering of a non-root path ends with a separator and its last component. */
  lemma RenderLast(p: Path)
    requires p != []
    ensures EndsWith(Render(p), "/" + p[|p| - 1])
  {
    var a := Below(p[..|p| - 1]);
    assert Render(p) == a + ("/" + p[|p| - 1]);
  }

  /** The rendering of a non-root path of names is a string of plain names not ending in "/". */
  lemma RenderedNames(p: Path)
    requires AllNames(p) && p != []
    ensures var s := Render(p); s != "" && s[|s| - 1] != '/' && AllNames(Split(s))
  {
    SplitRender(p);
    RenderLast(p);
    var s := Render(p);
    var last := p[|p| - 1];
    assert s[|s| - 1] == last[|last| - 1];
    assert last[|last| - 1] in last;
  }

  /** Resolving plain names only descends. */
  lemma {:induction false} ResolveNames(base: Path, cs: seq<string>)
    requires AllNames(cs)
    ensures Resolve(base, cs) == base + cs
    decreases |cs|
  {
    if cs != [] {
      var init := cs[..|cs| - 1];
      ResolveNames(base, init);
      assert cs == init + [cs[|cs| - 1]];
    }
  }

  /** Resolving `cs + [c]` for a name `c` descends into `c` from where `cs` leads. */
  lemma ResolveSnoc(base: Path, cs: seq<string>, c: string)
    requires IsName(c)
    ensures Resolve(base, cs + [c]) == Resolve(base, cs) + [c]
  {
    assert (cs + [c])[..|cs|] == cs;
  }

  /** Expanding the rendering of an expanded path gives that path back, whatever the working directory. */
  lemma ExpandRender(cwd: Path, p: Path)
    requires AllNames(p)
    ensures Expand(cwd, Render(p)) == p
  {
    SplitRender(p);
    ResolveNames([], p);
  }

  /** Joining a name onto a path string adds that name to its expansion. */
  lemma ExpandJoin(cwd: Path, s: string, name: string)
    requires IsName(name)
    ensures Expand(cwd, Join(s, name)) == Expand(cwd, s) + [name]
  {
    if s == "" {
      assert Split(name) == [name] by {
        assert LastSlash(name) == None;
      }
      assert Resolve(cwd, [name]) == Step(Resolve(cwd, []), name);
    } else if s[|s| - 1] == '/' {
      var a := s[..|s| - 1];
      assert s == a + "/";
      SplitTrailingSlash(a);
      SplitSnoc(a, name);
      assert Join(s, name) == a + "/" + name;
      ResolveSnoc(if IsAbsolute(s) then [] else cwd, Split(a), name);
    } else {
      SplitSnoc(s, name);
      assert (s + "/" + name)[0] == s[0];
      ResolveSnoc(if IsAbsolute(s) then [] else cwd, Split(s), name);
    }
  }

  /** A path string ending in "/" and a name expands to a path whose last component is that name. */
  lemma ExpandEndingWith(cwd: Path, s: string, name: string)
    requires IsName(name) && EndsWith(s, "/" + name)
    ensures var e := Expand(cwd, s); e != [] && e[|e| - 1] == name
  {
    var a := s[..|s| - |name| - 1];
    assert s == a + "/" + name;
    SplitSnoc(a, name);
    ResolveSnoc(if IsAbsolute(s) then [] else cwd, Split(a), name);
  }
}
