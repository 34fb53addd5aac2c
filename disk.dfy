/**
  A snapshot of the filesystem: the working directory and the entries that
  exist, keyed by absolute expanded path. The root always exists and is a
  directory.
 */
module Disk {
  import opened Common
  import opened Paths
  import opened Settings

  datatype Entry = Directory | RegularFile(content: Document)

  type Entries = map<Path, Entry>

  /** The errors `File.write` and reading a file can raise here (ENOENT, ENOTDIR, EISDIR). */
  datatype IoError = NoSuchFileOrDirectory(path: Path) | NotADirectory(path: Path) | IsADirectory(path: Path)

  /** An expanded path names an entry: the root, a directory or a regular file. */
  predicate Exists(entries: Entries, p: Path)
    ensures Exists(entries, p) <==> IsDirectory(entries, p) || IsRegularFile(entries, p)
  {
    p == [] || p in entries
  }

  predicate IsDirectory(entries: Entries, p: Path) {
    p == [] || (p in entries && entries[p].Directory?)
  }

  /** `Pathname#file?` on an expanded path. */
  predicate IsRegularFile(entries: Entries, p: Path)
    ensures IsRegularFile(entries, p) ==> !IsDirectory(entries, p)
  {
    p != [] && p in entries && entries[p].RegularFile?
  }

  /** Every entry lies in a directory: the shape of a real directory tree. */
  predicate WellFormed(entries: Entries) {
    forall p :: p in entries && p != [] ==> IsDirectory(entries, p[..|p| - 1])
  }

  /**
    The operating system walking the components `cs` from the directory
    `base`, one at a time: each step starts from an existing directory,
    "." stays there, ".." goes to its parent, and a name must exist.
   */
  function Walk(entries: Entries, base: Path, cs: seq<string>): (r: Option<Path>)
    ensures r.Some? ==> r.value == Resolve(base, cs) && Exists(entries, r.value)
    decreases |cs|
  {
    if cs == [] then (if IsDirectory(entries, base) then Some(base) else None)
    else
      match Walk(entries, base, cs[..|cs| - 1])
      case None => None
      case Some(d) =>
        if !IsDirectory(entries, d) then None
        else if Exists(entries, Step(d, cs[|cs| - 1])) then Some(Step(d, cs[|cs| - 1]))
        else None
  }

  /**
    The lookup behind `Pathname#exist?` and `File.open` on a path string
    as given: "" names nothing, a relative string starts from the working
    directory, and a trailing "/" requires a directory. None is ENOENT or
    ENOTDIR; a path found is always the lexical expansion of the string.
   */
  function Lookup(entries: Entries, cwd: Path, s: string): (r: Option<Path>)
    ensures s == "" ==> r.None?
    ensures r.Some? ==> r.value == Expand(cwd, s) && Exists(entries, r.value)
    ensures r.Some? && s != "" && s[|s| - 1] == '/' ==> IsDirectory(entries, r.value)
  {
    if s == "" then None
    else
      match Walk(entries, if IsAbsolute(s) then [] else cwd, Split(s))
      case None => None
      case Some(p) => if s[|s| - 1] == '/' && !IsDirectory(entries, p) then None else Some(p)
  }

  /** A walk that fails part-way fails, whatever components follow. */
  lemma {:induction false} WalkStopsAtFailure(entries: Entries, base: Path, cs: seq<string>, k: nat)
    requires k <= |cs| && Walk(entries, base, cs[..k]).None?
    ensures Walk(entries, base, cs).None?
    decreases |cs| - k
  {
    if k < |cs| {
      var init := cs[..|cs| - 1];
      assert init[..k] == cs[..k];
      WalkStopsAtFailure(entries, base, init, k);
    } else {
      assert cs[..k] == cs;
    }
  }

  /** In a well-formed tree, walking plain names finds exactly the entries that exist. */
  lemma {:induction false} WalkNames(entries: Entries, base: Path, cs: seq<string>)
    requires WellFormed(entries) && AllNames(cs) && cs != []
    ensures Walk(entries, base, cs) == if Exists(entries, base + cs) then Some(base + cs) else None
    decreases |cs|
  {
    var init := cs[..|cs| - 1];
    var q := base + cs;
    assert q == (base + init) + [cs[|cs| - 1]];
    assert q[..|q| - 1] == base + init;
    if init != [] {
      WalkNames(entries, base, init);
    } else {
      assert base + init == base;
    }
  }

  /**
    In a well-formed tree, looking up a string of plain names that does not
    end with "/" is the same as asking whether its expansion exists.
   */
  lemma LookupNames(entries: Entries, cwd: Path, s: string)
    requires WellFormed(entries) && s != "" && s[|s| - 1] != '/' && AllNames(Split(s))
    ensures Lookup(entries, cwd, s) == if Exists(entries, Expand(cwd, s)) then Some(Expand(cwd, s)) else None
  {
    var base := if IsAbsolute(s) then [] else cwd;
    assert Split(s) != [];
    WalkNames(entries, base, Split(s));
    ResolveNames(base, Split(s));
  }

  /** A successful write keeps the tree well formed. */
  lemma WriteKeepsWellFormed(entries: Entries, p: Path, doc: Document)
    requires WellFormed(entries) && WriteError(entries, p).None?
    ensures WellFormed(entries[p := RegularFile(doc)])
  {
  }

  /** In a well-formed tree, every prefix of a directory is a directory. */
  lemma {:induction false} WellFormedAncestors(entries: Entries, d: Path)
    requires WellFormed(entries) && IsDirectory(entries, d)
    ensures forall i :: 0 <= i <= |d| ==> IsDirectory(entries, d[..i])
    decreases |d|
  {
    if d != [] {
      var parent := d[..|d| - 1];
      WellFormedAncestors(entries, parent);
      forall i | 0 <= i <= |d|
        ensures IsDirectory(entries, d[..i])
      {
        if i < |d| {
          assert parent[..i] == d[..i];
        } else {
          assert d[..i] == d;
        }
      }
    }
  }

  /**
    The length of the shortest prefix of `d` that is not a directory: where
    the operating system's walk down to `d` stops. None when every prefix,
    `d` included, is a directory.
   */
  function FirstNonDirectory(entries: Entries, d: Path): (r: Option<nat>)
    ensures r.None? <==> forall i :: 0 <= i <= |d| ==> IsDirectory(entries, d[..i])
    ensures r.Some? ==> 0 < r.value <= |d| && !IsDirectory(entries, d[..r.value])
    ensures r.Some? ==> forall j :: 0 <= j < r.value ==> IsDirectory(entries, d[..j])
    decreases |d|
  {
    if d == [] then None
    else
      var parent := d[..|d| - 1];
      assert forall i :: 0 <= i < |d| ==> parent[..i] == d[..i];
      assert d[..|d|] == d;
      match FirstNonDirectory(entries, parent)
      case Some(i) => Some(i)
      case None => if IsDirectory(entries, d) then None else Some(|d|)
  }

  /**
    Why `File.write` at `p` fails, or None when it succeeds. The walk to the
    parent stops at the first prefix that is not a directory: ENOENT when
    that prefix is missing, ENOTDIR when it is a regular file. Past the walk,
    a directory at `p` itself is EISDIR.
   */
  function WriteError(entries: Entries, p: Path): (r: Option<IoError>)
    ensures r.None? <==> p != [] && (forall i :: 0 <= i < |p| ==> IsDirectory(entries, p[..i])) && !IsDirectory(entries, p)
    ensures r.Some? ==> r.value.path == p
  {
    if p == [] then Some(IsADirectory(p))
    else
      var parent := p[..|p| - 1];
      assert forall i :: 0 <= i < |p| ==> parent[..i] == p[..i];
      match FirstNonDirectory(entries, parent)
      case Some(k) => if Exists(entries, p[..k]) then Some(NotADirectory(p)) else Some(NoSuchFileOrDirectory(p))
      case None => if IsDirectory(entries, p) then Some(IsADirectory(p)) else None
  }

  /**
    Which error a failed write raises: EISDIR when the walk reaches `p` and
    it is a directory; otherwise ENOTDIR or ENOENT, by whether the first
    prefix that is not a directory is a regular file or is missing.
   */
  lemma WriteErrorKinds(entries: Entries, p: Path)
    ensures var r := WriteError(entries, p);
      && (r == Some(IsADirectory(p)) <==> (forall i :: 0 <= i < |p| ==> IsDirectory(entries, p[..i])) && IsDirectory(entries, p))
      && (r == Some(NotADirectory(p)) <==>
            exists i :: 0 < i < |p| && IsRegularFile(entries, p[..i]) && forall j :: 0 <= j < i ==> IsDirectory(entries, p[..j]))
      && (r == Some(NoSuchFileOrDirectory(p)) <==>
            exists i :: 0 < i < |p| && !Exists(entries, p[..i]) && forall j :: 0 <= j < i ==> IsDirectory(entries, p[..j]))
  {
    if p != [] {
      var parent := p[..|p| - 1];
      assert forall i :: 0 <= i < |p| ==> parent[..i] == p[..i];
    }
  }

  /** In a well-formed tree, a write succeeds exactly when the parent is a directory and `p` is not. */
  lemma WriteErrorWellFormed(entries: Entries, p: Path)
    requires WellFormed(entries)
    ensures WriteError(entries, p).None? <==> p != [] && IsDirectory(entries, p[..|p| - 1]) && !IsDirectory(entries, p)
  {
    if p != [] && IsDirectory(entries, p[..|p| - 1]) {
      var parent := p[..|p| - 1];
      WellFormedAncestors(entries, parent);
      assert forall i :: 0 <= i < |p| ==> parent[..i] == p[..i];
    }
  }

  class FileSystem {
    /** `Pathname.pwd`, already expanded. */
    const cwd: Path
    var entries: Entries

    constructor (cwd: Path, entries: Entries)
      requires AllNames(cwd)
      ensures this.cwd == cwd && this.entries == entries
    {
      this.cwd := cwd;
      this.entries := entries;
    }

    /** `File.write(p, text)`: creates or truncates the file at `p`. */
    method Write(p: Path, doc: Document) returns (err: Option<IoError>)
      modifies this
      ensures err == WriteError(old(entries), p)
      ensures err.None? ==> entries == old(entries)[p := RegularFile(doc)]
      ensures err.Some? ==> entries == old(entries)
      ensures WellFormed(old(entries)) ==> WellFormed(entries)
    {
      err := WriteError(entries, p);
      if err.None? {
        if WellFormed(entries) {
          WriteKeepsWellFormed(entries, p, doc);
        }
        entries := entries[p := RegularFile(doc)];
      }
    }
  }
}
