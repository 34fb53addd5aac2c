/**
  The examples of spec/configurizer_spec.rb, replayed on the model: a
  manager for a module whose filename is ".testmod", in a fresh tree of
  directories. The working directory is a parameter, so each example
  holds wherever it is run.
 */
module ConfigurizerScenarios {
  import opened Common
  import opened Paths
  import opened Settings
  import opened Disk
  import opened Configurizer

  const FILENAME := ".testmod"

  const HELLO_AB := Configuration(map["value_a" := "Hello A", "value_b" := "Hello B"])

  /** The block that sets value_a and value_b. */
  function SetHelloAB(c: Configuration): Configuration {
    Configuration(c.settings["value_a" := "Hello A"]["value_b" := "Hello B"])
  }

  /** The directories on the way down to `p`: its ancestors below the root, and `p`. */
  function Directories(p: Path): Entries
    decreases |p|
  {
    if p == [] then map[] else Directories(p[..|p| - 1])[p := Directory]
  }

  /** Every entry of the tree is a directory on the way down to `p`. */
  lemma {:induction false} DirectoriesAlong(p: Path)
    ensures forall q :: q in Directories(p) ==> Directories(p)[q] == Directory && |q| <= |p| && q == p[..|q|]
    decreases |p|
  {
    if p != [] {
      var init := p[..|p| - 1];
      DirectoriesAlong(init);
      forall q | q in Directories(init)
        ensures q == p[..|q|]
      {
        assert init[..|q|] == p[..|q|];
      }
    }
  }

  lemma {:induction false} DirectoriesContain(p: Path, k: nat)
    requires 0 < k <= |p|
    ensures p[..k] in Directories(p) && Directories(p)[p[..k]] == Directory
    decreases |p|
  {
    assert Directories(p) == Directories(p[..|p| - 1])[p := Directory];
    if k < |p| {
      DirectoriesContain(p[..|p| - 1], k);
      assert p[..|p| - 1][..k] == p[..k];
    } else {
      assert p[..k] == p;
    }
  }

  /** The directories on the way down to `p` form a well-formed tree. */
  lemma DirectoriesWellFormed(p: Path)
    ensures WellFormed(Directories(p))
  {
    DirectoriesAlong(p);
    forall q | q in Directories(p) && q != []
      ensures IsDirectory(Directories(p), q[..|q| - 1])
    {
      if |q| > 1 {
        DirectoriesContain(p, |q| - 1);
        assert p[..|q| - 1] == q[..|q| - 1];
      }
    }
  }

  /** A file can be written in the deepest of those directories. */
  lemma WritableBelow(p: Path, name: string)
    ensures WriteError(Directories(p), p + [name]).None?
  {
    var t := p + [name];
    DirectoriesAlong(p);
    DirectoriesWellFormed(p);
    WriteErrorWellFormed(Directories(p), t);
    assert t[..|t| - 1] == p;
    assert IsDirectory(Directories(p), p);
  }

  lemma FilenameIsName()
    ensures IsName(FILENAME)
  {
    assert forall i :: 0 <= i < |FILENAME| ==> FILENAME[i] != '/';
  }

  /** Saving to the name of a directory in pwd writes the filename inside it, and can. */
  lemma SaveIntoDirectory(cwd: Path, d: string, found: Option<Path>, name: string)
    requires IsName(d) && IsName(name)
    ensures SavePath(cwd, Some(d), found, name) == cwd + [d, name]
    ensures WriteError(Directories(cwd + [d]), cwd + [d, name]).None?
  {
    assert !EndsWith(d, "/" + name) by {
      assert |d| < |"/" + name| || d[|d| - |name| - 1] in d;
    }
    SaveToExplicitPath(cwd, found, d, name);
    ExpandJoin(cwd, "", d);
    WritableBelow(cwd + [d], name);
    assert cwd + [d] + [name] == cwd + [d, name];
  }

  /** In a tree of directories only, the ascent finds nothing, wherever it starts. */
  lemma NothingAmongDirectories(p: Path, cwd: Path, name: string)
    ensures Search(Directories(p), cwd, name).None?
  {
  }

  /** Saving to "." writes the filename in the working directory, whatever the ascent found. */
  lemma SaveToDot(cwd: Path, found: Option<Path>, name: string)
    requires IsName(name)
    ensures SavePath(cwd, Some("."), found, name) == cwd + [name]
  {
    assert LastSlash(".") == None;
    assert Split(".") == ["."];
    assert Resolve(cwd, ["."]) == Step(Resolve(cwd, []), ".");
    assert !IsAbsolute(".");
    SaveToExplicitPath(cwd, found, ".", name);
  }

  /** In the tree down to `dir/a/b`, the filename can be written in `dir` unless `a` is that filename. */
  lemma WritableAbove(dir: Path, a: string, b: string, name: string)
    requires a != name
    ensures WriteError(Directories(dir + [a, b]), dir + [name]).None?
  {
    var deep := dir + [a, b];
    var t := dir + [name];
    DirectoriesAlong(deep);
    DirectoriesWellFormed(deep);
    WriteErrorWellFormed(Directories(deep), t);
    assert t[..|t| - 1] == dir == deep[..|dir|];
    if dir != [] {
      DirectoriesContain(deep, |dir|);
    }
    assert deep[..|t|][|dir|] == a;
  }

  /** A file written in `dir` is what the ascent from `dir/a/b` loads. */
  lemma AscentFromBelow(dir: Path, a: string, b: string, name: string, c: Option<Configuration>)
    requires IsName(name)
    ensures Load(Directories(dir + [a, b])[dir + [name] := RegularFile(Dump(c))], dir + [a, b], Ok(name), None) == Loaded(c)
  {
    var deep := dir + [a, b];
    assert deep[..|dir|] == dir;
    DirectoriesAlong(deep);
    AscentLoadsWritten(Directories(deep), deep, name, |dir|, c);
  }

  /** Loading `dir` + "sub" after saving in `dir/sub` reads the directory `dir/sub` itself. */
  lemma LoadDirectoryPath(dir: Path, sub: string, name: string, c: Option<Configuration>, f: Result<string>)
    requires IsName(sub) && IsName(name)
    ensures var inner := dir + [sub];
      Load(Directories(inner)[inner + [name] := RegularFile(Dump(c))], dir, f, Some(sub)) == Failed(Io(IsADirectory(inner)))
  {
    var inner := dir + [sub];
    var after := Directories(inner)[inner + [name] := RegularFile(Dump(c))];
    ExpandJoin(dir, "", sub);
    assert Expand(dir, sub) == inner;
    assert Split(sub) == [sub] by {
      assert LastSlash(sub) == None;
    }
    assert sub[|sub| - 1] in sub;
    DirectoriesWellFormed(inner);
    WritableBelow(inner, name);
    WriteKeepsWellFormed(Directories(inner), inner + [name], Dump(c));
    LookupNames(after, dir, sub);
    assert inner in Directories(inner);
  }

  /** Setting a filename and reading it back gives that filename. */
  method SetsAndRetrievesFilename() returns (r: Result<string>)
    ensures r == Ok(FILENAME)
  {
    var m := new Manager();
    m.SetConfigFilename(Some(FILENAME));
    r := m.ConfigFilename();
  }

  /** Reading the filename before it is set fails. */
  method UnsetFilenameFails() returns (r: Result<string>)
    ensures r == Err(NotConfigured)
  {
    var m := new Manager();
    r := m.ConfigFilename();
  }

  /** configure with a block, no configuration file anywhere: the block fills a fresh configuration. */
  method ConfiguresWithBlock(cwd: Path) returns (c: Option<Configuration>)
    requires AllNames(cwd)
    ensures c == Some(HELLO_AB)
  {
    var fs := new FileSystem(cwd, Directories(cwd));
    var m := new Manager();
    m.SetConfigFilename(Some(FILENAME));
    NothingAmongDirectories(cwd, cwd, FILENAME);
    ConfigureFallsBackToFresh(fs.entries, cwd, FILENAME, Some(SetHelloAB));
    assert SetHelloAB(FRESH) == HELLO_AB;
    var err := m.Configure(fs, Some(SetHelloAB));
    c := m.configuration;
  }

  /** In a fresh tree of directories, save without a path targets the filename in pwd, and can write it. */
  lemma SaveInFreshTree(cwd: Path, name: string)
    requires IsName(name) && AllNames(cwd) && (cwd == [] || cwd[|cwd| - 1] != name)
    ensures SavePath(cwd, None, Search(Directories(cwd), cwd, name), name) == cwd + [name]
    ensures WriteError(Directories(cwd), cwd + [name]).None?
    ensures IsDirectory(Directories(cwd), cwd)
  {
    NothingAmongDirectories(cwd, cwd, name);
    SaveToWorkingDirectory(cwd, name);
    WritableBelow(cwd, name);
  }

  /** save_configuration with no path and no file up the tree writes the filename in pwd and returns its absolute path. */
  method SavesInWorkingDirectory(cwd: Path) returns (r: Result<string>, written: bool)
    requires AllNames(cwd) && (cwd == [] || cwd[|cwd| - 1] != FILENAME)
    ensures r == Ok(Render(cwd + [FILENAME]))
    ensures written
  {
    var fs := new FileSystem(cwd, Directories(cwd));
    var m := new Manager();
    m.SetConfigFilename(Some(FILENAME));
    FilenameIsName();
    assert m.ConfigFilename() == Ok(FILENAME);
    SaveInFreshTree(cwd, FILENAME);
    r := m.SaveConfiguration(fs, None);
    written := IsRegularFile(fs.entries, cwd + [FILENAME]);
  }

  /** save_configuration given an existing directory `d` below pwd writes the filename inside it. */
  method SavesToSpecifiedDirectory(cwd: Path, d: string) returns (r: Result<string>, written: bool)
    requires AllNames(cwd) && IsName(d)
    ensures r == Ok(Render(cwd + [d, FILENAME]))
    ensures written
  {
    var fs := new FileSystem(cwd, Directories(cwd + [d]));
    var m := new Manager();
    m.SetConfigFilename(Some(FILENAME));
    FilenameIsName();
    SaveIntoDirectory(cwd, d, Search(fs.entries, cwd, FILENAME), FILENAME);
    r := m.SaveConfiguration(fs, Some(d));
    written := IsRegularFile(fs.entries, cwd + [d, FILENAME]);
  }

  /** configure with a block in a fresh `cwd`, then save without a path: the file lands in `cwd`. */
  method ConfigureAndSaveWithoutPath(cwd: Path) returns (fs: FileSystem, m: Manager, saved: Result<string>)
    requires AllNames(cwd) && (cwd == [] || cwd[|cwd| - 1] != FILENAME)
    ensures fresh(fs) && fresh(m) && fs.cwd == cwd
    ensures fs.entries == Directories(cwd)[cwd + [FILENAME] := RegularFile(Dump(Some(HELLO_AB)))]
    ensures m.ConfigFilename() == Ok(FILENAME) && m.configuration == Some(HELLO_AB)
  {
    fs := new FileSystem(cwd, Directories(cwd));
    m := new Manager();
    m.SetConfigFilename(Some(FILENAME));
    FilenameIsName();
    NothingAmongDirectories(cwd, cwd, FILENAME);
    ConfigureFallsBackToFresh(fs.entries, cwd, FILENAME, Some(SetHelloAB));
    assert SetHelloAB(FRESH) == HELLO_AB;
    var err := m.Configure(fs, Some(SetHelloAB));
    assert m.configuration == Some(HELLO_AB);

    SaveInFreshTree(cwd, FILENAME);
    saved := m.SaveConfiguration(fs, None);
  }

  /** A file written in a fresh `cwd` is what a path-less load there reads. */
  lemma AscentFromHere(cwd: Path, name: string, c: Option<Configuration>)
    requires IsName(name)
    ensures Load(Directories(cwd)[cwd + [name] := RegularFile(Dump(c))], cwd, Ok(name), None) == Loaded(c)
  {
    assert cwd[..|cwd|] == cwd;
    AscentLoadsWritten(Directories(cwd), cwd, name, |cwd|, c);
  }

  /** configure, save, clear the settings, load: the saved settings come back. */
  method LoadsSavedConfiguration(cwd: Path) returns (loaded: Result<bool>, c: Option<Configuration>)
    requires AllNames(cwd) && (cwd == [] || cwd[|cwd| - 1] != FILENAME)
    ensures loaded == Ok(true) && c == Some(HELLO_AB)
  {
    var fs, m, saved := ConfigureAndSaveWithoutPath(cwd);
    m.configuration := Some(FRESH);
    FilenameIsName();
    AscentFromHere(cwd, FILENAME, Some(HELLO_AB));
    assert Load(fs.entries, fs.cwd, m.ConfigFilename(), None) == Loaded(Some(HELLO_AB));
    loaded := m.LoadConfiguration(fs, None);
    c := m.configuration;
  }

  /** configure with a block in `dir`, below which lie `a` and `a/b`, then save to ".": the file lands in `dir`. */
  method ConfigureAndSaveHere(dir: Path, a: string, b: string) returns (fs: FileSystem, m: Manager, saved: Result<string>)
    requires AllNames(dir) && IsName(a) && IsName(b) && a != FILENAME
    ensures fresh(fs) && fresh(m)
    ensures saved == Ok(Render(dir + [FILENAME]))
    ensures fs.entries == Directories(dir + [a, b])[dir + [FILENAME] := RegularFile(Dump(Some(HELLO_AB)))]
    ensures m.ConfigFilename() == Ok(FILENAME) && m.configuration == Some(HELLO_AB)
  {
    var deep := dir + [a, b];
    fs := new FileSystem(dir, Directories(deep));
    m := new Manager();
    m.SetConfigFilename(Some(FILENAME));
    FilenameIsName();
    NothingAmongDirectories(deep, dir, FILENAME);
    ConfigureFallsBackToFresh(fs.entries, dir, FILENAME, Some(SetHelloAB));
    assert SetHelloAB(FRESH) == HELLO_AB;
    var err := m.Configure(fs, Some(SetHelloAB));
    assert m.configuration == Some(HELLO_AB);

    SaveToDot(dir, Search(fs.entries, dir, FILENAME), FILENAME);
    WritableAbove(dir, a, b, FILENAME);
    saved := m.SaveConfiguration(fs, Some("."));
  }

  /** Saved in "." of `dir`, the file is found and loaded by the ascent from `dir/a/b`. */
  method WalksUpToFindConfiguration(dir: Path, a: string, b: string) returns (loaded: Result<bool>, c: Option<Configuration>)
    requires AllNames(dir) && IsName(a) && IsName(b) && a != FILENAME
    ensures loaded == Ok(true) && c == Some(HELLO_AB)
  {
    var fs, m, saved := ConfigureAndSaveHere(dir, a, b);
    m.configuration := Some(FRESH);
    var below := new FileSystem(dir + [a, b], fs.entries);
    FilenameIsName();
    AscentFromBelow(dir, a, b, FILENAME, Some(HELLO_AB));
    assert Load(below.entries, below.cwd, m.ConfigFilename(), None) == Loaded(Some(HELLO_AB));
    loaded := m.LoadConfiguration(below, None);
    c := m.configuration;
  }

  /** configure with a block in a fresh `cwd`, then save to ".": the file lands in `cwd`. */
  method ConfigureAndSaveInWorkingDirectory(cwd: Path) returns (fs: FileSystem, m: Manager, saved: Result<string>)
    requires AllNames(cwd)
    ensures fresh(fs) && fresh(m)
    ensures saved == Ok(Render(cwd + [FILENAME]))
    ensures fs.entries == Directories(cwd)[cwd + [FILENAME] := RegularFile(Dump(Some(HELLO_AB)))]
    ensures m.cfgFilename == Some(FILENAME) && m.configuration == Some(HELLO_AB)
  {
    fs := new FileSystem(cwd, Directories(cwd));
    m := new Manager();
    m.SetConfigFilename(Some(FILENAME));
    FilenameIsName();
    NothingAmongDirectories(cwd, cwd, FILENAME);
    ConfigureFallsBackToFresh(fs.entries, cwd, FILENAME, Some(SetHelloAB));
    assert SetHelloAB(FRESH) == HELLO_AB;
    var err := m.Configure(fs, Some(SetHelloAB));
    assert m.configuration == Some(HELLO_AB);

    SaveToDot(cwd, Search(fs.entries, cwd, FILENAME), FILENAME);
    WritableBelow(cwd, FILENAME);
    saved := m.SaveConfiguration(fs, Some("."));
  }

  /**
    Saved in "." of `dir/sub`, then loaded from `dir` with the path "sub":
    the path is opened as given, which is the directory, so the load
    raises and the cleared settings stay.
   */
  method LoadingDirectoryPathReadsTheDirectory(dir: Path, sub: string) returns (loaded: Result<bool>, c: Option<Configuration>)
    requires AllNames(dir) && IsName(sub)
    ensures loaded == Err(Io(IsADirectory(dir + [sub]))) && c == Some(FRESH)
  {
    var fs, m, saved := ConfigureAndSaveInWorkingDirectory(dir + [sub]);
    m.configuration := Some(FRESH);
    var outer := new FileSystem(dir, fs.entries);
    FilenameIsName();
    LoadDirectoryPath(dir, sub, FILENAME, Some(HELLO_AB), m.ConfigFilename());
    loaded := m.LoadConfiguration(outer, Some(sub));
    c := m.configuration;
  }
}
