/**
  The configuration manager a host module mixes in: the configuration
  filename, the upward search for the configuration file, and the load,
  save and configure operations on the active configuration.

  The pure parts (the ascent, save-path resolution, the outcome of a load
  or a configure) are functions; the manager itself is a class whose
  methods update the active configuration and the filesystem and are
  proved against those functions.
 */
module Configurizer {
  import opened Common
  import opened Paths
  import opened Settings
  import opened Disk

  datatype Error =
    | NotConfigured                 // "config_filename not set!"
    | Io(cause: IoError)            // an Errno raised by the filesystem
    | MalformedFile(path: Path)     // YAML.load could not parse the file

  datatype Result<+T> = Ok(value: T) | Err(error: Error)

  // ---------------------------------------------------------------------
  // The upward search (find_config_path)
  // ---------------------------------------------------------------------

  /** `dir + filename`: the path the ascent tests in directory `dir`. */
  function Candidate(dir: Path, name: string): (r: Path)
    ensures IsName(name) ==> r == dir + [name]
  {
    assert IsName(name) ==> Expand(dir, name) == dir + [name] by {
      if IsName(name) {
        ExpandJoin(dir, "", name);
      }
    }
    Expand(dir, name)
  }

  /**
    The depth of the nearest directory among `cwd[..n]`, its parent, ...,
    the root, in which the candidate is a regular file.
   */
  function NearestDepth(entries: Entries, cwd: Path, name: string, n: nat): (r: Option<nat>)
    requires n <= |cwd|
    ensures r.Some? ==> r.value <= n && IsRegularFile(entries, Candidate(cwd[..r.value], name))
    ensures r.Some? ==> forall j :: r.value < j <= n ==> !IsRegularFile(entries, Candidate(cwd[..j], name))
    ensures r.None? <==> forall j :: 0 <= j <= n ==> !IsRegularFile(entries, Candidate(cwd[..j], name))
    decreases n
  {
    if IsRegularFile(entries, Candidate(cwd[..n], name)) then Some(n)
    else if n == 0 then None
    else NearestDepth(entries, cwd, name, n - 1)
  }

  /**
    The ascent from the working directory to the root: the first candidate
    that is a regular file, nearest to the working directory, or None.
   */
  function Search(entries: Entries, cwd: Path, name: string): (r: Option<Path>)
    ensures r.Some? ==> IsRegularFile(entries, r.value)
    ensures r.Some? ==>
      exists k :: 0 <= k <= |cwd| && r.value == Candidate(cwd[..k], name) &&
        forall j :: k < j <= |cwd| ==> !IsRegularFile(entries, Candidate(cwd[..j], name))
    ensures r.None? <==> forall j :: 0 <= j <= |cwd| ==> !IsRegularFile(entries, Candidate(cwd[..j], name))
  {
    match NearestDepth(entries, cwd, name, |cwd|)
    case None => None
    case Some(k) => Some(Candidate(cwd[..k], name))
  }

  /** A file at depth `k` with none below it is the one the ascent returns. */
  lemma SearchFinds(entries: Entries, cwd: Path, name: string, k: nat)
    requires k <= |cwd| && IsRegularFile(entries, Candidate(cwd[..k], name))
    requires forall j :: k < j <= |cwd| ==> !IsRegularFile(entries, Candidate(cwd[..j], name))
    ensures Search(entries, cwd, name) == Some(Candidate(cwd[..k], name))
  {
    var d := NearestDepth(entries, cwd, name, |cwd|);
    assert d.Some?;
    assert IsRegularFile(entries, Candidate(cwd[..d.value], name));
  }

  // ---------------------------------------------------------------------
  // Where save_configuration writes
  // ---------------------------------------------------------------------

  /** The path string save starts from: the explicit path, else the search result, else pwd. */
  function SaveTarget(path: Option<string>, found: Option<Path>, cwd: Path): (r: string)
    ensures path.None? ==> IsAbsolute(r)
    ensures path.None? && AllNames(cwd) && (found.Some? ==> AllNames(found.value)) ==>
      Expand(cwd, r) == if found.Some? then found.value else cwd
  {
    assert AllNames(cwd) ==> Expand(cwd, Render(cwd)) == cwd by {
      if AllNames(cwd) {
        ExpandRender(cwd, cwd);
      }
    }
    assert found.Some? && AllNames(found.value) ==> Expand(cwd, Render(found.value)) == found.value by {
      if found.Some? && AllNames(found.value) {
        ExpandRender(cwd, found.value);
      }
    }
    if path.Some? then path.value
    else if found.Some? then Render(found.value)
    else Render(cwd)
  }

  /** The filename appended unless the path string already ends with "/" and the filename. */
  function WithFilename(s: string, name: string): (r: string)
    ensures name != "" ==> (r == s <==> EndsWith(s, "/" + name))
    ensures s != "" ==> EndsWith(r, "/" + name)
  {
    if EndsWith(s, "/" + name) then s else Join(s, name)
  }

  /** The file save writes: the target, with the filename appended, expanded. */
  function SavePath(cwd: Path, path: Option<string>, found: Option<Path>, name: string): (r: Path)
    ensures AllNames(cwd) ==> AllNames(r)
    ensures IsName(name) ==> r != [] && r[|r| - 1] == name
  {
    var s := SaveTarget(path, found, cwd);
    assert IsName(name) ==> var e := Expand(cwd, WithFilename(s, name)); e != [] && e[|e| - 1] == name by {
      if IsName(name) {
        if s == "" {
          ExpandJoin(cwd, s, name);
        } else {
          ExpandEndingWith(cwd, WithFilename(s, name), name);
        }
      }
    }
    Expand(cwd, WithFilename(s, name))
  }

  /** The test is on the string: a path that already ends that way is left alone, so appending is idempotent on non-empty paths. */
  lemma WithFilenameIdempotent(s: string, name: string)
    requires s != ""
    ensures WithFilename(WithFilename(s, name), name) == WithFilename(s, name)
  {
  }

  /** A bare filename is not recognised as naming the file: it gets the filename appended too. */
  lemma BareFilenameGetsAppended(name: string)
    requires IsName(name)
    ensures WithFilename(name, name) == name + "/" + name
    ensures WithFilename("", name) == name
  {
    assert name[|name| - 1] != '/' by {
      assert name[|name| - 1] in name;
    }
  }

  /**
    The path save writes and returns is absolute, ends with "/" and the
    filename, and expanding the returned string leads back to it.
   */
  lemma {:induction false} SavePathShape(entries: Entries, cwd: Path, path: Option<string>, name: string)
    requires IsName(name) && AllNames(cwd)
    ensures var t := SavePath(cwd, path, Search(entries, cwd, name), name);
      t != [] && t[|t| - 1] == name && AllNames(t) &&
      IsAbsolute(Render(t)) && EndsWith(Render(t), "/" + name) && Expand(cwd, Render(t)) == t
  {
    var s := SaveTarget(path, Search(entries, cwd, name), cwd);
    var t := SavePath(cwd, path, Search(entries, cwd, name), name);
    if s == "" {
      ExpandJoin(cwd, s, name);
    } else {
      ExpandEndingWith(cwd, WithFilename(s, name), name);
    }
    ExpandRender(cwd, t);
    RenderLast(t);
  }

  /** An explicit path is used first: the file inside it, unless the string already ends with "/" and the filename. */
  lemma SaveToExplicitPath(cwd: Path, found: Option<Path>, p: string, name: string)
    requires IsName(name)
    ensures !EndsWith(p, "/" + name) ==> SavePath(cwd, Some(p), found, name) == Expand(cwd, p) + [name]
    ensures EndsWith(p, "/" + name) ==> SavePath(cwd, Some(p), found, name) == Expand(cwd, p)
  {
    if !EndsWith(p, "/" + name) {
      ExpandJoin(cwd, p, name);
    }
  }

  /** What the ascent finds is the filename in pwd or one of its ancestors. */
  lemma FoundInAncestor(entries: Entries, cwd: Path, name: string) returns (k: nat)
    requires IsName(name) && AllNames(cwd) && Search(entries, cwd, name).Some?
    ensures k <= |cwd| && Search(entries, cwd, name).value == cwd[..k] + [name]
    ensures AllNames(Search(entries, cwd, name).value)
    ensures forall j :: k < j <= |cwd| ==> !IsRegularFile(entries, Candidate(cwd[..j], name))
  {
    var h := Search(entries, cwd, name).value;
    k :| 0 <= k <= |cwd| && h == Candidate(cwd[..k], name) &&
      forall j :: k < j <= |cwd| ==> !IsRegularFile(entries, Candidate(cwd[..j], name));
    forall i | 0 <= i < |h|
      ensures IsName(h[i])
    {
      if i < k {
        assert h[i] == cwd[i];
      }
    }
  }

  /** Without an explicit path, the file the ascent found is the one overwritten. */
  lemma SaveToFoundFile(entries: Entries, cwd: Path, name: string)
    requires IsName(name) && AllNames(cwd) && Search(entries, cwd, name).Some?
    ensures SavePath(cwd, None, Search(entries, cwd, name), name) == Search(entries, cwd, name).value
  {
    var h := Search(entries, cwd, name).value;
    var k := FoundInAncestor(entries, cwd, name);
    ExpandRender(cwd, h);
    RenderLast(h);
  }

  /**
    Without an explicit path or a file found, save writes the filename in
    pwd -- or pwd itself when pwd's own name is the filename, since the
    test is on the string.
   */
  lemma SaveToWorkingDirectory(cwd: Path, name: string)
    requires IsName(name) && AllNames(cwd)
    ensures SavePath(cwd, None, None, name) == if cwd != [] && cwd[|cwd| - 1] == name then cwd else cwd + [name]
  {
    var s := Render(cwd);
    ExpandRender(cwd, cwd);
    if cwd != [] {
      RenderLast(cwd);
    }
    if !(cwd != [] && cwd[|cwd| - 1] == name) {
      assert !EndsWith(s, "/" + name) by {
        if EndsWith(s, "/" + name) {
          ExpandEndingWith(cwd, s, name);
        }
      }
      ExpandJoin(cwd, s, name);
    }
  }

  // ---------------------------------------------------------------------
  // What load_configuration reads
  // ---------------------------------------------------------------------

  datatype LoadOutcome = Failed(error: Error) | NotFound | Loaded(value: Option<Configuration>)

  /** Reading the file at `p`: absent, a directory (EISDIR on read), unparsable, or its value. */
  function ReadAt(entries: Entries, p: Path): (r: LoadOutcome)
    ensures r.NotFound? <==> !Exists(entries, p)
    ensures r.Loaded? <==> IsRegularFile(entries, p) && entries[p].content.Dumped?
    ensures r.Loaded? ==> entries[p] == RegularFile(Dumped(r.value))
    ensures r.Failed? ==>
      (r.error == Io(IsADirectory(p)) && IsDirectory(entries, p)) ||
      (r.error == MalformedFile(p) && IsRegularFile(entries, p) && entries[p].content.Malformed?)
  {
    if !Exists(entries, p) then NotFound
    else if IsDirectory(entries, p) then Failed(Io(IsADirectory(p)))
    else
      match Parse(entries[p].content)
      case None => Failed(MalformedFile(p))
      case Some(v) => Loaded(v)
  }

  /**
    load_configuration: an explicit path is looked up as given (nothing is
    appended, the filename is not consulted); without one, the ascent
    decides. A path that is not there is NotFound.
   */
  function Load(entries: Entries, cwd: Path, filename: Result<string>, path: Option<string>): (r: LoadOutcome)
    ensures r.Failed? ==>
      (path.None? && filename.Err? && r.error == filename.error) ||
      (r.error.Io? && r.error.cause.IsADirectory? && IsDirectory(entries, r.error.cause.path)) ||
      (r.error.MalformedFile? && IsRegularFile(entries, r.error.path) && entries[r.error.path].content.Malformed?)
    ensures r.Loaded? ==> exists p :: IsRegularFile(entries, p) && entries[p] == RegularFile(Dumped(r.value))
  {
    if path.Some? then
      match Lookup(entries, cwd, path.value)
      case None => NotFound
      case Some(p) => ReadAt(entries, p)
    else
      match filename
      case Err(e) => Failed(e)
      case Ok(name) =>
        match Search(entries, cwd, name)
        case None => NotFound
        case Some(h) => ReadAt(entries, h)
  }

  /**
    A load finds nothing exactly when no path was given and the ascent
    found nothing, or the lookup of the given path fails; in particular
    the empty path is never found.
   */
  lemma LoadNotFound(entries: Entries, cwd: Path, filename: Result<string>, path: Option<string>)
    ensures Load(entries, cwd, filename, path).NotFound? <==>
      (path.None? && filename.Ok? && Search(entries, cwd, filename.value).None?) ||
      (path.Some? && Lookup(entries, cwd, path.value).None?)
    ensures Load(entries, cwd, filename, Some("")) == NotFound
  {
  }

  /** An explicit path is read as given whatever the filename, even when it names a directory holding the file. */
  lemma LoadExplicitPathAsGiven(entries: Entries, cwd: Path, f1: Result<string>, f2: Result<string>, p: string)
    ensures Load(entries, cwd, f1, Some(p)) == Load(entries, cwd, f2, Some(p))
    ensures Lookup(entries, cwd, p).Some? && IsDirectory(entries, Expand(cwd, p)) ==>
      Load(entries, cwd, f1, Some(p)) == Failed(Io(IsADirectory(Expand(cwd, p))))
  {
  }

  /** A file written at the expansion of a string of plain names is what loading that string reads. */
  lemma LoadWrittenByNames(entries: Entries, cwd: Path, s: string, t: Path, f: Result<string>, c: Option<Configuration>)
    requires WellFormed(entries) && WriteError(entries, t).None?
    requires s != "" && s[|s| - 1] != '/' && AllNames(Split(s)) && Expand(cwd, s) == t
    ensures Load(entries[t := RegularFile(Dump(c))], cwd, f, Some(s)) == Loaded(c)
  {
    var after := entries[t := RegularFile(Dump(c))];
    WriteKeepsWellFormed(entries, t, Dump(c));
    LookupNames(after, cwd, s);
    assert ReadAt(after, t) == Loaded(c);
  }

  /** Loading from the path save returned gives back the saved value. */
  lemma SaveThenLoadByReturnedPath(entries: Entries, cwd: Path, path: Option<string>, name: string, c: Option<Configuration>)
    requires IsName(name) && AllNames(cwd) && WellFormed(entries)
    requires WriteError(entries, SavePath(cwd, path, Search(entries, cwd, name), name)).None?
    ensures var t := SavePath(cwd, path, Search(entries, cwd, name), name);
      Load(entries[t := RegularFile(Dump(c))], cwd, Ok(name), Some(Render(t))) == Loaded(c)
  {
    var t := SavePath(cwd, path, Search(entries, cwd, name), name);
    SavePathShape(entries, cwd, path, name);
    RenderedNames(t);
    LoadWrittenByNames(entries, cwd, Render(t), t, Ok(name), c);
  }

  /**
    Loading from the explicit path given to save gives back the saved value
    when that path is made of plain names and already names the file.
   */
  lemma SaveThenLoadByExplicitPath(entries: Entries, cwd: Path, p: string, name: string, c: Option<Configuration>)
    requires IsName(name) && AllNames(cwd) && EndsWith(p, "/" + name) && AllNames(Split(p)) && WellFormed(entries)
    requires WriteError(entries, SavePath(cwd, Some(p), Search(entries, cwd, name), name)).None?
    ensures var t := SavePath(cwd, Some(p), Search(entries, cwd, name), name);
      Load(entries[t := RegularFile(Dump(c))], cwd, Ok(name), Some(p)) == Loaded(c)
  {
    var t := SavePath(cwd, Some(p), Search(entries, cwd, name), name);
    SaveToExplicitPath(cwd, Search(entries, cwd, name), p, name);
    assert p[|p| - 1] == name[|name| - 1] by {
      assert p[|p| - |"/" + name|..] == "/" + name;
    }
    assert name[|name| - 1] in name;
    LoadWrittenByNames(entries, cwd, p, t, Ok(name), c);
  }

  /** Writing the candidate at depth `k`, when no candidate below it is a file, makes the ascent load what was written. */
  lemma AscentLoadsWritten(entries: Entries, cwd: Path, name: string, k: nat, c: Option<Configuration>)
    requires IsName(name) && k <= |cwd|
    requires forall j :: k < j <= |cwd| ==> !IsRegularFile(entries, Candidate(cwd[..j], name))
    ensures Load(entries[cwd[..k] + [name] := RegularFile(Dump(c))], cwd, Ok(name), None) == Loaded(c)
  {
    var t := cwd[..k] + [name];
    var after := entries[t := RegularFile(Dump(c))];
    forall j | k < j <= |cwd|
      ensures !IsRegularFile(after, Candidate(cwd[..j], name))
    {
      assert |Candidate(cwd[..j], name)| != |t|;
    }
    SearchFinds(after, cwd, name, k);
    assert ReadAt(after, t) == Loaded(c);
  }

  /**
    Without a path, save writes the candidate at some depth `k` below which
    no candidate is a file (the one found, else the one in pwd).
   */
  lemma SaveWithoutPathWritesCandidate(entries: Entries, cwd: Path, name: string) returns (k: nat)
    requires IsName(name) && AllNames(cwd) && IsDirectory(entries, cwd)
    requires WriteError(entries, SavePath(cwd, None, Search(entries, cwd, name), name)).None?
    ensures k <= |cwd| && SavePath(cwd, None, Search(entries, cwd, name), name) == cwd[..k] + [name]
    ensures forall j :: k < j <= |cwd| ==> !IsRegularFile(entries, Candidate(cwd[..j], name))
  {
    var found := Search(entries, cwd, name);
    var t := SavePath(cwd, None, found, name);
    if found.Some? {
      k := FoundInAncestor(entries, cwd, name);
      SaveToFoundFile(entries, cwd, name);
    } else {
      k := |cwd|;
      assert cwd[..k] == cwd;
      SaveToWorkingDirectory(cwd, name);
      assert t != cwd;
    }
  }

  /** Saving without a path and then loading without a path finds, by the ascent, the file just written. */
  lemma SaveThenLoadByAscent(entries: Entries, cwd: Path, name: string, c: Option<Configuration>)
    requires IsName(name) && AllNames(cwd) && IsDirectory(entries, cwd)
    requires WriteError(entries, SavePath(cwd, None, Search(entries, cwd, name), name)).None?
    ensures var t := SavePath(cwd, None, Search(entries, cwd, name), name);
      Load(entries[t := RegularFile(Dump(c))], cwd, Ok(name), None) == Loaded(c)
  {
    var k := SaveWithoutPathWritesCandidate(entries, cwd, name);
    AscentLoadsWritten(entries, cwd, name, k, c);
  }

  // ---------------------------------------------------------------------
  // configure
  // ---------------------------------------------------------------------

  /** The callback run on the active configuration; a nil configuration is passed through. */
  function ApplySetup(setup: Option<Configuration -> Configuration>, active: Option<Configuration>): (r: Option<Configuration>)
    ensures r.Some? <==> active.Some?
    ensures setup.None? ==> r == active
  {
    if setup.Some? && active.Some? then Some(setup.value(active.value)) else active
  }

  /**
    configure: with a configuration active, only the callback runs;
    otherwise a load is attempted first, and a fresh configuration is
    installed when it finds nothing. The result is the configuration
    active afterwards, or the error the load raised.
   */
  function Configured(entries: Entries, cwd: Path, filename: Result<string>, current: Option<Configuration>,
                      setup: Option<Configuration -> Configuration>): (r: Result<Option<Configuration>>)
    ensures current.Some? ==> r.Ok? && r.value.Some?
    ensures r.Ok? && r.value.None? ==> current.None? && Load(entries, cwd, filename, None) == Loaded(None)
  {
    if current.Some? then Ok(ApplySetup(setup, current))
    else
      match Load(entries, cwd, filename, None)
      case Failed(e) => Err(e)
      case NotFound => Ok(ApplySetup(setup, Some(FRESH)))
      case Loaded(v) => Ok(ApplySetup(setup, v))
  }

  /** With a configuration active, configure does not look at the disk or the filename at all. */
  lemma ConfigureSkipsLoadWhenActive(e1: Entries, e2: Entries, cwd1: Path, cwd2: Path, f1: Result<string>, f2: Result<string>,
                                     c: Configuration, setup: Option<Configuration -> Configuration>)
    ensures Configured(e1, cwd1, f1, Some(c), setup) == Configured(e2, cwd2, f2, Some(c), setup)
    ensures Configured(e1, cwd1, f1, Some(c), setup).Ok?
  {
  }

  /** With nothing active and no file up the tree, configure installs a fresh configuration and hands it to the callback. */
  lemma ConfigureFallsBackToFresh(entries: Entries, cwd: Path, name: string, setup: Option<Configuration -> Configuration>)
    requires Search(entries, cwd, name).None?
    ensures Configured(entries, cwd, Ok(name), None, setup) == Ok(ApplySetup(setup, Some(FRESH)))
  {
  }

  /** Configuring twice reads the disk at most once: the second call, on any disk, only runs its callback. */
  lemma ConfigureTwice(e1: Entries, e2: Entries, cwd: Path, filename: Result<string>, current: Option<Configuration>,
                       s1: Option<Configuration -> Configuration>, s2: Option<Configuration -> Configuration>)
    requires Configured(e1, cwd, filename, current, s1).Ok?
    requires Configured(e1, cwd, filename, current, s1).value.Some?
    ensures var first := Configured(e1, cwd, filename, current, s1).value;
      Configured(e2, cwd, filename, first, s2) == Ok(ApplySetup(s2, first))
  {
  }

  /** Without an active configuration, configure fails exactly when the filename is unset or the file found cannot be read. */
  lemma ConfigureFailsOnlyThroughLoad(entries: Entries, cwd: Path, filename: Result<string>,
                                      setup: Option<Configuration -> Configuration>)
    ensures Configured(entries, cwd, filename, None, setup).Err? <==>
      (filename.Err? ||
       (Search(entries, cwd, filename.value).Some? &&
        !ReadAt(entries, Search(entries, cwd, filename.value).value).Loaded?))
  {
  }

  // ---------------------------------------------------------------------
  // The manager
  // ---------------------------------------------------------------------

  /** The state a host module gains by including Configurizer: the filename and the active configuration. */
  class Manager {
    var cfgFilename: Option<string>
    var configuration: Option<Configuration>

    constructor ()
      ensures cfgFilename == None && configuration == None
    {
      cfgFilename := None;
      configuration := None;
    }

    /** config_filename= */
    method SetConfigFilename(filename: Option<string>)
      modifies this`cfgFilename
      ensures cfgFilename == filename
      ensures ConfigFilename() == if filename.None? || filename.value == "" then Err(NotConfigured) else Ok(filename.value)
    {
      cfgFilename := filename;
    }

    /** config_filename: raises when the filename is unset or empty. */
    function ConfigFilename(): (r: Result<string>)
      reads this
      ensures r.Ok? <==> cfgFilename.Some? && cfgFilename.value != ""
      ensures r.Ok? ==> r.value == cfgFilename.value
      ensures r.Err? ==> r.error == NotConfigured
    {
      if cfgFilename.None? || cfgFilename.value == "" then Err(NotConfigured)
      else Ok(cfgFilename.value)
    }

    /** find_config_path */
    function FindConfigPath(fs: FileSystem): (r: Result<Option<Path>>)
      reads this, fs
      ensures r.Err? <==> ConfigFilename().Err?
      ensures r.Ok? && r.value.Some? ==> IsRegularFile(fs.entries, r.value.value)
      ensures r.Ok? && r.value.None? ==>
        forall j :: 0 <= j <= |fs.cwd| ==> !IsRegularFile(fs.entries, Candidate(fs.cwd[..j], ConfigFilename().value))
    {
      match ConfigFilename()
      case Err(e) => Err(e)
      case Ok(name) => Ok(Search(fs.entries, fs.cwd, name))
    }

    /** save_configuration: writes the active configuration and returns the path written. */
    method SaveConfiguration(fs: FileSystem, path: Option<string>) returns (r: Result<string>)
      modifies fs
      ensures ConfigFilename().Err? ==> r == Err(NotConfigured) && fs.entries == old(fs.entries)
      ensures ConfigFilename().Ok? ==>
        var name := ConfigFilename().value;
        var target := SavePath(fs.cwd, path, Search(old(fs.entries), fs.cwd, name), name);
        var failure := WriteError(old(fs.entries), target);
        && (failure.None? ==>
              r == Ok(Render(target)) && fs.entries == old(fs.entries)[target := RegularFile(Dump(configuration))])
        && (failure.Some? ==> r == Err(Io(failure.value)) && fs.entries == old(fs.entries))
    {
      var target := path;
      if target.None? {
        var found := FindConfigPath(fs);
        if found.Err? {
          return Err(found.error);
        }
        if found.value.Some? {
          target := Some(Render(found.value.value));
        }
      }
      if target.None? {
        target := Some(Render(fs.cwd));
      }
      var filename := ConfigFilename();
      if filename.Err? {
        return Err(filename.error);
      }
      var p := target.value;
      if !EndsWith(p, "/" + filename.value) {
        p := Join(p, filename.value);
      }
      var full := Expand(fs.cwd, p);
      var failure := fs.Write(full, Dump(configuration));
      if failure.Some? {
        return Err(Io(failure.value));
      }
      r := Ok(Render(full));
    }

    /** load_configuration: true and the loaded value installed, or false and nothing changed. */
    method LoadConfiguration(fs: FileSystem, path: Option<string>) returns (r: Result<bool>)
      modifies this`configuration
      ensures var o := Load(fs.entries, fs.cwd, ConfigFilename(), path);
        && (o.Failed? ==> r == Err(o.error) && configuration == old(configuration))
        && (o.NotFound? ==> r == Ok(false) && configuration == old(configuration))
        && (o.Loaded? ==> r == Ok(true) && configuration == o.value)
    {
      var target: Option<Path>;
      if path.None? {
        var found := FindConfigPath(fs);
        if found.Err? {
          return Err(found.error);
        }
        target := found.value;
      } else {
        target := Lookup(fs.entries, fs.cwd, path.value);
      }
      if target.None? {
        return Ok(false);
      }
      var p := target.value;
      if IsDirectory(fs.entries, p) {
        return Err(Io(IsADirectory(p)));
      }
      match Parse(fs.entries[p].content)
      case None =>
        return Err(MalformedFile(p));
      case Some(v) =>
        configuration := v;
        return Ok(true);
    }

    /** configure: lazy load-or-create, then the callback on the active configuration. */
    method Configure(fs: FileSystem, setup: Option<Configuration -> Configuration>) returns (err: Option<Error>)
      modifies this`configuration
      ensures var o := Configured(fs.entries, fs.cwd, ConfigFilename(), old(configuration), setup);
        && (o.Err? ==> err == Some(o.error) && configuration == old(configuration))
        && (o.Ok? ==> err == None && configuration == o.value)
    {
      if configuration.None? {
        var loaded := LoadConfiguration(fs, None);
        if loaded.Err? {
          return Some(loaded.error);
        }
        if !loaded.value {
          configuration := Some(FRESH);
        }
      }
      if setup.Some? && configuration.Some? {
        configuration := Some(setup.value(configuration.value));
      }
      err := None;
    }
  }
}
