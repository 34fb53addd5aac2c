# Configurizer, modelled in Dafny

Configurizer is a Ruby mixin. It gives a host module one configuration
object, a configuration filename, and operations to find, load and save
that object:

- `config_filename=` / `config_filename` set and read the filename. Reading it raises when it is unset or empty.
- `find_config_path` walks up from the working directory to the root. In each directory it tests `dir + filename` and returns the first one that is a regular file.
- `save_configuration(path = nil)` picks its target in this order: the explicit path, then the file the ascent finds, then the working directory. It appends the filename unless the path string already ends with "/" and the filename. Then it expands the path, writes the YAML dump of the active configuration there, and returns the expanded path.
- `load_configuration(path = nil)` reads the explicit path as given, or else the file the ascent finds. It returns false when there is nothing to read. Otherwise it installs the loaded value and returns true.
- `configure` loads lazily. With no active configuration, it tries a load and installs a fresh configuration when the load finds nothing. Then it hands the active configuration to the block.

The model has these modules:

- `Common`: an `Option` type.
- `Paths`: path strings and absolute paths.
  - An expanded path is the sequence of its components. The root is `[]`.
  - `Split`, `Step`, `Resolve` and `Expand` model `File.expand_path` lexically.
  - `Render` models `Pathname#to_s` of an expanded path.
  - `Join` models `Pathname#+` with one component.
- `Settings`: the configuration as a value (a map of named settings). A YAML document either holds a dumped value or is malformed. `YAML.dump(nil)` is possible, so the dumped value is optional.
- `Disk`: the filesystem.
  - A `FileSystem` object has a fixed working directory and a map of entries (directories and regular files), keyed by expanded path.
  - Its `Write` method updates the map in place, or fails with ENOENT, ENOTDIR or EISDIR. The error is the one the operating system's walk to the parent meets first.
  - `Lookup` is the operating system's lookup of a path string as given, one component at a time. `exist?` and `File.open` use it on the string `load_configuration` receives.
  - `WellFormed` says every entry lies in a directory. `Write` preserves it.
- `Configurizer`: the core.
  - Pure functions state the ascent (`Search`), where save writes (`SavePath`), what a load reads (`Load`) and what configure yields (`Configured`), with lemmas about them.
  - The class `Manager` holds the filename and the active configuration. Its methods are proved against those functions.
- `ConfigurizerScenarios`: the examples from `spec/configurizer_spec.rb`. Each is replayed on the model as a method or lemma whose contract states the expected outcome.

Some behaviour of the code is worth stating outright:

- An explicit path given to `load_configuration` is looked up as given (`lib/configurizer.rb:105-107`). It is not expanded, and no filename is appended.
  - "" is never found, "file/" is not found when file is a regular file, and "missing/../x" is not found.
  - A path naming a directory is opened, and reading it raises EISDIR.
  - The library's own example at `spec/configurizer_spec.rb:138-143` loads "a/deeper/dir" and expects the values saved inside that directory to come back. As written, the code raises EISDIR instead. `ConfigurizerScenarios.LoadingDirectoryPathReadsTheDirectory` states that outcome.
- Without a path and without a file found, load returns false. It does not fall back to the working directory.
- The suffix test is on the path string (`end_with?('/' + filename)`), not on the final component.
  - A bare filename "name" therefore becomes "name/name".
  - When the working directory's own name is the filename, save targets the working directory itself.
- `config_filename = nil` unsets the filename again, so reading it raises.

## Model

| member | source | states |
|---|---|---|
| Paths.LastSlash | lib/configurizer.rb:86 | the index found is a "/" with no "/" after it; None means the string has no "/" |
| Paths.Split | lib/configurizer.rb:86 | the pieces of a path string are non-empty and contain no separator |
| Paths.Below | lib/configurizer.rb:89 | a non-root path renders as an absolute string |
| Paths.Render | lib/configurizer.rb:89 | every expanded path renders as an absolute string |
| Paths.Resolve | lib/configurizer.rb:86 | applying components to a directory of plain names yields plain names only |
| Paths.Step | lib/configurizer.rb:86 | one component applied to a directory: "." stays, a name descends into it, ".." gives the parent (the root stays the root), and plain names stay plain |
| Paths.Expand | lib/configurizer.rb:86 | expansion against a working directory of plain names yields plain names only (no "." or ".." left) |
| Paths.LastSlashBefore | lib/configurizer.rb:82-86 | in a + "/" + t with no "/" in t, the last separator is the one after a |
| Paths.SplitSnoc | lib/configurizer.rb:83-86 | appending "/" and a component appends exactly that component to the split |
| Paths.SplitTrailingSlash | lib/configurizer.rb:83-86 | a trailing "/" adds nothing to the split |
| Paths.SplitBelow | lib/configurizer.rb:86-89 | splitting the separator-prefixed rendering of a path gives its components back |
| Paths.SplitRender | lib/configurizer.rb:86-89 | splitting a rendered path gives its components back |
| Paths.RenderLast | lib/configurizer.rb:82 | a rendered non-root path ends with "/" and its last component |
| Paths.ResolveNames | lib/configurizer.rb:86 | resolving plain names only descends: base + names |
| Paths.ResolveSnoc | lib/configurizer.rb:86 | resolving one more plain name descends into it |
| Paths.ExpandRender | lib/configurizer.rb:86-89 | expanding a rendered path gives the same path, whatever the working directory |
| Paths.ExpandJoin | lib/configurizer.rb:83-86 | expanding `Pathname(s) + name` is the expansion of s with name added |
| Paths.ExpandEndingWith | lib/configurizer.rb:82-86 | a string ending in "/" + name expands to a path whose last component is name |
| Paths.Join | lib/configurizer.rb:83 | `Pathname(s) + name` keeps s as a prefix and, for non-empty s, ends with "/" + name; `Paths.ExpandJoin` gives its expansion |
| Paths.RenderedNames | lib/configurizer.rb:86-89 | the returned path string of a non-root path is non-empty, does not end with "/" and splits into plain names |
| Settings.Parse | lib/configurizer.rb:108 | a document fails to parse exactly when it is malformed |
| Settings.Dump | lib/configurizer.rb:87 | `YAML.dump` of a value parses back to that value |
| Disk.WriteError | lib/configurizer.rb:87 | a write succeeds exactly when every prefix of the target is a directory and the target is not one; the error carries the target |
| Disk.WriteErrorKinds | lib/configurizer.rb:87 | EISDIR exactly when the walk reaches a directory at the target; ENOTDIR or ENOENT exactly when the first prefix that is not a directory is a regular file or is missing |
| Disk.WriteErrorWellFormed | lib/configurizer.rb:87 | in a well-formed tree, a write succeeds exactly when the parent is a directory and the target is not one |
| Disk.FirstNonDirectory | lib/configurizer.rb:87 | where the walk to a directory stops: the shortest prefix that is not a directory, all shorter ones being directories; None exactly when every prefix is a directory |
| Disk.WellFormedAncestors | lib/configurizer.rb:87 | in a well-formed tree, every prefix of a directory is a directory |
| Disk.Exists | lib/configurizer.rb:105 | an expanded path exists exactly when it is a directory or a regular file |
| Disk.IsRegularFile | lib/configurizer.rb:60 | `file?`: a regular file is never a directory |
| Disk.Walk | lib/configurizer.rb:105-107 | a walk that succeeds ends at an existing entry, at the lexical resolution of the components |
| Disk.Lookup | lib/configurizer.rb:105-107 | "" is never found; a path found exists and is the expansion of the string; a string ending in "/" finds only directories |
| Disk.WalkStopsAtFailure | lib/configurizer.rb:105-107 | a lookup that fails at some component (a missing name before "..", a file before "/") fails, whatever follows |
| Disk.WalkNames | lib/configurizer.rb:105-107 | in a well-formed tree, walking plain names finds exactly the entries that exist |
| Disk.LookupNames | lib/configurizer.rb:105-107 | in a well-formed tree, a string of plain names not ending in "/" is found exactly when its expansion exists |
| Disk.WriteKeepsWellFormed | lib/configurizer.rb:87 | a successful write keeps every entry inside a directory |
| Disk.FileSystem.Write | lib/configurizer.rb:87 | on success the file at the path holds the document and nothing else changes; on failure nothing changes |
| Configurizer.Candidate | lib/configurizer.rb:60 | `d + config_filename` for a plain filename is d with the filename added |
| Configurizer.NearestDepth | lib/configurizer.rb:60 | the depth returned holds a regular-file candidate and no deeper one (up to n) does; None exactly when none at depth 0..n does |
| Configurizer.Search | lib/configurizer.rb:59-61 | the result is a regular file; it is the candidate of some ancestor of pwd with no regular-file candidate below it; None exactly when no candidate on the ascent is a regular file |
| Configurizer.SearchFinds | lib/configurizer.rb:59-61 | a regular-file candidate with none below it is exactly what the ascent returns |
| Configurizer.SaveTarget | lib/configurizer.rb:72-80 | without an explicit path the target string is absolute and expands to the found file, or else to pwd |
| Configurizer.WithFilename | lib/configurizer.rb:82-84 | the string is left alone exactly when it already ends with "/" + filename; for a non-empty string the result always ends with it |
| Configurizer.WithFilenameIdempotent | lib/configurizer.rb:82-84 | suffixing twice is suffixing once |
| Configurizer.BareFilenameGetsAppended | lib/configurizer.rb:82-84 | a bare filename still gets "/" + filename appended; the empty string becomes the filename |
| Configurizer.SavePath | lib/configurizer.rb:71-86 | the file save writes is a path of plain names whose last component is the filename |
| Configurizer.SavePathShape | lib/configurizer.rb:71-89 | the file save writes is a non-root path of plain names ending in the filename; the returned string is absolute, ends with "/" + filename and expands back to it |
| Configurizer.SaveToExplicitPath | lib/configurizer.rb:73-86 | an explicit path wins: its expansion plus the filename, or its expansion alone when it already ends with "/" + filename |
| Configurizer.FoundInAncestor | lib/configurizer.rb:73-75 | what the ascent finds is the filename in pwd or an ancestor, with no candidate below it a file |
| Configurizer.SaveToFoundFile | lib/configurizer.rb:73-86 | without a path, the file the ascent found is the one overwritten |
| Configurizer.SaveToWorkingDirectory | lib/configurizer.rb:78-86 | without a path or a found file, save writes the filename in pwd, or pwd itself when pwd's name is the filename |
| Configurizer.ReadAt | lib/configurizer.rb:107-112 | a missing path is NotFound; a value is loaded exactly when the path is a regular file holding a parsable document, and it is that document's value; otherwise EISDIR for a directory or the parse error for a malformed file |
| Configurizer.Load | lib/configurizer.rb:98-112 | a load fails only through the unset filename (without a path), a directory (EISDIR) or a malformed regular file; a loaded value is the content of some regular file |
| Configurizer.LoadNotFound | lib/configurizer.rb:100-105 | a load finds nothing exactly when no path was given and the ascent found nothing, or the lookup of the given path fails; "" is never found |
| Configurizer.LoadExplicitPathAsGiven | lib/configurizer.rb:98-108 | an explicit path is read whatever the filename; when its lookup reaches a directory, the load raises EISDIR |
| Configurizer.SaveThenLoadByReturnedPath | lib/configurizer.rb:71-112 | in a well-formed tree, loading the path save returned gives back the saved configuration |
| Configurizer.LoadWrittenByNames | lib/configurizer.rb:87-112 | in a well-formed tree, a file written at the expansion of a string of plain names is what loading that string reads |
| Configurizer.SaveThenLoadByExplicitPath | lib/configurizer.rb:71-112 | in a well-formed tree, loading the explicit path save was given gives back the saved configuration when that path is made of plain names and already names the file |
| Configurizer.AscentLoadsWritten | lib/configurizer.rb:100-112 | writing the candidate at a depth with no file candidate below makes a path-less load return what was written |
| Configurizer.SaveWithoutPathWritesCandidate | lib/configurizer.rb:73-87 | a path-less save writes the candidate of some ancestor of pwd below which no candidate is a file |
| Configurizer.SaveThenLoadByAscent | lib/configurizer.rb:71-112 | a path-less save followed by a path-less load gives back the saved configuration |
| Configurizer.ConfigureSkipsLoadWhenActive | lib/configurizer.rb:43-50 | with a configuration active, configure succeeds and depends on neither the disk nor the filename |
| Configurizer.ApplySetup | lib/configurizer.rb:49 | the block keeps a configuration present exactly when one was active; without a block nothing changes |
| Configurizer.Configured | lib/configurizer.rb:43-50 | a configured manager stays configured; configure ends with no configuration only when the loaded file held nil |
| Configurizer.ConfigureFallsBackToFresh | lib/configurizer.rb:43-49 | with nothing active and no file on the ascent, the block gets a fresh configuration |
| Configurizer.ConfigureTwice | lib/configurizer.rb:43-50 | after a successful configure, a second one on any disk only runs its block |
| Configurizer.ConfigureFailsOnlyThroughLoad | lib/configurizer.rb:43-50 | with nothing active, configure fails exactly when the filename is unset or the file found cannot be read |
| Configurizer.Manager.constructor | lib/configurizer.rb:8-14 | a host starts with no filename and no configuration |
| Configurizer.Manager.SetConfigFilename | lib/configurizer.rb:22-24 | the filename, or nil, is stored; reading it back gives it, or the error when it is nil or empty |
| Configurizer.Manager.ConfigFilename | lib/configurizer.rb:26-29 | succeeds exactly when the filename is set and non-empty, and then returns it; otherwise the "not set" error |
| Configurizer.Manager.FindConfigPath | lib/configurizer.rb:59-61 | fails exactly when the filename is unset; a result is a regular file; None means no candidate on the ascent is one |
| Configurizer.Manager.SaveConfiguration | lib/configurizer.rb:71-90 | the filename error, or the write at SavePath with the rendered path returned, or the write's error with the disk unchanged |
| Configurizer.Manager.LoadConfiguration | lib/configurizer.rb:98-113 | per Load, with an explicit path looked up as given: an error or false leaves the configuration unchanged; true installs the loaded value |
| Configurizer.Manager.Configure | lib/configurizer.rb:43-50 | the configuration afterwards is the one Configured yields; on a load error it is unchanged and the error is returned |
| ConfigurizerScenarios.SetsAndRetrievesFilename | spec/configurizer_spec.rb:43-46 | ".testmod" set is ".testmod" read |
| ConfigurizerScenarios.UnsetFilenameFails | lib/configurizer.rb:26-29 | reading the filename before it is set raises |
| ConfigurizerScenarios.ConfiguresWithBlock | spec/configurizer_spec.rb:66-74 | configure with the block and no file anywhere yields value_a "Hello A" and value_b "Hello B" |
| ConfigurizerScenarios.SaveInFreshTree | spec/configurizer_spec.rb:79-84 | in a fresh directory, a path-less save targets the filename in pwd and can write it |
| ConfigurizerScenarios.SavesInWorkingDirectory | spec/configurizer_spec.rb:79-84 | save without a path writes ".testmod" in pwd and returns its absolute path |
| ConfigurizerScenarios.SaveIntoDirectory | spec/configurizer_spec.rb:86-92 | saving to a directory name writes the filename inside it, and the write succeeds |
| ConfigurizerScenarios.SavesToSpecifiedDirectory | spec/configurizer_spec.rb:86-92 | save given a directory writes ".testmod" inside it and returns that path |
| ConfigurizerScenarios.LoadsSavedConfiguration | spec/configurizer_spec.rb:97-119 | configure, save, clear, load: the load succeeds and the saved values come back |
| ConfigurizerScenarios.AscentFromHere | spec/configurizer_spec.rb:114 | a file saved in a fresh pwd is what a path-less load there reads |
| ConfigurizerScenarios.ConfigureAndSaveWithoutPath | spec/configurizer_spec.rb:98-104 | configure and a path-less save in a fresh pwd leave the dump of the configured values in pwd |
| ConfigurizerScenarios.SaveToDot | spec/configurizer_spec.rb:128 | saving to "." writes the filename in pwd, whatever the ascent found |
| ConfigurizerScenarios.AscentFromBelow | spec/configurizer_spec.rb:164-169 | a file saved in a directory is what a path-less load two levels below it reads |
| ConfigurizerScenarios.ConfigureAndSaveHere | spec/configurizer_spec.rb:148-154 | configure with a block in a directory, then save to ".": the file lands in that directory and its path is returned |
| ConfigurizerScenarios.WalksUpToFindConfiguration | spec/configurizer_spec.rb:147-171 | saved in "." of a directory, the configuration is loaded by the ascent from two levels below |
| ConfigurizerScenarios.LoadDirectoryPath | spec/configurizer_spec.rb:138-140 | loading the relative path of the directory holding the file finds the directory itself and raises EISDIR |
| ConfigurizerScenarios.ConfigureAndSaveInWorkingDirectory | spec/configurizer_spec.rb:122-128 | configure with a block in a fresh pwd, then save to ".": the file lands in pwd and its path is returned |
| ConfigurizerScenarios.LoadingDirectoryPathReadsTheDirectory | spec/configurizer_spec.rb:121-145 | as written, loading "dir" after saving in dir raises EISDIR and the cleared settings stay, so the expectations at lines 142-143 are not met |

## Left out

- YAML text: a document is either the dumped value or malformed. Serialising values that are not strings, and the YAML of arbitrary objects, is not modelled.
- Loaded values of another type: a file holding YAML that is not a configuration (a number, a list) is not modelled. Such a value would be installed as the configuration.
- Configuration fields: a configuration is a map of named string settings, not an object with accessors. Setting a field to nil is modelled as the setting being absent ("clearing" in the examples installs a configuration with no settings).
- Identity and aliasing: the block receives the configuration as a value and returns the updated one. Ruby mutates the shared object in place, and other holders of that object would see the change.
- `configure`'s return value, the block's result, is not modelled.
- Configurizer.ApplySetup: a nil active configuration (a loaded `YAML.dump(nil)`) is passed through unchanged. In Ruby the block receives nil and typically raises.
- The mixin machinery: `self.included`, `extend` and the singleton `attr_accessor` become the one `Manager` object. As written (`lib/configurizer.rb:8-14`), `class << self` inside `self.included` opens the singleton class of `Configurizer`, not of the host. The `configuration` accessor is therefore defined on `Configurizer` itself. The host's `configure`, `save_configuration` and `load_configuration` call `configuration` on the host, which has no such method. The model follows the evident intent, one configuration per host (`spec/configurizer_spec.rb:72` reads `TestMod.configuration`), and gives each `Manager` its own configuration.
- The `$debug` message on load (console output).
- Real I/O and its timing: the filesystem is a snapshot map. Permissions, symlinks, `Pathname.pwd` resolving symlinks, other processes, and partial writes are not modelled. Opening a directory for reading raises EISDIR when YAML reads it. Other errors (EACCES, ENOSPC) are not modelled.
- Disk.Walk: ".." follows the parent of the entry reached, with no symbolic links.
- Paths.Expand: "~" expansion is not modelled, and ".." is resolved lexically.
- Paths.Join: `Pathname#+` also drops "." components and resolves leading "..". Only the single-name join used here is modelled. The suffix test and the expansion that follow give the same result either way.
- Configurizer.Search: the candidate is tested at its expanded path. `file?` looks the string up component by component, and in a well-formed tree the two agree (`Disk.LookupNames`).
- `lib/configurizer/version.rb` is not part of this model.
