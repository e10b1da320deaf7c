/**
 * The pipeline logic of index.js with its I/O peeled off: the shorthand
 * configuration built from the command-line flags, the module records read
 * from each configured file's first line, and the project name taken from
 * the manifest's repository URL. File contents are passed in as a map from
 * path to text; a path missing from the map is a file that cannot be read.
 */
module Cli {
  import opened Wrappers
  import opened JsStrings
  import opened Templates
  import opened JsArrays

  /** The output key that sends a rendering to standard output. */
  const StdoutKey := "::stdout"

  /** The module name reserved for the generated driver. */
  const ReservedModuleName := "PrivateMain"

  /** The entry function every record renders. */
  const DefaultView := "view"

  predicate NoDuplicates(keys: seq<string>) {
    forall i, j :: 0 <= i < j < |keys| ==> keys[i] != keys[j]
  }

  /**
   * The `files` object of a configuration: its keys in `Object.keys` order
   * and the output path (or `::stdout`) each one maps to.
   */
  datatype Files = Files(keys: seq<string>, outputs: map<string, string>) {
    /** A JavaScript object has each key once, and exactly the listed keys. */
    predicate Valid() {
      NoDuplicates(keys) && outputs.Keys == set k | k in keys
    }
  }

  /** `files[key] = value`: a new key goes to the end of the key order; an existing one keeps its place. */
  function Assign(files: Files, key: string, value: string): (r: Files)
    requires files.Valid()
    ensures r.Valid()
    ensures r.outputs == files.outputs[key := value]
    ensures key in files.keys ==> r.keys == files.keys
    ensures key !in files.keys ==> r.keys == files.keys + [key]
  {
    if key in files.keys then Files(files.keys, files.outputs[key := value])
    else Files(files.keys + [key], files.outputs[key := value])
  }

  /** The command-line flags the pipeline reads: `-f`, `-o` and `-c`. */
  datatype Args = Args(filename: Option<string>, output: Option<string>, config: Option<string>)

  datatype CliError = NoFilename | ConfigLoadFailed(reason: string)

  /**
   * Shorthand mode: a `files` object with the one key `filename`, mapped to
   * the `-o` value, or to `::stdout` when `-o` is absent.
   */
  function ShorthandConfig(filename: string, output: Option<string>): (r: Files)
    ensures r.Valid()
    ensures r.keys == [filename]
    ensures output.None? ==> r.outputs == map[filename := StdoutKey]
    ensures output.Some? ==> r.outputs == map[filename := output.value]
  {
    var outputName := if output.None? then StdoutKey else output.value;
    Assign(Files([], map[]), filename, outputName)
  }

  /**
   * The configuration a run works from. With `-c`, the loaded configuration
   * file (`loaded` is the outcome of loading it); otherwise the shorthand
   * configuration, which needs `-f`.
   */
  function ResolveConfig(args: Args, loaded: Result<Files, string>): (r: Result<Files, CliError>)
    requires loaded.Success? ==> loaded.value.Valid()
    ensures r.Success? ==> r.value.Valid()
    ensures args.config.Some? ==> (r.Success? <==> loaded.Success?)
    ensures args.config.Some? && loaded.Success? ==> r.value == loaded.value
    ensures args.config.None? ==> (r == Failure(NoFilename) <==> args.filename.None?)
    ensures args.config.None? && args.filename.Some? ==>
      r.Success? && r.value.keys == [args.filename.value]
      && r.value.outputs[args.filename.value] == (if args.output.None? then StdoutKey else args.output.value)
  {
    if args.config.Some? then
      match loaded
      case Success(files) => Success(files)
      case Failure(reason) => Failure(ConfigLoadFailed(reason))
    else if args.filename.None? then Failure(NoFilename)
    else Success(ShorthandConfig(args.filename.value, args.output))
  }

  /** The text before the first line break. */
  function FirstLine(contents: string): (r: string)
    ensures '\n' !in r
    ensures r == contents || (|r| < |contents| && contents[..|r| + 1] == r + "\n")
  {
    match IndexOfChar(contents, '\n')
    case None => contents
    case Some(i) =>
      assert contents[..i + 1] == contents[..i] + "\n";
      contents[..i]
  }

  /** `split('\n')[0]` is the first line. */
  lemma SplitHead(contents: string)
    ensures Split(contents, '\n')[0] == FirstLine(contents)
  {
  }

  /**
   * The module name of a file: the second `' '`-separated token of its first
   * line, trimmed. `None` when the first line holds no space: index.js then
   * calls `trim` on `undefined`, which throws.
   */
  function ModuleNameOf(contents: string): (r: Option<string>)
    ensures r.None? <==> ' ' !in FirstLine(contents)
    ensures r.Some? ==> Trimmed(r.value) && ' ' !in r.value && '\n' !in r.value
  {
    SplitHead(contents);
    var tokens := Split(Split(contents, '\n')[0], ' ');
    if |tokens| < 2 then
      CountAbsentIff(FirstLine(contents), ' ');
      None
    else
      CountAbsentIff(FirstLine(contents), ' ');
      TrimInside(tokens[1], ' ');
      TrimInside(tokens[1], '\n');
      assert '\n' !in tokens[1] by {
        JoinHolds(tokens, [' '], 1, '\n');
      }
      Some(Trim(tokens[1]))
  }

  /** A character absent from `s` is absent from its trimmed form. */
  lemma TrimInside(s: string, c: char)
    requires c !in s
    ensures c !in Trim(s)
  {
    var r := Trim(s);
    var i := LeadingFrom(s, 0);
    TrimSlice(s);
    forall k | 0 <= k < |r| ensures r[k] != c {
      assert r[k] == s[i + k];
    }
  }

  /** A character absent from the joined text is absent from every part. */
  lemma JoinHolds(parts: seq<string>, sep: string, k: nat, c: char)
    requires k < |parts|
    requires c !in Join(parts, sep)
    ensures c !in parts[k]
  {
    if |parts| > 1 {
      if k == 0 {
        assert Join(parts, sep) == parts[0] + sep + Join(parts[1..], sep);
      } else {
        assert Join(parts, sep) == parts[0] + sep + Join(parts[1..], sep);
        JoinHolds(parts[1..], sep, k - 1, c);
      }
    }
  }

  /** The first line of `w + rest`, for a `w` without line breaks, runs on into `rest`. */
  lemma FirstLineAfter(w: string, rest: string)
    requires '\n' !in w
    ensures FirstLine(w + rest) == w + FirstLine(rest)
  {
    IndexOfCharShift(w, rest, '\n');
    if '\n' in rest {
      var j := IndexOfChar(rest, '\n').value;
      assert (w + rest)[..|w| + j] == w + rest[..j];
    }
  }

  /** The module name is the trimmed second space-separated token of the first line. */
  lemma ModuleNameOfTokens(contents: string)
    ensures var tokens := Split(FirstLine(contents), ' ');
      ModuleNameOf(contents) == if |tokens| < 2 then None else Some(Trim(tokens[1]))
  {
    SplitHead(contents);
  }

  /** `<keyword> <name>` and then nothing or a space: `name` is the second token. */
  lemma SecondToken(keyword: string, name: string, tail: string)
    requires ' ' !in keyword && ' ' !in name
    requires tail == [] || tail[0] == ' '
    ensures var tokens := Split(keyword + [' '] + (name + tail), ' ');
      |tokens| >= 2 && tokens[1] == name
  {
    FirstToken(name, tail);
    SplitAfter(keyword, ' ', name + tail);
  }

  /** `<name>` and then nothing or a space: `name` is the first token. */
  lemma FirstToken(name: string, tail: string)
    requires ' ' !in name
    requires tail == [] || tail[0] == ' '
    ensures Split(name + tail, ' ')[0] == name
  {
    if tail == [] {
      assert name + tail == name;
      SplitNone(name, ' ');
    } else {
      assert name + tail == name + [' '] + tail[1..] by {
        assert tail == [tail[0]] + tail[1..];
      }
      SplitAfter(name, ' ', tail[1..]);
    }
  }

  /**
   * For a header `<keyword> <name>` followed by nothing, a space or a line
   * break, the module name is exactly `name` (a trimmed token without spaces
   * or line breaks). Other whitespace may sit between `name` and that end,
   * such as the `\r` of a CRLF line ending: `trim` removes it.
   */
  lemma HeaderModuleName(keyword: string, name: string, w: string, rest: string)
    requires ' ' !in keyword && '\n' !in keyword
    requires ' ' !in name && '\n' !in name && Trimmed(name)
    requires WhitespaceBetween(w, 0, |w|) && ' ' !in w && '\n' !in w
    requires rest == [] || rest[0] == ' ' || rest[0] == '\n'
    ensures ModuleNameOf(keyword + " " + name + w + rest) == Some(name)
  {
    var contents := keyword + " " + name + w + rest;
    FirstLineAfter(keyword + " " + name + w, rest);
    var tail := FirstLine(rest);
    assert tail == [] || tail[0] == ' ';
    var line := keyword + [' '] + (name + w + tail);
    assert FirstLine(contents) == line;
    SecondToken(keyword, name + w, tail);
    ModuleNameOfTokens(contents);
    TrimTrailing(name, w);
  }

  /** A header line ended by CRLF still names its module. */
  lemma CrlfHeaderModuleName(keyword: string, name: string, rest: string)
    requires ' ' !in keyword && '\n' !in keyword
    requires ' ' !in name && '\n' !in name && Trimmed(name)
    ensures ModuleNameOf(keyword + " " + name + "\r\n" + rest) == Some(name)
  {
    assert keyword + " " + name + "\r\n" + rest == keyword + " " + name + "\r" + ("\n" + rest);
    HeaderModuleName(keyword, name, "\r", "\n" + rest);
  }

  /**
   * Only the first line's second token is read: a `port module` header
   * yields the module name `module`.
   */
  lemma PortModuleHeader(name: string, rest: string)
    requires rest == [] || rest[0] == ' ' || rest[0] == '\n'
    ensures ModuleNameOf("port module " + name + rest) == Some("module")
  {
    var w: string := [];
    assert "port module " + name + rest == "port" + " " + "module" + w + (" " + name + rest);
    HeaderModuleName("port", "module", w, " " + name + rest);
  }

  /** Why the module-name pass aborts: a file cannot be read, or its first line holds no space. */
  datatype LoadError = Unreadable(file: string) | NoModuleToken(file: string)

  /** The file can be read and its first line yields a module name (possibly empty or reserved). */
  predicate Loadable(file: string, contents: map<string, string>) {
    file in contents && ModuleNameOf(contents[file]).Some?
  }

  /** A module name index.js keeps: neither empty nor the driver's own. */
  predicate AcceptedName(name: string) {
    name != "" && name != ReservedModuleName
  }

  /** `rec` is the record index.js builds for its file. */
  predicate Describes(rec: ModuleRecord, outputs: map<string, string>, contents: map<string, string>) {
    && rec.filename in outputs && rec.filename in contents
    && ModuleNameOf(contents[rec.filename]) == Some(rec.moduleName)
    && AcceptedName(rec.moduleName)
    && rec.output == outputs[rec.filename]
    && rec.func == DefaultView
  }

  function FileNames(rs: seq<ModuleRecord>): (r: seq<string>)
    ensures |r| == |rs| && forall i :: 0 <= i < |rs| ==> r[i] == rs[i].filename
  {
    if rs == [] then [] else [rs[0].filename] + FileNames(rs[1..])
  }

  /** `xs` is `ys` with some elements left out, the rest in their order. */
  predicate IsSubsequence(xs: seq<string>, ys: seq<string>)
    decreases |ys|
  {
    xs == [] || (ys != [] && ((xs[0] == ys[0] && IsSubsequence(xs[1..], ys[1..])) || IsSubsequence(xs, ys[1..])))
  }

  /** `file` is the first of `keys` that cannot be loaded. */
  predicate FirstUnloadable(file: string, keys: seq<string>, contents: map<string, string>) {
    exists i :: (0 <= i < |keys| && keys[i] == file && !Loadable(keys[i], contents)
      && forall j :: 0 <= j < i ==> Loadable(keys[j], contents))
  }

  /**
   * The `map` callback of `getModuleNames` for one file: read the file, take
   * its module name, and give `null` (here `None`) for an empty name or
   * `PrivateMain`, otherwise the record with the file's output and entry
   * function `view`.
   */
  function LoadRecord(file: string, outputs: map<string, string>, contents: map<string, string>)
    : (r: Result<Option<ModuleRecord>, LoadError>)
    requires file in outputs
    ensures r == Failure(Unreadable(file)) <==> file !in contents
    ensures r.Failure? <==> !Loadable(file, contents)
    ensures r.Failure? ==> r.error.file == file
    ensures r.Success? ==> (r.value.Some? <==> AcceptedName(ModuleNameOf(contents[file]).value))
    ensures r.Success? && r.value.Some? ==> r.value.value.filename == file && Describes(r.value.value, outputs, contents)
  {
    if file !in contents then Failure(Unreadable(file))
    else match ModuleNameOf(contents[file])
      case None => Failure(NoModuleToken(file))
      case Some(moduleName) =>
        if !AcceptedName(moduleName) then Success(None)
        else Success(Some(ModuleRecord(file, moduleName, outputs[file], DefaultView)))
  }

  /** The per-file results, in key order, up to the first file that throws. */
  function LoadAll(keys: seq<string>, outputs: map<string, string>, contents: map<string, string>)
    : Result<seq<Option<ModuleRecord>>, LoadError>
    requires forall i :: 0 <= i < |keys| ==> keys[i] in outputs
  {
    MapUntilThrow(keys, file requires file in outputs => LoadRecord(file, outputs, contents))
  }

  /**
   * `getModuleNames` over the keys of `config.files` and their values: the
   * per-file callback mapped over the keys, then the `null`s filtered out.
   * The pass aborts at the first file that cannot be read or has no second
   * token on its first line; otherwise every file whose module name is
   * neither empty nor `PrivateMain` gives one record.
   */
  function GetModuleNames(keys: seq<string>, outputs: map<string, string>, contents: map<string, string>)
    : (r: Result<seq<ModuleRecord>, LoadError>)
    requires forall i :: 0 <= i < |keys| ==> keys[i] in outputs
    ensures r.Failure? <==> exists i :: 0 <= i < |keys| && !Loadable(keys[i], contents)
    ensures r.Failure? ==> FirstUnloadable(r.error.file, keys, contents)
    ensures r.Success? ==> forall i :: 0 <= i < |r.value| ==> Describes(r.value[i], outputs, contents)
  {
    match LoadAll(keys, outputs, contents)
    case Failure(e) => Failure(e)
    case Success(loaded) => Success(FilterPresent(loaded))
  }

  /** Filtering per-file results that follow `keys` gives records whose files follow `keys`. */
  lemma {:induction false} FilterPresentFiles(loaded: seq<Option<ModuleRecord>>, keys: seq<string>)
    requires |loaded| == |keys|
    requires forall i :: 0 <= i < |keys| && loaded[i].Some? ==> loaded[i].value.filename == keys[i]
    ensures IsSubsequence(FileNames(FilterPresent(loaded)), keys)
  {
    if keys != [] {
      FilterPresentFiles(loaded[1..], keys[1..]);
      var rest := FilterPresent(loaded[1..]);
      if loaded[0].Some? {
        assert FilterPresent(loaded) == [loaded[0].value] + rest;
        assert FileNames([loaded[0].value] + rest)[1..] == FileNames(rest);
      } else {
        assert FilterPresent(loaded) == rest;
      }
    }
  }

  /** The records' files follow the order of the configuration's keys. */
  lemma GetModuleNamesInOrder(keys: seq<string>, outputs: map<string, string>, contents: map<string, string>)
    requires forall i :: 0 <= i < |keys| ==> keys[i] in outputs
    ensures var r := GetModuleNames(keys, outputs, contents);
      r.Success? ==> IsSubsequence(FileNames(r.value), keys)
  {
    var all := LoadAll(keys, outputs, contents);
    if all.Success? {
      FilterPresentFiles(all.value, keys);
    }
  }

  /** With distinct keys, a key names a filtered record exactly when its own result is present. */
  lemma FilterPresentHas(loaded: seq<Option<ModuleRecord>>, keys: seq<string>, i: nat)
    requires |loaded| == |keys| && NoDuplicates(keys) && i < |keys|
    requires forall i :: 0 <= i < |keys| && loaded[i].Some? ==> loaded[i].value.filename == keys[i]
    ensures keys[i] in FileNames(FilterPresent(loaded)) <==> loaded[i].Some?
  {
    var records := FilterPresent(loaded);
    var names := FileNames(records);
    if keys[i] in names {
      var p :| 0 <= p < |names| && names[p] == keys[i];
      var q :| 0 <= q < |loaded| && loaded[q] == Some(records[p]);
      assert q == i;
    }
    if loaded[i].Some? {
      var rec := loaded[i].value;
      var p :| 0 <= p < |records| && records[p] == rec;
      assert names[p] == keys[i];
    }
  }

  /**
   * On success every configured file was loadable, and a file has a record
   * exactly when its module name is kept (neither empty nor `PrivateMain`).
   */
  lemma GetModuleNamesKeeps(keys: seq<string>, outputs: map<string, string>, contents: map<string, string>, i: nat)
    requires NoDuplicates(keys) && forall i :: 0 <= i < |keys| ==> keys[i] in outputs
    requires i < |keys|
    ensures var r := GetModuleNames(keys, outputs, contents);
      r.Success? ==> (Loadable(keys[i], contents)
        && (keys[i] in FileNames(r.value) <==> AcceptedName(ModuleNameOf(contents[keys[i]]).value)))
  {
    var all := LoadAll(keys, outputs, contents);
    if all.Success? {
      FilterPresentHas(all.value, keys, i);
    }
  }

  /**
   * Shorthand mode end to end: one readable file whose module name is kept
   * gives the one record with output `::stdout` (no `-o`) and entry `view`.
   */
  lemma ShorthandRecords(filename: string, contents: string, name: string)
    requires ModuleNameOf(contents) == Some(name) && AcceptedName(name)
    ensures var files := ShorthandConfig(filename, None);
      GetModuleNames(files.keys, files.outputs, map[filename := contents])
        == Success([ModuleRecord(filename, name, StdoutKey, DefaultView)])
  {
    var files := ShorthandConfig(filename, None);
    var store := map[filename := contents];
    var rec := ModuleRecord(filename, name, StdoutKey, DefaultView);
    assert files.keys == [filename] && files.outputs[filename] == StdoutKey;
    assert LoadRecord(filename, files.outputs, store) == Success(Some(rec));
    var all := LoadAll(files.keys, files.outputs, store);
    assert all.Success? && |all.value| == 1;
    assert all.value[0] == Some(rec);
    assert all.value == [Some(rec)];
    FilterPresentSome(rec);
  }

  /**
   * The `user/project` part of the manifest's repository URL: the first
   * `https://github.com/` removed, then the first `.git` removed, then the
   * first `/` replaced by `$`.
   */
  function ProjectName(repository: string): (r: string)
    ensures |r| <= |repository|
  {
    ReplaceFirst(ReplaceFirst(ReplaceFirst(repository, "https://github.com/", ""), ".git", ""), "/", "$")
  }

  /** Removing the first `.git` from `w + ".git"`, where `w` holds none, removes the suffix. */
  lemma StripGitSuffix(w: string)
    requires IndexOf(w, ".git").None?
    ensures ReplaceFirst(w + ".git", ".git", "") == w
  {
    var s := w + ".git";
    assert OccursAt(s, ".git", |w|);
    forall j: nat | j < |w| ensures !OccursAt(s, ".git", j) {
      if j + 4 <= |w| {
        assert s[j..j + 4] == w[j..j + 4];
        assert !OccursAt(w, ".git", j);
      } else if j + 4 <= |s| {
        assert s[j..j + 4][|w| - j] == s[|w|] == '.';
      }
    }
    assert s[..|w|] == w;
    assert s[|w| + 4..] == [];
  }

  /**
   * For a GitHub URL `https://github.com/<user>/<project>` with or without
   * `.git`, where the user holds no `/` and `<user>/<project>` no `.git`,
   * the project name is `<user>$<project>`.
   */
  lemma ProjectNameOfGithubUrl(user: string, project: string, suffix: string)
    requires '/' !in user
    requires IndexOf(user + "/" + project, ".git").None?
    requires suffix == "" || suffix == ".git"
    ensures ProjectName("https://github.com/" + user + "/" + project + suffix) == user + "$" + project
  {
    var host := "https://github.com/";
    var w := user + "/" + project;
    assert host + user + "/" + project + suffix == host + (w + suffix);
    StripHost(host, w + suffix);
    StripGit(w, suffix);
    assert w == user + ['/'] + project;
    ReplaceFirstCharAfter(user, '/', '$', project);
  }

  /** Removing the host prefix. */
  lemma StripHost(host: string, w: string)
    ensures ReplaceFirst(host + w, host, "") == w
  {
    ReplaceFirstPrefix(host, w, "");
    assert "" + w == w;
  }

  /** Removing the first `.git` from `w` or `w + ".git"`, where `w` holds none, gives `w`. */
  lemma StripGit(w: string, suffix: string)
    requires IndexOf(w, ".git").None?
    requires suffix == "" || suffix == ".git"
    ensures ReplaceFirst(w + suffix, ".git", "") == w
  {
    if suffix == ".git" {
      StripGitSuffix(w);
    } else {
      assert w + suffix == w;
    }
  }

  /** Text without a `.` holds no `.git`. */
  lemma NoDotNoGit(s: string)
    requires '.' !in s
    ensures IndexOf(s, ".git").None?
  {
    forall j: nat ensures !OccursAt(s, ".git", j) {
      if j + 4 <= |s| {
        assert s[j..j + 4][0] == s[j];
      }
    }
  }

  /** The repository of the shim counterexample. */
  const SampleRepository := "https://github.com/some-user/elm-app.git"

  /**
   * End to end: the manifest repository `some-user/elm-app` gives the
   * project name `some-user$elm-app`, and the shim's global for it still
   * holds a `-`.
   */
  lemma SampleRepositoryShim()
    ensures ProjectName(SampleRepository) == SampleProjectName
    ensures '-' in NativeGlobal(ReplaceFirst(ProjectName(SampleRepository), "-", "_"))
  {
    var user, project := "some-user", "elm-app";
    assert SampleRepository == "https://github.com/" + user + "/" + project + ".git";
    assert SampleProjectName == user + "$" + project;
    NoDotNoGit(user + "/" + project);
    ProjectNameOfGithubUrl(user, project, ".git");
    NativeNameCounterexample();
  }
}
