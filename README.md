# elm-static-html, modelled in Dafny

elm-static-html renders Elm views to static HTML. It reads the first line
of each configured Elm file to get the module name. It then generates a
hidden driver module `PrivateMain` that imports every module and sends
`(output, html)` pairs out of a port. It also generates a native shim
`Native.Jsonify`, patches `elm-package.json`, compiles, and routes every
pair either to standard output (`::stdout`) or to a file.

This project models the text generators of `templates.js` and the logic of
`index.js`, with all I/O taken out:

- **`Wrappers`** (`wrappers.dfy`): the `Option` and `Result` types.
- **`JsStrings`** (`jsstrings.dfy`): the JavaScript string built-ins the
  code relies on, with their exact semantics:
  - `split` on one character; `join`;
  - `indexOf`;
  - `replace` with a string pattern, which replaces the FIRST occurrence only;
  - `trim`, over JavaScript's own whitespace set.
- **`JsArrays`** (`jsarrays.dfy`): `map` with a callback that may throw, and
  `filter(x => x != null)`.
- **`Templates`** (`templates.dfy`): `importLines`, `viewFunctions`,
  `generateRendererFile`, `generateNativeModuleString` and `generateConfig`.
  - A multi-line template literal is written as its list of lines joined by
    `"\n"`.
- **`Cli`** (`cli.dfy`):
  - the shorthand configuration built from `-f`/`-o`, and the choice between
    it and `-c`;
  - `getModuleNames`; file contents are a map from path to text, and a path
    missing from the map is a file `readFileSync` cannot read;
  - the project name taken from the manifest's `repository`.
- **`Manifest`** (`manifest.dfy`): the manifest object as a class, with
  `fixElmPackage` as a method that updates it in place. `path.join` is the
  parameter `join`.
- **`Routing`** (`routing.dfy`): the `htmlOut` subscriber as a method on a
  class.
  - Its two fields are the lines passed to `console.log` and the file
    system, a map from path to contents.

Where the documented intent of the tool and its code differ, the model
follows the code:

- **A file whose first line has no space is NOT skipped.**
  - `split(' ')[1]` is then `undefined`, and `.trim()` throws, which aborts
    the whole run (`LoadError.NoModuleToken`).
  - The same is true of a file that cannot be read (`LoadError.Unreadable`).
  - Only an empty name and `PrivateMain` are skipped.
- **The first line is split on a single space, not on any whitespace.**
  - A tab-separated header therefore gives no second token, or the wrong one.
- **Module names are not checked to be identifiers.**
- **Each configuration value is used as the output as it is.** There are no
  `{output, entryFunctionName}` records or lists of them.
  - Every record gets the entry function `view`.
- **Diagnostics are not modelled.** The messages on `console.error`
  disappear from the model.

## Model

| member | source | states |
|---|---|---|
| `JsStrings.Split` | index.js:88 | `split` on one character: exactly one more piece than separators, no piece holds the separator, and joining the pieces with the separator gives the text back |
| `JsStrings.SplitJoin` | index.js:88 | splitting a join of separator-free parts gives exactly those parts back |
| `JsStrings.Join` | templates.js:29-30 | `join` starts with the first part |
| `JsStrings.JoinEndsWithLast` | templates.js:29-30 | `join` ends with the last part |
| `JsStrings.JoinAppend` | templates.js:29-30 | joining two non-empty lists is joining each and putting one separator between them |
| `JsStrings.ReplaceFirst` | index.js:139 | `replace(pat, rep)` returns the text unchanged when `pat` does not occur, and otherwise grows or shrinks by the difference between `rep` and `pat` |
| `JsStrings.ReplaceFirstAt` | index.js:139 | `replace(pat, rep)` rewrites exactly the first occurrence of `pat`: the text before it, then `rep`, then the text after it |
| `JsStrings.ReplaceFirstAbsent` | index.js:139 | `replace(pat, rep)` returns the text unchanged when `pat` does not occur |
| `JsStrings.ReplaceFirstCharCount` | templates.js:3 | replacing the first of a character's occurrences by another character leaves exactly one occurrence fewer |
| `JsStrings.Trim` | index.js:88 | `trim`: the result has no JavaScript whitespace at either end, and is the input itself when the input already had none at either end |
| `JsStrings.TrimTrailing` | index.js:88 | `trim` on trimmed text followed by whitespace gives the trimmed text back |
| `JsStrings.TrimSlice` | index.js:88 | the result of `trim` is the stretch of the input between its leading and its trailing whitespace runs; only whitespace is cut, on both sides |
| `JsArrays.MapUntilThrow` | index.js:85-101 | `map` with a throwing callback: it succeeds exactly when every call succeeds, and then gives each call's result in order; otherwise it fails with the first failing call's error |
| `JsArrays.FilterPresent` | index.js:102-104 | `filter(x => x != null)`: never longer than the input, every kept value was present in the input, and every present value is kept |
| `JsArrays.FilterPresentCounts` | index.js:102-104 | each value is kept exactly as many times as it is present |
| `JsArrays.FilterPresentAppend` | index.js:102-104 | filtering a concatenation is filtering each part, in order |
| `JsArrays.FilterPresentSome` | index.js:102-104 | a present value is kept |
| `JsArrays.FilterPresentNone` | index.js:102-104 | a `null` is dropped |
| `Templates.ImportLines` | templates.js:14-18 | one `import <moduleName>` line per record, same count and order |
| `Templates.ViewFunctions` | templates.js:20-24 | one `("<output>", <moduleName>.<func>)` tuple per record, same count and order |
| `Templates.GenerateRendererFile` | templates.js:28-66 | the driver text always opens with the `port module PrivateMain exposing (..)` line and closes with the `htmlOut` port declaration and a newline |
| `Templates.RendererLayout` | templates.js:28-66 | the driver is the fixed header, the import block and the fixed trailer, separated by newlines; the view list line is the only other part that varies |
| `Templates.ImportBlockLines` | templates.js:29 | read back line by line, the import block is exactly one import line per record, in record order |
| `Templates.EmptyRenderer` | templates.js:28-66 | with no records the generation still succeeds, with an empty import block and the view list `[  ]` |
| `Templates.RendererIgnoresFilename` | templates.js:14-24 | only `moduleName`, `output` and `func` reach the driver; two record lists that agree on those give the same text |
| `Templates.SingleModuleRenderer` | templates.js:14-30 | one record writing to `::stdout` gives one import line and one view tuple `("::stdout", <name>.view)` |
| `Templates.GenerateNativeModuleString` | templates.js:2-11 | the shim declares the global `_<name>$Native_Jsonify`, with the first `-` of the project name turned into `_`, and ends with its one `stringify` member |
| `Templates.ShimLayout` | templates.js:5-8 | a shim for a name without line breaks reads back as exactly four lines: an empty line, the declaration of `_<name>$Native_Jsonify`, the one `stringify` member, and `};` |
| `Templates.NativeModuleLines` | templates.js:2-11 | the shim written for a project name without line breaks is exactly those four lines, around the first-dash name |
| `Templates.NativeNameReplacesFirstDash` | templates.js:3 | exactly one dash fewer when there is a dash: the first one becomes `_` and everything else stays; a name without dashes is unchanged |
| `Templates.ReplaceFirstOfTwoDashes` | templates.js:3 | as written, a name with two dashes keeps the second one |
| `Templates.NativeNameKeepsSecondDash` | templates.js:3 | as written, the declared global still holds a `-` for such a name |
| `Templates.NativeNameCounterexample` | templates.js:3 | for the repository `some-user/elm-app`, the shim name is `some_user$elm-app`, which still holds a `-` |
| `Templates.ElmNativeName` | templates.js:3 | corrected mangling: every `-` becomes `_`, nothing else changes, and no `-` is left |
| `Templates.GenerateNativeModuleStringIntended` | templates.js:2-11 | corrected shim: it declares the global Elm resolves `Native.Jsonify` to, with every `-` mangled |
| `Templates.NativeModuleLinesIntended` | templates.js:2-11 | the corrected shim is the same four lines, around the fully mangled name |
| `Templates.IntendedAgreesUpToOneDash` | templates.js:3 | the written and the corrected mangling agree exactly on names with at most one `-` |
| `Templates.GenerateConfig` | templates.js:69-74 | the template configuration is the three lines of `{ files: {} }` as `JSON.stringify` prints it with an indent of 4 |
| `Cli.Assign` | index.js:80 | assigning a key keeps the files object well formed, updates the map, and appends a new key to the key order |
| `Cli.ShorthandConfig` | index.js:68-80 | shorthand mode gives one key, the `-f` file, mapped to the `-o` value or to `::stdout` when `-o` is absent |
| `Cli.ResolveConfig` | index.js:46-81 | `-c` uses the loaded configuration and fails exactly when loading failed; without `-c`, a missing `-f` is the one error, and otherwise the result is the shorthand configuration |
| `Cli.FirstLine` | index.js:88 | the text up to the first line break, with no line break inside it |
| `Cli.ModuleNameOf` | index.js:88 | there is a name exactly when the first line holds a space; the name is trimmed and holds no space and no line break |
| `Cli.HeaderModuleName` | index.js:88 | for every header `<keyword> <name>` followed by nothing, a space or a line break, with any other whitespace before that end, the name read back is exactly `name` |
| `Cli.CrlfHeaderModuleName` | index.js:88 | a header line ended by `\r\n` still gives exactly `name`, because `trim` removes the `\r` |
| `Cli.PortModuleHeader` | index.js:88 | known fragility: for a `port module X ...` header the name read back is `module` |
| `Cli.LoadRecord` | index.js:85-101 | per file: fails when the file is unreadable or has no second token; otherwise gives `null` exactly for an empty name or `PrivateMain`, and else the record with the file's output and `view` |
| `Cli.GetModuleNames` | index.js:84-107 | fails exactly when some configured file cannot be loaded, naming the first such file in key order; on success every record describes its file correctly |
| `Cli.GetModuleNamesInOrder` | index.js:85-104 | the records' files are a subsequence of the configuration's keys |
| `Cli.GetModuleNamesKeeps` | index.js:90-101 | on success a configured file has a record exactly when its module name is neither empty nor `PrivateMain` |
| `Cli.ShorthandRecords` | index.js:68-107 | shorthand mode on one readable file with a kept name gives exactly one record, with output `::stdout` and function `view` |
| `Cli.ProjectName` | index.js:139 | the project name is never longer than the repository URL: the three replacements remove text or swap one character |
| `Cli.ProjectNameOfGithubUrl` | index.js:139 | for `https://github.com/<user>/<project>`, with or without `.git`, the project name is `<user>$<project>` |
| `Cli.SampleRepositoryShim` | index.js:139 | end to end for the repository `some-user/elm-app.git`: the project name is `some-user$elm-app`, and the shim global built from it still holds a `-` |
| `Manifest.JoinEach` | index.js:116-118 | each source directory is resolved against the working directory, in order |
| `Manifest.FixedSources` | index.js:116-121 | the fixed source directories are the resolved old ones, in order, followed by `.` |
| `Manifest.FixedDependencies` | index.js:122 | the fix adds or overwrites `eeue56/elm-html-in-elm` at `1.0.1 <= v < 2.0.0` and keeps every other dependency |
| `Manifest.FixedDependenciesIdempotent` | index.js:122 | fixing the dependencies twice is the same as fixing them once |
| `Manifest.FixedSourcesTwice` | index.js:116-121 | a second fix resolves the directories again and appends a second `.`, so the directory fix is not idempotent |
| `Manifest.ElmPackage.Fix` | index.js:114-125 | in place: native modules on, fixed source directories, fixed dependencies, repository unchanged |
| `Routing.Sinks.Route` | index.js:187-201 | after routing, the console holds its old lines followed by the `::stdout` payloads in order, and the file store is the old one with every other pair written in order |
| `Routing.WrittenIsLastWrite` | index.js:194-197 | a file target holds the payload of its LAST pair; a target that was never written keeps what it had |
| `Routing.StdoutIsNeverAFile` | index.js:191-197 | routing never creates or changes a file named `::stdout` |
| `Routing.StdoutLinesAppend` | index.js:187-193 | routing a list in two parts logs the first part's lines, then the second part's |
| `Routing.StdoutLinesCount` | index.js:191-193 | exactly one console line per `::stdout` pair |
| `Routing.AllStdoutWritesNothing` | index.js:191-197 | a list aimed only at `::stdout` leaves the file system as it was |

## Left out

- Command-line parsing (index.js:12-29), done with `yargs`: the flags
  arrive as the `Args` datatype.
- Verbose logging and the `console.error` diagnostics. These are output
  only and never affect the result.
- `--init-config` (index.js:34-43). It writes `generateConfig() + "\n"`
  to a file; the text itself is `Templates.GenerateConfig`.
- Loading the configuration file with `require` (index.js:53-59). The
  outcome of the load is a parameter of `Cli.ResolveConfig`.
  - A configuration without a `files` object makes `Object.keys` throw.
    The model assumes the object is present.
- The integer-like key order of `Object.keys`. JavaScript lists such keys
  first, in ascending numeric order. The model takes the keys in the order
  they arrive (`Files.keys`), and `Cli.Assign` appends new keys.
- `fs.readFileSync` and its encoding. File contents are a map from path to
  text, and a missing path is a read failure.
  - Dafny characters are Unicode scalar values, while JavaScript strings are
    UTF-16 code units. Surrogate pairs are not modelled.
- Loading `elm-package.json` (index.js:130-136), creating the render
  directory (index.js:141-149), and writing the manifest, the driver and
  the shim (index.js:151-162). These are file-system I/O.
  - Serialising the manifest with `JSON.stringify` is left out as well.
- `Manifest.ElmPackage`: manifest fields other than `repository`,
  `source-directories`, `native-modules` and `dependencies`.
  - If `source-directories` or `dependencies` is missing, the source throws
    a `TypeError`. The model assumes both are present.
- `path.join` semantics (normalising `..`, duplicate separators). It is the
  parameter `join`.
- The call to the Elm compiler, its exit code, loading `elm.js`, starting
  the worker and subscribing to the port (index.js:166-185). These are a
  child process and foreign code.
  - `Routing.Sinks.Route` models the subscriber's body for the list the
    port delivers.
- `Routing.Sinks.Route`: a failing `fs.writeFileSync` (index.js:196), for
  example on a path in a missing directory, throws and ends the subscriber
  at that pair. The model's file system accepts every path, so `Route`
  never fails and always routes the whole list.
- `Cli.ProjectName`: a manifest without a string `repository` makes
  `.replace` throw (index.js:139). The model takes `repository` as a
  string.
- `Routing.Sinks.Route`: the console is the sequence of `console.log`
  arguments. What appears on the terminal carries one more newline per
  entry, which `console.log` adds.
- `Templates.GenerateConfig`: the result is the printed form of
  `{ files: {} }`, not a model of a general `JSON.stringify`.
- `JsStrings.ReplaceFirst`: the `$` patterns a JavaScript replacement
  string may contain are not interpreted. The replacements the tool passes
  (`""`, `"_"` and a lone `"$"`) are all inserted literally.
- `Templates.GenerateRendererFile`: its own contract states only the
  opening and closing lines. The full layout is stated by
  `Templates.RendererLayout`, with the fixed lines as named constants.

## Findings

| source | as written | input that shows it | evidently intended | confidence | as-written member | corrected member |
|---|---|---|---|---|---|---|
| templates.js:3 | `projectName.replace('-', '_')` replaces only the first `-` | repository `https://github.com/some-user/elm-app.git`: the project name is `some-user$elm-app` and the shim declares `_some_user$elm-app$Native_Jsonify`, while Elm 0.18 looks up `_some_user$elm_app$Native_Jsonify` | every `-` becomes `_`, as in Elm 0.18's own mangling of native module names | medium, not executed | `Templates.NativeNameCounterexample` | `Templates.GenerateNativeModuleStringIntended` |
