/**
 * The scaffold generator of templates.js: pure text builders for the hidden
 * `PrivateMain` driver program, the native interop shim and the example
 * configuration. Values are interpolated raw, with no escaping.
 *
 * The template literals are written here as their lines: a literal spanning
 * several source lines is exactly those lines joined by "\n".
 */
module Templates {
  import opened JsStrings

  /** One record of the list index.js hands to the generator. */
  datatype ModuleRecord = ModuleRecord(filename: string, moduleName: string, output: string, func: string)

  /** Two records agree on every field the generated text reads. */
  predicate SameGeneratedFields(a: ModuleRecord, b: ModuleRecord) {
    a.moduleName == b.moduleName && a.output == b.output && a.func == b.func
  }

  /** `importLines`: one `import <moduleName>` line per record, in order. */
  function ImportLines(ms: seq<ModuleRecord>): (r: seq<string>)
    ensures |r| == |ms|
    ensures forall i :: 0 <= i < |ms| ==> r[i] == "import " + ms[i].moduleName
  {
    if ms == [] then [] else ["import " + ms[0].moduleName] + ImportLines(ms[1..])
  }

  /** `viewFunctions`: one `("<output>", <moduleName>.<func>)` tuple text per record, in order. */
  function ViewFunctions(ms: seq<ModuleRecord>): (r: seq<string>)
    ensures |r| == |ms|
    ensures forall i :: 0 <= i < |ms| ==> r[i] == "(\"" + ms[i].output + "\", " + ms[i].moduleName + "." + ms[i].func + ")"
  {
    if ms == [] then []
    else ["(\"" + ms[0].output + "\", " + ms[0].moduleName + "." + ms[0].func + ")"] + ViewFunctions(ms[1..])
  }

  const ModuleDeclaration := "port module PrivateMain exposing (..)"
  const PortDeclaration := "port htmlOut : List (String, String) -> Cmd msg"

  /** The driver's header after its module declaration: the support-module imports. */
  const HeaderRest: seq<string> := [
    "",
    "import Platform",
    "import Html exposing (Html)",
    "import ElmHtml.InternalTypes exposing (decodeElmHtml)",
    "import ElmHtml.ToString exposing (nodeTypeToString)",
    "import Json.Decode as Json",
    "import Native.Jsonify",
    ""
  ]

  /** The driver's lines before the user imports. */
  const HeaderLines: seq<string> := ["", ModuleDeclaration] + HeaderRest

  /** The `asJsonString` definition, bound to the native shim. */
  const AsJsonStringLines: seq<string> := [
    "asJsonString : Html msg -> String",
    "asJsonString = Native.Jsonify.stringify"
  ]

  /** The `decode` definition: a decode failure's message becomes the target's output. */
  const DecodeLines: seq<string> := [
    "decode : (String, Html msg) -> ( String, String )",
    "decode (output, view) =",
    "    case Json.decodeString decodeElmHtml (asJsonString view) of",
    "        Err str -> (output, str)",
    "        Ok str -> (output, nodeTypeToString str)"
  ]

  /** The opening lines of `main`, up to the line holding the view list. */
  const MainLines: seq<string> := [
    "main = Platform.program",
    "    { init =",
    "        ( ()"
  ]

  /** The driver's lines between the user imports and the line holding the view list. */
  const BodyLines: seq<string> := ["", ""] + AsJsonStringLines + [""] + DecodeLines + [""] + MainLines

  const ListLineStart := "        , htmlOut ( List.map (decode ) [ "
  const ListLineEnd := " ] )"

  /** The rest of `main` after the line holding the view list. */
  const FooterLines: seq<string> := [
    "        )",
    "    , update = (\\_ b -> (b, Cmd.none))",
    "    , subscriptions = (\\_ -> Sub.none)",
    "    }",
    ""
  ]

  /** The import block: the import lines joined by newlines. */
  function ImportBlock(ms: seq<ModuleRecord>): string {
    Join(ImportLines(ms), "\n")
  }

  /** The line of `main` that holds the list literal of view tuples, joined by ", ". */
  function ListLine(ms: seq<ModuleRecord>): string {
    ListLineStart + Join(ViewFunctions(ms), ", ") + ListLineEnd
  }

  /** The lines after the user imports, up to the port declaration. */
  function TrailerInit(ms: seq<ModuleRecord>): seq<string> {
    BodyLines + [ListLine(ms)] + FooterLines
  }

  /** Everything after the user imports: the text ends with the port declaration and a newline. */
  function TrailerLines(ms: seq<ModuleRecord>): seq<string> {
    TrailerInit(ms) + [PortDeclaration, ""]
  }

  /**
   * `generateRendererFile`: the `PrivateMain` program. Whatever the records,
   * it opens with the `port module PrivateMain` declaration and closes with
   * the `htmlOut` port declaration.
   */
  function GenerateRendererFile(ms: seq<ModuleRecord>): (r: string)
    ensures StartsWith(r, "\n" + ModuleDeclaration + "\n")
    ensures EndsWith(r, "\n" + PortDeclaration + "\n")
  {
    var lines := HeaderLines + [ImportBlock(ms)] + TrailerLines(ms);
    FramedLines(ModuleDeclaration, HeaderRest, ImportBlock(ms), TrailerInit(ms), PortDeclaration);
    Join(lines, "\n")
  }

  /** Lines that open with an empty line and `first`, and close with `last` and an empty line. */
  lemma FramedLines(first: string, h: seq<string>, x: string, t: seq<string>, last: string)
    ensures var text := Join((["", first] + h) + [x] + (t + [last, ""]), "\n");
      StartsWith(text, "\n" + first + "\n") && EndsWith(text, "\n" + last + "\n")
  {
    var nl := "\n";
    JoinFramedAround("", first, h, x, t, last, "", nl);
    var mid := Join(h + [x] + t, nl);
    assert "" + nl + first + nl == nl + first + nl;
    assert nl + last + nl + "" == nl + last + nl;
    Affixes(nl + first + nl, mid, nl + last + nl);
  }

  /** No record field that reaches the text holds a line break. */
  predicate NoLineBreaks(ms: seq<ModuleRecord>) {
    forall i :: 0 <= i < |ms| ==> '\n' !in ms[i].moduleName && '\n' !in ms[i].output && '\n' !in ms[i].func
  }

  /**
   * Read back as lines, the import block is EXACTLY one line
   * `import <moduleName>` per record, in record order (provided there is at
   * least one record and no module name holds a line break).
   */
  lemma {:induction false} ImportBlockLines(ms: seq<ModuleRecord>)
    requires ms != [] && NoLineBreaks(ms)
    ensures Split(ImportBlock(ms), '\n') == ImportLines(ms)
  {
    var imports := ImportLines(ms);
    forall i | 0 <= i < |imports| ensures '\n' !in imports[i] {
      assert imports[i] == "import " + ms[i].moduleName;
    }
    SplitJoin(imports, '\n');
  }

  /**
   * The driver text is the fixed header, a newline, the import block, a
   * newline, and the fixed trailer whose one varying line is the view list.
   */
  lemma RendererLayout(ms: seq<ModuleRecord>)
    ensures GenerateRendererFile(ms) == Join(HeaderLines, "\n") + "\n" + ImportBlock(ms) + "\n" + Join(TrailerLines(ms), "\n")
  {
    JoinAround(HeaderLines, ImportBlock(ms), TrailerLines(ms), "\n");
  }

  /**
   * With no records the generation still succeeds: the import block is
   * empty and the view list is the literal `[  ]`.
   */
  lemma EmptyRenderer(ms: seq<ModuleRecord>)
    requires |ms| == 0
    ensures ImportBlock(ms) == ""
    ensures ListLine(ms) == ListLineStart + ListLineEnd
    ensures GenerateRendererFile(ms) == Join(HeaderLines, "\n") + "\n\n" + Join(TrailerLines(ms), "\n")
  {
    assert ImportLines(ms) == [] && ViewFunctions(ms) == [];
    assert ListLine(ms) == ListLineStart + "" + ListLineEnd;
    RendererLayout(ms);
    var h, t := Join(HeaderLines, "\n"), Join(TrailerLines(ms), "\n");
    assert h + "\n" + "" + "\n" + t == h + "\n\n" + t;
  }

  /** Only `moduleName`, `output` and `func` reach the generated text; `filename` is never read. */
  lemma {:induction false} RendererIgnoresFilename(ms: seq<ModuleRecord>, ns: seq<ModuleRecord>)
    requires |ms| == |ns|
    requires forall i :: 0 <= i < |ms| ==> SameGeneratedFields(ms[i], ns[i])
    ensures GenerateRendererFile(ms) == GenerateRendererFile(ns)
  {
    assert ImportLines(ms) == ImportLines(ns);
    assert ViewFunctions(ms) == ViewFunctions(ns);
  }

  /** One record for module `name` writing to standard output: one import, one view tuple. */
  lemma SingleModuleRenderer(filename: string, name: string)
    ensures ImportBlock([ModuleRecord(filename, name, "::stdout", "view")]) == "import " + name
    ensures ListLine([ModuleRecord(filename, name, "::stdout", "view")])
         == ListLineStart + "(\"::stdout\", " + name + ".view)" + ListLineEnd
  {
  }

  /** The module-name prefix of the interop shim's global: `_<fixedProjectName>$Native_Jsonify`. */
  function NativeGlobal(fixedProjectName: string): string {
    "_" + fixedProjectName + "$Native_Jsonify"
  }

  const StringifyMember := "    stringify: function(thing) {" + " return JSON.stringify(thing); }"

  /**
   * `generateNativeModuleString`: the shim declaring the global that Elm's
   * `Native.Jsonify` module resolves to, `_<fixedProjectName>$Native_Jsonify`,
   * whose one member is `stringify`. Only the FIRST `-` of the project name
   * becomes `_`.
   */
  function GenerateNativeModuleString(projectName: string): (r: string)
    ensures StartsWith(r, "\nvar " + NativeGlobal(ReplaceFirst(projectName, "-", "_")) + " = {\n")
    ensures EndsWith(r, StringifyMember + "\n};")
  {
    var fixedProjectName := ReplaceFirst(projectName, "-", "_");
    var declaration := "\nvar " + NativeGlobal(fixedProjectName) + " = {\n";
    Affixes(declaration, "", StringifyMember + "\n};");
    ShimText(fixedProjectName)
  }

  /** The text of a shim that declares `_<name>$Native_Jsonify`. */
  function ShimText(name: string): string {
    "\nvar " + NativeGlobal(name) + " = {\n" + (StringifyMember + "\n};")
  }

  /** The four lines of a shim that declares `_<name>$Native_Jsonify`. */
  function ShimLines(name: string): seq<string> {
    ["", "var " + NativeGlobal(name) + " = {", StringifyMember, "};"]
  }

  /** Four joined parts are the parts with the separator between neighbours. */
  lemma JoinFour(a: string, b: string, c: string, d: string, sep: string)
    ensures Join([a, b, c, d], sep) == a + sep + b + sep + c + sep + d
  {
    JoinHeadTail(c, [d], sep);
    assert [b, c, d] == [b] + [c, d];
    JoinHeadTail(b, [c, d], sep);
    assert [a, b, c, d] == [a] + [b, c, d];
    JoinHeadTail(a, [b, c, d], sep);
  }

  /**
   * A shim for a `name` without line breaks reads back, line by line, as an
   * empty line, the declaration, the one `stringify` member and the closing
   * `};`: nothing else is declared.
   */
  lemma ShimLayout(name: string)
    requires '\n' !in name
    ensures Split(ShimText(name), '\n') == ShimLines(name)
  {
    ShimJoined(name);
    ShimLinesOneLine(name);
    SplitJoin(ShimLines(name), '\n');
  }

  /** The shim text is its lines joined with newlines. */
  lemma ShimJoined(name: string)
    ensures ShimText(name) == Join(ShimLines(name), "\n")
  {
    var lines := ShimLines(name);
    JoinFour(lines[0], lines[1], lines[2], lines[3], "\n");
  }

  /** No shim line holds a newline when the name does not. */
  lemma ShimLinesOneLine(name: string)
    requires '\n' !in name
    ensures forall i :: 0 <= i < |ShimLines(name)| ==> '\n' !in ShimLines(name)[i]
  {
    StringifyMemberOneLine();
  }

  /** The `stringify` member is a single line. */
  lemma StringifyMemberOneLine()
    ensures '\n' !in StringifyMember
  {
  }

  /** The shim the generator writes has exactly the four lines of `ShimLines`. */
  lemma NativeModuleLines(projectName: string)
    requires '\n' !in projectName
    ensures Split(GenerateNativeModuleString(projectName), '\n') == ShimLines(ReplaceFirst(projectName, "-", "_"))
  {
    var fixed := ReplaceFirst(projectName, "-", "_");
    NativeNameReplacesFirstDash(projectName);
    if '-' in projectName {
      var i := IndexOfChar(projectName, '-').value;
      assert fixed == projectName[..i] + "_" + projectName[i + 1..];
      assert forall k :: 0 <= k < |fixed| ==> fixed[k] == projectName[k] || fixed[k] == '_';
    }
    ShimLayout(fixed);
  }

  /**
   * The name used in the shim for `projectName`: the first `-` is now `_`,
   * everything before it was dash-free and everything after it is kept as it
   * was, dashes included.
   */
  lemma NativeNameReplacesFirstDash(projectName: string)
    ensures '-' in projectName ==> Count(ReplaceFirst(projectName, "-", "_"), '-') == Count(projectName, '-') - 1
    ensures '-' in projectName ==>
      var i := IndexOfChar(projectName, '-').value;
      ReplaceFirst(projectName, "-", "_") == projectName[..i] + "_" + projectName[i + 1..]
    ensures '-' !in projectName ==> ReplaceFirst(projectName, "-", "_") == projectName
  {
    ReplaceFirstCharCount(projectName, '-', '_');
    if '-' in projectName {
      ReplaceFirstChar(projectName, '-', '_');
    }
  }

  /** Replacing the first of two dashes leaves the second. */
  lemma ReplaceFirstOfTwoDashes(a: string, b: string, c: string)
    requires '-' !in a
    ensures ReplaceFirst(a + "-" + b + "-" + c, "-", "_") == a + "_" + b + "-" + c
  {
    var rest := b + "-" + c;
    assert a + "-" + b + "-" + c == a + ['-'] + rest;
    ReplaceFirstCharAfter(a, '-', '_', rest);
    assert a + ['_'] + rest == a + "_" + b + "-" + c;
  }

  /**
   * As written, a project name with two dashes keeps its second one: the
   * global the shim declares still holds a `-`, so it is not the name Elm
   * 0.18 looks up for `Native.Jsonify` (Elm maps every `-` of the user and
   * the project to `_`).
   */
  lemma NativeNameKeepsSecondDash(a: string, b: string, c: string)
    requires '-' !in a
    ensures '-' in NativeGlobal(ReplaceFirst(a + "-" + b + "-" + c, "-", "_"))
  {
    ReplaceFirstOfTwoDashes(a, b, c);
    var fixed := a + "_" + b + "-" + c;
    assert fixed[|a| + 1 + |b|] == '-';
    var g := NativeGlobal(fixed);
    assert g == "_" + fixed + "$Native_Jsonify";
    assert g[1 + |a| + 1 + |b|] == fixed[|a| + 1 + |b|];
  }

  /** The project name of the repository `some-user/elm-app`, and its first-dash form. */
  const SampleProjectName := "some-user$elm-app"
  const SampleAsWritten := "some_user$elm-app"

  /** The repository `some-user/elm-app` gives a shim global that still holds a `-`. */
  lemma NativeNameCounterexample()
    ensures ReplaceFirst(SampleProjectName, "-", "_") == SampleAsWritten
    ensures '-' in NativeGlobal(ReplaceFirst(SampleProjectName, "-", "_"))
  {
    var a, b, c := "some", "user$elm", "app";
    assert SampleProjectName == a + "-" + b + "-" + c;
    assert SampleAsWritten == a + "_" + b + "-" + c;
    ReplaceFirstOfTwoDashes(a, b, c);
    NativeNameKeepsSecondDash(a, b, c);
  }

  /** The project-name part of a native global as Elm 0.18 writes it: every `-` becomes `_`. */
  function ElmNativeName(projectName: string): (r: string)
    ensures '-' !in r
    ensures |r| == |projectName|
    ensures forall i :: 0 <= i < |projectName| && projectName[i] != '-' ==> r[i] == projectName[i]
  {
    ReplaceAllChar(projectName, '-', '_')
  }

  /**
   * `generateNativeModuleString` as evidently intended: the declared global
   * is the one Elm resolves `Native.Jsonify` to, with no `-` left in it.
   */
  function GenerateNativeModuleStringIntended(projectName: string): (r: string)
    ensures StartsWith(r, "\nvar " + NativeGlobal(ElmNativeName(projectName)) + " = {\n")
    ensures EndsWith(r, StringifyMember + "\n};")
  {
    var declaration := "\nvar " + NativeGlobal(ElmNativeName(projectName)) + " = {\n";
    Affixes(declaration, "", StringifyMember + "\n};");
    ShimText(ElmNativeName(projectName))
  }

  /** The intended shim has the same four lines, around the fully mapped name. */
  lemma NativeModuleLinesIntended(projectName: string)
    requires '\n' !in projectName
    ensures Split(GenerateNativeModuleStringIntended(projectName), '\n') == ShimLines(ElmNativeName(projectName))
  {
    var name := ElmNativeName(projectName);
    assert forall k :: 0 <= k < |name| ==> name[k] == projectName[k] || name[k] == '_';
    ShimLayout(name);
  }

  /** Around a single `-`, mapping every dash is mapping that one. */
  lemma OnlyDash(a: string, b: string)
    requires '-' !in a && '-' !in b
    ensures ElmNativeName(a + ['-'] + b) == a + ['_'] + b
  {
    var s := a + ['-'] + b;
    var r := ElmNativeName(s);
    forall k | 0 <= k < |r| ensures r[k] == (a + ['_'] + b)[k] {
      if k < |a| {
        assert s[k] == a[k];
      } else if k > |a| {
        assert s[k] == b[k - |a| - 1];
      }
    }
  }

  /** The dashes of `a + "-" + b`, for a dash-free `a`: that one and those of `b`. */
  lemma CountAfterFirstDash(a: string, b: string)
    requires '-' !in a
    ensures Count(a + ['-'] + b, '-') == 1 + Count(b, '-')
  {
    CountConcat(a + ['-'], b, '-');
    CountConcat(a, ['-'], '-');
    CountAbsent(a, '-');
    assert Count(['-'], '-') == 1 by { assert ['-'][1..] == []; }
  }

  /** Without dashes there is nothing to map. */
  lemma NoDash(s: string)
    requires '-' !in s
    ensures ElmNativeName(s) == s
  {
    var r := ElmNativeName(s);
    assert forall k :: 0 <= k < |r| ==> r[k] == s[k];
  }

  /** Past the first dash, the two agree exactly when no other dash follows. */
  lemma AgreesAfterFirstDash(a: string, b: string)
    requires '-' !in a
    ensures Count(a + ['-'] + b, '-') <= 1 <==> a + ['_'] + b == ElmNativeName(a + ['-'] + b)
  {
    CountAfterFirstDash(a, b);
    CountAbsentIff(b, '-');
    if '-' !in b {
      OnlyDash(a, b);
    } else {
      var k := IndexOfChar(b, '-').value;
      assert (a + ['_'] + b)[|a| + 1 + k] == '-';
    }
  }

  /** At the first dash of `projectName`, the two agree exactly when no other dash follows. */
  lemma AgreesAtFirstDash(projectName: string, i: nat)
    requires IndexOfChar(projectName, '-').Some? && IndexOfChar(projectName, '-').value == i
    ensures Count(projectName, '-') <= 1 <==> ReplaceFirst(projectName, "-", "_") == ElmNativeName(projectName)
  {
    var a, b := projectName[..i], projectName[i + 1..];
    Around(projectName, i);
    ReplaceFirstChar(projectName, '-', '_');
    AgreesAfterFirstDash(a, b);
  }

  /** The two agree exactly on project names with at most one `-`. */
  lemma IntendedAgreesUpToOneDash(projectName: string)
    ensures Count(projectName, '-') <= 1 <==> ReplaceFirst(projectName, "-", "_") == ElmNativeName(projectName)
  {
    match IndexOfChar(projectName, '-')
    case None() =>
      NativeNameReplacesFirstDash(projectName);
      CountAbsent(projectName, '-');
      NoDash(projectName);
    case Some(i) =>
      AgreesAtFirstDash(projectName, i);
  }

  /** `generateConfig`: `{ files: {} }` as JSON.stringify prints it with an indent of 4. */
  function GenerateConfig(): (r: string)
    ensures Split(r, '\n') == ["{", "    \"files\": {}", "}"]
  {
    var r := Join(["{", "    \"files\": {}", "}"], "\n");
    SplitJoin(["{", "    \"files\": {}", "}"], '\n');
    r
  }
}
