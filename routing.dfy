/**
 * The `htmlOut` subscriber of index.js: for each `(outputFile, html)` pair
 * the Elm worker sends, in order, the HTML goes to standard output when the
 * target is `::stdout` and is written to the named file otherwise, each time
 * with a trailing newline. The console and the file system are the two
 * fields of `Sinks`.
 */
module Routing {
  import opened Wrappers
  import Cli

  /** One element of the list the port delivers: the target, then the rendered HTML. */
  type Output = (string, string)

  /** What reaches the sink for one piece of HTML. */
  function Payload(html: string): string {
    html + "\n"
  }

  /** The arguments passed to `console.log` for `pairs`, in order. */
  function StdoutLines(pairs: seq<Output>): seq<string> {
    if pairs == [] then []
    else
      var last := pairs[|pairs| - 1];
      StdoutLines(pairs[..|pairs| - 1]) + (if last.0 == Cli.StdoutKey then [Payload(last.1)] else [])
  }

  /** The file store after `pairs` were routed on top of `files`: later writes overwrite earlier ones. */
  function Written(files: map<string, string>, pairs: seq<Output>): map<string, string> {
    if pairs == [] then files
    else
      var last := pairs[|pairs| - 1];
      var before := Written(files, pairs[..|pairs| - 1]);
      if last.0 == Cli.StdoutKey then before else before[last.0 := Payload(last.1)]
  }

  /** Independent reference: the payload of the LAST pair aimed at `target`, scanning from the front. */
  function LastWrite(pairs: seq<Output>, target: string): Option<string> {
    if pairs == [] then None
    else match LastWrite(pairs[1..], target)
      case Some(v) => Some(v)
      case None => if pairs[0].0 == target then Some(Payload(pairs[0].1)) else None
  }

  /** Appending one pair to the scanned list: it wins if it is aimed at `target`. */
  lemma {:induction false} LastWriteSnoc(pairs: seq<Output>, p: Output, target: string)
    ensures LastWrite(pairs + [p], target)
         == if p.0 == target then Some(Payload(p.1)) else LastWrite(pairs, target)
    decreases |pairs|
  {
    if pairs == [] {
      assert ([] + [p])[1..] == [];
    } else {
      assert (pairs + [p])[1..] == pairs[1..] + [p];
      LastWriteSnoc(pairs[1..], p, target);
    }
  }

  /**
   * The file store maps each file target to the payload of its last write,
   * and a target never written keeps what it had; `::stdout` is never a file.
   */
  lemma {:induction false} WrittenIsLastWrite(files: map<string, string>, pairs: seq<Output>, target: string)
    requires target != Cli.StdoutKey
    ensures var w := Written(files, pairs);
      match LastWrite(pairs, target)
      case Some(v) => target in w && w[target] == v
      case None => (target in w <==> target in files) && (target in files ==> w[target] == files[target])
    decreases |pairs|
  {
    if pairs != [] {
      var init, last := pairs[..|pairs| - 1], pairs[|pairs| - 1];
      assert pairs == init + [last];
      WrittenIsLastWrite(files, init, target);
      LastWriteSnoc(init, last, target);
    }
  }

  /** Routing never creates a file called `::stdout`. */
  lemma {:induction false} StdoutIsNeverAFile(files: map<string, string>, pairs: seq<Output>)
    ensures Cli.StdoutKey in Written(files, pairs) <==> Cli.StdoutKey in files
    ensures Cli.StdoutKey in files ==> Written(files, pairs)[Cli.StdoutKey] == files[Cli.StdoutKey]
    decreases |pairs|
  {
    if pairs != [] {
      StdoutIsNeverAFile(files, pairs[..|pairs| - 1]);
    }
  }

  /** Routing a list in two parts logs the first part's lines, then the second's. */
  lemma {:induction false} StdoutLinesAppend(xs: seq<Output>, ys: seq<Output>)
    ensures StdoutLines(xs + ys) == StdoutLines(xs) + StdoutLines(ys)
    decreases |ys|
  {
    if ys == [] {
      assert xs + ys == xs;
    } else {
      var init, last := ys[..|ys| - 1], ys[|ys| - 1];
      assert xs + ys == (xs + init) + [last];
      assert (xs + ys)[..|xs + ys| - 1] == xs + init;
      StdoutLinesAppend(xs, init);
    }
  }

  /** The positions of the pairs aimed at `::stdout`. */
  function StdoutIndices(pairs: seq<Output>): set<nat> {
    set i: nat | i < |pairs| && pairs[i].0 == Cli.StdoutKey
  }

  /** Dropping the last pair drops its position, if it was one. */
  lemma StdoutIndicesInit(pairs: seq<Output>)
    requires pairs != []
    ensures var n := |pairs| - 1;
      |StdoutIndices(pairs)| == |StdoutIndices(pairs[..n])| + (if pairs[n].0 == Cli.StdoutKey then 1 else 0)
  {
    var n := |pairs| - 1;
    var before := StdoutIndices(pairs[..n]);
    assert before == set i: nat | i < n && pairs[i].0 == Cli.StdoutKey;
    if pairs[n].0 == Cli.StdoutKey {
      assert StdoutIndices(pairs) == before + {n};
    } else {
      assert StdoutIndices(pairs) == before;
    }
  }

  /** Exactly the `::stdout` pairs are logged: one line each, each with its trailing newline. */
  lemma {:induction false} StdoutLinesCount(pairs: seq<Output>)
    ensures |StdoutLines(pairs)| == |StdoutIndices(pairs)|
    decreases |pairs|
  {
    if pairs != [] {
      StdoutLinesCount(pairs[..|pairs| - 1]);
      StdoutIndicesInit(pairs);
    }
  }

  /** A list aimed only at `::stdout` leaves the file store as it was. */
  lemma {:induction false} AllStdoutWritesNothing(files: map<string, string>, pairs: seq<Output>)
    requires forall i :: 0 <= i < |pairs| ==> pairs[i].0 == Cli.StdoutKey
    ensures Written(files, pairs) == files
    decreases |pairs|
  {
    if pairs != [] {
      AllStdoutWritesNothing(files, pairs[..|pairs| - 1]);
    }
  }

  /** Standard output, as the lines passed to `console.log`, and the file system, as a path-to-contents map. */
  class Sinks {
    var stdout: seq<string>
    var files: map<string, string>

    constructor (files: map<string, string>)
      ensures stdout == [] && this.files == files
    {
      stdout := [];
      this.files := files;
    }

    /** The `htmlOut` callback: route every pair in order. */
    method Route(htmlOutput: seq<Output>)
      modifies this
      ensures stdout == old(stdout) + StdoutLines(htmlOutput)
      ensures files == Written(old(files), htmlOutput)
    {
      var i := 0;
      while i < |htmlOutput|
        invariant 0 <= i <= |htmlOutput|
        invariant stdout == old(stdout) + StdoutLines(htmlOutput[..i])
        invariant files == Written(old(files), htmlOutput[..i])
      {
        var (outputFile, html) := htmlOutput[i];
        assert htmlOutput[..i + 1][..i] == htmlOutput[..i];
        if outputFile == Cli.StdoutKey {
          stdout := stdout + [html + "\n"];
        } else {
          files := files[outputFile := html + "\n"];
        }
        i := i + 1;
      }
      assert htmlOutput[..i] == htmlOutput;
    }
  }
}
