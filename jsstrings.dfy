/**
 * The JavaScript string operations the tool relies on, with the semantics of
 * the ECMAScript built-ins for the argument shapes it uses:
 * `split` and `join` with a literal separator, `indexOf` and `replace` with a
 * string pattern (first occurrence only), and `trim`.
 */
module JsStrings {
  import opened Wrappers

  /** `pat` occurs in `s` starting at position `i`. */
  predicate OccursAt(s: string, pat: string, i: nat) {
    i + |pat| <= |s| && s[i..i + |pat|] == pat
  }

  /** `s.startsWith(p)`. */
  predicate StartsWith(s: string, p: string) {
    |p| <= |s| && s[..|p|] == p
  }

  /** `s.endsWith(p)`. */
  predicate EndsWith(s: string, p: string) {
    |p| <= |s| && s[|s| - |p|..] == p
  }

  lemma Affixes(p: string, q: string, s: string)
    ensures StartsWith(p + q + s, p) && EndsWith(p + q + s, s)
  {
    assert (p + q + s)[..|p|] == p;
    assert (p + q + s)[|p + q + s| - |s|..] == s;
  }

  /** Cutting `s` around position `i`. */
  lemma Around(s: string, i: nat)
    requires i < |s|
    ensures s == s[..i] + [s[i]] + s[i + 1..]
  {
  }

  /** Number of times the character `c` appears in `s`. */
  function Count(s: string, c: char): nat {
    if s == [] then 0 else (if s[0] == c then 1 else 0) + Count(s[1..], c)
  }

  lemma {:induction false} CountConcat(a: string, b: string, c: char)
    ensures Count(a + b, c) == Count(a, c) + Count(b, c)
  {
    if a == [] {
      assert a + b == b;
    } else {
      assert (a + b)[1..] == a[1..] + b;
      CountConcat(a[1..], b, c);
    }
  }

  lemma {:induction false} CountAbsent(s: string, c: char)
    requires c !in s
    ensures Count(s, c) == 0
  {
    if s != [] {
      assert s[0] != c;
      CountAbsent(s[1..], c);
    }
  }

  /** `c` occurs nowhere in `s` exactly when it is counted zero times. */
  lemma CountAbsentIff(s: string, c: char)
    ensures Count(s, c) == 0 <==> c !in s
  {
    if c !in s {
      CountAbsent(s, c);
    } else {
      var i := IndexOfChar(s, c).value;
      Around(s, i);
      CountConcat(s[..i] + [c], s[i + 1..], c);
      CountConcat(s[..i], [c], c);
      assert Count([c], c) == 1 by { assert [c][1..] == []; }
    }
  }

  /** `s.indexOf(c)` for a single character: the first position holding `c`. */
  function IndexOfChar(s: string, c: char): (r: Option<nat>)
    ensures r.None? <==> c !in s
    ensures r.Some? ==> r.value < |s| && s[r.value] == c && c !in s[..r.value]
  {
    if |s| == 0 then None
    else if s[0] == c then Some(0)
    else match IndexOfChar(s[1..], c)
      case None => None
      case Some(i) =>
        assert s[..i + 1] == [s[0]] + s[1..][..i];
        Some(i + 1)
  }

  /** A position holding `c` with no `c` before it is what `indexOf` finds. */
  lemma {:induction false} IndexOfCharUnique(s: string, c: char, i: nat)
    requires i < |s| && s[i] == c && c !in s[..i]
    ensures IndexOfChar(s, c) == Some(i)
    decreases i
  {
    if i > 0 {
      assert s[0] == s[..i][0];
      assert s[1..][..i - 1] == s[..i][1..];
      IndexOfCharUnique(s[1..], c, i - 1);
    }
  }

  /** Searching past a `c`-free prefix `w` finds what the search of the rest finds, shifted by `|w|`. */
  lemma {:induction false} IndexOfCharShift(w: string, rest: string, c: char)
    requires c !in w
    ensures IndexOfChar(w + rest, c) == match IndexOfChar(rest, c)
      case None => None
      case Some(j) => Some(|w| + j)
  {
    if w != [] {
      assert (w + rest)[0] == w[0];
      assert (w + rest)[1..] == w[1..] + rest;
      IndexOfCharShift(w[1..], rest, c);
    } else {
      assert w + rest == rest;
    }
  }

  /** The first `c` in `w + [c] + rest` is the one after `w` when `w` holds none. */
  lemma IndexOfCharAfter(w: string, c: char, rest: string)
    requires c !in w
    ensures IndexOfChar(w + [c] + rest, c) == Some(|w|)
  {
    var s := w + [c] + rest;
    assert s[|w|] == c;
    assert s[..|w|] == w;
  }

  /**
   * `parts.join(sep)`: the parts with `sep` between neighbours. It starts
   * with the first part; `JoinEndsWithLast` says it ends with the last.
   */
  function Join(parts: seq<string>, sep: string): (r: string)
    ensures |parts| > 0 ==> StartsWith(r, parts[0])
  {
    if |parts| == 0 then ""
    else if |parts| == 1 then parts[0]
    else parts[0] + sep + Join(parts[1..], sep)
  }

  /** A join ends with its last part. */
  lemma {:induction false} JoinEndsWithLast(parts: seq<string>, sep: string)
    requires parts != []
    ensures EndsWith(Join(parts, sep), parts[|parts| - 1])
    decreases |parts|
  {
    if |parts| > 1 {
      JoinEndsWithLast(parts[1..], sep);
      var last := parts[|parts| - 1];
      var tail := Join(parts[1..], sep);
      assert parts[1..][|parts| - 2] == last;
      assert (parts[0] + sep + tail)[|parts[0] + sep + tail| - |last|..] == tail[|tail| - |last|..];
    }
  }

  /** Joining two non-empty lists puts one separator between the two joined halves. */
  lemma {:induction false} JoinAppend(xs: seq<string>, ys: seq<string>, sep: string)
    requires xs != [] && ys != []
    ensures Join(xs + ys, sep) == Join(xs, sep) + sep + Join(ys, sep)
  {
    if |xs| == 1 {
      assert (xs + ys)[1..] == ys;
    } else {
      assert (xs + ys)[1..] == xs[1..] + ys;
      JoinAppend(xs[1..], ys, sep);
    }
  }

  lemma JoinHeadTail(x: string, xs: seq<string>, sep: string)
    requires xs != []
    ensures Join([x] + xs, sep) == x + sep + Join(xs, sep)
  {
    assert ([x] + xs)[1..] == xs;
  }

  /** Joining a list framed by two fixed parts on each side. */
  lemma JoinFramed(a: string, b: string, mid: seq<string>, c: string, d: string, sep: string)
    requires mid != []
    ensures Join([a, b] + mid + [c, d], sep) == (a + sep + b + sep) + Join(mid, sep) + (sep + c + sep + d)
  {
    JoinAppend([a, b] + mid, [c, d], sep);
    JoinAppend([a, b], mid, sep);
    JoinHeadTail(a, [b], sep);
    JoinHeadTail(c, [d], sep);
  }

  /** Joining a list around one middle part. */
  lemma JoinAround(h: seq<string>, x: string, t: seq<string>, sep: string)
    requires h != [] && t != []
    ensures Join(h + [x] + t, sep) == Join(h, sep) + sep + x + sep + Join(t, sep)
  {
    JoinAppend(h, [x] + t, sep);
    JoinHeadTail(x, t, sep);
    assert h + [x] + t == h + ([x] + t);
  }

  /** Joining `[a, b] + h + [x] + t + [c, d]`: the two fixed parts at each end frame the rest. */
  lemma JoinFramedAround(a: string, b: string, h: seq<string>, x: string, t: seq<string>, c: string, d: string, sep: string)
    ensures Join(([a, b] + h) + [x] + (t + [c, d]), sep)
         == (a + sep + b + sep) + Join(h + [x] + t, sep) + (sep + c + sep + d)
  {
    assert ([a, b] + h) + [x] + (t + [c, d]) == [a, b] + (h + [x] + t) + [c, d];
    JoinFramed(a, b, h + [x] + t, c, d, sep);
  }

  /**
   * `s.split(sep)` for a one-character separator: the pieces between the
   * separators, in order. There is always at least one piece; `"".split(sep)`
   * is `[""]`.
   */
  function Split(s: string, sep: char): (r: seq<string>)
    ensures |r| == Count(s, sep) + 1
    ensures forall i :: 0 <= i < |r| ==> sep !in r[i]
    ensures Join(r, [sep]) == s
    decreases |s|
  {
    match IndexOfChar(s, sep)
    case None =>
      CountAbsent(s, sep);
      [s]
    case Some(i) =>
      var rest := Split(s[i + 1..], sep);
      assert ([s[..i]] + rest)[1..] == rest;
      Around(s, i);
      CountAbsent(s[..i], sep);
      CountConcat(s[..i] + [sep], s[i + 1..], sep);
      CountConcat(s[..i], [sep], sep);
      assert Count([sep], sep) == 1 by { assert [sep][1..] == []; }
      [s[..i]] + rest
  }

  /** Text without the separator is one piece. */
  lemma SplitNone(w: string, c: char)
    requires c !in w
    ensures Split(w, c) == [w]
  {
  }

  /** The first piece is everything before the first separator. */
  lemma SplitAfter(w: string, c: char, rest: string)
    requires c !in w
    ensures Split(w + [c] + rest, c) == [w] + Split(rest, c)
  {
    var s := w + [c] + rest;
    IndexOfCharAfter(w, c, rest);
    assert s[..|w|] == w;
    assert s[|w| + 1..] == rest;
  }

  /** Splitting text that was joined with a separator none of the parts holds gives the parts back. */
  lemma {:induction false} SplitJoin(parts: seq<string>, sep: char)
    requires parts != []
    requires forall i :: 0 <= i < |parts| ==> sep !in parts[i]
    ensures Split(Join(parts, [sep]), sep) == parts
  {
    if |parts| > 1 {
      var rest := Join(parts[1..], [sep]);
      IndexOfCharAfter(parts[0], sep, rest);
      var s := parts[0] + [sep] + rest;
      assert s[..|parts[0]|] == parts[0];
      assert s[|parts[0]| + 1..] == rest;
      SplitJoin(parts[1..], sep);
    }
  }

  /** `i` is where `pat` first occurs in `s`. */
  ghost predicate FirstOccurrence(s: string, pat: string, i: nat) {
    OccursAt(s, pat, i) && forall j: nat :: j < i ==> !OccursAt(s, pat, j)
  }

  /** `pat` occurs nowhere in `s`. */
  ghost predicate Absent(s: string, pat: string) {
    forall j: nat :: !OccursAt(s, pat, j)
  }

  /** `s.indexOf(pat, from)`: the first position at or after `from` where `pat` occurs. */
  function IndexOfFrom(s: string, pat: string, from: nat): (r: Option<nat>)
    ensures r.Some? ==> from <= r.value && OccursAt(s, pat, r.value)
    ensures r.Some? ==> forall j: nat :: from <= j < r.value ==> !OccursAt(s, pat, j)
    ensures r.None? ==> forall j: nat :: from <= j ==> !OccursAt(s, pat, j)
    decreases |s| - from
  {
    if from + |pat| > |s| then None
    else if s[from..from + |pat|] == pat then Some(from)
    else IndexOfFrom(s, pat, from + 1)
  }

  /** `s.indexOf(pat)`: the first occurrence of `pat`, or none when it is absent. */
  function IndexOf(s: string, pat: string): (r: Option<nat>)
    ensures r.Some? ==> FirstOccurrence(s, pat, r.value)
    ensures r.None? <==> Absent(s, pat)
  {
    IndexOfFrom(s, pat, 0)
  }

  /**
   * `s.replace(pat, rep)` with a string pattern: only the FIRST occurrence of
   * `pat` is replaced; when `pat` does not occur, `s` comes back unchanged.
   * (The replacement strings this tool passes hold no `$` patterns.)
   */
  function ReplaceFirst(s: string, pat: string, rep: string): (r: string)
    ensures Absent(s, pat) ==> r == s
    ensures !Absent(s, pat) ==> |r| == |s| - |pat| + |rep|
  {
    match IndexOf(s, pat)
    case None => s
    case Some(i) => s[..i] + rep + s[i + |pat|..]
  }

  /** There is only one first occurrence. */
  lemma FirstOccurrenceUnique(s: string, pat: string, i: nat, j: nat)
    requires FirstOccurrence(s, pat, i) && FirstOccurrence(s, pat, j)
    ensures i == j
  {
  }

  /** `replace` rewrites the first occurrence of `pat`, and only that one. */
  lemma ReplaceFirstAt(s: string, pat: string, rep: string, i: nat)
    requires FirstOccurrence(s, pat, i)
    ensures ReplaceFirst(s, pat, rep) == s[..i] + rep + s[i + |pat|..]
  {
    var k := IndexOf(s, pat);
    assert !Absent(s, pat) by { assert OccursAt(s, pat, i); }
    FirstOccurrenceUnique(s, pat, k.value, i);
  }

  /** When `pat` does not occur, `replace` returns the text unchanged. */
  lemma ReplaceFirstAbsent(s: string, pat: string, rep: string)
    requires Absent(s, pat)
    ensures ReplaceFirst(s, pat, rep) == s
  {
  }

  /** A pattern at the very start is the one `replace` acts on. */
  lemma ReplaceFirstPrefix(pat: string, w: string, rep: string)
    ensures ReplaceFirst(pat + w, pat, rep) == rep + w
  {
    var s := pat + w;
    assert s[..|pat|] == pat;
    assert FirstOccurrence(s, pat, 0);
    ReplaceFirstAt(s, pat, rep, 0);
    assert s[|pat|..] == w;
  }

  /** A one-character pattern occurs exactly where that character stands. */
  lemma OccursAtChar(s: string, c: char, j: nat)
    ensures OccursAt(s, [c], j) <==> j < |s| && s[j] == c
  {
    if j < |s| {
      assert s[j..j + 1] == [s[j]];
    }
  }

  /** With a one-character pattern, `replace` acts at the first position `indexOf` finds. */
  lemma ReplaceFirstChar(s: string, c: char, d: char)
    requires c in s
    ensures ReplaceFirst(s, [c], [d]) == s[..IndexOfChar(s, c).value] + [d] + s[IndexOfChar(s, c).value + 1..]
  {
    var i := IndexOfChar(s, c).value;
    OccursAtChar(s, c, i);
    forall j: nat | j < i ensures !OccursAt(s, [c], j) {
      OccursAtChar(s, c, j);
      assert s[j] == s[..i][j];
    }
    ReplaceFirstAt(s, [c], [d], i);
  }

  /** When `w` holds no `c`, the `c` right after it is the one `replace` rewrites. */
  lemma ReplaceFirstCharAfter(w: string, c: char, d: char, rest: string)
    requires c !in w
    ensures ReplaceFirst(w + [c] + rest, [c], [d]) == w + [d] + rest
  {
    var s := w + [c] + rest;
    IndexOfCharAfter(w, c, rest);
    ReplaceFirstChar(s, c, d);
    assert s[..|w|] == w && s[|w| + 1..] == rest;
  }

  /** Turning one `c` into a different `d` takes one `c` away from the count. */
  lemma CountSwapOne(a: string, b: string, c: char, d: char)
    requires c != d
    ensures Count(a + [d] + b, c) + 1 == Count(a + [c] + b, c)
  {
    CountConcat(a + [d], b, c);
    CountConcat(a, [d], c);
    CountConcat(a + [c], b, c);
    CountConcat(a, [c], c);
    assert Count([c], c) == 1 by { assert [c][1..] == []; }
    assert Count([d], c) == 0 by { assert [d][1..] == []; }
  }

  /** Text without `c` holds no one-character pattern `[c]`. */
  lemma AbsentChar(s: string, c: char)
    requires c !in s
    ensures Absent(s, [c])
  {
    forall j: nat ensures !OccursAt(s, [c], j) {
      OccursAtChar(s, c, j);
    }
  }

  /** Replacing the first of several `c` by `d` leaves exactly one `c` fewer. */
  lemma ReplaceFirstCharCount(s: string, c: char, d: char)
    requires c != d
    ensures c in s ==> Count(ReplaceFirst(s, [c], [d]), c) == Count(s, c) - 1
    ensures c !in s ==> ReplaceFirst(s, [c], [d]) == s
  {
    match IndexOfChar(s, c)
    case None =>
      AbsentChar(s, c);
      ReplaceFirstAbsent(s, [c], [d]);
    case Some(i) =>
      ReplaceFirstChar(s, c, d);
      Around(s, i);
      CountSwapOne(s[..i], s[i + 1..], c, d);
  }

  /** Every `c` in `s` becomes `d`; the other characters stay. */
  function ReplaceAllChar(s: string, c: char, d: char): (r: string)
    ensures |r| == |s|
    ensures forall i :: 0 <= i < |s| ==> r[i] == (if s[i] == c then d else s[i])
    ensures c != d ==> c !in r
  {
    if s == [] then [] else [if s[0] == c then d else s[0]] + ReplaceAllChar(s[1..], c, d)
  }

  /**
   * The code points JavaScript's `trim` removes: the WhiteSpace characters
   * (tab, vertical tab, form feed, space, no-break space, byte order mark and
   * the Unicode space separators) and the LineTerminator characters.
   */
  predicate IsJsWhitespace(c: char) {
    c == '\t' || c == '\n' || c == '\U{B}' || c == '\U{C}' || c == '\r' || c == ' '
    || c == '\U{A0}' || c == '\U{1680}' || ('\U{2000}' <= c <= '\U{200A}')
    || c == '\U{2028}' || c == '\U{2029}' || c == '\U{202F}' || c == '\U{205F}'
    || c == '\U{3000}' || c == '\U{FEFF}'
  }

  /** `s[lo..hi]` is whitespace only. */
  predicate WhitespaceBetween(s: string, lo: nat, hi: nat)
    requires lo <= hi <= |s|
  {
    forall i :: lo <= i < hi ==> IsJsWhitespace(s[i])
  }

  /** Neither end of `s` is whitespace. */
  predicate Trimmed(s: string) {
    s == [] || (!IsJsWhitespace(s[0]) && !IsJsWhitespace(s[|s| - 1]))
  }

  /** Where the whitespace run starting at `lo` ends. */
  function LeadingFrom(s: string, lo: nat): (hi: nat)
    requires lo <= |s|
    ensures lo <= hi <= |s| && WhitespaceBetween(s, lo, hi)
    ensures hi < |s| ==> !IsJsWhitespace(s[hi])
    decreases |s| - lo
  {
    if lo < |s| && IsJsWhitespace(s[lo]) then LeadingFrom(s, lo + 1) else lo
  }

  /** Where the whitespace run ending at `hi` starts, looking no further back than `lo`. */
  function TrailingDown(s: string, lo: nat, hi: nat): (k: nat)
    requires lo <= hi <= |s|
    ensures lo <= k <= hi && WhitespaceBetween(s, k, hi)
    ensures lo < k ==> !IsJsWhitespace(s[k - 1])
    decreases hi - lo
  {
    if lo < hi && IsJsWhitespace(s[hi - 1]) then TrailingDown(s, lo, hi - 1) else hi
  }

  /**
   * `s.trim()`: `s` with the whitespace at both ends removed. The result
   * neither starts nor ends with whitespace, and text that does not either is
   * its own trimmed form; `TrimSlice` says where the result sits in `s`.
   */
  function Trim(s: string): (r: string)
    ensures Trimmed(r)
    ensures Trimmed(s) ==> r == s
  {
    var a := LeadingFrom(s, 0);
    var b := TrailingDown(s, a, |s|);
    s[a..b]
  }

  /**
   * The trimmed text is what lies between the whitespace run that starts
   * `s` and the one that ends it.
   */
  lemma TrimSlice(s: string)
    ensures var a := LeadingFrom(s, 0); var b := TrailingDown(s, a, |s|);
      a <= b <= |s| && Trim(s) == s[a..b] && WhitespaceBetween(s, 0, a) && WhitespaceBetween(s, b, |s|)
  {
  }

  /** Trailing whitespace after trimmed text is all that `trim` removes. */
  lemma TrimTrailing(s: string, w: string)
    requires Trimmed(s) && WhitespaceBetween(w, 0, |w|)
    ensures Trim(s + w) == s
  {
    var t := s + w;
    var a := LeadingFrom(t, 0);
    if s == [] {
      assert t == w;
      assert a == |t|;
    } else {
      assert t[0] == s[0];
      assert a == 0;
      var b := TrailingDown(t, a, |t|);
      assert t[|s| - 1] == s[|s| - 1];
      assert forall i :: |s| <= i < |t| ==> t[i] == w[i - |s|];
      assert b == |s|;
      assert t[..|s|] == s;
    }
  }
}
