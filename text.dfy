/** The handful of Python string operations the converter relies on:
    str.strip(), str.split() (on whitespace), str.split(sep), sep.join(...),
    str.startswith(...), list.index(...) and file.readline(). Strings are
    sequences of characters.
 */
module Text {
  import opened Common

  /** Python's str.isspace() on the ASCII and Latin-1 range:
      tab, newline, vertical tab, form feed, carriage return, the four
      separator controls 0x1C-0x1F, space, NEL (0x85) and no-break space (0xA0). */
  predicate IsSpace(c: char) {
    c == ' ' || ('\t' <= c <= '\r') || ('\U{1C}' <= c <= '\U{1F}') || c == '\U{85}' || c == '\U{A0}'
  }

  predicate AllSpace(s: string) {
    forall k :: 0 <= k < |s| ==> IsSpace(s[k])
  }

  predicate NoSpace(s: string) {
    forall k :: 0 <= k < |s| ==> !IsSpace(s[k])
  }

  /** A token of str.split(): non-empty, without whitespace. */
  predicate IsWord(w: string) {
    w != [] && NoSpace(w)
  }

  predicate StartsWith(s: string, prefix: string) {
    |prefix| <= |s| && s[..|prefix|] == prefix
  }

  /** readline() on a file held as its lines, without terminators, at
      line i: past the end it gives "", as readline() does at end of file. */
  function LineAt(lines: seq<string>, i: nat): (line: string)
    ensures i >= |lines| ==> line == []
  {
    if i < |lines| then lines[i] else []
  }

  /** line.startswith("#"): a comment line of a daily file, or the header
      line of the hourly file. */
  predicate IsComment(line: string) {
    StartsWith(line, "#")
  }

  /** The first position at or after i that is not whitespace, or |s|. */
  function SkipSpaces(s: string, i: nat): (j: nat)
    requires i <= |s|
    ensures i <= j <= |s|
    ensures j < |s| ==> !IsSpace(s[j])
    decreases |s| - i
  {
    if i < |s| && IsSpace(s[i]) then SkipSpaces(s, i + 1) else i
  }

  /** Everything SkipSpaces passes over is whitespace. */
  lemma {:induction false} SkipSpacesSpec(s: string, i: nat)
    requires i <= |s|
    ensures forall k :: i <= k < SkipSpaces(s, i) ==> IsSpace(s[k])
    decreases |s| - i
  {
    if i < |s| && IsSpace(s[i]) {
      SkipSpacesSpec(s, i + 1);
    }
  }

  /** A whitespace run from i to a non-whitespace character (or the end) at j
      is what SkipSpaces passes over. */
  lemma {:induction false} SkipSpacesOver(s: string, i: nat, j: nat)
    requires i <= j <= |s|
    requires forall k :: i <= k < j ==> IsSpace(s[k])
    requires j < |s| ==> !IsSpace(s[j])
    ensures SkipSpaces(s, i) == j
    decreases j - i
  {
    if i < j {
      SkipSpacesOver(s, i + 1, j);
    }
  }

  /** The first position at or after i that is whitespace, or |s|. */
  function SkipWord(s: string, i: nat): (j: nat)
    requires i <= |s|
    ensures i <= j <= |s|
    ensures j < |s| ==> IsSpace(s[j])
    ensures i < |s| && !IsSpace(s[i]) ==> i < j
    decreases |s| - i
  {
    if i < |s| && !IsSpace(s[i]) then SkipWord(s, i + 1) else i
  }

  /** Nothing SkipWord passes over is whitespace. */
  lemma {:induction false} SkipWordSpec(s: string, i: nat)
    requires i <= |s|
    ensures forall k :: i <= k < SkipWord(s, i) ==> !IsSpace(s[k])
    decreases |s| - i
  {
    if i < |s| && !IsSpace(s[i]) {
      SkipWordSpec(s, i + 1);
    }
  }

  /** A whitespace-free run from i to whitespace (or the end) at j is what
      SkipWord passes over. */
  lemma {:induction false} SkipWordOver(s: string, i: nat, j: nat)
    requires i <= j <= |s|
    requires forall k :: i <= k < j ==> !IsSpace(s[k])
    requires j < |s| ==> IsSpace(s[j])
    ensures SkipWord(s, i) == j
    decreases j - i
  {
    if i < j {
      SkipWordOver(s, i + 1, j);
    }
  }

  /** The end of s[lo..j] once its trailing whitespace is dropped. */
  function TrimEnd(s: string, lo: nat, j: nat): (e: nat)
    requires lo <= j <= |s|
    ensures lo <= e <= j
    ensures lo < e ==> !IsSpace(s[e - 1])
    decreases j
  {
    if lo < j && IsSpace(s[j - 1]) then TrimEnd(s, lo, j - 1) else j
  }

  /** Everything TrimEnd drops is whitespace. */
  lemma {:induction false} TrimEndSpec(s: string, lo: nat, j: nat)
    requires lo <= j <= |s|
    ensures forall k :: TrimEnd(s, lo, j) <= k < j ==> IsSpace(s[k])
    decreases j
  {
    if lo < j && IsSpace(s[j - 1]) {
      TrimEndSpec(s, lo, j - 1);
    }
  }

  /** str.strip(): the text between the leading and the trailing whitespace. */
  function Strip(s: string): (r: string)
    ensures |r| <= |s|
  {
    var a := SkipSpaces(s, 0);
    s[a..TrimEnd(s, a, |s|)]
  }

  /** The stripped text is empty exactly when the whole string is whitespace,
      which is how the script's `not line.strip()` recognises a blank line;
      otherwise it starts and ends with a non-whitespace character. */
  lemma StripSpec(s: string)
    ensures Strip(s) == [] <==> AllSpace(s)
    ensures Strip(s) != [] ==> !IsSpace(Strip(s)[0]) && !IsSpace(Strip(s)[|Strip(s)| - 1])
  {
    var a := SkipSpaces(s, 0);
    var e := TrimEnd(s, a, |s|);
    SkipSpacesSpec(s, 0);
    TrimEndSpec(s, a, |s|);
    if a < |s| {
      assert Strip(s)[0] == s[a];
      assert Strip(s)[|Strip(s)| - 1] == s[e - 1];
    }
  }

  /** The stripped text is a slice of s with only whitespace before and
      after it, so strip() removes nothing but leading and trailing
      whitespace. */
  lemma StripParts(s: string) returns (a: nat, e: nat)
    ensures a <= e <= |s| && Strip(s) == s[a..e]
    ensures AllSpace(s[..a]) && AllSpace(s[e..])
  {
    a := SkipSpaces(s, 0);
    e := TrimEnd(s, a, |s|);
    SkipSpacesSpec(s, 0);
    TrimEndSpec(s, a, |s|);
    assert forall k :: 0 <= k < a ==> s[..a][k] == s[k];
    assert forall k :: 0 <= k < |s| - e ==> s[e..][k] == s[e + k];
  }

  /** `not s.strip()`: the line is empty or whitespace only. */
  predicate IsBlank(s: string) {
    Strip(s) == []
  }

  /** Leading whitespace (such as rjust padding) disappears under strip(). */
  lemma StripOfPadded(pad: string, s: string)
    requires AllSpace(pad)
    requires s != [] && !IsSpace(s[0]) && !IsSpace(s[|s| - 1])
    ensures Strip(pad + s) == s
  {
    var t := pad + s;
    assert forall k :: 0 <= k < |pad| ==> IsSpace(t[k]);
    assert t[|pad|] == s[0];
    SkipSpacesOver(t, 0, |pad|);
    assert t[|t| - 1] == s[|s| - 1];
    assert TrimEnd(t, |pad|, |t|) == |t|;
    assert t[|pad|..|t|] == s;
  }

  /** A word padded with whitespace on the left strips back to the word and
      gains no comma. */
  lemma PaddedText(pad: string, s: string)
    requires AllSpace(pad) && s != [] && NoSpace(s) && ',' !in s
    ensures ',' !in pad + s && Strip(pad + s) == s
  {
    assert !IsSpace(s[0]) && !IsSpace(s[|s| - 1]);
    StripOfPadded(pad, s);
    assert ',' !in pad;
  }

  /** The tokens of s from position i on. */
  function WordsFrom(s: string, i: nat): seq<string>
    requires i <= |s|
    decreases |s| - i
  {
    var a := SkipSpaces(s, i);
    if a == |s| then []
    else
      var b := SkipWord(s, a);
      [s[a..b]] + WordsFrom(s, b)
  }

  /** str.split() without arguments: the maximal runs of non-whitespace, in order. */
  function SplitWords(s: string): seq<string> {
    WordsFrom(s, 0)
  }

  /** There are no tokens exactly when the string is blank. */
  lemma SplitWordsEmpty(s: string)
    ensures SplitWords(s) == [] <==> AllSpace(s)
    ensures SplitWords(s) == [] <==> IsBlank(s)
  {
    SkipSpacesSpec(s, 0);
    StripSpec(s);
  }

  /** Every token of str.split() is non-empty and holds no whitespace. */
  lemma SplitWordsAreWords(s: string)
    ensures forall k :: 0 <= k < |SplitWords(s)| ==> IsWord(SplitWords(s)[k])
  {
    WordsFromAreWords(s, 0);
  }

  lemma {:induction false} WordsFromAreWords(s: string, i: nat)
    requires i <= |s|
    ensures forall k :: 0 <= k < |WordsFrom(s, i)| ==> IsWord(WordsFrom(s, i)[k])
    decreases |s| - i
  {
    var a := SkipSpaces(s, i);
    if a < |s| {
      var b := SkipWord(s, a);
      var rest := WordsFrom(s, b);
      WordsFromAreWords(s, b);
      SkipWordSpec(s, a);
      assert IsWord(s[a..b]);
      var words := [s[a..b]] + rest;
      assert WordsFrom(s, i) == words;
      forall k | 1 <= k < |words|
        ensures IsWord(words[k])
      {
        assert words[k] == rest[k - 1];
      }
    }
  }

  /** " ".join(words) */
  function JoinWords(ws: seq<string>): string {
    if |ws| == 0 then []
    else if |ws| == 1 then ws[0]
    else ws[0] + (" " + JoinWords(ws[1..]))
  }

  /** Splitting on whitespace undoes joining with single spaces. */
  lemma {:induction false} SplitWordsOfJoin(ws: seq<string>)
    requires forall k :: 0 <= k < |ws| ==> IsWord(ws[k])
    ensures SplitWords(JoinWords(ws)) == ws
    decreases |ws|
  {
    if |ws| == 1 {
      assert JoinWords(ws) == ws[0] + [];
      WordsOfPrefix(ws[0], []);
    } else if |ws| > 1 {
      SplitWordsOfJoin(ws[1..]);
      SplitWordsAfterWord(ws[0], JoinWords(ws[1..]), ws[1..]);
      assert [ws[0]] + ws[1..] == ws;
    }
  }

  lemma SplitWordsAfterWord(w: string, u: string, tail: seq<string>)
    requires IsWord(w) && SplitWords(u) == tail
    ensures SplitWords(w + (" " + u)) == [w] + tail
  {
    var rest := " " + u;
    WordsOfPrefix(w, rest);
    assert SkipSpaces(rest, 0) == SkipSpaces(rest, 1);
    WordsFromShift(" ", u, 0);
  }

  /** A word followed by text that is empty or starts with whitespace is the
      first token, and the tokens after it are those of the text. */
  lemma WordsOfPrefix(w: string, rest: string)
    requires IsWord(w)
    requires rest == [] || IsSpace(rest[0])
    ensures SplitWords(w + rest) == [w] + SplitWords(rest)
  {
    var s := w + rest;
    assert forall k :: 0 <= k < |w| ==> s[k] == w[k];
    assert |w| < |s| ==> s[|w|] == rest[0];
    LeadingWord(s, |w|);
    assert s[..|w|] == w;
    WordsFromShift(w, rest, 0);
  }

  /** A run of n non-whitespace characters at the start of s, ended by
      whitespace or the end of s, is the first token. */
  lemma LeadingWord(s: string, n: nat)
    requires 0 < n <= |s|
    requires forall k :: 0 <= k < n ==> !IsSpace(s[k])
    requires n < |s| ==> IsSpace(s[n])
    ensures WordsFrom(s, 0) == [s[..n]] + WordsFrom(s, n)
  {
    SkipWordOver(s, 0, n);
    assert SkipSpaces(s, 0) == 0;
    assert s[0..n] == s[..n];
  }

  /** The tokens from a position depend only on the text from there on. */
  lemma {:induction false} WordsFromShift(p: string, u: string, k: nat)
    requires k <= |u|
    ensures WordsFrom(p + u, |p| + k) == WordsFrom(u, k)
    decreases |u| - k
  {
    var a := SkipSpaces(u, k);
    if a < |u| {
      var b := SkipWord(u, a);
      WordsFromShift(p, u, b);
      WordsFromShiftStep(p, u, k, a, b);
    } else {
      SkipSpacesShift(p, u, k);
    }
  }

  lemma WordsFromShiftStep(p: string, u: string, k: nat, a: nat, b: nat)
    requires k <= |u| && a == SkipSpaces(u, k) && a < |u| && b == SkipWord(u, a)
    requires WordsFrom(p + u, |p| + b) == WordsFrom(u, b)
    ensures WordsFrom(p + u, |p| + k) == WordsFrom(u, k)
  {
    SkipSpacesShift(p, u, k);
    SkipWordShift(p, u, a);
    SliceShift(p, u, a, b);
  }

  lemma SliceShift(p: string, u: string, a: nat, b: nat)
    requires a <= b <= |u|
    ensures (p + u)[|p| + a..|p| + b] == u[a..b]
  {
    var s := p + u;
    forall t | 0 <= t < b - a
      ensures s[|p| + a..|p| + b][t] == u[a..b][t]
    {
      assert s[|p| + (a + t)] == u[a + t];
    }
  }

  lemma {:induction false} SkipSpacesShift(p: string, u: string, k: nat)
    requires k <= |u|
    ensures SkipSpaces(p + u, |p| + k) == |p| + SkipSpaces(u, k)
    decreases |u| - k
  {
    if k < |u| {
      assert (p + u)[|p| + k] == u[k];
      if IsSpace(u[k]) {
        SkipSpacesShift(p, u, k + 1);
      }
    }
  }

  lemma {:induction false} SkipWordShift(p: string, u: string, k: nat)
    requires k <= |u|
    ensures SkipWord(p + u, |p| + k) == |p| + SkipWord(u, k)
    decreases |u| - k
  {
    if k < |u| {
      assert (p + u)[|p| + k] == u[k];
      if !IsSpace(u[k]) {
        SkipWordShift(p, u, k + 1);
      }
    }
  }

  /** The index of the first separator, or the length when there is none. */
  function FieldEnd(s: string, sep: char): (i: nat)
    ensures i <= |s|
  {
    if s == [] || s[0] == sep then 0 else 1 + FieldEnd(s[1..], sep)
  }

  /** FieldEnd(s, sep) is the position of the first separator. */
  lemma {:induction false} FieldEndSpec(s: string, sep: char)
    ensures sep !in s[..FieldEnd(s, sep)]
    ensures FieldEnd(s, sep) < |s| ==> s[FieldEnd(s, sep)] == sep
    decreases |s|
  {
    if s != [] && s[0] != sep {
      FieldEndSpec(s[1..], sep);
      assert s[..FieldEnd(s, sep)] == [s[0]] + s[1..][..FieldEnd(s[1..], sep)];
    }
  }

  /** sep.join(fields) */
  function Join(fs: seq<string>, sep: char): string {
    if |fs| == 0 then []
    else if |fs| == 1 then fs[0]
    else fs[0] + ([sep] + Join(fs[1..], sep))
  }

  /** str.split(sep): the text between consecutive separators, empty fields
      included; there is always at least one field. */
  function Split(s: string, sep: char): (r: seq<string>)
    ensures |r| >= 1
    decreases |s|
  {
    var i := FieldEnd(s, sep);
    if i == |s| then [s]
    else [s[..i]] + Split(s[i + 1..], sep)
  }

  /** No field of str.split(sep) holds the separator, and joining the
      fields with the separator gives the string back. */
  lemma SplitSpec(s: string, sep: char)
    ensures forall k :: 0 <= k < |Split(s, sep)| ==> sep !in Split(s, sep)[k]
    ensures Join(Split(s, sep), sep) == s
  {
    SplitFieldsSpec(s, sep);
    JoinOfSplit(s, sep);
  }

  lemma {:induction false} SplitFieldsSpec(s: string, sep: char)
    ensures forall k :: 0 <= k < |Split(s, sep)| ==> sep !in Split(s, sep)[k]
    decreases |s|
  {
    var i := FieldEnd(s, sep);
    FieldEndSpec(s, sep);
    if i < |s| {
      var rest := Split(s[i + 1..], sep);
      SplitFieldsSpec(s[i + 1..], sep);
      var r := [s[..i]] + rest;
      assert Split(s, sep) == r;
      forall k | 1 <= k < |r|
        ensures sep !in r[k]
      {
        assert r[k] == rest[k - 1];
      }
    }
  }

  lemma {:induction false} JoinOfSplit(s: string, sep: char)
    ensures Join(Split(s, sep), sep) == s
    decreases |s|
  {
    var i := FieldEnd(s, sep);
    FieldEndSpec(s, sep);
    if i == |s| {
      assert s[..i] == s;
    } else {
      var rest := Split(s[i + 1..], sep);
      JoinOfSplit(s[i + 1..], sep);
      var r := [s[..i]] + rest;
      assert Split(s, sep) == r;
      assert r[1..] == rest;
      assert s == s[..i] + ([sep] + s[i + 1..]);
    }
  }

  /** Splitting undoes joining when no field holds the separator. */
  lemma {:induction false} SplitOfJoin(fs: seq<string>, sep: char)
    requires |fs| >= 1
    requires forall k :: 0 <= k < |fs| ==> sep !in fs[k]
    ensures Split(Join(fs, sep), sep) == fs
    decreases |fs|
  {
    var s := Join(fs, sep);
    FieldEndOfPrefix(fs[0], if |fs| == 1 then [] else [sep] + Join(fs[1..], sep), sep);
    if |fs| == 1 {
      assert s == fs[0] + [];
    } else {
      var tail := Join(fs[1..], sep);
      assert s == fs[0] + ([sep] + tail);
      assert s[|fs[0]| + 1..] == tail;
      assert s[..|fs[0]|] == fs[0];
      SplitOfJoin(fs[1..], sep);
    }
  }

  lemma {:induction false} FieldEndOfPrefix(f: string, rest: string, sep: char)
    requires sep !in f
    requires rest == [] || rest[0] == sep
    ensures FieldEnd(f + rest, sep) == |f|
    decreases |f|
  {
    if f == [] {
      assert f + rest == rest;
    } else {
      assert (f + rest)[1..] == f[1..] + rest;
      assert f[0] in f;
      FieldEndOfPrefix(f[1..], rest, sep);
    }
  }

  /** list.index(x): the position of the first occurrence, if any. */
  function IndexOf<T(==)>(xs: seq<T>, x: T): (r: Option<nat>)
    ensures r.None? <==> x !in xs
    ensures r.Some? ==> r.value < |xs| && xs[r.value] == x && x !in xs[..r.value]
  {
    if xs == [] then None
    else if xs[0] == x then Some(0)
    else match IndexOf(xs[1..], x)
      case None => None
      case Some(i) =>
        assert xs[..i + 1] == [xs[0]] + xs[1..][..i];
        Some(i + 1)
  }

  /** The first occurrence is the one list.index reports. */
  lemma IndexOfIs<T>(xs: seq<T>, x: T, i: nat)
    requires i < |xs| && xs[i] == x && x !in xs[..i]
    ensures IndexOf(xs, x) == Some(i)
  {
  }
}
