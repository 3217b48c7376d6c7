/**
 * Plain-string helpers of worddiff: Python's whitespace `str.split()`,
 * `str.join`, the whitespace normalisation of `preprocess_line`, and the
 * comma split of `parse`.
 */
module Strings {

  /** The characters Python's `str.split()` and `str.strip()` treat as whitespace. */
  predicate IsSpace(c: char) {
    || c == ' ' || c == '\t' || c == '\n' || c == '\r'
    || c == '\U{0B}' || c == '\U{0C}'
    || ('\U{1C}' <= c <= '\U{1F}')
    || c == '\U{85}' || c == '\U{A0}' || c == '\U{1680}'
    || ('\U{2000}' <= c <= '\U{200A}')
    || c == '\U{2028}' || c == '\U{2029}' || c == '\U{202F}' || c == '\U{205F}' || c == '\U{3000}'
  }

  /** A word as `str.split()` produces it: non-empty, no whitespace. */
  predicate IsWord(w: string) {
    |w| > 0 && forall i :: 0 <= i < |w| ==> !IsSpace(w[i])
  }

  /** `s.strip() == ''`: the string is empty or whitespace only. */
  predicate IsBlank(s: string) {
    forall i :: 0 <= i < |s| ==> IsSpace(s[i])
  }

  function Max(x: int, y: int): int {
    if x < y then y else x
  }

  lemma ConcatAssoc<T>(x: seq<T>, y: seq<T>, z: seq<T>)
    ensures x + y + z == x + (y + z)
  {
  }

  lemma PrefixSnoc<T>(s: seq<T>, k: nat)
    requires k < |s|
    ensures s[..k + 1] == s[..k] + [s[k]]
  {
  }

  /** `' ' * n` (empty for n <= 0). */
  function Spaces(n: int): string {
    seq(if n > 0 then n else 0, _ => ' ')
  }

  /** `sep.join(parts)`. */
  function Join(sep: string, parts: seq<string>): string {
    if |parts| == 0 then ""
    else if |parts| == 1 then parts[0]
    else parts[0] + sep + Join(sep, parts[1..])
  }

  /** Length of the longest whitespace-free prefix of `s`. */
  function WordLen(s: string): (n: nat)
    ensures n <= |s|
    ensures forall i :: 0 <= i < n ==> !IsSpace(s[i])
    ensures n < |s| ==> IsSpace(s[n])
  {
    if s == [] || IsSpace(s[0]) then 0 else 1 + WordLen(s[1..])
  }

  /** `s.split()`: the maximal whitespace-free runs of `s`, in order. */
  function Words(s: string): (ws: seq<string>)
    ensures forall i :: 0 <= i < |ws| ==> IsWord(ws[i])
    decreases |s|
  {
    if s == [] then []
    else if IsSpace(s[0]) then Words(s[1..])
    else
      var n := WordLen(s);
      [s[..n]] + Words(s[n..])
  }

  /** `preprocess_line`: `' '.join(line.split())`. */
  function PreprocessLine(line: string): string {
    Join(" ", Words(line))
  }

  /**
   * A whitespace-normalised line: every whitespace character is a single
   * space that has a non-whitespace character on both sides (so there is no
   * leading or trailing whitespace and no run of two or more).
   */
  predicate Normalised(s: string) {
    forall i :: 0 <= i < |s| && IsSpace(s[i]) ==>
      s[i] == ' ' && 0 < i < |s| - 1 && !IsSpace(s[i - 1]) && !IsSpace(s[i + 1])
  }

  lemma {:induction false} WordLenOfWord(w: string, t: string)
    requires forall i :: 0 <= i < |w| ==> !IsSpace(w[i])
    requires t == [] || IsSpace(t[0])
    ensures WordLen(w + t) == |w|
    decreases |w|
  {
    if w == [] {
      assert w + t == t;
    } else {
      assert (w + t)[1..] == w[1..] + t;
      WordLenOfWord(w[1..], t);
    }
  }

  /** Splitting words joined by single spaces gives the words back. */
  lemma {:induction false} WordsOfJoin(ws: seq<string>)
    requires forall i :: 0 <= i < |ws| ==> IsWord(ws[i])
    ensures Words(Join(" ", ws)) == ws
    decreases |ws|
  {
    if |ws| == 0 {
    } else if |ws| == 1 {
      var w := ws[0];
      WordLenOfWord(w, []);
      assert w + [] == w;
      assert w[..|w|] == w;
      assert w[|w|..] == [];
    } else {
      var w, rest := ws[0], Join(" ", ws[1..]);
      var s := w + " " + rest;
      assert Join(" ", ws) == s;
      assert s == w + (" " + rest);
      WordLenOfWord(w, " " + rest);
      assert s[..|w|] == w;
      assert s[|w|..] == " " + rest;
      assert (" " + rest)[1..] == rest;
      WordsOfJoin(ws[1..]);
      assert ws == [w] + ws[1..];
    }
  }

  /** `s` with every whitespace character removed. */
  function NonSpace(s: string): string {
    if s == [] then [] else (if IsSpace(s[0]) then [] else [s[0]]) + NonSpace(s[1..])
  }

  lemma {:induction false} NonSpaceOfWord(w: string, y: string)
    requires forall i :: 0 <= i < |w| ==> !IsSpace(w[i])
    ensures NonSpace(w + y) == w + NonSpace(y)
    decreases |w|
  {
    if w == [] {
      assert w + y == y;
    } else {
      assert (w + y)[0] == w[0];
      assert (w + y)[1..] == w[1..] + y;
      NonSpaceOfWord(w[1..], y);
      ConcatAssoc([w[0]], w[1..], NonSpace(y));
      assert [w[0]] + w[1..] == w;
    }
  }

  lemma JoinNothingCons(w: string, rest: seq<string>)
    ensures Join("", [w] + rest) == w + Join("", rest)
  {
    if rest == [] {
      assert [w] + rest == [w];
      assert w + [] == w;
    } else {
      assert ([w] + rest)[1..] == rest;
      assert w + "" == w;
    }
  }

  /** The words of `s.split()`, run together, are `s` without its whitespace. */
  lemma {:induction false} WordsCoverText(s: string)
    ensures Join("", Words(s)) == NonSpace(s)
    decreases |s|
  {
    if s == [] {
    } else if IsSpace(s[0]) {
      WordsCoverText(s[1..]);
    } else {
      var n := WordLen(s);
      WordsCoverText(s[n..]);
      NonSpaceOfWord(s[..n], s[n..]);
      assert s[..n] + s[n..] == s;
      JoinNothingCons(s[..n], Words(s[n..]));
    }
  }

  /** `WordLen` is the position of the first whitespace character, or the length. */
  lemma WordLenUnique(s: string, k: nat)
    requires k <= |s|
    requires forall i :: 0 <= i < k ==> !IsSpace(s[i])
    requires k < |s| ==> IsSpace(s[k])
    ensures WordLen(s) == k
  {
  }

  /** Leading whitespace does not change the split. */
  lemma {:induction false} WordsSkipSpace(sp: string, y: string)
    requires IsBlank(sp)
    ensures Words(sp + y) == Words(y)
    decreases |sp|
  {
    if sp == [] {
      assert sp + y == y;
    } else {
      assert (sp + y)[0] == sp[0];
      assert (sp + y)[1..] == sp[1..] + y;
      WordsSkipSpace(sp[1..], y);
    }
  }

  /**
   * Words are maximal: a run of whitespace, however long and of whatever
   * kind, separates the words before it from the words after it.
   */
  lemma {:induction false} WordsSplitAtSpace(x: string, sp: string, y: string)
    requires |sp| > 0 && IsBlank(sp)
    ensures Words(x + sp + y) == Words(x) + Words(y)
    decreases |x|
  {
    var s := x + sp + y;
    if x == [] {
      assert s == sp + y;
      WordsSkipSpace(sp, y);
    } else if IsSpace(x[0]) {
      assert s[0] == x[0];
      assert s[1..] == x[1..] + sp + y;
      WordsSplitAtSpace(x[1..], sp, y);
    } else {
      var n := WordLen(x);
      assert s[0] == x[0];
      assert n >= 1;
      assert forall i :: 0 <= i < |x| ==> s[i] == x[i];
      if n == |x| {
        assert s[n] == sp[0];
      }
      WordLenUnique(s, n);
      assert s[..n] == x[..n];
      assert s[n..] == x[n..] + sp + y;
      WordsSplitAtSpace(x[n..], sp, y);
      ConcatAssoc([x[..n]], Words(x[n..]), Words(y));
    }
  }

  /** Joining a non-empty list of words starts and ends with a non-whitespace character. */
  lemma {:induction false} JoinWordsEnds(ws: seq<string>)
    requires |ws| > 0
    requires forall i :: 0 <= i < |ws| ==> IsWord(ws[i])
    ensures |Join(" ", ws)| > 0
    ensures !IsSpace(Join(" ", ws)[0])
    ensures !IsSpace(Join(" ", ws)[|Join(" ", ws)| - 1])
    decreases |ws|
  {
    if |ws| > 1 {
      JoinWordsEnds(ws[1..]);
    }
  }

  /** Words joined by single spaces form a normalised line. */
  lemma {:induction false} JoinWordsNormalised(ws: seq<string>)
    requires forall i :: 0 <= i < |ws| ==> IsWord(ws[i])
    ensures Normalised(Join(" ", ws))
    decreases |ws|
  {
    if |ws| > 1 {
      var w, rest := ws[0], Join(" ", ws[1..]);
      var s := w + " " + rest;
      JoinWordsNormalised(ws[1..]);
      JoinWordsEnds(ws[1..]);
      assert Join(" ", ws) == s;
      forall i | 0 <= i < |s| && IsSpace(s[i])
        ensures s[i] == ' ' && 0 < i < |s| - 1 && !IsSpace(s[i - 1]) && !IsSpace(s[i + 1])
      {
        if i == |w| {
          assert s[i + 1] == rest[0];
        } else if i > |w| {
          var j := i - |w| - 1;
          assert s[i] == rest[j];
          assert IsSpace(rest[j]);
          assert s[i - 1] == rest[j - 1];
          assert s[i + 1] == rest[j + 1];
        }
      }
    }
  }

  /**
   * `preprocess_line` leaves no leading, trailing or doubled whitespace,
   * keeps the words of its input, and is idempotent.
   */
  lemma PreprocessLineNormalises(line: string)
    ensures Normalised(PreprocessLine(line))
    ensures Words(PreprocessLine(line)) == Words(line)
    ensures PreprocessLine(PreprocessLine(line)) == PreprocessLine(line)
  {
    JoinWordsNormalised(Words(line));
    WordsOfJoin(Words(line));
  }

  /** `s.split(sep)` for a one-character separator: empty fields are kept. */
  function SplitOn(s: string, sep: char): (parts: seq<string>)
    ensures |parts| >= 1
    ensures |parts| > 1 <==> sep in s
    ensures forall i :: 0 <= i < |parts| ==> sep !in parts[i]
  {
    if s == [] then [""]
    else
      var rest := SplitOn(s[1..], sep);
      assert sep in s <==> s[0] == sep || sep in s[1..] by {
        assert s == [s[0]] + s[1..];
      }
      if s[0] == sep then [""] + rest
      else [[s[0]] + rest[0]] + rest[1..]
  }

  /** Joining the fields of a split with the separator gives the string back. */
  lemma {:induction false} JoinSplitOn(s: string, sep: char)
    ensures Join([sep], SplitOn(s, sep)) == s
  {
    if s != [] {
      var rest := SplitOn(s[1..], sep);
      JoinSplitOn(s[1..], sep);
      if s[0] == sep {
        assert SplitOn(s, sep) == [""] + rest;
        assert ([""] + rest)[1..] == rest;
      } else {
        var parts := SplitOn(s, sep);
        assert parts == [[s[0]] + rest[0]] + rest[1..];
        if |rest| == 1 {
          assert Join([sep], rest) == rest[0];
        } else {
          assert parts[1..] == rest[1..];
          assert Join([sep], rest) == rest[0] + [sep] + Join([sep], rest[1..]);
        }
      }
    }
  }

  /** `parse`: a comma-separated pair; a single name stands for both. */
  function Parse(colorStr: string): (names: seq<string>)
    ensures |names| >= 2
    ensures forall i :: 0 <= i < |names| ==> ',' !in names[i]
  {
    var colors := SplitOn(colorStr, ',');
    if |colors| > 1 then colors else colors + colors
  }

  /** Without a comma, `parse(s)` is `[s, s]`. */
  lemma ParseSingle(s: string)
    requires ',' !in s
    ensures Parse(s) == [s, s]
  {
    var colors := SplitOn(s, ',');
    assert |colors| == 1;
    JoinSplitOn(s, ',');
  }

  /** With a comma, the fields of `parse(s)` joined with ',' give `s` back. */
  lemma ParseRoundTrip(s: string)
    requires ',' in s
    ensures Join(",", Parse(s)) == s
  {
    JoinSplitOn(s, ',');
  }
}
