/**
 * Terminal-styling helpers of worddiff: removal of ECMA-48 escape sequences
 * (`strip_ansi_codes`), the SGR underline wrapper (`underline_text`), padding
 * by visible length (`pad_text`), Python's `str.center` and the underlined
 * column title (`title`).
 */
module Ansi {
  import opened Strings

  const ESC: char := '\U{1B}'

  /** SGR "underline" and SGR "reset" (ECMA-48 section 8.3.117). */
  const UnderlineOn: string := [ESC, '[', '4', 'm']
  const Reset: string := [ESC, '[', '0', 'm']

  /** The byte classes of an escape sequence (ECMA-48 section 5.4). */
  predicate IsFe(c: char) { '@' <= c <= '_' }
  predicate IsParameter(c: char) { '0' <= c <= '?' }
  predicate IsIntermediate(c: char) { ' ' <= c <= '/' }
  predicate IsFinal(c: char) { '@' <= c <= '~' }

  /** Length of the longest prefix of parameter bytes. */
  function ParameterRun(s: string): (n: nat)
    ensures n <= |s|
    ensures forall i :: 0 <= i < n ==> IsParameter(s[i])
    ensures n < |s| ==> !IsParameter(s[n])
  {
    if s != [] && IsParameter(s[0]) then 1 + ParameterRun(s[1..]) else 0
  }

  /** Length of the longest prefix of intermediate bytes. */
  function IntermediateRun(s: string): (n: nat)
    ensures n <= |s|
    ensures forall i :: 0 <= i < n ==> IsIntermediate(s[i])
    ensures n < |s| ==> !IsIntermediate(s[n])
  {
    if s != [] && IsIntermediate(s[0]) then 1 + IntermediateRun(s[1..]) else 0
  }

  /**
   * The length of the escape sequence the pattern
   * `ESC [@-_] [0-?]* [ -/]* [@-~]` matches at the start of `s`, or 0 when
   * it matches nothing there. The three classes after the Fe byte are
   * disjoint, so taking each run greedily is the only way to match.
   */
  function EscapeLen(s: string): (n: nat)
    ensures n <= |s|
    ensures n != 0 ==> 3 <= n && s[0] == ESC
  {
    if |s| >= 2 && s[0] == ESC && IsFe(s[1]) then
      var p := 2 + ParameterRun(s[2..]);
      var q := p + IntermediateRun(s[p..]);
      if q < |s| && IsFinal(s[q]) then q + 1 else 0
    else 0
  }

  /** Parameter bytes up to `m`, intermediate bytes from `m` to the final byte. */
  predicate BodySplitsAt(x: string, m: int)
    requires 2 <= m <= |x| - 1
  {
    && (forall i :: 2 <= i < m ==> IsParameter(x[i]))
    && (forall i :: m <= i < |x| - 1 ==> IsIntermediate(x[i]))
  }

  /** `x` is, as a whole, one string the pattern matches. */
  predicate IsEscapeSequence(x: string) {
    && |x| >= 3
    && x[0] == ESC
    && IsFe(x[1])
    && IsFinal(x[|x| - 1])
    && exists m :: 2 <= m <= |x| - 1 && BodySplitsAt(x, m)
  }

  /** What the scanner removes is an escape sequence. */
  lemma EscapeLenSound(s: string)
    requires EscapeLen(s) > 0
    ensures IsEscapeSequence(s[..EscapeLen(s)])
  {
    var n := EscapeLen(s);
    var x := s[..n];
    var p := 2 + ParameterRun(s[2..]);
    assert forall i :: 2 <= i < p ==> s[2..][i - 2] == s[i];
    assert forall i :: p <= i < n - 1 ==> s[p..][i - p] == s[i];
    assert BodySplitsAt(x, p);
  }

  /** Any escape sequence at the start of `s` is the one the scanner removes. */
  lemma EscapeLenComplete(s: string, k: nat)
    requires k <= |s| && IsEscapeSequence(s[..k])
    ensures EscapeLen(s) == k
  {
    var x := s[..k];
    var m :| 2 <= m <= |x| - 1 && BodySplitsAt(x, m);
    var pr := ParameterRun(s[2..]);
    assert forall i :: 0 <= i < m - 2 ==> IsParameter(s[2..][i]) by {
      forall i | 0 <= i < m - 2 ensures IsParameter(s[2..][i]) {
        assert s[2..][i] == x[i + 2];
      }
    }
    assert !IsParameter(s[2..][m - 2]) by {
      assert s[2..][m - 2] == x[m];
    }
    assert pr == m - 2;
    var ir := IntermediateRun(s[m..]);
    assert forall i :: 0 <= i < k - 1 - m ==> IsIntermediate(s[m..][i]) by {
      forall i | 0 <= i < k - 1 - m ensures IsIntermediate(s[m..][i]) {
        assert s[m..][i] == x[i + m];
      }
    }
    assert !IsIntermediate(s[m..][k - 1 - m]) by {
      assert s[m..][k - 1 - m] == x[k - 1];
    }
    assert ir == k - 1 - m;
  }

  /**
   * `strip_ansi_codes`: `re.sub` scans left to right, removes each escape
   * sequence it finds and keeps every other character.
   */
  function StripAnsi(s: string): (r: string)
    ensures |r| <= |s|
    decreases |s|
  {
    if s == [] then []
    else
      var n := EscapeLen(s);
      if n > 0 then StripAnsi(s[n..]) else [s[0]] + StripAnsi(s[1..])
  }

  /** A character other than ESC is kept and the scan goes on after it. */
  lemma StripAnsiPlainStep(s: string)
    requires s != [] && s[0] != ESC
    ensures StripAnsi(s) == [s[0]] + StripAnsi(s[1..])
  {
    assert EscapeLen(s) == 0;
  }

  /** Characters before the first ESC are kept as they are. */
  lemma {:induction false} StripAnsiPlainPrefix(x: string, y: string)
    requires ESC !in x
    ensures StripAnsi(x + y) == x + StripAnsi(y)
    decreases |x|
  {
    if x == [] {
      assert x + y == y;
    } else {
      var s := x + y;
      assert s[0] == x[0];
      StripAnsiPlainStep(s);
      assert s[1..] == x[1..] + y;
      StripAnsiPlainPrefix(x[1..], y);
      ConcatAssoc([x[0]], x[1..], StripAnsi(y));
      assert [x[0]] + x[1..] == x;
    }
  }

  /** A string without ESC is left unchanged. */
  lemma StripAnsiEscFree(t: string)
    requires ESC !in t
    ensures StripAnsi(t) == t
  {
    StripAnsiPlainPrefix(t, []);
    assert t + [] == t;
  }

  /** The SGR codes written by `underline_text` and `title` are removed. */
  lemma StripAnsiSgr(code: string, y: string)
    requires code == UnderlineOn || code == Reset
    ensures StripAnsi(code + y) == StripAnsi(y)
  {
    var s := code + y;
    assert s[..4] == code;
    assert BodySplitsAt(code, 3);
    EscapeLenComplete(s, 4);
    assert s[4..] == y;
  }

  /** A string with no byte of the final class: nothing in it can end an escape sequence. */
  predicate Inert(u: string) {
    forall i :: 0 <= i < |u| ==> !IsFinal(u[i])
  }

  lemma {:induction false} StripAnsiInert(u: string)
    requires Inert(u)
    ensures StripAnsi(u) == u
    decreases |u|
  {
    if u != [] {
      assert EscapeLen(u) == 0 by {
        if |u| >= 2 { assert !IsFinal(u[1]); }
      }
      StripAnsiInert(u[1..]);
      assert u == [u[0]] + u[1..];
    }
  }

  /** Appending inert characters cannot complete or extend an escape sequence. */
  lemma EscapeLenAppendInert(t: string, u: string)
    requires t != [] && Inert(u)
    ensures EscapeLen(t + u) == EscapeLen(t)
  {
    var s := t + u;
    var k := EscapeLen(t);
    if k > 0 {
      EscapeLenSound(t);
      assert s[..k] == t[..k];
      EscapeLenComplete(s, k);
    } else if EscapeLen(s) > 0 {
      var n := EscapeLen(s);
      EscapeLenSound(s);
      assert n <= |t|;
      assert s[..n] == t[..n];
      EscapeLenComplete(t, n);
      assert false;
    }
  }

  /** Stripping a string followed by inert characters keeps those characters. */
  lemma {:induction false} StripAnsiAppendInert(t: string, u: string)
    requires Inert(u)
    ensures StripAnsi(t + u) == StripAnsi(t) + u
    decreases |t|
  {
    if t == [] {
      assert t + u == u;
      StripAnsiInert(u);
    } else {
      EscapeLenAppendInert(t, u);
      var n := EscapeLen(t);
      if n > 0 {
        assert (t + u)[n..] == t[n..] + u;
        StripAnsiAppendInert(t[n..], u);
      } else {
        assert (t + u)[0] == t[0];
        assert (t + u)[1..] == t[1..] + u;
        StripAnsiAppendInert(t[1..], u);
      }
    }
  }

  /** `underline_text`. */
  function UnderlineText(text: string, underline: bool): string {
    if underline then UnderlineOn + text + Reset else text
  }

  /** An underlined ESC-free prefix shows as the prefix itself. */
  lemma StripAnsiUnderlinePrefix(t: string, underline: bool, z: string)
    requires ESC !in t
    ensures StripAnsi(UnderlineText(t, underline) + z) == t + StripAnsi(z)
  {
    if underline {
      assert UnderlineOn + t + Reset + z == UnderlineOn + (t + (Reset + z));
      StripAnsiSgr(UnderlineOn, t + (Reset + z));
      StripAnsiPlainPrefix(t, Reset + z);
      StripAnsiSgr(Reset, z);
    } else {
      StripAnsiPlainPrefix(t, z);
    }
  }

  /** Underlining does not change the visible text of an ESC-free string. */
  lemma StripAnsiUnderline(t: string, underline: bool)
    requires ESC !in t
    ensures StripAnsi(UnderlineText(t, underline)) == t
  {
    StripAnsiUnderlinePrefix(t, underline, []);
    assert UnderlineText(t, underline) + [] == UnderlineText(t, underline);
    assert t + [] == t;
  }

  /**
   * `pad_text`: right-pads with spaces until the visible length reaches
   * `width`; never truncates.
   */
  function PadText(text: string, width: int): (r: string)
    ensures |r| >= |text| && r[..|text|] == text
    ensures forall i :: |text| <= i < |r| ==> r[i] == ' '
  {
    var paddingNeeded := width - |StripAnsi(text)|;
    if paddingNeeded > 0 then text + Spaces(paddingNeeded) else text
  }

  /**
   * Padding is measured on the visible text: afterwards the visible text is
   * the old one followed by spaces up to `width`, and text already that wide
   * is left as it is.
   */
  lemma PadTextVisible(text: string, width: int)
    ensures StripAnsi(PadText(text, width)) == StripAnsi(text) + Spaces(width - |StripAnsi(text)|)
    ensures |StripAnsi(PadText(text, width))| == Max(width, |StripAnsi(text)|)
    ensures |StripAnsi(text)| >= width ==> PadText(text, width) == text
  {
    var paddingNeeded := width - |StripAnsi(text)|;
    if paddingNeeded > 0 {
      StripAnsiAppendInert(text, Spaces(paddingNeeded));
    } else {
      assert StripAnsi(text) + Spaces(paddingNeeded) == StripAnsi(text);
    }
  }

  /**
   * The margins of Python's `str.center` for a string of length `len` in a
   * field of `width`: `left = marg // 2 + (marg & width & 1)`.
   */
  function CenterMargins(len: nat, width: int): (m: (nat, nat))
    requires len < width
    ensures m.0 + m.1 + len == width
    ensures m.0 == m.1 || m.0 == m.1 + 1 || m.1 == m.0 + 1
    ensures m.0 > m.1 <==> (width - len) % 2 == 1 && width % 2 == 1
    ensures m.1 > m.0 <==> (width - len) % 2 == 1 && width % 2 == 0
  {
    var marg := width - len;
    var left := marg / 2 + (if marg % 2 == 1 && width % 2 == 1 then 1 else 0);
    (left, marg - left)
  }

  /** `str.center(width)`. */
  function Center(t: string, width: int): (r: string)
    ensures |r| == Max(width, |t|)
    ensures |t| >= width ==> r == t
    // a narrower text sits after the left margin, with spaces on both sides
    ensures |t| < width ==>
      var left := CenterMargins(|t|, width).0;
      && r[left..left + |t|] == t
      && forall i :: 0 <= i < |r| && !(left <= i < left + |t|) ==> r[i] == ' '
  {
    if |t| >= width then t
    else
      var m := CenterMargins(|t|, width);
      var r := Spaces(m.0) + t + Spaces(m.1);
      assert r[m.0..m.0 + |t|] == t;
      r
  }

  /** `title`: the text centred in `width` and underlined. */
  function Title(text: string, width: int): string {
    UnderlineOn + Center(text, width) + Reset
  }

  /** Centring an ESC-free text introduces no ESC. */
  lemma CenterEscFree(t: string, width: int)
    requires ESC !in t
    ensures ESC !in Center(t, width)
  {
    if |t| < width {
      var m := CenterMargins(|t|, width);
      assert ESC !in Spaces(m.0);
      assert ESC !in Spaces(m.1);
    }
  }

  /** The visible text of a title is the centred text. */
  lemma StripAnsiTitle(t: string, width: int)
    requires ESC !in t
    ensures StripAnsi(Title(t, width)) == Center(t, width)
  {
    CenterEscFree(t, width);
    StripAnsiUnderline(Center(t, width), true);
  }

  /** A title followed by more text shows as the centred text, then the rest stripped. */
  lemma StripAnsiTitlePrefix(t: string, width: int, z: string)
    requires ESC !in t
    ensures StripAnsi(Title(t, width) + z) == Center(t, width) + StripAnsi(z)
  {
    CenterEscFree(t, width);
    assert Title(t, width) == UnderlineText(Center(t, width), true);
    StripAnsiUnderlinePrefix(Center(t, width), true, z);
  }
}
