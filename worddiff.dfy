/**
 * The word classifier of worddiff (`word_diff` and its inner `apply_styles`).
 * The alignment that `difflib.SequenceMatcher` computes is an input: a list
 * of opcodes that satisfies `WellFormed`; `termcolor.colored` is the
 * uninterpreted function `Style.colored`.
 */
module WordDiff {
  import opened Strings
  import opened Ansi

  datatype Tag = Equal | Replace | Delete | Insert

  /** `(tag, i1, i2, j1, j2)`: left range `[i1, i2)`, right range `[j1, j2)`. */
  datatype Opcode = Opcode(tag: Tag, i1: nat, i2: nat, j1: nat, j2: nat)

  predicate InBounds(op: Opcode, n: nat, m: nat) {
    op.i1 <= op.i2 <= n && op.j1 <= op.j2 <= m
  }

  predicate AllInBounds(ops: seq<Opcode>, n: nat, m: nat) {
    forall k :: 0 <= k < |ops| ==> InBounds(ops[k], n, m)
  }

  /** The ranges of `ops` follow one another and cover `[0, n)` on the left and `[0, m)` on the right. */
  predicate Contiguous(ops: seq<Opcode>, n: nat, m: nat)
    decreases |ops|
  {
    if ops == [] then n == 0 && m == 0
    else
      var last := ops[|ops| - 1];
      && last.i2 == n && last.j2 == m
      && last.i1 <= last.i2 && last.j1 <= last.j2
      && Contiguous(ops[..|ops| - 1], last.i1, last.j1)
  }

  /**
   * What each tag promises about the words its ranges designate; as
   * `get_opcodes` builds them, no opcode spans two empty ranges.
   */
  predicate Agrees(op: Opcode, a: seq<string>, b: seq<string>) {
    && InBounds(op, |a|, |b|)
    && match op.tag
       case Equal => op.i1 < op.i2 && op.i2 - op.i1 == op.j2 - op.j1 && a[op.i1..op.i2] == b[op.j1..op.j2]
       case Replace => op.i1 < op.i2 && op.j1 < op.j2
       case Delete => op.i1 < op.i2 && op.j1 == op.j2
       case Insert => op.i1 == op.i2 && op.j1 < op.j2
  }

  predicate AllAgree(ops: seq<Opcode>, a: seq<string>, b: seq<string>) {
    forall k :: 0 <= k < |ops| ==> Agrees(ops[k], a, b)
  }

  /** The opcodes `SequenceMatcher(None, a, b).get_opcodes()` may return. */
  predicate WellFormed(ops: seq<Opcode>, a: seq<string>, b: seq<string>) {
    Contiguous(ops, |a|, |b|) && AllAgree(ops, a, b)
  }

  /** How a word is shown: unchanged, or which side of which edit it belongs to. */
  datatype Class = Plain | ReplacedLeft | ReplacedRight | Deleted | Inserted

  datatype Token = Token(text: string, cls: Class)

  /** The words `words[lo..hi]`, each with class `cls`. */
  function Tagged(words: seq<string>, lo: nat, hi: nat, cls: Class): seq<Token>
    requires lo <= hi <= |words|
  {
    seq(hi - lo, k requires 0 <= k < hi - lo => Token(words[lo + k], cls))
  }

  /** What one opcode contributes to the left and to the right output. */
  function ClassifyOp(op: Opcode, a: seq<string>, b: seq<string>): (seq<Token>, seq<Token>)
    requires InBounds(op, |a|, |b|)
  {
    match op.tag
    case Equal => (Tagged(a, op.i1, op.i2, Plain), Tagged(b, op.j1, op.j2, Plain))
    case Replace => (Tagged(a, op.i1, op.i2, ReplacedLeft), Tagged(b, op.j1, op.j2, ReplacedRight))
    case Delete => (Tagged(a, op.i1, op.i2, Deleted), [])
    case Insert => ([], Tagged(b, op.j1, op.j2, Inserted))
  }

  predicate LeftClass(c: Class) { c == Plain || c == ReplacedLeft || c == Deleted }
  predicate RightClass(c: Class) { c == Plain || c == ReplacedRight || c == Inserted }

  /**
   * The two token streams of the word classifier, opcode by opcode.
   * A deleted or left-hand replaced word never reaches the right side, and
   * an inserted or right-hand replaced word never reaches the left side.
   */
  function Classify(ops: seq<Opcode>, a: seq<string>, b: seq<string>): (sides: (seq<Token>, seq<Token>))
    requires AllInBounds(ops, |a|, |b|)
    ensures forall i :: 0 <= i < |sides.0| ==> LeftClass(sides.0[i].cls)
    ensures forall i :: 0 <= i < |sides.1| ==> RightClass(sides.1[i].cls)
    decreases |ops|
  {
    if ops == [] then ([], [])
    else
      var init := Classify(ops[..|ops| - 1], a, b);
      var last := ClassifyOp(ops[|ops| - 1], a, b);
      (init.0 + last.0, init.1 + last.1)
  }

  function Texts(ts: seq<Token>): (words: seq<string>)
    ensures |words| == |ts|
  {
    seq(|ts|, i requires 0 <= i < |ts| => ts[i].text)
  }

  lemma TextsAppend(x: seq<Token>, y: seq<Token>)
    ensures Texts(x + y) == Texts(x) + Texts(y)
  {
    assert forall i :: 0 <= i < |x| + |y| ==> Texts(x + y)[i] == (Texts(x) + Texts(y))[i];
  }

  lemma TextsTagged(words: seq<string>, lo: nat, hi: nat, cls: Class)
    requires lo <= hi <= |words|
    ensures Texts(Tagged(words, lo, hi, cls)) == words[lo..hi]
  {
  }

  /** One opcode contributes exactly the words of its ranges (none for an empty range). */
  lemma ClassifyOpTexts(op: Opcode, a: seq<string>, b: seq<string>)
    requires Agrees(op, a, b)
    ensures Texts(ClassifyOp(op, a, b).0) == a[op.i1..op.i2]
    ensures Texts(ClassifyOp(op, a, b).1) == b[op.j1..op.j2]
  {
    match op.tag
    case Equal =>
      TextsTagged(a, op.i1, op.i2, Plain);
      TextsTagged(b, op.j1, op.j2, Plain);
    case Replace =>
      TextsTagged(a, op.i1, op.i2, ReplacedLeft);
      TextsTagged(b, op.j1, op.j2, ReplacedRight);
    case Delete =>
      TextsTagged(a, op.i1, op.i2, Deleted);
    case Insert =>
      TextsTagged(b, op.j1, op.j2, Inserted);
  }

  /** Classifying one more opcode appends its contribution. */
  lemma ClassifySnoc(ops: seq<Opcode>, k: nat, a: seq<string>, b: seq<string>)
    requires k < |ops| && AllInBounds(ops, |a|, |b|)
    ensures Classify(ops[..k + 1], a, b) ==
      (Classify(ops[..k], a, b).0 + ClassifyOp(ops[k], a, b).0,
       Classify(ops[..k], a, b).1 + ClassifyOp(ops[k], a, b).1)
  {
    assert ops[..k + 1][..k] == ops[..k];
  }

  lemma AllAgreePrefix(ops: seq<Opcode>, a: seq<string>, b: seq<string>)
    requires ops != [] && AllAgree(ops, a, b)
    ensures AllAgree(ops[..|ops| - 1], a, b)
  {
    var init := ops[..|ops| - 1];
    forall k | 0 <= k < |init| ensures Agrees(init[k], a, b) {
      assert init[k] == ops[k];
    }
  }

  /**
   * Every word of the covered prefixes appears exactly once, in its original
   * order, on its own side.
   */
  lemma {:induction false} ClassifyCoversPrefix(ops: seq<Opcode>, a: seq<string>, b: seq<string>, n: nat, m: nat)
    requires Contiguous(ops, n, m) && n <= |a| && m <= |b|
    requires AllAgree(ops, a, b)
    ensures Texts(Classify(ops, a, b).0) == a[..n]
    ensures Texts(Classify(ops, a, b).1) == b[..m]
    decreases |ops|
  {
    if ops != [] {
      var init, last := ops[..|ops| - 1], ops[|ops| - 1];
      AllAgreePrefix(ops, a, b);
      ClassifyCoversPrefix(init, a, b, last.i1, last.j1);
      var c, d := Classify(init, a, b), ClassifyOp(last, a, b);
      assert Classify(ops, a, b) == (c.0 + d.0, c.1 + d.1);
      ClassifyOpTexts(last, a, b);
      TextsAppend(c.0, d.0);
      TextsAppend(c.1, d.1);
      assert a[..last.i1] + a[last.i1..last.i2] == a[..n];
      assert b[..last.j1] + b[last.j1..last.j2] == b[..m];
    }
  }

  /** Every left word once and in order on the left; every right word likewise on the right. */
  lemma ClassifyCovers(ops: seq<Opcode>, a: seq<string>, b: seq<string>)
    requires WellFormed(ops, a, b)
    ensures Texts(Classify(ops, a, b).0) == a
    ensures Texts(Classify(ops, a, b).1) == b
  {
    ClassifyCoversPrefix(ops, a, b, |a|, |b|);
    assert a[..|a|] == a && b[..|b|] == b;
  }

  /**
   * Against a side with no words, every word of the other side is inserted
   * (or deleted), never replaced.
   */
  lemma {:induction false} ClassifyAgainstEmpty(ops: seq<Opcode>, a: seq<string>, b: seq<string>)
    requires AllInBounds(ops, |a|, |b|) && AllAgree(ops, a, b)
    ensures a == [] ==> Classify(ops, a, b).0 == []
    ensures a == [] ==> forall i :: 0 <= i < |Classify(ops, a, b).1| ==> Classify(ops, a, b).1[i].cls == Inserted
    ensures b == [] ==> Classify(ops, a, b).1 == []
    ensures b == [] ==> forall i :: 0 <= i < |Classify(ops, a, b).0| ==> Classify(ops, a, b).0[i].cls == Deleted
    decreases |ops|
  {
    if ops != [] {
      var init, last := ops[..|ops| - 1], ops[|ops| - 1];
      AllAgreePrefix(ops, a, b);
      ClassifyAgainstEmpty(init, a, b);
      assert Agrees(last, a, b);
      var c, d := Classify(init, a, b), ClassifyOp(last, a, b);
      assert Classify(ops, a, b) == (c.0 + d.0, c.1 + d.1);
    }
  }

  /** The texts of the unchanged (`Plain`) tokens, in order. */
  function Plains(ts: seq<Token>): seq<string>
    decreases |ts|
  {
    if ts == [] then []
    else
      var last := ts[|ts| - 1];
      Plains(ts[..|ts| - 1]) + (if last.cls == Plain then [last.text] else [])
  }

  lemma {:induction false} PlainsAppend(x: seq<Token>, y: seq<Token>)
    ensures Plains(x + y) == Plains(x) + Plains(y)
    decreases |y|
  {
    if y == [] {
      assert x + y == x;
    } else {
      var y' := y[..|y| - 1];
      assert (x + y)[..|x + y| - 1] == x + y';
      PlainsAppend(x, y');
    }
  }

  lemma {:induction false} PlainsTagged(words: seq<string>, lo: nat, hi: nat, cls: Class)
    requires lo <= hi <= |words|
    ensures Plains(Tagged(words, lo, hi, cls)) == if cls == Plain then words[lo..hi] else []
    decreases hi - lo
  {
    if lo < hi {
      var ts := Tagged(words, lo, hi, cls);
      assert ts[..|ts| - 1] == Tagged(words, lo, hi - 1, cls);
      PlainsTagged(words, lo, hi - 1, cls);
      assert words[lo..hi] == words[lo..hi - 1] + [words[hi - 1]];
    }
  }

  /**
   * The unchanged words shown on the left are, one for one and in order,
   * the unchanged words shown on the right.
   */
  lemma {:induction false} ClassifyPlainsAgree(ops: seq<Opcode>, a: seq<string>, b: seq<string>)
    requires AllInBounds(ops, |a|, |b|) && AllAgree(ops, a, b)
    ensures Plains(Classify(ops, a, b).0) == Plains(Classify(ops, a, b).1)
    decreases |ops|
  {
    if ops != [] {
      var init, last := ops[..|ops| - 1], ops[|ops| - 1];
      AllAgreePrefix(ops, a, b);
      ClassifyPlainsAgree(init, a, b);
      var c, d := Classify(init, a, b), ClassifyOp(last, a, b);
      PlainsAppend(c.0, d.0);
      PlainsAppend(c.1, d.1);
      match last.tag
      case Equal =>
        PlainsTagged(a, last.i1, last.i2, Plain);
        PlainsTagged(b, last.j1, last.j2, Plain);
      case Replace =>
        PlainsTagged(a, last.i1, last.i2, ReplacedLeft);
        PlainsTagged(b, last.j1, last.j2, ReplacedRight);
      case Delete =>
        PlainsTagged(a, last.i1, last.i2, Deleted);
        assert Plains([]) == [];
      case Insert =>
        PlainsTagged(b, last.j1, last.j2, Inserted);
        assert Plains([]) == [];
    }
  }

  /** The colours of `word_diff`'s `colors` dictionary. */
  datatype Palette = Palette(replaceLeft: string, replaceRight: string, insert: string, delete: string)

  /** The styling settings of one run, with `termcolor.colored` as `colored`. */
  datatype Style = Style(palette: Palette, color: bool, underline: bool, colored: (string, string) -> string)

  /** `apply_styles`: colour (when enabled), then underline (when enabled). */
  function ApplyStyles(word: string, wordColor: string, style: Style): string {
    UnderlineText(if style.color then style.colored(word, wordColor) else word, style.underline)
  }

  /** Without colour, a styled word shows as the word itself, underlined or not. */
  lemma ApplyStylesVisible(word: string, wordColor: string, style: Style)
    requires !style.color && ESC !in word
    ensures ApplyStyles(word, wordColor, style) == UnderlineText(word, style.underline)
    ensures StripAnsi(ApplyStyles(word, wordColor, style)) == word
  {
    StripAnsiUnderline(word, style.underline);
  }

  /** How a classified token is written: unchanged words as they are, the others styled. */
  function Render(t: Token, style: Style): string {
    match t.cls
    case Plain => t.text
    case ReplacedLeft => ApplyStyles(t.text, style.palette.replaceLeft, style)
    case ReplacedRight => ApplyStyles(t.text, style.palette.replaceRight, style)
    case Deleted => ApplyStyles(t.text, style.palette.delete, style)
    case Inserted => ApplyStyles(t.text, style.palette.insert, style)
  }

  function RenderAll(ts: seq<Token>, style: Style): (out: seq<string>)
    ensures |out| == |ts|
  {
    seq(|ts|, i requires 0 <= i < |ts| => Render(ts[i], style))
  }

  /** The list comprehension `[apply_styles(word, c, underline) for word in words]`. */
  function StyleAll(words: seq<string>, wordColor: string, style: Style): (out: seq<string>)
    ensures |out| == |words|
  {
    seq(|words|, i requires 0 <= i < |words| => ApplyStyles(words[i], wordColor, style))
  }

  /** What `word_diff(orig_line, modified_line, ...)` returns for the alignment `ops`. */
  function WordDiffResult(origLine: string, modLine: string, ops: seq<Opcode>, style: Style): (string, string)
    requires WellFormed(ops, Words(origLine), Words(modLine))
  {
    var sides := Classify(ops, Words(origLine), Words(modLine));
    (Join(" ", RenderAll(sides.0, style)), Join(" ", RenderAll(sides.1, style)))
  }

  lemma RenderAllAppend(x: seq<Token>, y: seq<Token>, style: Style)
    ensures RenderAll(x + y, style) == RenderAll(x, style) + RenderAll(y, style)
  {
    assert forall i :: 0 <= i < |x| + |y| ==>
      RenderAll(x + y, style)[i] == (RenderAll(x, style) + RenderAll(y, style))[i];
  }

  /** What one opcode adds to each output list of `word_diff`. */
  lemma RenderClassifyOp(op: Opcode, a: seq<string>, b: seq<string>, style: Style)
    requires InBounds(op, |a|, |b|)
    ensures RenderAll(ClassifyOp(op, a, b).0, style) ==
      match op.tag
      case Equal => a[op.i1..op.i2]
      case Replace => StyleAll(a[op.i1..op.i2], style.palette.replaceLeft, style)
      case Delete => StyleAll(a[op.i1..op.i2], style.palette.delete, style)
      case Insert => []
    ensures RenderAll(ClassifyOp(op, a, b).1, style) ==
      match op.tag
      case Equal => b[op.j1..op.j2]
      case Replace => StyleAll(b[op.j1..op.j2], style.palette.replaceRight, style)
      case Delete => []
      case Insert => StyleAll(b[op.j1..op.j2], style.palette.insert, style)
  {
  }

  /** `word_diff`'s output lists after `k + 1` opcodes, from those after `k`. */
  lemma WordDiffStep(ops: seq<Opcode>, k: nat, a: seq<string>, b: seq<string>, style: Style)
    requires k < |ops| && AllInBounds(ops, |a|, |b|)
    ensures RenderAll(Classify(ops[..k + 1], a, b).0, style) ==
      RenderAll(Classify(ops[..k], a, b).0, style) + RenderAll(ClassifyOp(ops[k], a, b).0, style)
    ensures RenderAll(Classify(ops[..k + 1], a, b).1, style) ==
      RenderAll(Classify(ops[..k], a, b).1, style) + RenderAll(ClassifyOp(ops[k], a, b).1, style)
  {
    ClassifySnoc(ops, k, a, b);
    RenderAllAppend(Classify(ops[..k], a, b).0, ClassifyOp(ops[k], a, b).0, style);
    RenderAllAppend(Classify(ops[..k], a, b).1, ClassifyOp(ops[k], a, b).1, style);
  }

  /**
   * `word_diff`: walks the opcodes and extends the two output lists, then
   * joins each with single spaces.
   */
  method WordDiff(origLine: string, modLine: string, ops: seq<Opcode>, style: Style)
    returns (origDiff: string, modDiff: string)
    requires WellFormed(ops, Words(origLine), Words(modLine))
    ensures (origDiff, modDiff) == WordDiffResult(origLine, modLine, ops, style)
  {
    var origWords, modWords := Words(origLine), Words(modLine);
    var origOutput: seq<string>, modOutput: seq<string> := [], [];
    var k := 0;
    while k < |ops|
      invariant 0 <= k <= |ops|
      invariant origOutput == RenderAll(Classify(ops[..k], origWords, modWords).0, style)
      invariant modOutput == RenderAll(Classify(ops[..k], origWords, modWords).1, style)
    {
      var op := ops[k];
      assert Agrees(op, origWords, modWords);
      WordDiffStep(ops, k, origWords, modWords, style);
      RenderClassifyOp(op, origWords, modWords, style);
      var left, right := origWords[op.i1..op.i2], modWords[op.j1..op.j2];
      match op.tag {
        case Equal =>
          origOutput := origOutput + left;
          modOutput := modOutput + right;
        case Replace =>
          origOutput := origOutput + StyleAll(left, style.palette.replaceLeft, style);
          modOutput := modOutput + StyleAll(right, style.palette.replaceRight, style);
        case Delete =>
          origOutput := origOutput + StyleAll(left, style.palette.delete, style);
        case Insert =>
          modOutput := modOutput + StyleAll(right, style.palette.insert, style);
      }
      k := k + 1;
    }
    assert ops[..|ops|] == ops;
    origDiff := Join(" ", origOutput);
    modDiff := Join(" ", modOutput);
  }

  /**
   * With colour and underline both off, `word_diff` returns each line with
   * its whitespace normalised: `' '.join(line.split())`.
   */
  lemma WordDiffUnstyled(origLine: string, modLine: string, ops: seq<Opcode>, style: Style)
    requires WellFormed(ops, Words(origLine), Words(modLine))
    requires !style.color && !style.underline
    ensures WordDiffResult(origLine, modLine, ops, style) == (PreprocessLine(origLine), PreprocessLine(modLine))
  {
    var a, b := Words(origLine), Words(modLine);
    var sides := Classify(ops, a, b);
    ClassifyCovers(ops, a, b);
    assert RenderAll(sides.0, style) == Texts(sides.0);
    assert RenderAll(sides.1, style) == Texts(sides.1);
  }

  /** No word of an ESC-free line contains ESC. */
  lemma {:induction false} WordsEscFree(s: string)
    requires ESC !in s
    ensures forall i :: 0 <= i < |Words(s)| ==> ESC !in Words(s)[i]
    decreases |s|
  {
    if s != [] {
      if IsSpace(s[0]) {
        assert ESC !in s[1..];
        WordsEscFree(s[1..]);
      } else {
        var n := WordLen(s);
        assert ESC !in s[..n];
        assert ESC !in s[n..];
        WordsEscFree(s[n..]);
      }
    }
  }

  /** A word, underlined or not, in front of more text. */
  lemma StripAnsiWordPrefix(x: string, y: string, tail: string)
    requires ESC !in y
    requires x == y || x == UnderlineText(y, true)
    ensures StripAnsi(x + tail) == y + StripAnsi(tail)
  {
    if x == y {
      StripAnsiPlainPrefix(y, tail);
    } else {
      StripAnsiUnderlinePrefix(y, true, tail);
    }
  }

  /** A word, underlined or not, followed by a space and more text. */
  lemma StripAnsiWordThenRest(x: string, y: string, rest: string)
    requires ESC !in y
    requires x == y || x == UnderlineText(y, true)
    ensures StripAnsi(x + " " + rest) == y + " " + StripAnsi(rest)
  {
    StripAnsiWordPrefix(x, y, " " + rest);
    StripAnsiPlainPrefix(" ", rest);
    ConcatAssoc(x, " ", rest);
    ConcatAssoc(y, " ", StripAnsi(rest));
  }

  /** A list of words, some of them underlined, shows the plain words once stripped. */
  lemma {:induction false} StripAnsiJoinUnderlined(xs: seq<string>, ys: seq<string>)
    requires |xs| == |ys|
    requires forall i :: 0 <= i < |ys| ==> ESC !in ys[i]
    requires forall i :: 0 <= i < |xs| ==> xs[i] == ys[i] || xs[i] == UnderlineText(ys[i], true)
    ensures StripAnsi(Join(" ", xs)) == Join(" ", ys)
    decreases |xs|
  {
    if |xs| == 1 {
      assert xs[0] == UnderlineText(ys[0], xs[0] != ys[0]);
      StripAnsiUnderline(ys[0], xs[0] != ys[0]);
    } else if |xs| > 1 {
      StripAnsiWordThenRest(xs[0], ys[0], Join(" ", xs[1..]));
      StripAnsiJoinUnderlined(xs[1..], ys[1..]);
    }
  }

  /** With colour off, a token is written as its word, underlined or not. */
  lemma RenderUncoloured(t: Token, style: Style)
    requires !style.color
    ensures Render(t, style) == UnderlineText(t.text, t.cls != Plain && style.underline)
  {
  }

  /** With colour off, a rendered side shows its words once stripped. */
  lemma RenderedSideVisible(ts: seq<Token>, words: seq<string>, style: Style)
    requires Texts(ts) == words && !style.color
    requires forall i :: 0 <= i < |words| ==> ESC !in words[i]
    ensures StripAnsi(Join(" ", RenderAll(ts, style))) == Join(" ", words)
  {
    var xs := RenderAll(ts, style);
    forall i | 0 <= i < |xs|
      ensures xs[i] == words[i] || xs[i] == UnderlineText(words[i], true)
    {
      assert words[i] == ts[i].text;
      RenderUncoloured(ts[i], style);
    }
    StripAnsiJoinUnderlined(xs, words);
  }

  /**
   * With colour off, underlining changes nothing visible: the stripped
   * output of `word_diff` on ESC-free lines is each line normalised.
   */
  lemma WordDiffVisibleText(origLine: string, modLine: string, ops: seq<Opcode>, style: Style)
    requires WellFormed(ops, Words(origLine), Words(modLine))
    requires !style.color
    requires ESC !in origLine && ESC !in modLine
    ensures StripAnsi(WordDiffResult(origLine, modLine, ops, style).0) == PreprocessLine(origLine)
    ensures StripAnsi(WordDiffResult(origLine, modLine, ops, style).1) == PreprocessLine(modLine)
  {
    var a, b := Words(origLine), Words(modLine);
    var sides := Classify(ops, a, b);
    ClassifyCovers(ops, a, b);
    WordsEscFree(origLine);
    WordsEscFree(modLine);
    RenderedSideVisible(sides.0, a, style);
    RenderedSideVisible(sides.1, b, style);
  }
}
