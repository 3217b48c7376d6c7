/**
 * Row assembly of worddiff's `main`: the changed regions of the line
 * alignment are paired positionally, each pair is word-diffed, wrapped,
 * padded to the column width and joined with the column separator.
 * `difflib.SequenceMatcher(...).get_opcodes()` (used on lines and on words)
 * and `textwrap.fill(...).split('\n')` are the collaborators `matcher` and
 * `wrap`.
 */
module Rows {
  import opened Strings
  import opened Ansi
  import opened WordDiff
  import Config

  const ColumnSeparator: string := " | "

  datatype Collaborators = Collaborators(
    matcher: (seq<string>, seq<string>) -> seq<Opcode>,
    wrap: (string, int) -> seq<string>)

  /**
   * The matcher returns opcodes that align its two inputs, and a wrapped text
   * always has at least one line (`str.split('\n')` never returns `[]`).
   */
  ghost predicate Sound(env: Collaborators) {
    && (forall a, b :: WellFormed(env.matcher(a, b), a, b))
    && (forall text, width :: |env.wrap(text, width)| >= 1)
  }

  function Tail(xs: seq<string>): seq<string> {
    if xs == [] then [] else xs[1..]
  }

  /** `zip_longest(xs, ys, fillvalue='')`. */
  function ZipLongest(xs: seq<string>, ys: seq<string>): (pairs: seq<(string, string)>)
    ensures |pairs| == Max(|xs|, |ys|)
    ensures forall k :: 0 <= k < |pairs| ==>
      pairs[k] == (if k < |xs| then xs[k] else "", if k < |ys| then ys[k] else "")
    decreases |xs| + |ys|
  {
    if xs == [] && ys == [] then []
    else [(if xs == [] then "" else xs[0], if ys == [] then "" else ys[0])] + ZipLongest(Tail(xs), Tail(ys))
  }

  /** `orig.strip() == '' and modified.strip() == ''`. */
  predicate BothBlank(pair: (string, string)) {
    IsBlank(pair.0) && IsBlank(pair.1)
  }

  /** The pairs the loop does not skip, in their original order. */
  function Kept(pairs: seq<(string, string)>): (kept: seq<(string, string)>)
    ensures |kept| <= |pairs|
    ensures forall i :: 0 <= i < |kept| ==> !BothBlank(kept[i])
    decreases |pairs|
  {
    if pairs == [] then []
    else Kept(pairs[..|pairs| - 1]) + (if BothBlank(pairs[|pairs| - 1]) then [] else [pairs[|pairs| - 1]])
  }

  /** `Kept` drops exactly the pairs blank on both sides. */
  lemma {:induction false} KeptMembers(pairs: seq<(string, string)>)
    ensures forall p :: p in Kept(pairs) <==> p in pairs && !BothBlank(p)
    decreases |pairs|
  {
    if pairs != [] {
      var init, last := pairs[..|pairs| - 1], pairs[|pairs| - 1];
      KeptMembers(init);
      assert pairs == init + [last];
    }
  }

  /** The number of pairs blank on both sides, counted from the front. */
  function BlankPairs(pairs: seq<(string, string)>): nat {
    if pairs == [] then 0
    else (if BothBlank(pairs[0]) then 1 else 0) + BlankPairs(pairs[1..])
  }

  /** The skip acts on each pair by itself: `Kept` distributes over concatenation. */
  lemma {:induction false} KeptAppend(a: seq<(string, string)>, b: seq<(string, string)>)
    ensures Kept(a + b) == Kept(a) + Kept(b)
    decreases |b|
  {
    if b == [] {
      assert a + b == a;
    } else {
      var init, last := b[..|b| - 1], b[|b| - 1];
      var tail := if BothBlank(last) then [] else [last];
      assert (a + b)[..|a + b| - 1] == a + init;
      assert (a + b)[|a + b| - 1] == last;
      KeptAppend(a, init);
      ConcatAssoc(Kept(a), Kept(init), tail);
    }
  }

  /** A single pair is kept unless it is blank on both sides. */
  lemma KeptSingle(p: (string, string))
    ensures Kept([p]) == if BothBlank(p) then [] else [p]
  {
    assert [p][..0] == [];
  }

  /** Every pair not blank on both sides is kept as often as it occurs. */
  lemma {:induction false} KeptMultiset(pairs: seq<(string, string)>)
    ensures forall p :: multiset(Kept(pairs))[p] == if BothBlank(p) then 0 else multiset(pairs)[p]
    decreases |pairs|
  {
    if pairs != [] {
      var init, last := pairs[..|pairs| - 1], pairs[|pairs| - 1];
      KeptMultiset(init);
      assert pairs == init + [last];
    }
  }

  /** One pair is dropped for each pair blank on both sides. */
  lemma {:induction false} KeptCount(pairs: seq<(string, string)>)
    ensures |Kept(pairs)| == |pairs| - BlankPairs(pairs)
    decreases |pairs|
  {
    if pairs != [] {
      assert pairs == [pairs[0]] + pairs[1..];
      KeptAppend([pairs[0]], pairs[1..]);
      KeptSingle(pairs[0]);
      KeptCount(pairs[1..]);
    }
  }

  /** `[''] * n` (empty for n <= 0). */
  function Blanks(n: int): seq<string> {
    seq(if n > 0 then n else 0, _ => "")
  }

  /** The `q`-th wrapped line, or `''` past the end (what the `[''] *` padding supplies). */
  function LineAt(lines: seq<string>, q: nat): string {
    if q < |lines| then lines[q] else ""
  }

  /**
   * The rows of two wrapped texts: the shorter side padded with `''` lines,
   * then each line padded to `width` and the two joined by the separator.
   */
  function SideBySide(origLines: seq<string>, modLines: seq<string>, width: int): seq<string> {
    var maxLines := Max(|origLines|, |modLines|);
    var left := origLines + Blanks(maxLines - |origLines|);
    var right := modLines + Blanks(maxLines - |modLines|);
    seq(maxLines, q requires 0 <= q < maxLines => PadText(left[q], width) + ColumnSeparator + PadText(right[q], width))
  }

  /** The rows one surviving line pair produces. */
  function PairRows(orig: string, modified: string, width: int, style: Style, env: Collaborators): seq<string>
    requires Sound(env)
  {
    var diff := WordDiffResult(orig, modified, env.matcher(Words(orig), Words(modified)), style);
    SideBySide(env.wrap(diff.0, width), env.wrap(diff.1, width), width)
  }

  /** The rows of a list of surviving pairs, pair after pair. */
  function PairsRows(pairs: seq<(string, string)>, width: int, style: Style, env: Collaborators): seq<string>
    requires Sound(env)
    decreases |pairs|
  {
    if pairs == [] then []
    else
      var last := pairs[|pairs| - 1];
      PairsRows(pairs[..|pairs| - 1], width, style, env) + PairRows(last.0, last.1, width, style, env)
  }

  /** The line pairs of a changed region that survive the blank-pair skip. */
  function OpPairs(op: Opcode, origLines: seq<string>, modLines: seq<string>): seq<(string, string)>
    requires InBounds(op, |origLines|, |modLines|)
  {
    Kept(ZipLongest(origLines[op.i1..op.i2], modLines[op.j1..op.j2]))
  }

  /** The rows of one line opcode: none for `equal`. */
  function OpRows(op: Opcode, origLines: seq<string>, modLines: seq<string>,
                  width: int, style: Style, env: Collaborators): seq<string>
    requires InBounds(op, |origLines|, |modLines|) && Sound(env)
  {
    if op.tag == Equal then [] else PairsRows(OpPairs(op, origLines, modLines), width, style, env)
  }

  /** The rows of all line opcodes, in order. */
  function DiffRows(ops: seq<Opcode>, origLines: seq<string>, modLines: seq<string>,
                    width: int, style: Style, env: Collaborators): seq<string>
    requires AllInBounds(ops, |origLines|, |modLines|) && Sound(env)
    decreases |ops|
  {
    if ops == [] then []
    else
      DiffRows(ops[..|ops| - 1], origLines, modLines, width, style, env)
      + OpRows(ops[|ops| - 1], origLines, modLines, width, style, env)
  }

  lemma DiffRowsSnoc(ops: seq<Opcode>, k: nat, origLines: seq<string>, modLines: seq<string>,
                     width: int, style: Style, env: Collaborators)
    requires k < |ops| && AllInBounds(ops, |origLines|, |modLines|) && Sound(env)
    ensures DiffRows(ops[..k + 1], origLines, modLines, width, style, env) ==
      DiffRows(ops[..k], origLines, modLines, width, style, env) + OpRows(ops[k], origLines, modLines, width, style, env)
  {
    assert ops[..k + 1][..k] == ops[..k];
  }

  lemma PairsRowsSnoc(pairs: seq<(string, string)>, pair: (string, string), width: int, style: Style, env: Collaborators)
    requires Sound(env)
    ensures PairsRows(pairs + [pair], width, style, env) ==
      PairsRows(pairs, width, style, env) + PairRows(pair.0, pair.1, width, style, env)
  {
    assert (pairs + [pair])[..|pairs|] == pairs;
  }

  /** The innermost loop of `main`: one row per wrapped line, the shorter side padded with `''`. */
  method AppendSideBySide(diffOutput: seq<string>, origDiffLines: seq<string>, modDiffLines: seq<string>, width: int)
    returns (out: seq<string>)
    ensures out == diffOutput + SideBySide(origDiffLines, modDiffLines, width)
  {
    ghost var rows := SideBySide(origDiffLines, modDiffLines, width);
    var maxLines := Max(|origDiffLines|, |modDiffLines|);
    var left := origDiffLines + Blanks(maxLines - |origDiffLines|);
    var right := modDiffLines + Blanks(maxLines - |modDiffLines|);
    out := diffOutput;
    var q := 0;
    while q < maxLines
      invariant 0 <= q <= maxLines
      invariant out == diffOutput + rows[..q]
    {
      var row := PadText(left[q], width) + ColumnSeparator + PadText(right[q], width);
      PrefixSnoc(rows, q);
      ConcatAssoc(diffOutput, rows[..q], [row]);
      out := out + [row];
      q := q + 1;
    }
    assert rows[..maxLines] == rows;
  }

  /** A surviving pair: word-diff it, wrap both sides and append their rows. */
  method AppendPairRows(diffOutput: seq<string>, orig: string, modified: string,
                        width: int, style: Style, env: Collaborators)
    returns (out: seq<string>)
    requires Sound(env)
    ensures out == diffOutput + PairRows(orig, modified, width, style, env)
  {
    var origDiff, modDiff := WordDiff.WordDiff(orig, modified, env.matcher(Words(orig), Words(modified)), style);
    out := AppendSideBySide(diffOutput, env.wrap(origDiff, width), env.wrap(modDiff, width), width);
  }

  /** One more positional pair adds its rows unless it is blank on both sides. */
  lemma KeptRowsSnoc(pairs: seq<(string, string)>, p: nat, width: int, style: Style, env: Collaborators)
    requires p < |pairs| && Sound(env)
    ensures PairsRows(Kept(pairs[..p + 1]), width, style, env) ==
      PairsRows(Kept(pairs[..p]), width, style, env)
      + (if BothBlank(pairs[p]) then [] else PairRows(pairs[p].0, pairs[p].1, width, style, env))
  {
    var kept := Kept(pairs[..p]);
    assert pairs[..p + 1][..p] == pairs[..p];
    if BothBlank(pairs[p]) {
      assert Kept(pairs[..p + 1]) == kept + [];
      assert kept + [] == kept;
      assert PairsRows(kept, width, style, env) + [] == PairsRows(kept, width, style, env);
    } else {
      PairsRowsSnoc(kept, pairs[p], width, style, env);
    }
  }

  /**
   * The middle loop of `main`: the lines of one changed region paired as
   * `zip_longest` does, pairs blank on both sides skipped.
   */
  method AppendOpRows(diffOutput: seq<string>, origSlice: seq<string>, modSlice: seq<string>,
                      width: int, style: Style, env: Collaborators)
    returns (out: seq<string>)
    requires Sound(env)
    ensures out == diffOutput + PairsRows(Kept(ZipLongest(origSlice, modSlice)), width, style, env)
  {
    var count := Max(|origSlice|, |modSlice|);
    ghost var pairs := ZipLongest(origSlice, modSlice);
    out := diffOutput;
    var p := 0;
    assert pairs[..0] == [];
    while p < count
      invariant 0 <= p <= count
      invariant out == diffOutput + PairsRows(Kept(pairs[..p]), width, style, env)
    {
      var orig := if p < |origSlice| then origSlice[p] else "";
      var modified := if p < |modSlice| then modSlice[p] else "";
      assert pairs[p] == (orig, modified);
      KeptRowsSnoc(pairs, p, width, style, env);
      if !(IsBlank(orig) && IsBlank(modified)) {
        ghost var done := PairsRows(Kept(pairs[..p]), width, style, env);
        out := AppendPairRows(out, orig, modified, width, style, env);
        ConcatAssoc(diffOutput, done, PairRows(orig, modified, width, style, env));
      }
      p := p + 1;
    }
    assert pairs[..count] == pairs;
  }

  /**
   * The loop of `main` after the header: aligns the two files' lines, skips
   * `equal` opcodes and appends the rows of every other opcode's lines.
   */
  method AppendDiffRows(diffOutput: seq<string>, origLines: seq<string>, modLines: seq<string>,
                        width: int, style: Style, env: Collaborators)
    returns (out: seq<string>)
    requires Sound(env)
    ensures out == diffOutput + DiffRows(env.matcher(origLines, modLines), origLines, modLines, width, style, env)
  {
    var ops := env.matcher(origLines, modLines);
    out := diffOutput;
    var k := 0;
    assert ops[..0] == [];
    assert diffOutput + [] == diffOutput;
    while k < |ops|
      invariant 0 <= k <= |ops|
      invariant out == diffOutput + DiffRows(ops[..k], origLines, modLines, width, style, env)
    {
      var op := ops[k];
      assert Agrees(op, origLines, modLines);
      ghost var done := DiffRows(ops[..k], origLines, modLines, width, style, env);
      DiffRowsSnoc(ops, k, origLines, modLines, width, style, env);
      if op.tag != Equal {
        out := AppendOpRows(out, origLines[op.i1..op.i2], modLines[op.j1..op.j2], width, style, env);
        ConcatAssoc(diffOutput, done, OpRows(op, origLines, modLines, width, style, env));
      } else {
        assert done + [] == done;
      }
      k := k + 1;
    }
    assert ops[..|ops|] == ops;
  }

  /** `equal` line opcodes produce no rows. */
  lemma {:induction false} EqualOnlyNoRows(ops: seq<Opcode>, origLines: seq<string>, modLines: seq<string>,
                                           width: int, style: Style, env: Collaborators)
    requires AllInBounds(ops, |origLines|, |modLines|) && Sound(env)
    requires forall k :: 0 <= k < |ops| ==> ops[k].tag == Equal
    ensures DiffRows(ops, origLines, modLines, width, style, env) == []
    decreases |ops|
  {
    if ops != [] {
      var init := ops[..|ops| - 1];
      assert forall k :: 0 <= k < |init| ==> init[k] == ops[k];
      EqualOnlyNoRows(init, origLines, modLines, width, style, env);
    }
  }

  /**
   * Two wrapped texts give `max(#left, #right)` rows; row `q` is the `q`-th
   * left line padded to `width`, the separator and the `q`-th right line
   * padded to `width`, a missing line counting as `''`.
   */
  lemma SideBySideShape(origLines: seq<string>, modLines: seq<string>, width: int)
    ensures |SideBySide(origLines, modLines, width)| == Max(|origLines|, |modLines|)
    ensures forall q :: 0 <= q < |SideBySide(origLines, modLines, width)| ==>
      SideBySide(origLines, modLines, width)[q] ==
        PadText(LineAt(origLines, q), width) + ColumnSeparator + PadText(LineAt(modLines, q), width)
  {
    var rows := SideBySide(origLines, modLines, width);
    var maxLines := Max(|origLines|, |modLines|);
    var left := origLines + Blanks(maxLines - |origLines|);
    var right := modLines + Blanks(maxLines - |modLines|);
    forall q | 0 <= q < |rows|
      ensures rows[q] == PadText(LineAt(origLines, q), width) + ColumnSeparator + PadText(LineAt(modLines, q), width)
    {
      assert left[q] == LineAt(origLines, q);
      assert right[q] == LineAt(modLines, q);
    }
  }

  /** A surviving pair yields at least one row: one per line of its longer wrapped side. */
  lemma PairRowsShape(orig: string, modified: string, width: int, style: Style, env: Collaborators)
    requires Sound(env)
    ensures var diff := WordDiffResult(orig, modified, env.matcher(Words(orig), Words(modified)), style);
      |PairRows(orig, modified, width, style, env)| == Max(|env.wrap(diff.0, width)|, |env.wrap(diff.1, width)|) >= 1
  {
    var diff := WordDiffResult(orig, modified, env.matcher(Words(orig), Words(modified)), style);
    SideBySideShape(env.wrap(diff.0, width), env.wrap(diff.1, width), width);
  }

  /** Every surviving pair produces at least one row. */
  lemma {:induction false} PairsRowsAtLeast(pairs: seq<(string, string)>, width: int, style: Style, env: Collaborators)
    requires Sound(env)
    ensures |PairsRows(pairs, width, style, env)| >= |pairs|
    decreases |pairs|
  {
    if pairs != [] {
      var last := pairs[|pairs| - 1];
      PairsRowsAtLeast(pairs[..|pairs| - 1], width, style, env);
      PairRowsShape(last.0, last.1, width, style, env);
    }
  }

  /**
   * A changed region keeps exactly its positional pairs that are not blank on
   * both sides, `max(i2 - i1, j2 - j1)` of them less the blank ones, and each
   * kept pair yields at least one row.
   */
  lemma OpRowsCount(op: Opcode, origLines: seq<string>, modLines: seq<string>,
                    width: int, style: Style, env: Collaborators)
    requires InBounds(op, |origLines|, |modLines|) && Sound(env) && op.tag != Equal
    ensures forall p :: p in OpPairs(op, origLines, modLines) <==>
      p in ZipLongest(origLines[op.i1..op.i2], modLines[op.j1..op.j2]) && !BothBlank(p)
    ensures |OpPairs(op, origLines, modLines)| ==
      Max(op.i2 - op.i1, op.j2 - op.j1) - BlankPairs(ZipLongest(origLines[op.i1..op.i2], modLines[op.j1..op.j2]))
    ensures |OpRows(op, origLines, modLines, width, style, env)| >= |OpPairs(op, origLines, modLines)|
  {
    KeptMembers(ZipLongest(origLines[op.i1..op.i2], modLines[op.j1..op.j2]));
    KeptCount(ZipLongest(origLines[op.i1..op.i2], modLines[op.j1..op.j2]));
    PairsRowsAtLeast(OpPairs(op, origLines, modLines), width, style, env);
  }

  /** `f"{text:<{width}}"`: left-aligned in a field of `width`, measured by `len`. */
  function LeftAligned(text: string, width: int): string {
    text + Spaces(width - |text|)
  }

  /**
   * The header row: both titles centred and underlined. The left-alignment
   * in the f-string adds nothing, since a title is always longer than the
   * column width.
   */
  function Header(titles: seq<string>, width: int): (h: string)
    requires |titles| >= 2
    ensures h == Title(titles[0], width) + ColumnSeparator + Title(titles[1], width)
  {
    var original := Title(titles[0], width);
    var student := Title(titles[1], width);
    assert Spaces(width - |original|) == [];
    LeftAligned(original, width) + ColumnSeparator + student
  }

  /** The visible text of the header is the two centred titles and the separator. */
  lemma HeaderVisible(titles: seq<string>, width: int)
    requires |titles| >= 2 && ESC !in titles[0] && ESC !in titles[1]
    ensures StripAnsi(Header(titles, width)) ==
      Center(titles[0], width) + ColumnSeparator + Center(titles[1], width)
  {
    var second := Title(titles[1], width);
    ConcatAssoc(Title(titles[0], width), ColumnSeparator, second);
    StripAnsiTitlePrefix(titles[0], width, ColumnSeparator + second);
    StripAnsiPlainPrefix(ColumnSeparator, second);
    StripAnsiTitle(titles[1], width);
    ConcatAssoc(Center(titles[0], width), ColumnSeparator, Center(titles[1], width));
  }

  /** `DEFAULT_CONFIG['header_titles']`: no titles unless configured. */
  const DefaultHeaderTitles: Config.Value := Config.Null

  /** What the assignment of `header_titles` at line 136 yields. */
  datatype TitlesOutcome = RaisesAttributeError | Parsed(titles: seq<string>)

  /**
   * Line 136: `parse` is applied to the resolved option whether or not it is
   * `None`, and `None.split(',')` raises; a configured string always parses
   * to at least two titles. The option is a string or `None`, since
   * `header_titles` is neither a boolean key nor `fixed_width`.
   */
  function HeaderTitlesLine(resolved: Config.Value): (r: TitlesOutcome)
    requires resolved.Null? || resolved.Text?
    ensures r == RaisesAttributeError <==> resolved.Null?
    ensures resolved.Text? ==> r == Parsed(Parse(resolved.s)) && |r.titles| >= 2
  {
    match resolved
    case Null => RaisesAttributeError
    case Text(s) => Parsed(Parse(s))
  }

  /**
   * With no `--header_titles` argument and no `header_titles` entry in the
   * config file, the option resolves to the default `None` and `main` stops
   * at line 136.
   */
  lemma DefaultTitlesRaise(config: map<string, string>, parseInt: string -> Config.Option<int>)
    requires "header_titles" !in config
    ensures Config.GetConfigValue("header_titles", Config.Null, config, DefaultHeaderTitles, parseInt)
      == Config.Resolved(Config.Null)
    ensures HeaderTitlesLine(DefaultHeaderTitles).RaisesAttributeError?
  {
  }

  /** A `header_titles` entry in the config file, with no argument, gives its parsed titles. */
  lemma ConfiguredTitlesParse(config: map<string, string>, parseInt: string -> Config.Option<int>)
    requires "header_titles" in config
    ensures Config.GetConfigValue("header_titles", Config.Null, config, DefaultHeaderTitles, parseInt)
      == Config.Resolved(Config.Text(config["header_titles"]))
    ensures HeaderTitlesLine(Config.Text(config["header_titles"])) == Parsed(Parse(config["header_titles"]))
  {
  }

  /** SequenceMatcher aligns a sequence with itself by `equal` opcodes only. */
  ghost predicate IdentityAligned(env: Collaborators) {
    forall a: seq<string>, k :: 0 <= k < |env.matcher(a, a)| ==> env.matcher(a, a)[k].tag == Equal
  }

  /** Comparing a file with itself adds no rows after the header. */
  lemma IdenticalFilesNoRows(lines: seq<string>, width: int, style: Style, env: Collaborators)
    requires Sound(env) && IdentityAligned(env)
    ensures DiffRows(env.matcher(lines, lines), lines, lines, width, style, env) == []
  {
    EqualOnlyNoRows(env.matcher(lines, lines), lines, lines, width, style, env);
  }
}
