# worddiff in Dafny

A model of the core of `worddiff.py`, a side-by-side word-diff tool for two
text files. It covers four parts:

- **Word classifier (`word_diff` and its inner `apply_styles`).** Words the
  alignment calls `equal` are copied unstyled to both sides. `replace` words
  are styled with the left or right replace colour. `delete` words go only to
  the left and `insert` words only to the right. Each side is joined with
  single spaces.
- **Row assembly (the loop of `main`).** `equal` line opcodes are skipped.
  The lines of every other opcode are paired as `zip_longest` pairs them.
  Pairs that are blank on both sides are dropped. Each remaining pair is
  word-diffed and wrapped, and it becomes rows of
  `pad_text(l, w) + " | " + pad_text(r, w)`. The header row is modelled too.
- **String helpers.** These are `preprocess_line`, `strip_ansi_codes`,
  `underline_text`, `pad_text`, `title` (with Python's `str.center`) and
  `parse`.
- **Option resolution (`get_config_value`, `calculate_fixed_width`).** A
  command-line value wins over the config file's `[DEFAULT]` entry, which
  wins over the built-in default.

Files and modules:

| file | module | contents |
|---|---|---|
| `strings.dfy` | `Strings` | `str.split()`, `str.join`, `preprocess_line`, `str.split(',')`, `parse` |
| `ansi.dfy` | `Ansi` | escape-sequence scanner, `strip_ansi_codes`, `underline_text`, `pad_text`, `str.center`, `title` |
| `config.dfy` | `Config` | `getboolean`, `get_config_value`, `calculate_fixed_width` |
| `worddiff.dfy` | `WordDiff` | opcodes and their well-formedness, word classification, the `word_diff` method |
| `rows.dfy` | `Rows` | `zip_longest`, blank-pair skipping, the three nested loops of `main`, the header |

Some parts are foreign or impure, so they are parameters of the model:

- **`difflib.SequenceMatcher(...).get_opcodes()`** is the function `matcher`.
  It is used on lines and on words. It is trusted to return opcodes that
  satisfy `WordDiff.WellFormed`:
  - the ranges are contiguous and cover both inputs;
  - `equal` ranges are non-empty and hold equal items;
  - `replace` ranges are non-empty on both sides;
  - `delete` has an empty right range, and `insert` has an empty left range.
- **`textwrap.fill(...).split('\n')`** is the function `wrap`. It is trusted
  to return at least one line.
- **`termcolor.colored`** is an uninterpreted function `Style.colored`.
- **Python's `int()`** is an uninterpreted function `parseInt`.

`strip_ansi_codes` uses the regular expression
`\x1B[@-_][0-?]*[ -/]*[@-~]`. It is modelled as a deterministic left-to-right
scanner (`Ansi.EscapeLen`), based on the byte classes of section 5.4 of
ECMA-48. Two lemmas tie the scanner to a declarative description of an
escape sequence (`Ansi.IsEscapeSequence`): it is sound, and the sequence it
removes is the only one that starts at that position.

## Model

| member | source | states |
|---|---|---|
| Strings.Words | worddiff.py:87 | `str.split()` returns only non-empty, whitespace-free words |
| Strings.WordsCoverText | worddiff.py:87 | the words of `s.split()`, run together, are `s` with its whitespace removed |
| Strings.WordsSplitAtSpace | worddiff.py:87 | words are maximal: any non-empty run of whitespace between `x` and `y` splits into the words of `x` followed by the words of `y` |
| Strings.WordsSkipSpace | worddiff.py:87 | leading whitespace does not change `split()` |
| Strings.Join | worddiff.py:75 | `sep.join(parts)`; no contract of its own, its properties are stated by `Strings.WordsOfJoin`, `Strings.JoinWordsNormalised` and `Strings.JoinSplitOn` |
| Strings.PreprocessLine | worddiff.py:74-75 | `' '.join(line.split())`; no contract of its own, its properties are stated by `Strings.PreprocessLineNormalises` |
| Strings.WordsOfJoin | worddiff.py:74-75 | splitting words joined by single spaces gives the same words back |
| Strings.JoinWordsNormalised | worddiff.py:74-75 | words joined by single spaces have no leading, trailing or doubled whitespace |
| Strings.PreprocessLineNormalises | worddiff.py:74-75 | `preprocess_line` output is normalised, has the same `split()` as its input, and is idempotent |
| Strings.SplitOn | worddiff.py:62 | `split(',')` returns at least one field, more than one exactly when there is a comma, and no field contains a comma |
| Strings.JoinSplitOn | worddiff.py:62 | joining the fields of `split(sep)` with `sep` gives the string back |
| Strings.Parse | worddiff.py:61-63 | `parse` returns at least two names, none containing a comma |
| Strings.ParseSingle | worddiff.py:61-63 | without a comma, `parse(s)` is `[s, s]` |
| Strings.ParseRoundTrip | worddiff.py:61-63 | with a comma, joining `parse(s)` with `','` gives `s` back |
| Ansi.EscapeLen | worddiff.py:48 | the scanner matches nothing or at least three characters starting with ESC, never past the end |
| Ansi.EscapeLenSound | worddiff.py:48 | what the scanner matches is an escape sequence: ESC, an Fe byte, parameter bytes, intermediate bytes, a final byte |
| Ansi.EscapeLenComplete | worddiff.py:48 | every escape sequence at the start of the text is the one the scanner matches |
| Ansi.StripAnsi | worddiff.py:46-48 | `strip_ansi_codes` never lengthens its input |
| Ansi.StripAnsiPlainPrefix | worddiff.py:46-48 | characters before the first ESC are kept unchanged |
| Ansi.StripAnsiEscFree | worddiff.py:46-48 | an ESC-free string is left unchanged |
| Ansi.StripAnsiSgr | worddiff.py:58-59 | the SGR codes `ESC[4m` and `ESC[0m` are removed wherever they start the text |
| Ansi.StripAnsiAppendInert | worddiff.py:46-48 | appending text without final-class characters (such as spaces) commutes with stripping |
| Ansi.UnderlineText | worddiff.py:58-59 | wraps the text in `ESC[4m` and `ESC[0m` when underlining is on; no contract of its own, its visible text is stated by `Ansi.StripAnsiUnderline` and `Ansi.StripAnsiUnderlinePrefix` |
| Ansi.StripAnsiUnderlinePrefix | worddiff.py:58-59 | for ESC-free `t`, an underlined `t` followed by more text shows as `t` followed by that text stripped |
| Ansi.StripAnsiUnderline | worddiff.py:58-59 | for ESC-free `t`, stripping `underline_text(t, u)` gives `t` |
| Ansi.PadText | worddiff.py:65-68 | `pad_text` keeps the text as a prefix and adds only spaces |
| Ansi.PadTextVisible | worddiff.py:65-68 | after padding, the visible text is the old visible text followed by spaces up to the width; its visible length is `max(w, visible length)`; text already that wide is returned unchanged |
| Ansi.CenterMargins | worddiff.py:71 | `str.center` margins add up to the width, differ by at most one, and the left one is larger exactly when the margin and the width are both odd |
| Ansi.Center | worddiff.py:71 | `str.center` output has length `max(width, len)` and returns the text unchanged when it is already that wide; a narrower text sits right after the left margin of `CenterMargins`, and every other character is a space |
| Ansi.Title | worddiff.py:70-72 | the centred text between `ESC[4m` and `ESC[0m`; no contract of its own, its visible text is stated by `Ansi.StripAnsiTitle` |
| Ansi.StripAnsiTitle | worddiff.py:70-72 | for ESC-free `t`, stripping `title(t, w)` gives `t.center(w)` |
| Ansi.StripAnsiTitlePrefix | worddiff.py:70-72 | for ESC-free `t`, a title followed by more text shows as `t.center(w)` followed by that text stripped |
| Config.Lower | worddiff.py:35 | ASCII lower-casing is pointwise |
| Config.GetBoolean | worddiff.py:31-32 | `getboolean` accepts exactly `1/yes/true/on` as true and `0/no/false/off` as false, in any case |
| Config.GetConfigValue | worddiff.py:27-43 | a command-line value wins; without one, the default applies when the key is missing. A boolean key yields the flag, or the error exactly when the value is not a boolean word. For `fixed_width`, "none" in any case gives `None`, a number gives that number, and anything else gives the default. Other keys give the file's value as it stands (the map holds values after `configparser` interpolation) |
| Config.CalculateFixedWidth | worddiff.py:50-55 | an explicit width is kept; otherwise the width is half the terminal columns, rounded down, minus four |
| WordDiff.Classify | worddiff.py:98-108 | left tokens are only unchanged, replaced-left or deleted; right tokens only unchanged, replaced-right or inserted |
| WordDiff.ClassifyCovers | worddiff.py:98-108 | for well-formed opcodes, each side's tokens spell out that side's words exactly once, in order |
| WordDiff.ClassifyPlainsAgree | worddiff.py:99-101 | the unchanged words on the two sides are the same sequence |
| WordDiff.ClassifyAgainstEmpty | worddiff.py:98-108 | against an empty side, every word of the other side is inserted or deleted, and the empty side gets nothing |
| WordDiff.ApplyStyles | worddiff.py:91-96 | `apply_styles`: colour when enabled, then underline when enabled; no contract of its own, see `WordDiff.ApplyStylesVisible` |
| WordDiff.ApplyStylesVisible | worddiff.py:91-96 | with colour off, a styled ESC-free word is the word, underlined or not, and its visible text is the word |
| WordDiff.WordDiff | worddiff.py:86-110 | the loop over opcodes builds both outputs as the rendered, space-joined classification |
| WordDiff.WordDiffUnstyled | worddiff.py:91-110 | with colour and underline off, `word_diff(a, b)` is `(preprocess_line(a), preprocess_line(b))` |
| WordDiff.WordDiffVisibleText | worddiff.py:91-110 | with colour off and ESC-free lines, each side's visible text is its normalised line, underlined or not |
| Rows.ZipLongest | worddiff.py:161 | `zip_longest(xs, ys, fillvalue='')` has `max(len(xs), len(ys))` pairs, with pair `k` taking item `k` of each side or `''` |
| Rows.Kept | worddiff.py:162-163 | the kept pairs are never blank on both sides and never more than the input; which pairs, how often and in what order is stated by the four lemmas below |
| Rows.KeptMembers | worddiff.py:161-163 | a pair is kept exactly when it occurs in the input and is not blank on both sides |
| Rows.KeptAppend | worddiff.py:161-163 | the skip looks at each pair by itself: the pairs kept from `a + b` are those kept from `a` followed by those kept from `b` |
| Rows.KeptSingle | worddiff.py:162-163 | a single pair is kept exactly when it is not blank on both sides (with `KeptAppend` this fixes the kept list, order and repeats included) |
| Rows.KeptMultiset | worddiff.py:161-163 | every pair not blank on both sides is kept as many times as it occurs; blank pairs never |
| Rows.KeptCount | worddiff.py:161-163 | the number of kept pairs is the number of pairs less the number blank on both sides |
| Rows.AppendSideBySide | worddiff.py:169-173 | the innermost loop appends the padded, separator-joined rows of the two wrapped sides |
| Rows.AppendPairRows | worddiff.py:164-173 | a surviving pair appends the rows of its wrapped word diff |
| Rows.AppendOpRows | worddiff.py:161-173 | a changed region appends the rows of its `zip_longest` pairs, with both-blank pairs skipped |
| Rows.AppendDiffRows | worddiff.py:156-173 | the opcode loop appends the rows of every non-`equal` line opcode, in order |
| Rows.EqualOnlyNoRows | worddiff.py:157-159 | `equal` line opcodes produce no rows |
| Rows.SideBySideShape | worddiff.py:169-173 | there are `max(#left, #right)` rows, and row `q` is `pad_text(l_q, w)`, the column separator and `pad_text(r_q, w)`, with `''` for a missing line |
| Rows.PairRowsShape | worddiff.py:164-173 | a surviving pair gives `max(#left wrapped, #right wrapped)` rows, at least one |
| Rows.PairsRowsAtLeast | worddiff.py:161-173 | every surviving pair contributes at least one row |
| Rows.OpRowsCount | worddiff.py:161-173 | a changed region keeps exactly those `zip_longest` pairs of its two slices that are not blank on both sides, `max(i2 - i1, j2 - j1)` of them less the blank ones, and yields at least one row per kept pair |
| Rows.Header | worddiff.py:150-154 | the header is the two underlined, centred titles joined by the separator |
| Rows.HeaderVisible | worddiff.py:150-154 | for ESC-free titles, the header's visible text is the two centred titles joined by the column separator |
| Rows.HeaderTitlesLine | worddiff.py:136 | `parse` on an unconfigured (`None`) title option raises; a configured one gives at least two titles |
| Rows.DefaultTitlesRaise | worddiff.py:136 | with no argument and no config entry, `header_titles` resolves to the default `None`, and line 136 raises |
| Rows.ConfiguredTitlesParse | worddiff.py:136 | with a config entry and no argument, `header_titles` resolves to the entry's text, and line 136 parses it |
| Rows.IdenticalFilesNoRows | worddiff.py:156-159 | comparing a file with itself adds no rows after the header, given that the matcher aligns a sequence with itself by `equal` opcodes |

## Left out

- `difflib.SequenceMatcher`, `textwrap.fill` and `termcolor.colored` are foreign libraries. They are parameters (see above). The model does not state which alignment the Ratcliff/Obershelp matcher picks, only that it is well formed.
- `termcolor.colored` (worddiff.py:93) raises `KeyError` on a colour name it does not know, for example `' blue'` from the setting `'green, blue'`; the names reach it unchecked through `parse` and `get_config_value` (worddiff.py:132-134). `Style.colored` is total, so this crash is not modelled.
- `textwrap.fill` wraps the styled text, so escape bytes count toward the width (worddiff.py:165-166). It also raises `ValueError` for a width of zero or less. Both are inside the `wrap` parameter and are not modelled.
- A negative `fixed_width` makes the header's format spec `:<{fixed_width}` raise `ValueError` (worddiff.py:153). `Rows.Header` assumes a well-formed format spec.
- argparse (worddiff.py:113-126), the import-time `configparser` loading (worddiff.py:22-25), `preprocess_file` and the output `open`/`print` (worddiff.py:77-79, 175-180) are I/O. The model takes the config file's `[DEFAULT]` section as a map, and the files' preprocessed lines as sequences.
- Config.CalculateFixedWidth: the terminal size lookup (worddiff.py:53) is a parameter, the terminal's column count.
- Config.GetConfigValue: `int()` parsing is the parameter `parseInt`, not a model of Python's integer syntax. The `fixed_width` result is not passed through `int(...)` again (worddiff.py:129).
- Config.GetConfigValue: a boolean option whose file value is not a boolean word makes `getboolean` raise `ValueError`. The model returns `NotABoolean`. It does not fall back to the default, because the code raises.
- Config.GetConfigValue: `config` is a `configparser` section with the default basic interpolation, so `get` and `getboolean` read interpolated values: `%%` becomes `%` and `%(name)s` is replaced. The map of the model holds those interpolated values. A value with a lone `%` makes the read raise `InterpolationSyntaxError`, and an unknown `%(name)s` raises `InterpolationMissingOptionError`. Neither error is modelled.
- Config.Lower: lower-cases ASCII letters only. That decides exactly the comparisons the code makes (`'none'` and the eight boolean words).
- `colorize_difference` (worddiff.py:81-84) is never called, and line 135 is a dead assignment that line 136 overwrites. Neither is modelled.
- `parse(None)`: when no header titles are configured, line 136 raises before any output. `Rows.HeaderTitlesLine` records this, and `Rows.DefaultTitlesRaise` shows that the default configuration hits it. The model does not change what line 136 does.
- Assembly of `diff_output` (lines 147-155): the header and the rows are modelled separately. After line 136 `header_titles` is always a list (or the run has already raised), so the test at line 150 always holds and the rows always follow the header. `Rows.Header` is the header line, and `Rows.AppendDiffRows` is stated for any output built so far, passed as its `diffOutput` argument. No single member states the whole list.
- Rows.IdenticalFilesNoRows: the claim that identical inputs produce only the header needs a property of the matcher. The matcher is assumed to align a sequence with itself by `equal` opcodes only (`Rows.IdentityAligned`). The model does not derive this from the matching algorithm.
- Unicode: strings are sequences of code points. `str.split()` uses Python's whitespace set. There is no normalisation.
