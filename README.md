# vim-notes2wiki conversion core in Dafny

`convert-notes.py` turns a vim-notes file into a vimwiki page. After reading
the file with `readlines()`, `convert_file` runs five rewrites in a fixed order
over the list of lines:

1. the first line becomes the page title `= <line without trailing whitespace> =`;
2. `sed_headers` turns `## Title` into `== Title ==`;
3. `sed_tags` turns a line `@tag` into `:tag:`;
4. `sed_bullets` replaces the first `•`, `◦`, `▸` and `▹` of each line by `*`;
5. `sed_snippets` pairs up the lines containing three backticks. The first line of
   each pair becomes `{{{` followed by that line minus its first three characters.
   The second line becomes `}}}` and a newline.

This project models that pipeline. It has one module per rewrite. Each module has
a line-level rule stated as functions, the pass over a whole document, lemmas
about the rule, and a method that does what the Python function does:

- `PyText`: the Python built-ins the rules use. These are `str.isspace`,
  `rstrip()`, `c * n`, `replace(c, d, 1)`, `s[n:]` and `"```" in s`. It also
  models what the tail `(.*)$` of a pattern accepts under `re.match`.
- `Headers`, `Tags`: the two regular expressions, written out as explicit
  matchers (`MatchHeader`, `MatchTag`). Each has a lemma saying exactly which
  lines match.
  `SedHeaders` and `SedTags` rewrite an `array<string>` in place and return the
  same array, as the Python functions mutate and return the caller's list.
- `Bullets`: `SedBullets` works on a sequence and returns a new one. The Python
  code builds a fresh list for each glyph and never writes into its input.
- `Snippets`: `FenceIndices` and `Pairs` are the two list comprehensions.
  `SedSnippets` computes them from the list as it is on entry, then writes each
  pair's two lines in place. It is proved against `FenceLine`, a second
  definition of the rule that uses no index list. In `FenceLine`, a fence line's
  rank (how many fence lines come before it) decides its fate. An odd rank closes
  a block. An even rank opens one, provided another fence line follows.
- `ConvertNotes`: `Convert` is the whole transformation. Its result is `IndexError`
  for an empty file, as `lines[0]` raises. `ConvertFile` runs the methods in the
  source's order and is proved to compute `Convert`.

The model follows the code where its comments or a casual reading suggest
otherwise:

- The tag class `[a-zA-Z-]` rejects digits. So the file `My Title`, `@tag1`
  keeps `@tag1` unconverted (`ConvertTagWithDigitExample`).
- A fence's opening line becomes `"{{{" + line[3:]`. That is not the text after
  the three backticks: an indented fence keeps some of its backticks
  (`IndentedFence`).
- Bullets are replaced wherever they are in the line, not only at its start
  (`BulletAnywhere`). The comment at convert-notes.py:137 says otherwise.
- The header and tag rules are exactly the patterns `^(#+) (.*)$` and
  `^@([a-zA-Z-]+)$` under `re.match`. Here `$` also matches just before a
  final newline, such as the one `readlines()` keeps at the end of a line.

## Model

| member | source | states |
|---|---|---|
| PyText.RStrip | convert-notes.py:88 | `rstrip()` returns a prefix of the line. Everything it removed is whitespace, and the result does not end in whitespace. |
| PyText.Repeat | convert-notes.py:110 | `'=' * lvl` has length `lvl`, and every character is the repeated one. |
| PyText.ReplaceFirst | convert-notes.py:139 | `replace(b, '*', 1)` keeps the length. It changes only the first occurrence of `b`, and leaves a line without `b` unchanged. |
| PyText.SliceFrom | convert-notes.py:156 | `line[3:]` is what follows the first three characters, or empty for a shorter line. |
| PyText.HasFenceIff | convert-notes.py:151 | The fence test holds exactly when three backticks occur somewhere in the line. |
| PyText.MatchRestIff | convert-notes.py:106 | The tail `(.*)$` captures `t` only when `t` has no newline and the text is `t` or `t` plus one newline. |
| PyText.MatchRest | convert-notes.py:106 | The tail `(.*)$` of both patterns (also in convert-notes.py:119). A capture has no newline, and the text is the capture or the capture plus one newline. When nothing is captured, the text holds a newline. |
| PyText.HasFence | convert-notes.py:151 | `"```" in l`, defined by scanning the line. A line holding a fence holds a backtick. |
| Headers.HashRun | convert-notes.py:106-108 | The level is the full leading run of `#`: those characters are `#` and the next is not. |
| Headers.MatchHeader | convert-notes.py:106-109 | `re.match('^(#+) (.*)$', line)` with `len(m.group(1))` and `m.group(2)`. A match has level at least 1 and a title without a newline, and the line is that many `#`, a space, the title and an optional final newline. |
| Headers.RenderHeader | convert-notes.py:110 | `"{0} {1} {0}\n".format('=' * lvl, s)` has length `2 * lvl + len(s) + 3`. It is `lvl` `=`, a space, the title, a space, `lvl` `=` and a newline, each part at its position. |
| Headers.HeaderRule | convert-notes.py:106-110 | One iteration of the `sed_headers` loop. The line is kept, or it matched the pattern and is replaced by a line starting with `=`, which the pattern no longer matches. |
| Headers.MatchHeaderIff | convert-notes.py:106-109 | The header pattern gives level `k` and title `t` if and only if `k >= 1`, `t` has no newline, and the line is `k` hashes, a space and `t`, with an optional final newline. |
| Headers.HeaderRewritten | convert-notes.py:106-110 | Every header line of level `k` becomes `k` `=`, space, title, space, `k` `=`, newline. |
| Headers.LevelThreeHeader | convert-notes.py:106-110 | `### t` becomes `=== t ===`. |
| Headers.HashWithoutSpace | convert-notes.py:106-107 | `##x` (hashes not followed by a space) is left unchanged. |
| Headers.HeaderRuleIdempotent | convert-notes.py:104-110 | Applying the header rule twice gives the same line as applying it once. |
| Headers.HeadersPass | convert-notes.py:104-112 | The list after `sed_headers` has as many lines as before, and a line differs from the original only where that line matched the header pattern. |
| Headers.HeadersPassShape | convert-notes.py:104-112 | `sed_headers` keeps the number of lines and keeps every non-header line. It rewrites each header line to its rendering, and running it twice equals running it once. |
| Headers.SedHeaders | convert-notes.py:101-112 | The list is rewritten in place to the header pass of its old contents, and the same list is returned. |
| Tags.MatchTag | convert-notes.py:119-121 | `re.match('^@([a-zA-Z-]+)$', line)` with `m.group(1)`. A capture is a non-empty run of ASCII letters and `-`, and the line is `@`, the capture and an optional final newline. |
| Tags.TagRule | convert-notes.py:119-122 | One iteration of the `sed_tags` loop. The line is kept, or it matched the pattern and is replaced by a line starting with `:`, which the pattern no longer matches. |
| Tags.MatchTagIff | convert-notes.py:119-121 | The tag pattern captures `t` if and only if `t` is a non-empty run of ASCII letters and `-`, and the line is `@t` with an optional final newline. |
| Tags.TagRewritten | convert-notes.py:119-122 | `@work` becomes `:work:`. |
| Tags.DigitInTagIsKept | convert-notes.py:119 | `@tag1` is not a tag line and is left unchanged. |
| Tags.TagRuleIdempotent | convert-notes.py:118-122 | Applying the tag rule twice gives the same line as applying it once. |
| Tags.TagsPass | convert-notes.py:118-124 | The list after `sed_tags` has as many lines as before, and a line differs from the original only where that line matched the tag pattern. |
| Tags.TagsPassShape | convert-notes.py:118-124 | `sed_tags` keeps the number of lines and keeps every non-tag line. It rewrites each tag line to `:t:`, and running it twice equals running it once. |
| Tags.SedTags | convert-notes.py:115-124 | The list is rewritten in place to the tag pass of its old contents, and the same list is returned. |
| Bullets.Glyphs | convert-notes.py:130-135 | The keys of `bullets_corr` in insertion order: U+2022, U+25E6, U+25B8, U+25B9. There are four, they are distinct, and `*` is not among them. |
| Bullets.ApplyGlyphs | convert-notes.py:138-139 | The first rounds of the glyph loop: one `replace(b, '*', 1)` per glyph, in table order. Each round keeps the line's length. |
| Bullets.BulletRule | convert-notes.py:130-139 | All four rounds, over the keys of `bullets_corr` in insertion order. The line's length is kept. |
| Bullets.ApplyGlyphsAt | convert-notes.py:138-139 | After one replace round per distinct glyph, a position becomes `*` exactly when it held the first occurrence of one of the glyphs. Every other position keeps its character. |
| Bullets.BulletRuleAt | convert-notes.py:130-139 | For each of the four glyphs, its first occurrence in the line becomes `*` and later occurrences stay. Every other character stays, and the length is kept. |
| Bullets.BulletAnywhere | convert-notes.py:137-139 | Whatever text precedes a glyph's first occurrence, that occurrence becomes `*`, and every later occurrence of the same glyph is kept. |
| Bullets.BulletsPass | convert-notes.py:138-141 | The list after `sed_bullets` has as many lines as before, and every line keeps its length. |
| Bullets.BulletsPassShape | convert-notes.py:138-141 | `sed_bullets` keeps the number of lines and each line's length. A changed position always held a glyph and now holds `*`, and a line without glyphs is unchanged. |
| Bullets.SedBullets | convert-notes.py:127-141 | The loop over the glyph table, each round building a new list, returns the bullet pass of its input. |
| Snippets.FencesBelow | convert-notes.py:151 | Every collected index is in range and points at a line containing three backticks. |
| Snippets.FenceIndices | convert-notes.py:151 | `snippet_idxs`: every listed index is in range and names a line holding three backticks. |
| Snippets.FencesIncreasing | convert-notes.py:151 | The collected fence indices are strictly increasing. |
| Snippets.FenceAtRank | convert-notes.py:151 | Every fence line is collected, at the position equal to the number of fence lines before it. |
| Snippets.RankOfIndex | convert-notes.py:151 | The `p`-th collected index has exactly `p` fence lines before it. |
| Snippets.FenceIndicesComplete | convert-notes.py:151 | A line is a fence line if and only if its index is collected. |
| Snippets.Range2 | convert-notes.py:153 | `range(lo, hi, 2)` has `(hi - lo + 1) // 2` elements when `lo < hi` and none otherwise, and its `k`-th element is `lo + 2k`. |
| Snippets.Pairs | convert-notes.py:152-153 | There are `len(idx) // 2` pairs, and pair `p` is entries `2p` and `2p + 1`, so an odd last index is dropped. |
| Snippets.FenceLine | convert-notes.py:151-157 | The fate of one line, without the index list. A line is kept, or it holds a fence and becomes `}}}\n` or `"{{{" + line[3:]`. |
| Snippets.FencesPass | convert-notes.py:155-159 | The document after `sed_snippets` has as many lines as before and keeps every line without a fence. |
| Snippets.PairRewritten | convert-notes.py:155-157 | For every pair, the start comes before the end. The start line becomes `{{{` plus the old line minus its first three characters, and the end line becomes exactly `}}}\n`. |
| Snippets.ChangedOnlyInPairs | convert-notes.py:155-157 | Any line the pass changes is the start or end of some pair. So block bodies and every other line are kept. |
| Snippets.OddFenceKept | convert-notes.py:152-153 | With an odd number of fence lines the last one is not converted. |
| Snippets.IndentedFence | convert-notes.py:156 | Take a block whose opening line is a two-character indentation, three backticks and any text `rest`, with any fence-free body line. The opening becomes `{{{`, two backticks and `rest`, because dropping three characters removes the indentation and only one backtick. The closing line becomes `}}}\n`. |
| Snippets.SedSnippets | convert-notes.py:144-159 | The pairing is computed before any write, then each pair's lines are written in place. The list ends up as the line-by-line fence rule of its old contents, and the same list is returned. |
| ConvertNotes.TitleLine | convert-notes.py:88 | `"= {} =\n".format(line.rstrip())` is `= `, the first line without its trailing whitespace (newline included), and ` =` plus a newline. Its length is that of the stripped line plus 5. |
| ConvertNotes.Title | convert-notes.py:88 | An empty list has no title line. Otherwise line 0 becomes `= rstrip(line 0) =\n` and every other line is unchanged. |
| ConvertNotes.Convert | convert-notes.py:88-93 | The title rule, then the header, tag, bullet and fence passes. It fails, as `lines[0]` does, exactly when the file is empty, and otherwise yields as many lines as were read. |
| ConvertNotes.ConvertFile | convert-notes.py:88-93 | The title assignment followed by the four passes, in the source's order, computes `Convert`, and `IndexError` for an empty file. |
| ConvertNotes.ConvertHeaderExample | convert-notes.py:88-110 | The file `Notes`, `### t` converts to `= Notes =`, `=== t ===` for any header text `t` (such as `Section`) free of newlines, bullet glyphs and backticks. |
| ConvertNotes.ConvertTagWithDigitExample | convert-notes.py:88-122 | The file `My Title`, `@tag1` converts to `= My Title =`, `@tag1`: the tag with a digit is not converted. |

## Left out

- `main` (convert-notes.py:16-74) is not modelled. It covers option parsing, directory checks, the overwrite prompt, `sys.exit`, the time-stamped summary page and the append to `index.wiki`. All of that is command-line and file-system I/O with wall-clock time.
- The file reads and writes in `convert_file` (convert-notes.py:82-83, 97-98) are not modelled. `ConvertFile` takes the lines `readlines()` returned and gives back the lines to write.
- The `.md` filter and extension stripping (convert-notes.py:32, 35, 69) are not modelled. They belong to the directory walk in `main`.
- setup.py only holds packaging metadata and is not part of this model.
- Regular-expression matching in general is not modelled. Only the two concrete patterns are, as explicit matchers.
- `PyText.IsSpace` is a fixed table of the code points that Python's `str.isspace` accepts. No other Unicode property is modelled.
- Python list identity is modelled only as far as the source depends on it. The in-place passes return the array they were given. `sed_bullets`'s fresh lists are modelled as sequence values, so object identity is not tracked for them.
