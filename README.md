# Line patcher

A Dafny model of the line-patching transformation in `modify_file`
(utility.py). The function reads a text file as a list of lines and walks
them in order. A line that contains the search phrase as a substring is
replaced by the line with its trailing whitespace removed (`rstrip()`,
which also drops the line terminator), then the insertion text, then a
single `"\n"`. Any other line is kept as it was, terminator included. The
resulting list is written back over the file.

The model has one module, `LinePatcher` (`line_patcher.dfy`):

- `IsSpace`, `Contains` and `RStrip` model Python's `str.isspace`, the
  `in` operator on strings and `str.rstrip()` with no argument;
- `PatchLine` is what the loop does to one line, and `PatchLines` is the
  whole output list, defined line by line;
- `ModifyLines` is the loop itself (`modified_lines = []`, `for line in
  lines`, `append`), proved equal to `PatchLines`;
- lemmas state what the transformation promises: the number of list
  entries is kept (the written file can still gain lines, because an
  insertion text containing `"\n"`, as the driver's does, splits each
  patched entry into several lines of the file),
  each output line depends on its own input line only, unmatched lines
  pass through, matched lines have a fixed shape, a file without the phrase
  is unchanged, an empty phrase rewrites every line, and a second run is
  not a no-op;
- the driver's phrase (`queue_free`) and insertion text become constants,
  used in two concrete example lemmas.

## Model

| member | source | states |
|---|---|---|
| `LinePatcher.IsSpace` | utility.py:10 | the characters `rstrip()` removes: exactly those Python's `str.isspace` accepts (ASCII \t \n \x0b \x0c \r, \x1c-\x1f, space, and the Unicode spaces and separators) |
| `LinePatcher.Contains` | utility.py:9 | Python's `search_phrase in line`: the phrase occurs in the line as a contiguous substring at some index |
| `LinePatcher.PatchLine` | utility.py:9-10 | the rewrite of one line: the stripped line plus the insertion text plus `"\n"` when the line contains the phrase, the line itself otherwise |
| `LinePatcher.RStrip` | utility.py:10 | `line.rstrip()` gives a prefix of the line that is empty or does not end in whitespace, and every character it cut off is whitespace |
| `LinePatcher.RStripUnique` | utility.py:10 | that description fixes the result: any prefix with those properties is the `rstrip()` result, so the longest all-whitespace suffix is removed |
| `LinePatcher.RStripIdempotent` | utility.py:10 | stripping an already stripped line removes nothing more |
| `LinePatcher.RStripAfterNewline` | utility.py:10 | text ending in a non-whitespace character followed by `"\n"` strips back to that text |
| `LinePatcher.ContainsEmpty` | utility.py:9 | `"" in line` holds for every line |
| `LinePatcher.ContainsExtend` | utility.py:9 | an occurrence of the phrase survives anything appended after it |
| `LinePatcher.PatchLines` | utility.py:7-11 | the output list has exactly as many lines as the input, and output line i is the patch of input line i alone |
| `LinePatcher.ModifyLines` | utility.py:7-11 | the loop produces one line per input line, in order: the stripped line plus the insertion text plus `"\n"` when the line contains the phrase, the unchanged line otherwise; the result equals `PatchLines` |
| `LinePatcher.MatchedLineShape` | utility.py:9-10 | a matched line ends in `"\n"`, preceded by the insertion text, preceded by a prefix of the original line that has no trailing whitespace and from which only whitespace was cut |
| `LinePatcher.PatchLinesConcat` | utility.py:8-11 | patching a concatenation is the concatenation of the patches: no line moves, is dropped or is duplicated |
| `LinePatcher.PatchLinesIdentity` | utility.py:8-11 | the output equals the input if and only if every line containing the phrase already equals its patched form |
| `LinePatcher.NoMatchNoChange` | utility.py:8-11 | when no line contains the phrase (an empty file included) the output equals the input |
| `LinePatcher.EmptyPhraseRewritesAll` | utility.py:9-10 | with an empty phrase every line is rewritten |
| `LinePatcher.SecondRunAppendsAgain` | utility.py:9-10 | whenever the phrase still occurs in a patched line and the insertion text does not end in whitespace, a second run gives the stripped line plus the insertion text twice plus `"\n"`; with a non-empty insertion text the line changes again, so the operation is not idempotent |
| `LinePatcher.PatchTwice` | utility.py:9-10 | a line already patched once (a stripped line, the insertion text, `"\n"`) in which the phrase occurs gets the insertion text a second time |
| `LinePatcher.StrippedMatchSurvives` | utility.py:9-10 | a phrase in the stripped part of a line is in the line and still in the patched line, so a second run matches it again |
| `LinePatcher.QueueFreeBodyMatches` | utility.py:18 | the driver's phrase `queue_free` occurs in a level file's `"method": "queue_free"` line |
| `LinePatcher.QueueFreeLineExample` | utility.py:17-21 | with the driver's phrase and insertion text, that line becomes the line plus `,` and a new `"start_disabled": false` line, and a second run adds the fragment once more |

## Left out

- Opening, reading (`readlines`), truncating and writing the file (utility.py:3-4, 14-15) are I/O and are not modelled; neither are their failures (missing file, permissions, decode errors, a file left truncated by an interrupted write). The model starts from the list of lines and ends with the list to be written.
- How `readlines` splits text into lines that keep their terminators is library behaviour; the model takes any `seq<string>` of lines.
- The module-level driver (utility.py:17-21) is not run; its phrase and insertion text appear only as constants in `QueueFreeBodyMatches` and `QueueFreeLineExample`, and the path `data/level12.json` not at all.
- `IsSpace` lists the characters `str.isspace` accepts in the Unicode tables current Python versions ship; a future change to those tables is not tracked.
