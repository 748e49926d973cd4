/** A model of the in-memory transformation at the heart of `modify_file`
    in utility.py: every line that contains the search phrase loses its
    trailing whitespace (line terminator included) and gains the insertion
    text followed by a single newline; every other line is kept as it was.
    Reading and writing the file are not part of this model: the operation
    starts from the list of lines and ends with the list to be written. */
module LinePatcher {

  // ---------------------------------------------------------------------
  // Python string primitives used by the loop: `in` and `str.rstrip()`
  // ---------------------------------------------------------------------

  /** The characters Python's `str.isspace` accepts: the ASCII controls
      \t \n \x0b \x0c \r and \x1c-\x1f, the space, and the Unicode
      separators and spaces \x85, \xa0, U+1680, U+2000-U+200A, U+2028,
      U+2029, U+202F, U+205F and U+3000. */
  predicate IsSpace(c: char)
  {
    c == ' ' || ('\t' <= c <= '\r') || ('\U{1C}' <= c <= '\U{1F}')
    || c == '\U{85}' || c == '\U{A0}' || c == '\U{1680}'
    || ('\U{2000}' <= c <= '\U{200A}')
    || c == '\U{2028}' || c == '\U{2029}' || c == '\U{202F}'
    || c == '\U{205F}' || c == '\U{3000}'
  }

  /** `sub` occurs in `s` starting at index `i`. */
  predicate OccursAt(s: string, sub: string, i: nat)
  {
    i + |sub| <= |s| && s[i..i + |sub|] == sub
  }

  /** Python's `sub in s`: `sub` occurs somewhere in `s` as a contiguous
      substring. */
  predicate Contains(s: string, sub: string)
  {
    exists i: nat | i <= |s| :: OccursAt(s, sub, i)
  }

  /** Python's `s.rstrip()` with no argument: `s` without its longest
      suffix made only of whitespace. The result is a prefix of `s`, it
      does not end in whitespace, and everything cut off was whitespace. */
  function RStrip(s: string): (r: string)
    ensures r <= s
    ensures r == [] || !IsSpace(r[|r| - 1])
    ensures forall i | |r| <= i < |s| :: IsSpace(s[i])
    decreases |s|
  {
    if s != [] && IsSpace(s[|s| - 1]) then RStrip(s[..|s| - 1]) else s
  }

  // ---------------------------------------------------------------------
  // The transformation
  // ---------------------------------------------------------------------

  /** What happens to one line inside the loop of `modify_file`. */
  function PatchLine(line: string, phrase: string, insert: string): (r: string)
  {
    if Contains(line, phrase) then RStrip(line) + insert + "\n" else line
  }

  /** The list of lines `modify_file` writes back, line by line: it has as
      many lines as the input and line `i` is the patch of input line `i`. */
  function PatchLines(lines: seq<string>, phrase: string, insert: string): (r: seq<string>)
    ensures |r| == |lines|
    ensures forall i | 0 <= i < |lines| :: r[i] == PatchLine(lines[i], phrase, insert)
  {
    if lines == [] then []
    else [PatchLine(lines[0], phrase, insert)] + PatchLines(lines[1..], phrase, insert)
  }

  /** The loop of `modify_file`: walks the lines in order and appends each
      one, rewritten when it contains the phrase, to the output list. */
  method ModifyLines(lines: seq<string>, phrase: string, insert: string)
    returns (modified: seq<string>)
    ensures |modified| == |lines|
    ensures forall i | 0 <= i < |lines| ::
      modified[i] == (if Contains(lines[i], phrase)
                      then RStrip(lines[i]) + insert + "\n"
                      else lines[i])
    ensures modified == PatchLines(lines, phrase, insert)
  {
    modified := [];
    for k := 0 to |lines|
      invariant |modified| == k
      invariant forall i | 0 <= i < k :: modified[i] == PatchLine(lines[i], phrase, insert)
    {
      var line := lines[k];
      if Contains(line, phrase) {
        line := RStrip(line) + insert + "\n";
      }
      modified := modified + [line];
    }
  }

  // ---------------------------------------------------------------------
  // Properties of the primitives
  // ---------------------------------------------------------------------

  /** `RStrip` is the only function with its contract: any prefix `p` of
      `s` that does not end in whitespace and is followed in `s` only by
      whitespace is `RStrip(s)`. */
  lemma RStripUnique(s: string, p: string)
    requires p <= s
    requires p == [] || !IsSpace(p[|p| - 1])
    requires forall i | |p| <= i < |s| :: IsSpace(s[i])
    ensures RStrip(s) == p
  {
    // Both are prefixes of `s`; a longer one would end in a character
    // the shorter one's contract calls whitespace.
  }

  /** Stripping twice strips nothing more. */
  lemma RStripIdempotent(s: string)
    ensures RStrip(RStrip(s)) == RStrip(s)
  {
    RStripUnique(RStrip(s), RStrip(s));
  }

  /** Appending text that does not end in whitespace to a stripped prefix
      gives a string that `rstrip` leaves alone once a trailing newline is
      removed again. */
  lemma RStripAfterNewline(body: string)
    requires body != [] && !IsSpace(body[|body| - 1])
    ensures RStrip(body + "\n") == body
  {
    RStripUnique(body + "\n", body);
  }

  /** The empty string is in every string (Python: `"" in s` is True). */
  lemma ContainsEmpty(s: string)
    ensures Contains(s, "")
  {
    assert OccursAt(s, "", 0);
  }

  /** An occurrence inside a prefix is still an occurrence after anything
      is appended. */
  lemma ContainsExtend(s: string, t: string, sub: string)
    requires Contains(s, sub)
    ensures Contains(s + t, sub)
  {
    var i: nat :| i <= |s| && OccursAt(s, sub, i);
    assert (s + t)[i..i + |sub|] == s[i..i + |sub|];
    assert OccursAt(s + t, sub, i);
  }

  // ---------------------------------------------------------------------
  // Properties of the transformation
  // ---------------------------------------------------------------------

  /** A line that contains the phrase becomes its whitespace-free prefix,
      then the insertion text, then a single newline: the result ends with
      "\n", the insertion text sits right before it, and what comes before
      is a prefix of the original line with no trailing whitespace, from
      which only whitespace was removed. */
  lemma MatchedLineShape(line: string, phrase: string, insert: string)
    requires Contains(line, phrase)
    ensures var r := PatchLine(line, phrase, insert);
      var body := r[..|r| - |insert| - 1];
      |r| >= |insert| + 1
      && r[|r| - 1] == '\n'
      && r[|r| - |insert| - 1..|r| - 1] == insert
      && body <= line
      && (body == [] || !IsSpace(body[|body| - 1]))
      && (forall i | |body| <= i < |line| :: IsSpace(line[i]))
  {
    var r := PatchLine(line, phrase, insert);
    var body := RStrip(line);
    assert r == body + insert + "\n";
    assert r[..|r| - |insert| - 1] == body;
    assert r[|r| - |insert| - 1..|r| - 1] == insert;
  }

  /** Patching works line by line: patching two lists one after the other
      is patching their concatenation, so no line moves, disappears or is
      duplicated, and a line's fate depends on that line alone. */
  lemma PatchLinesConcat(a: seq<string>, b: seq<string>, phrase: string, insert: string)
    ensures PatchLines(a + b, phrase, insert)
         == PatchLines(a, phrase, insert) + PatchLines(b, phrase, insert)
  {
    // Both sides agree entry by entry, by the contract of `PatchLines`.
  }

  /** The output equals the input exactly when every line containing the
      phrase already has the patched shape; in particular a file in which
      no line contains the phrase (an empty file among them) is written
      back unchanged. */
  lemma PatchLinesIdentity(lines: seq<string>, phrase: string, insert: string)
    ensures PatchLines(lines, phrase, insert) == lines
        <==> forall i | 0 <= i < |lines| ::
               Contains(lines[i], phrase) ==> RStrip(lines[i]) + insert + "\n" == lines[i]
  {
    var r := PatchLines(lines, phrase, insert);
    if r == lines {
      forall i | 0 <= i < |lines| && Contains(lines[i], phrase)
        ensures RStrip(lines[i]) + insert + "\n" == lines[i]
      {
        assert r[i] == lines[i];
      }
    }
  }

  /** If no line contains the phrase, the output equals the input. */
  lemma NoMatchNoChange(lines: seq<string>, phrase: string, insert: string)
    requires forall i | 0 <= i < |lines| :: !Contains(lines[i], phrase)
    ensures PatchLines(lines, phrase, insert) == lines
  {
    PatchLinesIdentity(lines, phrase, insert);
  }

  /** With an empty search phrase every line matches, so every line is
      rewritten. */
  lemma EmptyPhraseRewritesAll(lines: seq<string>, insert: string)
    ensures forall i | 0 <= i < |lines| ::
      PatchLines(lines, "", insert)[i] == RStrip(lines[i]) + insert + "\n"
  {
    forall i | 0 <= i < |lines|
      ensures PatchLines(lines, "", insert)[i] == RStrip(lines[i]) + insert + "\n"
    {
      ContainsEmpty(lines[i]);
    }
  }

  /** Patching is not idempotent: whenever the phrase still occurs in a
      patched line and the insertion text does not end in whitespace, a
      second run strips only the added newline and appends the insertion
      text a second time; with a non-empty insertion text the line
      changes again. */
  lemma SecondRunAppendsAgain(line: string, phrase: string, insert: string)
    requires Contains(line, phrase)
    requires Contains(PatchLine(line, phrase, insert), phrase)
    requires insert == [] || !IsSpace(insert[|insert| - 1])
    ensures PatchLine(PatchLine(line, phrase, insert), phrase, insert)
         == RStrip(line) + insert + insert + "\n"
    ensures insert != [] ==>
      PatchLine(PatchLine(line, phrase, insert), phrase, insert)
      != PatchLine(line, phrase, insert)
  {
    var body := RStrip(line);
    assert PatchLine(line, phrase, insert) == body + insert + "\n";
    PatchTwice(body, phrase, insert);
    var twice := PatchLine(PatchLine(line, phrase, insert), phrase, insert);
    assert |twice| == |body| + 2 * |insert| + 1;
  }

  /** The second run of `SecondRunAppendsAgain`, on a line already patched
      once: `body` is a stripped line, and the phrase occurs in the patched
      line `body + insert + "\n"`. */
  lemma PatchTwice(body: string, phrase: string, insert: string)
    requires body == [] || !IsSpace(body[|body| - 1])
    requires insert == [] || !IsSpace(insert[|insert| - 1])
    requires Contains(body + insert + "\n", phrase)
    ensures PatchLine(body + insert + "\n", phrase, insert) == body + insert + insert + "\n"
  {
    var stripped := body + insert;
    assert stripped == [] || !IsSpace(stripped[|stripped| - 1]);
    RStripUnique(stripped + "\n", stripped);
  }

  /** A phrase that occurs in the stripped part of a line occurs in the
      line and, after patching, in the patched line, so a second run
      matches that line again. */
  lemma StrippedMatchSurvives(line: string, phrase: string, insert: string)
    requires Contains(RStrip(line), phrase)
    ensures Contains(line, phrase)
    ensures Contains(PatchLine(line, phrase, insert), phrase)
  {
    var body := RStrip(line);
    assert body + line[|body|..] == line;
    ContainsExtend(body, line[|body|..], phrase);
    assert body + (insert + "\n") == PatchLine(line, phrase, insert);
    ContainsExtend(body, insert + "\n", phrase);
  }

  // ---------------------------------------------------------------------
  // The configuration the repository runs with
  // ---------------------------------------------------------------------

  /** The search phrase of the repository's driver. */
  const QueueFreePhrase: string := "queue_free"

  /** The insertion text of the repository's driver: a comma, a newline,
      six tabs and a JSON key/value pair. */
  const StartDisabledInsert: string := ",\n\t\t\t\t\t\t\"start_disabled\": false"

  /** The `queue_free` method line of a level file, as `readlines`
      returns it, and the same line without its terminator. */
  const QueueFreeLine: string := "\t\t\t\t\t\"method\": \"queue_free\"\n"
  const QueueFreeBody: string := "\t\t\t\t\t\"method\": \"queue_free\""

  /** The driver's phrase occurs in the method line, after the key. */
  lemma QueueFreeBodyMatches()
    ensures Contains(QueueFreeBody, QueueFreePhrase)
  {
    assert OccursAt(QueueFreeBody, QueueFreePhrase, 16);
  }

  /** A `queue_free` method line of a level file gains the
      `"start_disabled": false` entry on a new line of its own, and a second
      run would add it once more. */
  lemma QueueFreeLineExample()
    ensures PatchLine(QueueFreeLine, QueueFreePhrase, StartDisabledInsert)
         == QueueFreeBody + StartDisabledInsert + "\n"
    ensures PatchLine(PatchLine(QueueFreeLine, QueueFreePhrase, StartDisabledInsert),
                      QueueFreePhrase, StartDisabledInsert)
         == QueueFreeBody + StartDisabledInsert + StartDisabledInsert + "\n"
  {
    assert QueueFreeLine == QueueFreeBody + "\n";
    RStripAfterNewline(QueueFreeBody);
    QueueFreeBodyMatches();
    StrippedMatchSurvives(QueueFreeLine, QueueFreePhrase, StartDisabledInsert);
    SecondRunAppendsAgain(QueueFreeLine, QueueFreePhrase, StartDisabledInsert);
  }
}
