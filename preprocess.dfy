/**
 * Text preprocessing of the extraction pipeline (article_info_extractor.py):
 * cutting the article at its reference section, counting words and capping
 * the text to a word budget before it is sent to the annotator.
 */
module Preprocess {
  import opened Wrappers
  import opened Text

  /** Word budget per article for model processing. */
  const WORD_CAP: nat := 10000

  // ---------------------------------------------------------------------
  // Lines
  // ---------------------------------------------------------------------

  /**
   * `text.splitlines()` with '\n' as the only line break: the pieces between
   * breaks, without the empty piece that follows a final break.
   */
  function Lines(text: string): seq<string> {
    var parts := Split(text, {'\n'});
    if parts[|parts| - 1] == [] then parts[..|parts| - 1] else parts
  }

  /**
   * The lines hold no '\n' and, re-joined with '\n', give the text back
   * up to the final line break that `splitlines` drops.
   */
  lemma LinesRejoin(text: string)
    ensures forall i :: 0 <= i < |Lines(text)| ==> Avoids(Lines(text)[i], {'\n'})
    ensures Join(Lines(text), "\n") == text || Join(Lines(text), "\n") + "\n" == text
  {
    var parts := Split(text, {'\n'});
    SplitPiecesFree(text, {'\n'});
    JoinSplit(text, '\n');
    if parts[|parts| - 1] == [] {
      DropFinalBreak(parts);
    }
  }

  /** Dropping an empty last piece drops the final '\n' of the joined text, if any. */
  lemma DropFinalBreak(parts: seq<string>)
    requires parts != [] && parts[|parts| - 1] == []
    ensures var init := parts[..|parts| - 1];
      Join(init, "\n") == Join(parts, "\n") || Join(init, "\n") + "\n" == Join(parts, "\n")
  {
    var init := parts[..|parts| - 1];
    if init != [] {
      assert parts == init + [[]];
      JoinSnoc(init, "\n", []);
    }
  }

  // ---------------------------------------------------------------------
  // truncate_at_references
  // ---------------------------------------------------------------------

  /**
   * A standalone reference heading: after stripping whitespace and one
   * optional trailing colon (with the whitespace before it), the line reads
   * "reference" or "references" in any letter case.
   */
  predicate IsReferenceHeading(line: string) {
    IsReferenceWord(HeadingWord(Strip(line)))
  }

  /** A stripped line without its optional trailing colon and the whitespace before it. */
  function HeadingWord(core: string): string {
    if core != [] && core[|core| - 1] == ':' then RStrip(core[..|core| - 1]) else core
  }

  /** "reference" or "references", letter case ignored. */
  predicate IsReferenceWord(w: string) {
    SameIgnoringCase(w, "reference") || SameIgnoringCase(w, "references")
  }

  /** The index of the first heading line, if any. */
  function FirstHeading(lines: seq<string>): (r: Option<nat>)
    ensures r.Some? ==> r.value < |lines| && IsReferenceHeading(lines[r.value])
    ensures r.Some? ==> forall j :: 0 <= j < r.value ==> !IsReferenceHeading(lines[j])
    ensures r.None? ==> forall j :: 0 <= j < |lines| ==> !IsReferenceHeading(lines[j])
  {
    if lines == [] then None
    else if IsReferenceHeading(lines[0]) then Some(0)
    else
      assert forall j :: 0 < j < |lines| ==> lines[j] == lines[1..][j - 1];
      match FirstHeading(lines[1..])
      case None => None
      case Some(i) => Some(i + 1)
  }

  /**
   * What truncation yields: the text itself when no line is a heading,
   * otherwise the lines before the first heading, re-joined with '\n' and
   * right-stripped.
   */
  function Truncated(text: string): string {
    var lines := Lines(text);
    match FirstHeading(lines)
    case None => text
    case Some(i) => RStrip(Join(lines[..i], "\n"))
  }

  /** `truncate_at_references`: walks the lines and stops at the first heading. */
  method TruncateAtReferences(text: string) returns (r: string)
    ensures r == Truncated(text)
    ensures (forall j :: 0 <= j < |Lines(text)| ==> !IsReferenceHeading(Lines(text)[j])) ==> r == text
  {
    var lines := Lines(text);
    var i := 0;
    while i < |lines|
      invariant i <= |lines|
      invariant forall j :: 0 <= j < i ==> !IsReferenceHeading(lines[j])
    {
      if IsReferenceHeading(lines[i]) {
        FirstHeadingAt(lines, i);
        return RStrip(Join(lines[..i], "\n"));
      }
      i := i + 1;
    }
    assert FirstHeading(lines) == None;
    return text;
  }

  /** The first heading is the heading with no heading before it. */
  lemma {:induction false} FirstHeadingAt(lines: seq<string>, i: nat)
    requires i < |lines| && IsReferenceHeading(lines[i])
    requires forall j :: 0 <= j < i ==> !IsReferenceHeading(lines[j])
    ensures FirstHeading(lines) == Some(i)
  {
    if i > 0 {
      var tail := lines[1..];
      assert tail[i - 1] == lines[i] && !IsReferenceHeading(lines[0]);
      assert forall j :: 0 <= j < i - 1 ==> tail[j] == lines[j + 1];
      FirstHeadingAt(tail, i - 1);
    }
  }

  /** The heading test looks only at the stripped line. */
  lemma HeadingIgnoresTrailingSpace(line: string, ws: string)
    requires AllSpace(ws)
    ensures IsReferenceHeading(line + ws) == IsReferenceHeading(line)
  {
    StripSpaceSuffix(line, ws);
  }

  /**
   * Every line shaped like the heading pattern (whitespace, the word in any
   * case, whitespace, an optional colon, whitespace) is a heading.
   */
  lemma HeadingShapesMatch(pre: string, w: string, mid: string, colon: string, post: string)
    requires AllSpace(pre) && AllSpace(mid) && AllSpace(post)
    requires IsReferenceWord(w)
    requires colon == "" || colon == ":"
    ensures IsReferenceHeading(pre + w + mid + colon + post)
  {
    ReferenceWordEnds(w);
    var x := w + mid + colon;
    assert pre + w + mid + colon + post == pre + x + post;
    StripOfPadded(pre, x, post);
    HeadingWordOf(w, mid, colon);
  }

  lemma ReferenceWordEnds(w: string)
    requires IsReferenceWord(w)
    ensures w != [] && !IsSpace(w[0]) && !IsSpace(w[|w| - 1]) && w[|w| - 1] != ':'
  {
    if SameIgnoringCase(w, "reference") {
      SameIgnoringCaseAt(w, "reference", 0);
      SameIgnoringCaseAt(w, "reference", 8);
    } else {
      SameIgnoringCaseAt(w, "references", 0);
      SameIgnoringCaseAt(w, "references", 9);
    }
  }

  lemma StripOfPadded(pre: string, x: string, post: string)
    requires AllSpace(pre) && AllSpace(post)
    requires x != [] && !IsSpace(x[0])
    ensures Strip(pre + x + post) == RStrip(x)
  {
    assert pre + x + post == pre + (x + post);
    LStripSpacePrefix(pre, x + post);
    assert (x + post)[0] == x[0];
    assert LStrip(x + post) == x + post;
    RStripSpaceSuffix(x, post);
  }

  lemma HeadingWordOf(w: string, mid: string, colon: string)
    requires w != [] && !IsSpace(w[0]) && !IsSpace(w[|w| - 1]) && w[|w| - 1] != ':'
    requires AllSpace(mid)
    requires colon == "" || colon == ":"
    ensures HeadingWord(RStrip(w + mid + colon)) == w
  {
    var x := w + mid + colon;
    if colon == ":" {
      assert x[|x| - 1] == ':';
      assert RStrip(x) == x;
      assert x[..|x| - 1] == w + mid;
      RStripSpaceSuffix(w, mid);
    } else {
      assert x == w + mid;
      RStripSpaceSuffix(w, mid);
    }
    assert RStrip(w) == w;
  }

  /** A sentence that merely mentions a reference is not a heading. */
  lemma ProseIsNotHeading()
    ensures !IsReferenceHeading("reference genome")
    ensures !IsReferenceHeading("References and notes")
    ensures !IsReferenceHeading("references::")
  {
    var a, b, c := "reference genome", "References and notes", "references::";
    assert Strip(a) == a;
    assert Strip(b) == b;
    assert Strip(c) == c;
    assert |Lower(a)| == 16 && |Lower(b)| == 20;
    assert c[..|c| - 1] == "references:";
    assert RStrip("references:") == "references:";
    assert |Lower("references:")| == 11 && Lower("references:")[10] == ':';
  }

  /** Truncation only ever drops a suffix of the text. */
  lemma TruncatedIsPrefix(text: string)
    ensures |Truncated(text)| <= |text|
    ensures Truncated(text) == text[..|Truncated(text)|]
  {
    var lines := Lines(text);
    match FirstHeading(lines)
    case None =>
    case Some(i) =>
      var parts := Split(text, {'\n'});
      assert lines[..i] == parts[..i];
      JoinPrefix(parts, "\n", i);
      JoinSplit(text, '\n');
      RStripIsPrefix(Join(lines[..i], "\n"));
  }

  /** No line of the truncated text is a reference heading. */
  lemma TruncatedHasNoHeading(text: string)
    ensures forall j :: 0 <= j < |Lines(Truncated(text))| ==> !IsReferenceHeading(Lines(Truncated(text))[j])
  {
    var lines := Lines(text);
    match FirstHeading(lines)
    case None =>
    case Some(i) =>
      var parts := Split(text, {'\n'});
      assert lines[..i] == parts[..i];
      SplitPiecesFree(text, {'\n'});
      KeptLinesHaveNoHeading(lines[..i]);
  }

  lemma KeptLinesHaveNoHeading(ls: seq<string>)
    requires forall j :: 0 <= j < |ls| ==> !IsReferenceHeading(ls[j])
    requires PiecesAvoid(ls, {'\n'})
    ensures forall j :: 0 <= j < |Lines(RStrip(Join(ls, "\n")))| ==> !IsReferenceHeading(Lines(RStrip(Join(ls, "\n")))[j])
  {
    if ls != [] {
      var sp := Split(RStrip(Join(ls, "\n")), {'\n'});
      var ws := StrippedPieces(ls);
      forall j | 0 <= j < |sp| ensures !IsReferenceHeading(sp[j]) {
        if j == |sp| - 1 {
          HeadingIgnoresTrailingSpace(sp[j], ws);
        }
      }
    }
  }

  /**
   * Right-stripping joined lines keeps the leading lines and cuts only
   * trailing whitespace off the last line kept.
   */
  lemma StrippedPieces(ls: seq<string>) returns (ws: string)
    requires ls != [] && PiecesAvoid(ls, {'\n'})
    ensures var sp := Split(RStrip(Join(ls, "\n")), {'\n'});
      && |sp| <= |ls|
      && (forall j :: 0 <= j < |sp| - 1 ==> sp[j] == ls[j])
      && AllSpace(ws) && ls[|sp| - 1] == sp[|sp| - 1] + ws
  {
    var joined := Join(ls, "\n");
    var p := RStrip(joined);
    RStripIsPrefix(joined);
    var q := joined[|p|..];
    assert joined == p + q;
    SplitJoin(ls, '\n');
    SplitConcat(p, q, {'\n'});
    SplitAllSpace(q, {'\n'});
    var sp, sq := Split(p, {'\n'}), Split(q, {'\n'});
    assert ls == sp[..|sp| - 1] + [sp[|sp| - 1] + sq[0]] + sq[1..];
    ws := sq[0];
    assert ls[|sp| - 1] == sp[|sp| - 1] + ws;
  }

  // ---------------------------------------------------------------------
  // word_count and cap_words
  // ---------------------------------------------------------------------

  /** `word_count`: the number of maximal non-whitespace runs. */
  function WordCount(text: string): (n: nat)
    ensures n == 0 <==> AllSpace(text)
  {
    LStripEmpty(text);
    |Words(text)|
  }

  /** The length of `s[:n]` in Python for a list of length `len`. */
  function PrefixLength(len: nat, n: int): (k: nat)
    ensures k <= len
    ensures n >= 0 ==> k == if n <= len then n else len
  {
    if n >= 0 then (if n <= len then n else len)
    else if len + n >= 0 then len + n
    else 0
  }

  /** `cap_words`: the text itself, or its first `cap` words joined by single spaces. */
  function CapWords(text: string, cap: int): string {
    var tokens := Words(text);
    if |tokens| <= cap then text
    else Join(tokens[..PrefixLength(|tokens|, cap)], " ")
  }

  function Min(a: int, b: int): int {
    if a <= b then a else b
  }

  /**
   * Capping keeps exactly the first `cap` words: the words of the result are
   * the first `min(word_count, cap)` words of the text.
   */
  lemma CapWordsKeepsFirstWords(text: string, cap: int)
    requires cap >= 0
    ensures Words(CapWords(text, cap)) == Words(text)[..Min(WordCount(text), cap)]
    ensures WordCount(CapWords(text, cap)) == Min(WordCount(text), cap)
  {
    var tokens := Words(text);
    if |tokens| > cap {
      WordsOfJoin(tokens[..cap]);
    }
  }

  /** When the budget is exceeded the result is single-space separated, with no other whitespace. */
  lemma CapWordsReformats(text: string, cap: int)
    requires 0 <= cap < WordCount(text)
    ensures Collapsed(CapWords(text, cap))
  {
    JoinOfWordsCollapsed(Words(text)[..cap]);
  }

  /** Capping an already capped text with the same or a larger budget changes nothing. */
  lemma CapWordsIdempotent(text: string, n: int, m: int)
    requires 0 <= n <= m
    ensures CapWords(CapWords(text, n), m) == CapWords(text, n)
  {
    CapWordsKeepsFirstWords(text, n);
  }

  /** The word count handed to the annotator never exceeds WORD_CAP. */
  lemma ProcessedCountBounded(text: string)
    ensures WordCount(CapWords(text, WORD_CAP)) == Min(WordCount(text), WORD_CAP)
    ensures WordCount(CapWords(text, WORD_CAP)) <= WORD_CAP
  {
    CapWordsKeepsFirstWords(text, WORD_CAP);
  }

  /**
   * The counting example "a  b\nc" and every text of the same shape: two
   * spaces and a line break both separate words, so there are three.
   */
  lemma WordCountExample(x: char, y: char, z: char)
    requires !IsSpace(x) && !IsSpace(y) && !IsSpace(z)
    ensures Words([x, ' ', ' ', y, '\n', z]) == [[x], [y], [z]]
    ensures WordCount([x, ' ', ' ', y, '\n', z]) == 3
  {
    var rest := [' ', y, '\n', z];
    assert [x, ' ', ' ', y, '\n', z] == [x] + [' '] + rest;
    WordsSplitAtSpace([x], ' ', rest);
    WordsOfWord([x]);
    WordsExampleRest(y, z);
  }

  /** The tail " y\nz" of the counting example holds the words y and z. */
  lemma WordsExampleRest(y: char, z: char)
    requires !IsSpace(y) && !IsSpace(z)
    ensures Words([' ', y, '\n', z]) == [[y], [z]]
  {
    var rest := [y, '\n', z];
    assert [' ', y, '\n', z] == [] + [' '] + rest;
    WordsSplitAtSpace([], ' ', rest);
    assert rest == [y] + ['\n'] + [z];
    WordsSplitAtSpace([y], '\n', [z]);
    WordsOfSpace([]);
    WordsOfWord([y]);
    WordsOfWord([z]);
  }

}
