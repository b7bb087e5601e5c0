/**
 * The entity statistics of code/article_info_stat_generator.py: every
 * category cell of the extracted table is split on ';' or ',', each piece
 * is cleaned, placeholder pieces are dropped, and the remaining names are
 * counted per key, with the most frequent spelling of each key as its
 * representative. The per-category report lists (representative, count)
 * ranked by descending count, then by lower-cased name.
 */
module Stats {
  import opened Wrappers
  import opened Text
  import opened Seqs
  import opened Csv
  import opened Ranking

  const CATEGORIES: seq<string> := ["Proteins", "Genes", "DNA", "RNA", "Meth-RNA"]

  /** Lower-cased pieces that stand for "no value". */
  const EMPTY_LIKE: set<string> := {"", "nan", "none", "null", "[]", "{}", "na", "n/a", "-", "--"}

  /** A cell is split at every single ';' or ','. */
  const SPLIT_CHARS: set<char> := {';', ','}

  // ---------------------------------------------------------------------
  // clean_token and key_for
  // ---------------------------------------------------------------------

  predicate IsQuote(c: char) {
    c == '\'' || c == '"'
  }

  /**
   * The stripped token is wrapped: a quote character at each end (the two
   * need not match), or a pair of brackets, braces or parentheses.
   */
  predicate Wrapped(t: string) {
    t != [] &&
    var first, last := t[0], t[|t| - 1];
    || (IsQuote(first) && IsQuote(last))
    || (first == '[' && last == ']')
    || (first == '{' && last == '}')
    || (first == '(' && last == ')')
  }

  /** `t[1:-1]`: empty for a one-character string. */
  function Inner(t: string): string {
    if |t| >= 2 then t[1..|t| - 1] else []
  }

  /** The stripped token with at most one outer pair removed. */
  function Unwrapped(tok: string): (u: string)
    ensures |u| <= |tok|
  {
    var t := Strip(tok);
    if Wrapped(t) then Strip(Inner(t)) else t
  }

  /**
   * `clean_token`: strip, remove one outer pair, then turn every whitespace
   * run into one space and strip again. The result is collapsed, no longer
   * than the token, and has the same words as the unwrapped token.
   */
  function CleanToken(tok: string): (name: string)
    ensures Collapsed(name) && |name| <= |tok|
    ensures Words(name) == Words(Unwrapped(tok))
  {
    CollapseSpacesSpec(Unwrapped(tok));
    CollapseShorter(Unwrapped(tok));
    CollapseSpaces(Unwrapped(tok))
  }

  /** `key_for`: the lower-cased, stripped token when merging case, else the stripped token. */
  function KeyFor(tok: string, caseInsensitive: bool): string {
    if caseInsensitive then Strip(Lower(tok)) else Strip(tok)
  }

  /**
   * The key of a cleaned token is the token itself, or its lower-cased form
   * when case is merged.
   */
  lemma KeyOfCleaned(tok: string)
    ensures KeyFor(CleanToken(tok), false) == CleanToken(tok)
    ensures KeyFor(CleanToken(tok), true) == Lower(CleanToken(tok))
  {
    var name := CleanToken(tok);
    StripOfTrimmed(name);
    var low := Lower(name);
    if low != [] {
      assert LowerChar(name[0]) == low[0] && LowerChar(name[|name| - 1]) == low[|low| - 1];
    }
    StripOfTrimmed(low);
  }

  /** A wrapped word loses exactly its outer pair. */
  lemma CleanWrappedWord(tok: string)
    requires Wrapped(Strip(tok)) && IsWord(Inner(Strip(tok)))
    ensures CleanToken(tok) == Inner(Strip(tok))
  {
    var w := Inner(Strip(tok));
    StripOfTrimmed(w);
    WordsOfWord(w);
  }

  /** A word without an outer pair is kept as it is. */
  lemma CleanPlainWord(tok: string)
    requires !Wrapped(Strip(tok)) && IsWord(Strip(tok))
    ensures CleanToken(tok) == Strip(tok)
  {
    WordsOfWord(Strip(tok));
  }

  /**
   * Only one layer comes off, so cleaning is not idempotent: "[[BRCA1]]"
   * becomes "[BRCA1]", which would become "BRCA1".
   */
  lemma OnePairRemoved()
    ensures CleanToken("[[BRCA1]]") == "[BRCA1]"
    ensures CleanToken("[BRCA1]") == "BRCA1"
  {
    DoubleBracketsCleaned();
    BracketsCleaned();
  }

  /** "[[BRCA1]]" loses its outer pair only. */
  lemma DoubleBracketsCleaned()
    ensures CleanToken("[[BRCA1]]") == "[BRCA1]"
  {
    StripOfTrimmed("[[BRCA1]]");
    assert Inner("[[BRCA1]]") == "[BRCA1]";
    CleanWrappedWord("[[BRCA1]]");
  }

  /** "[BRCA1]" loses its pair. */
  lemma BracketsCleaned()
    ensures CleanToken("[BRCA1]") == "BRCA1"
  {
    StripOfTrimmed("[BRCA1]");
    assert Inner("[BRCA1]") == "BRCA1";
    CleanWrappedWord("[BRCA1]");
  }

  /** The two quote characters of a wrapped token need not match. */
  lemma MismatchedQuotesRemoved()
    ensures CleanToken("'TP53\"") == "TP53"
  {
    StripOfTrimmed("'TP53\"");
    assert Inner("'TP53\"") == "TP53";
    CleanWrappedWord("'TP53\"");
  }

  // ---------------------------------------------------------------------
  // extract_items
  // ---------------------------------------------------------------------

  /** A cleaned piece is counted unless it is empty or a placeholder. */
  predicate Kept(name: string) {
    name != [] && Lower(name) !in EMPTY_LIKE
  }

  /** The name one piece of a cell contributes: its cleaned form, unless that is not kept. */
  function Counted(part: string): seq<string> {
    var name := CleanToken(part);
    if Kept(name) then [name] else []
  }

  /** The counted names among the pieces of a cell, in order. */
  function CleanParts(parts: seq<string>): seq<string> {
    if parts == [] then []
    else CleanParts(parts[..|parts| - 1]) + Counted(parts[|parts| - 1])
  }

  /** The counted names of a whole column; missing cells are skipped. */
  function KeptNames(cells: seq<Option<string>>): seq<string> {
    if cells == [] then []
    else
      var last := cells[|cells| - 1];
      KeptNames(cells[..|cells| - 1]) + (if last.Some? then CleanParts(Split(last.value, SPLIT_CHARS)) else [])
  }

  /** The key of each name, in order. */
  function KeysOf(names: seq<string>, ci: bool): (keys: seq<string>)
    ensures |keys| == |names|
  {
    if names == [] then []
    else KeysOf(names[..|names| - 1], ci) + [KeyFor(names[|names| - 1], ci)]
  }

  /** The names with key `k`, in order: the spellings `casing_tracker[k]` counts. */
  function Spellings(names: seq<string>, k: string, ci: bool): seq<string> {
    if names == [] then []
    else
      var last := names[|names| - 1];
      Spellings(names[..|names| - 1], k, ci) + (if KeyFor(last, ci) == k then [last] else [])
  }

  /** Every counted name is non-empty, not a placeholder and collapsed. */
  lemma {:induction false} CleanPartsKept(parts: seq<string>)
    ensures forall n :: n in CleanParts(parts) ==> Kept(n) && Collapsed(n)
  {
    if parts != [] {
      CleanPartsKept(parts[..|parts| - 1]);
    }
  }

  /**
   * No counted name of a column is empty or, lower-cased, one of the
   * placeholders; and every one is collapsed.
   */
  lemma {:induction false} KeptNamesKept(cells: seq<Option<string>>)
    ensures forall n :: n in KeptNames(cells) ==> Kept(n) && Collapsed(n)
  {
    if cells != [] {
      KeptNamesKept(cells[..|cells| - 1]);
      var last := cells[|cells| - 1];
      if last.Some? {
        CleanPartsKept(Split(last.value, SPLIT_CHARS));
      }
    }
  }

  /** The keys are those of the names, position by position. */
  lemma {:induction false} KeysOfSpec(names: seq<string>, ci: bool)
    ensures forall i :: 0 <= i < |names| ==> KeysOf(names, ci)[i] == KeyFor(names[i], ci)
  {
    if names != [] {
      KeysOfSpec(names[..|names| - 1], ci);
    }
  }

  /** The spellings of `k` are exactly the names with key `k`. */
  lemma {:induction false} SpellingsSpec(names: seq<string>, k: string, ci: bool)
    ensures forall n :: n in Spellings(names, k, ci) <==> n in names && KeyFor(n, ci) == k
  {
    if names != [] {
      SpellingsSpec(names[..|names| - 1], k, ci);
      assert names == names[..|names| - 1] + [names[|names| - 1]];
    }
  }

  /**
   * The representative of key `k`: its most frequent spelling, the first
   * seen among equally frequent ones. It is one of the names and has key `k`.
   */
  function RepOf(names: seq<string>, k: string, ci: bool): (r: string)
    requires k in KeysOf(names, ci)
    ensures r in names && KeyFor(r, ci) == k
  {
    var sp := Spellings(names, k, ci);
    KeysOfSpec(names, ci);
    SpellingsSpec(names, k, ci);
    var i :| 0 <= i < |names| && KeysOf(names, ci)[i] == k;
    assert names[i] in sp;
    TallyOfSpec(sp);
    assert Keys(TallyOf(sp)) != [];
    var r := MostCommon(TallyOf(sp));
    assert r in Keys(TallyOf(sp));
    r
  }

  /** Every key of the names has a spelling counter to pick from. */
  lemma SpellingsOfKey(names: seq<string>, k: string, ci: bool)
    requires k in KeysOf(names, ci)
    ensures TallyOf(Spellings(names, k, ci)) != []
    ensures MostCommon(TallyOf(Spellings(names, k, ci))) == RepOf(names, k, ci)
  {
    KeysOfSpec(names, ci);
    SpellingsSpec(names, k, ci);
    var i :| 0 <= i < |names| && KeysOf(names, ci)[i] == k;
    assert names[i] in Spellings(names, k, ci);
    TallyOfSpec(Spellings(names, k, ci));
  }

  /** The counters `extract_items` keeps for the names seen so far. */
  ghost predicate Tracks(names: seq<string>, ci: bool, counts: Tally<string>, tracker: map<string, Tally<string>>) {
    && counts == TallyOf(KeysOf(names, ci))
    && (forall k :: k in tracker <==> k in KeysOf(names, ci))
    && (forall k :: k in tracker ==> tracker[k] == TallyOf(Spellings(names, k, ci)))
  }

  lemma KeysOfAppend(names: seq<string>, name: string, ci: bool)
    ensures KeysOf(names + [name], ci) == KeysOf(names, ci) + [KeyFor(name, ci)]
  {
    assert (names + [name])[..|names|] == names;
  }

  lemma TallyOfAppend(xs: seq<string>, x: string)
    ensures TallyOf(xs + [x]) == Bump(TallyOf(xs), x)
  {
    assert (xs + [x])[..|xs|] == xs;
  }

  lemma SpellingsAppend(names: seq<string>, name: string, k: string, ci: bool)
    ensures Spellings(names + [name], k, ci) == Spellings(names, k, ci) + (if KeyFor(name, ci) == k then [name] else [])
  {
    assert (names + [name])[..|names|] == names;
  }

  /** A key no name has has no spellings. */
  lemma {:induction false} SpellingsOfAbsent(names: seq<string>, k: string, ci: bool)
    requires k !in KeysOf(names, ci)
    ensures Spellings(names, k, ci) == []
  {
    if names != [] {
      KeysOfAppend(names[..|names| - 1], names[|names| - 1], ci);
      assert names[..|names| - 1] + [names[|names| - 1]] == names;
      SpellingsOfAbsent(names[..|names| - 1], k, ci);
    }
  }

  /** The spelling counter of a name's key after the name is counted. */
  lemma SpellingsGrow(names: seq<string>, name: string, ci: bool, before: Tally<string>)
    requires before == TallyOf(Spellings(names, KeyFor(name, ci), ci))
    ensures Bump(before, name) == TallyOf(Spellings(names + [name], KeyFor(name, ci), ci))
  {
    SpellingsAppend(names, name, KeyFor(name, ci), ci);
    TallyOfAppend(Spellings(names, KeyFor(name, ci), ci), name);
  }

  /** `casing_tracker[k][name] += 1`, starting an empty counter for a new key. */
  function Track(tracker: map<string, Tally<string>>, k: string, name: string): map<string, Tally<string>> {
    tracker[k := Bump(if k in tracker then tracker[k] else [], name)]
  }

  /** Counting one more name. */
  lemma TracksStep(names: seq<string>, name: string, ci: bool, counts: Tally<string>, tracker: map<string, Tally<string>>)
    requires Tracks(names, ci, counts, tracker)
    ensures Tracks(names + [name], ci, Bump(counts, KeyFor(name, ci)),
      Track(tracker, KeyFor(name, ci), name))
  {
    TrackedCountsStep(names, name, ci, counts);
    TrackedKeysStep(names, name, ci, counts, tracker);
    TrackedSpellingsStep(names, name, ci, counts, tracker);
  }

  /** After one more name the key counter still counts the keys seen. */
  lemma TrackedCountsStep(names: seq<string>, name: string, ci: bool, counts: Tally<string>)
    requires counts == TallyOf(KeysOf(names, ci))
    ensures Bump(counts, KeyFor(name, ci)) == TallyOf(KeysOf(names + [name], ci))
  {
    KeysOfAppend(names, name, ci);
    TallyOfAppend(KeysOf(names, ci), KeyFor(name, ci));
  }

  /** After one more name the tracker's keys are still the keys seen. */
  lemma TrackedKeysStep(names: seq<string>, name: string, ci: bool, counts: Tally<string>, tracker: map<string, Tally<string>>)
    requires Tracks(names, ci, counts, tracker)
    ensures forall k :: (k in Track(tracker, KeyFor(name, ci), name)
      <==> k in KeysOf(names + [name], ci))
  {
    KeysOfAppend(names, name, ci);
    forall k | true ensures k in KeysOf(names + [name], ci) <==> k in KeysOf(names, ci) || k == KeyFor(name, ci) {
    }
  }

  /** After one more name every tracked key still counts its spellings. */
  lemma TrackedSpellingsStep(names: seq<string>, name: string, ci: bool, counts: Tally<string>, tracker: map<string, Tally<string>>)
    requires Tracks(names, ci, counts, tracker)
    ensures forall k :: k in Track(tracker, KeyFor(name, ci), name) ==>
      Track(tracker, KeyFor(name, ci), name)[k] == TallyOf(Spellings(names + [name], k, ci))
  {
    var k := KeyFor(name, ci);
    var before := if k in tracker then tracker[k] else [];
    var tracker' := Track(tracker, k, name);
    if k !in tracker {
      SpellingsOfAbsent(names, k, ci);
    }
    SpellingsGrow(names, name, ci, before);
    forall k' | k' in tracker' ensures tracker'[k'] == TallyOf(Spellings(names + [name], k', ci)) {
      if k' != k {
        assert k' in tracker && tracker'[k'] == tracker[k'];
        OtherSpellingsKept(names, name, ci, k');
      }
    }
  }

  /** Counting a name leaves the spellings of every other key as they were. */
  lemma OtherSpellingsKept(names: seq<string>, name: string, ci: bool, k: string)
    requires k != KeyFor(name, ci)
    ensures Spellings(names + [name], k, ci) == Spellings(names, k, ci)
  {
    SpellingsAppend(names, name, k, ci);
    assert Spellings(names, k, ci) + [] == Spellings(names, k, ci);
  }

  /** One more piece of a cell. */
  lemma CleanPartsStep(parts: seq<string>, j: nat)
    requires j < |parts|
    ensures CleanParts(parts[..j + 1]) == CleanParts(parts[..j]) + Counted(parts[j])
  {
    assert parts[..j + 1][..j] == parts[..j];
  }

  /** The inner loop of `extract_items`: the cell is split on `;` and `,` and each piece counted. */
  method CountCell(value: string, ci: bool, counts: Tally<string>, tracker: map<string, Tally<string>>, ghost names: seq<string>)
    returns (counts': Tally<string>, tracker': map<string, Tally<string>>)
    requires Tracks(names, ci, counts, tracker)
    ensures Tracks(names + CleanParts(Split(value, SPLIT_CHARS)), ci, counts', tracker')
  {
    var parts := Split(value, SPLIT_CHARS);
    counts', tracker' := CountPieces(parts, ci, counts, tracker, names);
  }

  /** The names seen after one more piece of a cell. */
  lemma SeenPiecesStep(names: seq<string>, parts: seq<string>, j: nat)
    requires j < |parts|
    ensures names + CleanParts(parts[..j + 1]) == (names + CleanParts(parts[..j])) + Counted(parts[j])
  {
    CleanPartsStep(parts, j);
    AppendAssoc(names, CleanParts(parts[..j]), Counted(parts[j]));
  }

  /** The pieces of one cell, in order. */
  method CountPieces(parts: seq<string>, ci: bool, counts: Tally<string>, tracker: map<string, Tally<string>>, ghost names: seq<string>)
    returns (counts': Tally<string>, tracker': map<string, Tally<string>>)
    requires Tracks(names, ci, counts, tracker)
    ensures Tracks(names + CleanParts(parts), ci, counts', tracker')
  {
    counts', tracker' := counts, tracker;
    ghost var sofar := names;
    assert names + CleanParts(parts[..0]) == names;
    for j := 0 to |parts|
      invariant sofar == names + CleanParts(parts[..j])
      invariant Tracks(sofar, ci, counts', tracker')
    {
      SeenPiecesStep(names, parts, j);
      counts', tracker' := CountPiece(parts[j], ci, counts', tracker', sofar);
      sofar := sofar + Counted(parts[j]);
    }
    assert parts[..|parts|] == parts;
  }

  /** One piece of a cell: skipped when its cleaned name is not kept, counted otherwise. */
  method CountPiece(part: string, ci: bool, counts: Tally<string>, tracker: map<string, Tally<string>>, ghost names: seq<string>)
    returns (counts': Tally<string>, tracker': map<string, Tally<string>>)
    requires Tracks(names, ci, counts, tracker)
    ensures Tracks(names + Counted(part), ci, counts', tracker')
  {
    var name := CleanToken(part);
    if !Kept(name) {
      assert names + [] == names;
      return counts, tracker;
    }
    counts', tracker' := CountName(name, ci, counts, tracker, names);
  }

  /** One kept name: its key's count and the name's count under that key go up by one. */
  method CountName(name: string, ci: bool, counts: Tally<string>, tracker: map<string, Tally<string>>, ghost names: seq<string>)
    returns (counts': Tally<string>, tracker': map<string, Tally<string>>)
    requires Tracks(names, ci, counts, tracker)
    ensures Tracks(names + [name], ci, counts', tracker')
  {
    TracksStep(names, name, ci, counts, tracker);
    var k := KeyFor(name, ci);
    counts' := Bump(counts, k);
    tracker' := Track(tracker, k, name);
  }

  /** One more cell of the column. */
  lemma KeptNamesStep(cells: seq<Option<string>>, i: nat)
    requires i < |cells|
    ensures KeptNames(cells[..i + 1]) ==
      KeptNames(cells[..i]) + (if cells[i].Some? then CleanParts(Split(cells[i].value, SPLIT_CHARS)) else [])
  {
    assert cells[..i + 1][..i] == cells[..i];
  }

  /** The first loop of `extract_items`: count every kept name of every present cell. */
  method CountColumn(cells: seq<Option<string>>, ci: bool) returns (counts: Tally<string>, tracker: map<string, Tally<string>>)
    ensures Tracks(KeptNames(cells), ci, counts, tracker)
  {
    counts, tracker := [], map[];
    ghost var names: seq<string> := [];
    for i := 0 to |cells|
      invariant names == KeptNames(cells[..i])
      invariant Tracks(names, ci, counts, tracker)
    {
      KeptNamesStep(cells, i);
      if cells[i].Some? {
        counts, tracker := CountCell(cells[i].value, ci, counts, tracker, names);
        names := names + CleanParts(Split(cells[i].value, SPLIT_CHARS));
      } else {
        assert names + [] == names;
      }
    }
    assert cells[..|cells|] == cells;
  }

  /** The keys of the counter are the keys of the names. */
  lemma CounterKeys(names: seq<string>, ci: bool)
    ensures forall k :: k in Keys(TallyOf(KeysOf(names, ci))) <==> k in KeysOf(names, ci)
  {
    TallyOfSpec(KeysOf(names, ci));
  }

  /** The second loop of `extract_items`: each key's most common spelling. */
  method PickRepresentatives(keys: seq<string>, tracker: map<string, Tally<string>>) returns (rep: map<string, string>)
    requires forall k :: k in keys ==> k in tracker && tracker[k] != []
    ensures forall k :: k in rep <==> k in keys
    ensures forall k :: k in rep ==> rep[k] == MostCommon(tracker[k])
  {
    rep := map[];
    for j := 0 to |keys|
      invariant forall k :: k in rep <==> k in keys[..j]
      invariant forall k :: k in rep ==> k in tracker && tracker[k] != [] && rep[k] == MostCommon(tracker[k])
    {
      var k := keys[j];
      rep := rep[k := MostCommon(tracker[k])];
      assert keys[..j + 1] == keys[..j] + [k];
    }
    assert keys[..|keys|] == keys;
  }

  /**
   * `extract_items`: the per-key counter of the column's counted names and
   * each key's representative spelling.
   */
  method ExtractItems(cells: seq<Option<string>>, ci: bool) returns (counts: Tally<string>, rep: map<string, string>)
    ensures counts == TallyOf(KeysOf(KeptNames(cells), ci))
    ensures forall k :: k in rep <==> k in KeysOf(KeptNames(cells), ci)
    ensures forall k :: k in rep ==> rep[k] == RepOf(KeptNames(cells), k, ci)
  {
    var tracker;
    counts, tracker := CountColumn(cells, ci);
    ghost var names := KeptNames(cells);
    CounterKeys(names, ci);
    forall k | k in KeysOf(names, ci)
      ensures k in tracker && tracker[k] != [] && MostCommon(tracker[k]) == RepOf(names, k, ci)
    {
      SpellingsOfKey(names, k, ci);
    }
    rep := PickRepresentatives(Keys(counts), tracker);
  }

  // ---------------------------------------------------------------------
  // What the counters hold
  // ---------------------------------------------------------------------

  /** A name's key occurs once per spelling of that key. */
  lemma {:induction false} OccOfKey(names: seq<string>, k: string, ci: bool)
    ensures Occ(KeysOf(names, ci), k) == |Spellings(names, k, ci)|
  {
    if names != [] {
      var init, last := names[..|names| - 1], names[|names| - 1];
      OccOfKey(init, k, ci);
      var keys := KeysOf(names, ci);
      assert keys == KeysOf(init, ci) + [KeyFor(last, ci)];
      assert keys[..|keys| - 1] == KeysOf(init, ci) && keys[|keys| - 1] == KeyFor(last, ci);
      assert Occ(keys, k) == Occ(KeysOf(init, ci), k) + (if KeyFor(last, ci) == k then 1 else 0);
    }
  }

  /**
   * Counting is per occurrence: the counts add up to the number of counted
   * names, and the count of a key is the total of its spelling counter.
   */
  lemma CountsAddUp(cells: seq<Option<string>>, ci: bool, k: string)
    ensures Total(TallyOf(KeysOf(KeptNames(cells), ci))) == |KeptNames(cells)|
    ensures Count(TallyOf(KeysOf(KeptNames(cells), ci)), k) == Total(TallyOf(Spellings(KeptNames(cells), k, ci)))
  {
    var names := KeptNames(cells);
    TallyOfSpec(KeysOf(names, ci));
    TallyOfSpec(Spellings(names, k, ci));
    OccOfKey(names, k, ci);
  }

  /**
   * The representative of a key is one of its spellings of maximal
   * frequency, and every spelling seen before it is strictly less frequent.
   */
  lemma RepMostFrequent(names: seq<string>, k: string, ci: bool)
    requires k in KeysOf(names, ci)
    ensures RepOf(names, k, ci) in Spellings(names, k, ci)
    ensures forall s :: s in Spellings(names, k, ci) ==>
      Occ(Spellings(names, k, ci), s) <= Occ(Spellings(names, k, ci), RepOf(names, k, ci))
    ensures forall s :: (s in Spellings(names, k, ci) &&
      FirstIndex(Spellings(names, k, ci), s) < FirstIndex(Spellings(names, k, ci), RepOf(names, k, ci))) ==>
      Occ(Spellings(names, k, ci), s) < Occ(Spellings(names, k, ci), RepOf(names, k, ci))
  {
    SpellingsOfKey(names, k, ci);
    MostCommonOfTally(Spellings(names, k, ci));
  }

  // ---------------------------------------------------------------------
  // The report of main
  // ---------------------------------------------------------------------

  /** `[(rep_map.get(k, k), c) for k, c in counts.items()]` */
  function ReportRows(counts: Tally<string>, rep: map<string, string>): seq<Row> {
    seq(|counts|, i requires 0 <= i < |counts| =>
      (if counts[i].0 in rep then rep[counts[i].0] else counts[i].0, counts[i].1))
  }

  /**
   * The sheet's rows before sorting: each key of the names, in first-seen
   * order, as its representative and its number of occurrences.
   */
  function Entries(names: seq<string>, ci: bool): seq<Row> {
    var t := TallyOf(KeysOf(names, ci));
    CounterKeys(names, ci);
    seq(|t|, i requires 0 <= i < |t| => (RepOf(names, Keys(t)[i], ci), t[i].1))
  }

  /**
   * The entries list each distinct key once, in first-seen order, as its
   * representative and its number of occurrences.
   */
  lemma EntriesSpec(names: seq<string>, ci: bool)
    ensures |Entries(names, ci)| == |Dedup(KeysOf(names, ci))|
    ensures forall i :: 0 <= i < |Entries(names, ci)| ==>
      Dedup(KeysOf(names, ci))[i] in KeysOf(names, ci) &&
      Entries(names, ci)[i].0 == RepOf(names, Dedup(KeysOf(names, ci))[i], ci) &&
      Entries(names, ci)[i].1 == Occ(KeysOf(names, ci), Dedup(KeysOf(names, ci))[i])
  {
    var keys := KeysOf(names, ci);
    var t := TallyOf(keys);
    TallyOfSpec(keys);
    forall i | 0 <= i < |t|
      ensures Dedup(keys)[i] in keys
      ensures Entries(names, ci)[i].1 == Occ(keys, Dedup(keys)[i])
    {
      TallyEntryOcc(keys, i);
    }
  }

  /** One category's sheet: its sorted rows, the number of keys and the number of mentions. */
  datatype Sheet = Sheet(category: string, rows: seq<Row>, unique: nat, mentions: nat)

  /** The sheet `main` writes for a category with the given cells. */
  function SheetOf(category: string, cells: seq<Option<string>>, ci: bool): Sheet {
    var names := KeptNames(cells);
    Sheet(category, Rank(Entries(names, ci)), |Dedup(KeysOf(names, ci))|, |names|)
  }

  /** One pass of `main`'s loop over the categories. */
  method ExtractSheet(category: string, cells: seq<Option<string>>, ci: bool) returns (sheet: Sheet)
    ensures sheet == SheetOf(category, cells, ci)
  {
    var counts, rep := ExtractItems(cells, ci);
    ghost var names := KeptNames(cells);
    TallyOfSpec(KeysOf(names, ci));
    var rows := ReportRows(counts, rep);
    CounterKeys(names, ci);
    forall i | 0 <= i < |counts|
      ensures rows[i] == Entries(names, ci)[i]
    {
      assert Keys(counts)[i] == counts[i].0;
    }
    assert rows == Entries(names, ci);
    sheet := Sheet(category, Rank(rows), |counts|, Total(counts));
  }

  /** What `main` produces: the missing-column error, or one sheet per category. */
  datatype Report =
    | MissingCategories(missing: seq<string>)
    | Sheets(sheets: seq<Sheet>)

  /**
   * `main`: a missing category column is reported before any category is
   * processed; otherwise one sheet per category, in order.
   */
  method GenerateStats(table: Table, ci: bool) returns (out: Report)
    ensures MissingColumns(CATEGORIES, table.columns) != [] ==>
      out == MissingCategories(MissingColumns(CATEGORIES, table.columns))
    ensures MissingColumns(CATEGORIES, table.columns) == [] ==>
      out.Sheets? && |out.sheets| == |CATEGORIES| &&
      forall k :: 0 <= k < |CATEGORIES| ==> out.sheets[k] == SheetOf(CATEGORIES[k], Column(table.rows, CATEGORIES[k]), ci)
  {
    var missing := MissingColumns(CATEGORIES, table.columns);
    if missing != [] {
      return MissingCategories(missing);
    }
    var sheets := ExtractSheets(CATEGORIES, table.rows, ci);
    out := Sheets(sheets);
  }

  /** The sheets for `categories`, in order. */
  ghost function SheetsOf(categories: seq<string>, rows: seq<map<string, string>>, ci: bool): (sheets: seq<Sheet>)
    ensures |sheets| == |categories|
  {
    if categories == [] then []
    else
      var n := |categories| - 1;
      SheetsOf(categories[..n], rows, ci) + [SheetOf(categories[n], Column(rows, categories[n]), ci)]
  }

  /** Each category has its own sheet, at its own position. */
  lemma {:induction false} SheetsOfAt(categories: seq<string>, rows: seq<map<string, string>>, ci: bool, k: nat)
    requires k < |categories|
    ensures SheetsOf(categories, rows, ci)[k] == SheetOf(categories[k], Column(rows, categories[k]), ci)
  {
    var n := |categories| - 1;
    if k < n {
      var init := categories[..n];
      SheetsOfAt(init, rows, ci, k);
      SheetsOfKeepsInit(categories, rows, ci, k);
      assert init[k] == categories[k];
    } else {
      SheetsOfLast(categories, rows, ci);
    }
  }

  lemma SheetsOfLast(categories: seq<string>, rows: seq<map<string, string>>, ci: bool)
    requires categories != []
    ensures var n := |categories| - 1;
      SheetsOf(categories, rows, ci)[n] == SheetOf(categories[n], Column(rows, categories[n]), ci)
  {
  }

  lemma SheetsOfKeepsInit(categories: seq<string>, rows: seq<map<string, string>>, ci: bool, k: nat)
    requires k < |categories| - 1
    ensures SheetsOf(categories, rows, ci)[k] == SheetsOf(categories[..|categories| - 1], rows, ci)[k]
  {
    var n := |categories| - 1;
    assert SheetsOf(categories, rows, ci) == SheetsOf(categories[..n], rows, ci) + [SheetOf(categories[n], Column(rows, categories[n]), ci)];
  }

  /** One sheet per category, in the order the categories are listed. */
  method ExtractSheets(categories: seq<string>, rows: seq<map<string, string>>, ci: bool) returns (sheets: seq<Sheet>)
    ensures |sheets| == |categories|
    ensures forall k :: 0 <= k < |categories| ==> sheets[k] == SheetOf(categories[k], Column(rows, categories[k]), ci)
  {
    sheets := [];
    for k := 0 to |categories|
      invariant sheets == SheetsOf(categories[..k], rows, ci)
    {
      var sheet := ExtractSheet(categories[k], Column(rows, categories[k]), ci);
      assert categories[..k + 1][..k] == categories[..k];
      sheets := sheets + [sheet];
    }
    assert categories[..|categories|] == categories;
    forall k | 0 <= k < |categories|
      ensures sheets[k] == SheetOf(categories[k], Column(rows, categories[k]), ci)
    {
      SheetsOfAt(categories, rows, ci, k);
    }
  }

  /**
   * A sheet is ranked, lists every key once as (representative, count),
   * counts its distinct keys and all its mentions, and every
   * representative has the key it stands for.
   */
  lemma SheetFacts(category: string, cells: seq<Option<string>>, ci: bool)
    ensures Ranked(SheetOf(category, cells, ci).rows)
    ensures multiset(SheetOf(category, cells, ci).rows) == multiset(Entries(KeptNames(cells), ci))
    ensures SheetOf(category, cells, ci).unique == |SheetOf(category, cells, ci).rows|
    ensures SheetOf(category, cells, ci).mentions == |KeptNames(cells)|
  {
    var es := Entries(KeptNames(cells), ci);
    RankSorts(es);
    EntriesSpec(KeptNames(cells), ci);
    assert |Rank(es)| == |multiset(Rank(es))| == |multiset(es)| == |es|;
  }
}
