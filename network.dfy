/**
 * The association-network generator (article_info_network_generator.py):
 * entity cells are split into upper-cased items, and one graph per category
 * links each article to the items of its cell, every node and edge once.
 * Rendering the graph with pyvis is not modelled; the calls the builder makes
 * on the network object are kept as a log.
 */
module Network {
  import opened Wrappers
  import opened Text
  import opened Seqs
  import opened Csv

  /** The characters a cell is split on, in runs: , ; | newline / */
  const SEPARATORS: set<char> := {',', ';', '|', '\n', '/'}

  /** A maximal run that `re.split` removes: one or more separator characters. */
  predicate IsRun(r: string) {
    r != [] && forall j :: 0 <= j < |r| ==> r[j] in SEPARATORS
  }

  /**
   * `re.split("[,;|\\n/]+", s)`: the text between maximal runs of separators.
   * Only the first and the last piece can be empty (a run at either end).
   */
  function SplitRuns(s: string): (parts: seq<string>)
    ensures |parts| >= 1
    ensures forall p :: p in parts ==> Avoids(p, SEPARATORS)
    ensures forall i :: 0 < i < |parts| - 1 ==> parts[i] != []
    ensures s != [] && s[0] !in SEPARATORS ==> parts[0] != []
    ensures s != [] && s[0] in SEPARATORS ==> parts[0] == [] && |parts| >= 2
  {
    if s == [] then [[]]
    else
      var rest := SplitRuns(s[1..]);
      if s[0] in SEPARATORS then
        if s[1..] != [] && s[1] in SEPARATORS then rest else [[]] + rest
      else
        var first := [s[0]] + rest[0];
        assert Avoids(first, SEPARATORS) by {
          assert rest[0] in rest;
          forall j | 0 <= j < |first| ensures first[j] !in SEPARATORS {
            if j > 0 { assert first[j] == rest[0][j - 1]; }
          }
        }
        [first] + rest[1..]
  }

  /** The separator runs between the pieces of `SplitRuns(s)`, in order. */
  function Runs(s: string): (runs: seq<string>)
    ensures forall i :: 0 <= i < |runs| ==> IsRun(runs[i])
    ensures s != [] && s[0] in SEPARATORS ==> runs != []
  {
    if s == [] then []
    else
      var rest := Runs(s[1..]);
      if s[0] !in SEPARATORS then rest
      else if s[1..] != [] && s[1] in SEPARATORS then
        var first := [s[0]] + rest[0];
        assert IsRun(first) by {
          forall j | 0 <= j < |first| ensures first[j] in SEPARATORS {
            if j > 0 { assert first[j] == rest[0][j - 1]; }
          }
        }
        [first] + rest[1..]
      else [[s[0]]] + rest
  }

  /** The pieces with the runs put back between them: `parts[0] + runs[0] + parts[1] + ...`. */
  function Interleave(parts: seq<string>, runs: seq<string>): string
    requires |parts| == |runs| + 1
  {
    if runs == [] then parts[0]
    else parts[0] + runs[0] + Interleave(parts[1..], runs[1..])
  }

  /**
   * Splitting loses nothing but the separators: putting the runs back
   * between the pieces gives the cell's text again.
   */
  lemma {:induction false} SplitRunsRestore(s: string)
    ensures |SplitRuns(s)| == |Runs(s)| + 1
    ensures Interleave(SplitRuns(s), Runs(s)) == s
  {
    if s != [] {
      var t := s[1..];
      SplitRunsRestore(t);
      var c, ps, rs := s[0], SplitRuns(t), Runs(t);
      assert s == [c] + t;
      if c !in SEPARATORS {
        InterleaveExtend(c, ps, rs);
      } else if t != [] && t[0] in SEPARATORS {
        InterleaveMerge(c, ps, rs);
      } else {
        InterleaveNewRun(c, ps, rs);
      }
    }
  }

  /** A character that is not a separator joins the first piece. */
  lemma InterleaveExtend(c: char, ps: seq<string>, rs: seq<string>)
    requires |ps| == |rs| + 1
    ensures Interleave([[c] + ps[0]] + ps[1..], rs) == [c] + Interleave(ps, rs)
  {
    var parts := [[c] + ps[0]] + ps[1..];
    assert parts[0] == [c] + ps[0] && parts[1..] == ps[1..];
    if rs != [] {
      var tail := Interleave(ps[1..], rs[1..]);
      assert Interleave(parts, rs) == ([c] + ps[0]) + rs[0] + tail;
    }
  }

  /** A separator in front of a run joins that run. */
  lemma InterleaveMerge(c: char, ps: seq<string>, rs: seq<string>)
    requires |ps| == |rs| + 1 && ps[0] == [] && rs != []
    ensures Interleave(ps, [[c] + rs[0]] + rs[1..]) == [c] + Interleave(ps, rs)
  {
    var runs := [[c] + rs[0]] + rs[1..];
    assert runs[0] == [c] + rs[0] && runs[1..] == rs[1..];
    var tail := Interleave(ps[1..], rs[1..]);
    assert Interleave(ps, rs) == ps[0] + rs[0] + tail;
    assert ps[0] + rs[0] == rs[0] && ps[0] + runs[0] == runs[0];
    assert Interleave(ps, runs) == ps[0] + runs[0] + tail;
    AppendAssoc([c], rs[0], tail);
  }

  /** A separator in front of a piece starts a new run, with an empty piece before it. */
  lemma InterleaveNewRun(c: char, ps: seq<string>, rs: seq<string>)
    requires |ps| == |rs| + 1
    ensures Interleave([[]] + ps, [[c]] + rs) == [c] + Interleave(ps, rs)
  {
    var parts, runs := [[]] + ps, [[c]] + rs;
    assert parts[1..] == ps && runs[1..] == rs;
    assert Interleave(parts, runs) == [] + [c] + Interleave(ps, rs);
  }

  /** `" ".join(p.strip().split())`: a piece with its whitespace collapsed. */
  function Normalize(p: string): (t: string)
    ensures Collapsed(t)
  {
    CollapseSpacesSpec(Strip(p));
    CollapseSpaces(Strip(p))
  }

  /** The upper-cased, non-blank normalised pieces, in order and with repeats. */
  function Candidates(parts: seq<string>): (cs: seq<string>)
    ensures forall c :: c in cs <==> exists p :: p in parts && Normalize(p) != [] && c == Upper(Normalize(p))
  {
    if parts == [] then []
    else
      var init := parts[..|parts| - 1];
      var last := parts[|parts| - 1];
      assert forall p :: p in parts <==> p in init || p == last;
      var t := Normalize(last);
      Candidates(init) + (if t == [] then [] else [Upper(t)])
  }

  /** The stripped cell, unless it is missing, blank or "nan" in any casing. */
  function CellText(value: Option<string>): (r: Option<string>)
    ensures value.None? ==> r.None?
    ensures r.Some? ==> r.value != [] && !IsSpace(r.value[0]) && !IsSpace(r.value[|r.value| - 1])
    ensures r.Some? ==> Lower(r.value) != "nan"
  {
    match value
    case None => None
    case Some(v) =>
      var s := Strip(v);
      if s == [] || Lower(s) == "nan" then None else Some(s)
  }

  /** What `parse_items_to_upper` returns for a cell. */
  function UpperItems(value: Option<string>): seq<string> {
    match CellText(value)
    case None => []
    case Some(s) => Dedup(Candidates(SplitRuns(s)))
  }

  /**
   * `parse_items_to_upper`: split the cell on separator runs, normalise and
   * upper-case each piece, skip blank pieces and keep the first of repeats.
   */
  method ParseItemsToUpper(value: Option<string>) returns (items: seq<string>)
    ensures items == UpperItems(value)
    ensures NoDuplicates(items)
    ensures CellText(value).None? ==> items == []
  {
    var cell := CellText(value);
    if cell.None? {
      return [];
    }
    var rawParts := SplitRuns(cell.value);
    items := CollectItems(rawParts);
  }

  /** The loop of `parse_items_to_upper` over the pieces, with its `seen` set. */
  method CollectItems(rawParts: seq<string>) returns (items: seq<string>)
    ensures items == Dedup(Candidates(rawParts))
  {
    var seen: set<string> := {};
    items := [];
    assert rawParts[..0] == [];
    for i := 0 to |rawParts|
      invariant items == Dedup(Candidates(rawParts[..i]))
      invariant forall x :: x in seen <==> x in items
    {
      ItemsStep(rawParts, i);
      var t := Normalize(rawParts[i]);
      if t == [] {
        continue;
      }
      var u := Upper(t);
      if u !in seen {
        seen := seen + {u};
        items := items + [u];
      }
    }
    assert rawParts[..|rawParts|] == rawParts;
  }

  /** One more piece adds its candidate, if it has one. */
  lemma CandidatesStep(parts: seq<string>, i: nat)
    requires i < |parts|
    ensures Candidates(parts[..i + 1]) == Candidates(parts[..i]) +
      (if Normalize(parts[i]) == [] then [] else [Upper(Normalize(parts[i]))])
  {
    var pre := parts[..i + 1];
    assert pre[..|pre| - 1] == parts[..i] && pre[|pre| - 1] == parts[i];
  }

  /** One more piece adds its item unless it is blank or already seen. */
  lemma ItemsStep(parts: seq<string>, i: nat)
    requires i < |parts|
    ensures var d, t := Dedup(Candidates(parts[..i])), Normalize(parts[i]);
      Dedup(Candidates(parts[..i + 1])) == if t == [] || Upper(t) in d then d else d + [Upper(t)]
  {
    CandidatesStep(parts, i);
    var c0, c1 := Candidates(parts[..i]), Candidates(parts[..i + 1]);
    var t := Normalize(parts[i]);
    if t != [] {
      assert c1 == c0 + [Upper(t)];
      DedupStep(c0, Upper(t));
    } else {
      assert c1 == c0;
    }
  }

  /**
   * Every item is non-empty, upper-case, free of separators, and has no
   * leading, trailing or repeated whitespace.
   */
  lemma UpperItemsShape(value: Option<string>)
    ensures forall u :: u in UpperItems(value) ==>
      u != [] && IsUpperCase(u) && Collapsed(u) && Avoids(u, SEPARATORS)
  {
    if CellText(value).Some? {
      var parts := SplitRuns(CellText(value).value);
      forall u | u in UpperItems(value)
        ensures u != [] && IsUpperCase(u) && Collapsed(u) && Avoids(u, SEPARATORS)
      {
        var p :| p in parts && Normalize(p) != [] && u == Upper(Normalize(p));
        PieceItemShape(p);
      }
    }
  }

  /** The item made from one piece of a split. */
  lemma PieceItemShape(p: string)
    requires Avoids(p, SEPARATORS) && Normalize(p) != []
    ensures var u := Upper(Normalize(p));
      u != [] && IsUpperCase(u) && Collapsed(u) && Avoids(u, SEPARATORS)
  {
    UpperIsUpperCase(Normalize(p));
    UpperCollapsed(Normalize(p));
    StripAvoids(p, SEPARATORS);
    CollapseAvoids(Strip(p), SEPARATORS);
    UpperAvoids(Normalize(p), SEPARATORS);
  }

  /**
   * Nothing is lost: every piece of the cell with a non-blank normalisation
   * appears upper-cased among the items, and items come in first-seen order.
   */
  lemma UpperItemsComplete(value: Option<string>)
    requires CellText(value).Some?
    ensures var parts := SplitRuns(CellText(value).value);
      forall p :: p in parts && Normalize(p) != [] ==> Upper(Normalize(p)) in UpperItems(value)
    ensures var cs := Candidates(SplitRuns(CellText(value).value));
      forall i, j :: 0 <= i < j < |UpperItems(value)| ==>
        FirstIndex(cs, UpperItems(value)[i]) < FirstIndex(cs, UpperItems(value)[j])
  {
    DedupOrder(Candidates(SplitRuns(CellText(value).value)));
  }

  /** A cell that is missing, blank or "nan" in any casing gives no items. */
  lemma UpperItemsOfNothing(v: string)
    requires Strip(v) == [] || Lower(Strip(v)) == "nan"
    ensures UpperItems(None) == [] && UpperItems(Some(v)) == []
  {
  }

  // ---------------------------------------------------------------------
  // Columns
  // ---------------------------------------------------------------------

  /** Each category column and the file its network is written to, in order. */
  const ASSOCIATIONS: seq<(string, string)> := [
    ("Proteins", "articles_to_proteins.html"),
    ("Genes", "articles_to_genes.html"),
    ("DNA", "articles_to_dna.html"),
    ("RNA", "articles_to_rna.html"),
    ("Meth-RNA", "articles_to_meth_rna.html")
  ]

  const REQUIRED_COLUMNS: seq<string> :=
    ["File Name", "Article Name", "Proteins", "Genes", "DNA", "RNA", "Meth-RNA"]

  /** The error `validate_columns` raises: what is missing and what was found. */
  datatype ColumnError = ColumnError(missing: seq<string>, found: seq<string>)

  /** `validate_columns`: an error exactly when a required column is absent. */
  function ValidateColumns(columns: seq<string>): (err: Option<ColumnError>)
    ensures err.None? <==> forall c :: c in REQUIRED_COLUMNS ==> c in columns
    ensures err.Some? ==> err.value.found == columns && err.value.missing != []
    ensures err.Some? ==> forall c :: c in err.value.missing <==> c in REQUIRED_COLUMNS && c !in columns
  {
    var missing := MissingColumns(REQUIRED_COLUMNS, columns);
    if missing == [] then None
    else
      assert missing[0] in missing;
      Some(ColumnError(missing, columns))
  }
}
