/**
 * The per-article pipeline of article_info_extractor.py: each PDF's text is
 * cut at its references heading, counted, capped, given a title, sent to the
 * annotator, and the parsed answer becomes one row of the entities table.
 * Reading the PDF (its text and metadata) and the annotator call are inputs.
 */
module Extractor {
  import opened Wrappers
  import opened Text
  import opened Preprocess
  import opened Titles
  import opened Response
  import opened Seqs

  const INPUT_FOLDER: string := "biomarkers"

  /** The columns of the entities table, in order. */
  const HEADER: seq<string> :=
    ["File Name", "Article Name"] + CATEGORY_COLUMNS +
    ["Word Count (no-refs)", "Word Count (processed_cap)"]

  /** The category columns, in the order the row writes them. */
  const CATEGORY_COLUMNS: seq<string> := [PROTEINS, GENES, DNA, RNA, METH_RNA]

  /** The five categories, as keys of the answer and as column names. */
  const PROTEINS: string := "Proteins"
  const GENES: string := "Genes"
  const DNA: string := "DNA"
  const RNA: string := "RNA"
  const METH_RNA: string := "Meth-RNA"

  /** What the PDF reader yields for one file of the input folder. */
  datatype Document = Document(fileName: string, meta: map<string, string>, text: string)

  /** Python's `str` of an integer: a numeral that reads back as the integer. */
  function IntToString(i: int): (r: string)
    ensures IsNumeral(r) && NumeralValue(r) == i
    ensures i < 0 <==> r[0] == '-'
  {
    if i < 0 then
      var digits := NatToString(-i);
      assert ("-" + digits)[1..] == digits;
      "-" + digits
    else NatToString(i)
  }

  /** Python's `repr` of a decoded value (strings in single quotes). */
  function Repr(v: Value): string
    decreases v, 1
  {
    match v
    case Null => "None"
    case Bool(b) => if b then "True" else "False"
    case Int(i) => IntToString(i)
    case Str(s) => "'" + s + "'"
    case Arr(items) => "[" + ReprItems(items, v) + "]"
    case Obj(members) =>
      var entries := DictOf(members);
      assert forall k :: 0 <= k < |entries| ==> entries[k].1 < v by {
        forall k | 0 <= k < |entries| ensures entries[k].1 < v {
          assert entries[k] in entries;
        }
      }
      "{" + ReprMembers(entries, v) + "}"
  }

  /** The items of a list, repr'd and separated by ", ". */
  function ReprItems(items: seq<Value>, ghost parent: Value): string
    requires forall k :: 0 <= k < |items| ==> items[k] < parent
    decreases parent, 0, |items|
  {
    if items == [] then ""
    else if |items| == 1 then Repr(items[0])
    else Repr(items[0]) + ", " + ReprItems(items[1..], parent)
  }

  /** The members of a mapping, as `'key': repr`, separated by ", ". */
  function ReprMembers(members: seq<(string, Value)>, ghost parent: Value): string
    requires forall k :: 0 <= k < |members| ==> members[k].1 < parent
    decreases parent, 0, |members|
  {
    if members == [] then ""
    else
      var first := "'" + members[0].0 + "': " + Repr(members[0].1);
      if |members| == 1 then first else first + ", " + ReprMembers(members[1..], parent)
  }

  /** Python's `str` of a decoded value: a string is itself, anything else its repr. */
  function PyStr(v: Value): string {
    if v.Str? then v.s else Repr(v)
  }

  /**
   * `dict.get(key)`: the value under the last occurrence of `key` (a decoded
   * object keeps the last of duplicate keys), and Null (Python's None) when
   * the key is absent.
   */
  function Lookup(members: seq<(string, Value)>, key: string): (r: Value)
    ensures (forall i :: 0 <= i < |members| ==> members[i].0 != key) ==> r == Null
    ensures forall i :: 0 <= i < |members| && members[i].0 == key && NoKeyAfter(members, key, i) ==> r == members[i].1
  {
    if members == [] then Null
    else if members[|members| - 1].0 == key then members[|members| - 1].1
    else
      var init := members[..|members| - 1];
      assert forall i :: 0 <= i < |init| ==> init[i] == members[i];
      assert forall i :: 0 <= i < |init| && NoKeyAfter(members, key, i) ==> NoKeyAfter(init, key, i);
      Lookup(init, key)
  }

  /**
   * Writing `key: val` into a dict: an existing key keeps its place and takes
   * the new value, a new key goes at the end.
   */
  function DictInsert(d: seq<(string, Value)>, key: string, val: Value): (r: seq<(string, Value)>)
    requires NoDuplicates(Keys(d))
    ensures Keys(r) == if key in Keys(d) then Keys(d) else Keys(d) + [key]
    ensures forall k :: 0 <= k < |d| ==> r[k] == if d[k].0 == key then (key, val) else d[k]
    ensures key !in Keys(d) ==> r[|d|] == (key, val)
    ensures forall e :: e in r ==> e in d || e == (key, val)
  {
    var keys := Keys(d);
    if key in keys then
      var i := FirstIndex(keys, key);
      var r := d[i := (key, val)];
      assert Keys(r) == keys;
      r
    else
      var r := d + [(key, val)];
      assert Keys(r) == keys + [key];
      r
  }

  /**
   * The dict a decoded object becomes: each key once, where it first
   * appeared, with the value it was given last. Every entry is a member.
   */
  function DictOf(members: seq<(string, Value)>): (r: seq<(string, Value)>)
    ensures NoDuplicates(Keys(r))
    ensures forall e :: e in r ==> e in members
  {
    if members == [] then []
    else
      var init := members[..|members| - 1];
      var last := members[|members| - 1];
      assert members == init + [last];
      DictInsert(DictOf(init), last.0, last.1)
  }

  /**
   * The dict of a decoded object holds each key of the object once, in
   * first-occurrence order, with the value `dict.get` finds for it.
   */
  lemma {:induction false} DictOfSpec(members: seq<(string, Value)>)
    ensures Keys(DictOf(members)) == Dedup(Keys(members))
    ensures forall k :: 0 <= k < |DictOf(members)| ==>
      DictOf(members)[k].1 == Lookup(members, DictOf(members)[k].0)
  {
    if members != [] {
      var init := members[..|members| - 1];
      var last := members[|members| - 1];
      assert members == init + [last];
      DictOfSpec(init);
      assert Keys(members) == Keys(init) + [last.0];
      DedupStep(Keys(init), last.0);
      DictValuesStep(init, last, DictOf(init));
    }
  }

  /** Inserting the next member keeps every value equal to what `dict.get` finds. */
  lemma DictValuesStep(init: seq<(string, Value)>, last: (string, Value), d: seq<(string, Value)>)
    requires NoDuplicates(Keys(d))
    requires forall k :: 0 <= k < |d| ==> d[k].1 == Lookup(init, d[k].0)
    ensures var r := DictInsert(d, last.0, last.1);
      forall k :: 0 <= k < |r| ==> r[k].1 == Lookup(init + [last], r[k].0)
  {
    var r := DictInsert(d, last.0, last.1);
    forall k | 0 <= k < |r| ensures r[k].1 == Lookup(init + [last], r[k].0) {
      LookupSnoc(init, last, r[k].0);
    }
  }

  /** A member written after the others decides its key's value. */
  lemma LookupSnoc(init: seq<(string, Value)>, m: (string, Value), key: string)
    ensures Lookup(init + [m], key) == if m.0 == key then m.1 else Lookup(init, key)
  {
    var members := init + [m];
    assert members[..|members| - 1] == init;
  }

  /** A repeated key is printed once, with its last value, as Python's dict does. */
  lemma ReprRepeatedKey()
    ensures Repr(Obj([("a", Int(1)), ("a", Int(2))])) == "{'a': 2}"
  {
    var members := [("a", Int(1)), ("a", Int(2))];
    assert members[..1] == [("a", Int(1))];
    assert [("a", Int(1))][..0] == [];
    assert DictOf([("a", Int(1))]) == [("a", Int(1))];
    assert DictOf(members) == [("a", Int(2))];
    assert IntToString(2) == "2";
  }

  /** No member after position `i` has the key. */
  predicate NoKeyAfter(members: seq<(string, Value)>, key: string, i: int) {
    forall j :: 0 <= j < |members| && i < j ==> members[j].0 != key
  }

  /** The items that are not None, in their order. */
  function NonNull(items: seq<Value>): (r: seq<Value>)
    ensures |r| <= |items|
    ensures forall x :: x in r <==> x in items && x != Null
    ensures multiset(r) == multiset(items)[Null := 0]
  {
    if items == [] then []
    else
      assert items == [items[0]] + items[1..];
      (if items[0] == Null then [] else [items[0]]) + NonNull(items[1..])
  }

  /** Filtering a concatenation filters each part, so the kept items stay in order. */
  lemma {:induction false} NonNullAppend(a: seq<Value>, b: seq<Value>)
    ensures NonNull(a + b) == NonNull(a) + NonNull(b)
  {
    if a == [] {
      assert a + b == b;
    } else {
      assert (a + b)[0] == a[0] && (a + b)[1..] == a[1..] + b;
      NonNullAppend(a[1..], b);
      var head: seq<Value> := if a[0] == Null then [] else [a[0]];
      AppendAssoc(head, NonNull(a[1..]), NonNull(b));
    }
  }

  /** A single item is kept exactly when it is not None. */
  lemma NonNullOne(v: Value)
    ensures NonNull([v]) == if v == Null then [] else [v]
  {
    assert [v][1..] == [];
  }

  /** `ensure_list`: None gives no items, a list its non-None items, anything else one item. */
  function EnsureList(x: Value): (r: seq<string>)
    ensures x == Null ==> r == []
    ensures x.Arr? ==> |r| == |NonNull(x.items)|
    ensures x.Arr? ==> forall v :: v in x.items && v != Null ==> PyStr(v) in r
    ensures x.Arr? ==> forall k :: 0 <= k < |r| ==> r[k] == PyStr(NonNull(x.items)[k])
    ensures !x.Arr? && x != Null ==> r == [PyStr(x)]
  {
    match x
    case Null => []
    case Arr(items) =>
      var kept := NonNull(items);
      var r := seq(|kept|, k requires 0 <= k < |kept| => PyStr(kept[k]));
      forall v | v in items && v != Null ensures PyStr(v) in r {
        assert v in kept;
        var k :| 0 <= k < |kept| && kept[k] == v;
        assert r[k] == PyStr(v);
      }
      r
    case _ => [PyStr(x)]
  }

  /** The items of two lists come out as the first list's, then the second's. */
  lemma EnsureListAppend(a: seq<Value>, b: seq<Value>)
    ensures EnsureList(Arr(a + b)) == EnsureList(Arr(a)) + EnsureList(Arr(b))
  {
    NonNullAppend(a, b);
    var n, na, nb := NonNull(a + b), NonNull(a), NonNull(b);
    var r, ra, rb := EnsureList(Arr(a + b)), EnsureList(Arr(a)), EnsureList(Arr(b));
    assert |r| == |n| && |ra| == |na| && |rb| == |nb| && n == na + nb;
    forall k | 0 <= k < |r| ensures r[k] == (ra + rb)[k] {
      assert r[k] == PyStr(n[k]);
      if k < |ra| {
        assert n[k] == na[k] && ra[k] == PyStr(na[k]);
      } else {
        var m := k - |ra|;
        assert n[k] == nb[m] && rb[m] == PyStr(nb[m]);
      }
    }
    assert r == ra + rb;
  }

  /** A list without None is kept whole. */
  lemma {:induction false} NonNullOfNullFree(items: seq<Value>)
    requires forall k :: 0 <= k < |items| ==> items[k] != Null
    ensures NonNull(items) == items
  {
    if items != [] {
      NonNullOfNullFree(items[1..]);
    }
  }

  /** The normalisation example: a list of "A", None, "B" becomes "A", "B". */
  lemma EnsureListExample(a: string, b: string)
    ensures EnsureList(Arr([Str(a), Null, Str(b)])) == [a, b]
  {
    var items := [Str(a), Null, Str(b)];
    assert items[1..] == [Null, Str(b)];
    assert items[1..][1..] == [Str(b)];
    assert items[1..][1..][1..] == [];
    assert NonNull([Str(b)]) == [Str(b)];
    assert NonNull(items) == [Str(a), Str(b)];
  }

  /** One category cell: the normalised list joined with ", ". */
  function CategoryCell(members: seq<(string, Value)>, category: string): string {
    Join(EnsureList(Lookup(members, category)), ", ")
  }

  /** The word counts of one article: before and after capping at WORD_CAP. */
  function Counts(text: string): (r: (nat, nat))
    ensures r.0 == WordCount(Truncated(text))
    ensures r.1 == Min(r.0, WORD_CAP) && r.1 <= WORD_CAP
  {
    var noRefs := Truncated(text);
    ProcessedCountBounded(noRefs);
    (WordCount(noRefs), WordCount(CapWords(noRefs, WORD_CAP)))
  }

  /** What the annotator is sent: the article without references, capped at WORD_CAP words. */
  function AnnotatorInput(text: string): (r: string)
    ensures WordCount(r) <= WORD_CAP
    ensures Words(r) == Words(Truncated(text))[..Min(WordCount(Truncated(text)), WORD_CAP)]
  {
    CapWordsKeepsFirstWords(Truncated(text), WORD_CAP);
    CapWords(Truncated(text), WORD_CAP)
  }

  /** The five category cells, in the order of CATEGORY_COLUMNS. */
  function CategoryCells(members: seq<(string, Value)>): seq<string> {
    seq(|CATEGORY_COLUMNS|, k requires 0 <= k < |CATEGORY_COLUMNS| => CategoryCell(members, CATEGORY_COLUMNS[k]))
  }

  /** The table row of one article: the header's columns, in the header's order. */
  function Row(fileName: string, title: string, members: seq<(string, Value)>, wcNoRefs: nat, wcProcessed: nat): (row: seq<string>)
    ensures |row| == |HEADER|
    ensures row[0] == fileName && row[1] == title
    ensures row[2..7] == CategoryCells(members)
    ensures row[7] == NatToString(wcNoRefs) && row[8] == NatToString(wcProcessed)
  {
    [fileName, title] + CategoryCells(members) + [NatToString(wcNoRefs), NatToString(wcProcessed)]
  }

  /** Each category cell of a row sits under the header column of that category. */
  lemma RowFollowsHeader(fileName: string, title: string, members: seq<(string, Value)>, wcNoRefs: nat, wcProcessed: nat)
    ensures var row := Row(fileName, title, members, wcNoRefs, wcProcessed);
      forall k :: 2 <= k < 7 ==> row[k] == CategoryCell(members, HEADER[k])
  {
    var row := Row(fileName, title, members, wcNoRefs, wcProcessed);
    var cells := CategoryCells(members);
    assert HEADER[2..7] == CATEGORY_COLUMNS;
    forall k | 2 <= k < 7 ensures row[k] == CategoryCell(members, HEADER[k]) {
      assert row[k] == row[2..7][k - 2] == cells[k - 2];
      assert HEADER[k] == HEADER[2..7][k - 2];
    }
  }

  /** The annotator's answer for a document, parsed. */
  function Answer(doc: Document, annotate: string -> string, decode: string -> Option<Value>): Value {
    CleanAndParseJson(Text(annotate(AnnotatorInput(doc.text))), decode)
  }

  /** The title of a document: metadata, then the path's stem, then the text. */
  function DocumentTitle(doc: Document): (r: string)
    ensures r != []
  {
    ResolveTitle(doc.meta, INPUT_FOLDER + "/" + doc.fileName, Truncated(doc.text))
  }

  /**
   * One iteration of the main loop. The annotator's answer is parsed; an
   * answer that is not a mapping makes `.get` fail, the error is reported and
   * no row is written (None). Otherwise the row holds the file name, the
   * title, the five category cells and the two word counts, the second being
   * the first capped at WORD_CAP.
   */
  function ProcessDocument(doc: Document, annotate: string -> string, decode: string -> Option<Value>): (r: Option<seq<string>>)
    ensures r.Some? <==> Answer(doc, annotate, decode).Obj?
    ensures r.Some? ==> |r.value| == |HEADER| && r.value[0] == doc.fileName
    ensures r.Some? ==>
      var (wcNoRefs, wcProcessed) := Counts(doc.text);
      && r.value == Row(doc.fileName, DocumentTitle(doc), Answer(doc, annotate, decode).members, wcNoRefs, wcProcessed)
      && wcNoRefs == WordCount(Truncated(doc.text))
      && wcProcessed == Min(wcNoRefs, WORD_CAP)
  {
    var parsed := Answer(doc, annotate, decode);
    if !parsed.Obj? then None
    else
      var (wcNoRefs, wcProcessed) := Counts(doc.text);
      Some(Row(doc.fileName, DocumentTitle(doc), parsed.members, wcNoRefs, wcProcessed))
  }

  /**
   * A listed file name is non-empty and has no '/', so a row's title is the
   * metadata title or the file name's stem, never a line of the text.
   */
  lemma RowTitleFromMetadataOrName(doc: Document, annotate: string -> string, decode: string -> Option<Value>)
    requires doc.fileName != [] && forall i :: 0 <= i < |doc.fileName| ==> doc.fileName[i] != '/'
    requires ProcessDocument(doc, annotate, decode).Some?
    ensures var title := ProcessDocument(doc, annotate, decode).value[1];
      title == MetadataTitle(doc.meta) || (MetadataTitle(doc.meta) == [] && title == Stem(doc.fileName))
  {
    PipelineTitleNeverFromText(doc.meta, INPUT_FOLDER, doc.fileName, Truncated(doc.text));
  }

  /** Only files whose lower-cased name ends in ".pdf" are processed. */
  predicate IsPdfName(name: string) {
    EndsWith(Lower(name), ".pdf")
  }

  /**
   * One pass of the main loop's body: a PDF whose answer parses to a mapping
   * contributes its row; any other file contributes nothing.
   */
  function RowsOf(doc: Document, annotate: string -> string, decode: string -> Option<Value>): (rows: seq<seq<string>>)
    ensures |rows| <= 1
    ensures |rows| == 1 <==> IsPdfName(doc.fileName) && Answer(doc, annotate, decode).Obj?
    ensures rows != [] ==> |rows[0]| == |HEADER| && rows[0][0] == doc.fileName
  {
    var r := ProcessDocument(doc, annotate, decode);
    if IsPdfName(doc.fileName) && r.Some? then [r.value] else []
  }

  /** The rows the main loop appends for a listing, in listing order. */
  function ArticleRows(docs: seq<Document>, annotate: string -> string, decode: string -> Option<Value>): (rows: seq<seq<string>>)
    ensures |rows| <= |docs|
    ensures forall k :: 0 <= k < |rows| ==> |rows[k]| == |HEADER| && IsPdfName(rows[k][0])
  {
    if docs == [] then []
    else
      var last := docs[|docs| - 1];
      var earlier, more := ArticleRows(docs[..|docs| - 1], annotate, decode), RowsOf(last, annotate, decode);
      PdfRowsConcat(earlier, more);
      earlier + more
  }

  /** Header-wide rows that name PDF files, followed by at most one more such row. */
  lemma PdfRowsConcat(a: seq<seq<string>>, b: seq<seq<string>>)
    requires forall k :: 0 <= k < |a| ==> |a[k]| == |HEADER| && IsPdfName(a[k][0])
    requires |b| <= 1 && (b != [] ==> |b[0]| == |HEADER| && IsPdfName(b[0][0]))
    ensures forall k :: 0 <= k < |a + b| ==> |(a + b)[k]| == |HEADER| && IsPdfName((a + b)[k][0])
  {
  }

  /** Extending the listing by one document appends that document's rows. */
  lemma ArticleRowsStep(docs: seq<Document>, i: nat, annotate: string -> string, decode: string -> Option<Value>)
    requires i < |docs|
    ensures ArticleRows(docs[..i + 1], annotate, decode) ==
      ArticleRows(docs[..i], annotate, decode) + RowsOf(docs[i], annotate, decode)
  {
    var prefix := docs[..i + 1];
    assert prefix[..|prefix| - 1] == docs[..i];
    assert prefix[|prefix| - 1] == docs[i];
  }

  /**
   * `main`: the header is written only when the table file is new; then the
   * listing is walked in order and each processed PDF appends its row.
   */
  method ExtractArticles(docs: seq<Document>, tableExists: bool, annotate: string -> string, decode: string -> Option<Value>)
    returns (appended: seq<seq<string>>)
    ensures appended == (if tableExists then [] else [HEADER]) + ArticleRows(docs, annotate, decode)
    ensures forall k :: 0 <= k < |appended| ==> |appended[k]| == |HEADER|
  {
    var rows := CollectRows(docs, annotate, decode);
    var header: seq<seq<string>> := if tableExists then [] else [HEADER];
    appended := header + rows;
    RowsOfWidth(header, rows, |HEADER|);
  }

  /** Two tables whose rows all have `width` cells make one such table. */
  lemma RowsOfWidth(a: seq<seq<string>>, b: seq<seq<string>>, width: nat)
    requires forall k :: 0 <= k < |a| ==> |a[k]| == width
    requires forall k :: 0 <= k < |b| ==> |b[k]| == width
    ensures forall k :: 0 <= k < |a + b| ==> |(a + b)[k]| == width
  {
  }

  /** The rows of every document in the listing, in listing order. */
  method CollectRows(docs: seq<Document>, annotate: string -> string, decode: string -> Option<Value>)
    returns (rows: seq<seq<string>>)
    ensures rows == ArticleRows(docs, annotate, decode)
  {
    rows := [];
    var i := 0;
    while i < |docs|
      invariant 0 <= i <= |docs|
      invariant rows == ArticleRows(docs[..i], annotate, decode)
    {
      ArticleRowsStep(docs, i, annotate, decode);
      rows := rows + RowsOf(docs[i], annotate, decode);
      i := i + 1;
    }
    assert docs[..i] == docs;
  }
}
