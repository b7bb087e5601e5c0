/**
 * Title resolution of the extraction pipeline (`get_article_title` in
 * article_info_extractor.py): metadata title, else the file stem, else the
 * first non-blank text line, else a fixed placeholder.
 */
module Titles {
  import opened Wrappers
  import opened Text
  import Preprocess

  const UNTITLED: string := "Untitled Article"

  /** Longest title taken from a text line. */
  const LINE_TITLE_LIMIT: nat := 120

  /**
   * `(meta.get("Title") or meta.get("title") or "").strip()`: the first
   * non-empty of the two entries, stripped. A title of only whitespace is
   * chosen before "title" is looked at, and strips to "".
   */
  function MetadataTitle(meta: map<string, string>): string {
    var raw :=
      if "Title" in meta && meta["Title"] != [] then meta["Title"]
      else if "title" in meta && meta["title"] != [] then meta["title"]
      else [];
    Strip(raw)
  }

  /** `os.path.basename`: the part after the last '/'. */
  function Basename(path: string): (r: string)
    ensures forall i :: 0 <= i < |r| ==> r[i] != '/'
  {
    match RFindChar(path, '/')
    case None => path
    case Some(i) => path[i + 1..]
  }

  /**
   * `os.path.splitext(name)[0]` for a name without '/': the name without
   * its last extension; leading dots do not start an extension.
   */
  function Stem(name: string): string {
    match RFindChar(name, '.')
    case None => name
    case Some(d) =>
      if exists k :: 0 <= k < d && name[k] != '.' then name[..d] else name
  }

  /** A stem is empty only for an empty name. */
  lemma StemEmptyIff(name: string)
    ensures Stem(name) == [] <==> name == []
  {
    match RFindChar(name, '.')
    case None =>
    case Some(d) =>
      if exists k :: 0 <= k < d && name[k] != '.' {
        var k :| 0 <= k < d && name[k] != '.';
        assert name[..d][k] == name[k];
      }
  }

  /** The first non-blank line, stripped and cut to LINE_TITLE_LIMIT characters. */
  function FirstTextLine(lines: seq<string>): (r: Option<string>)
    ensures r.None? ==> forall j :: 0 <= j < |lines| ==> Strip(lines[j]) == []
    ensures r.Some? ==> exists j :: 0 <= j < |lines| && IsLineTitle(lines, j, r.value)
  {
    if lines == [] then None
    else
      var t := Strip(lines[0]);
      if t != [] then
        var r := t[..if |t| <= LINE_TITLE_LIMIT then |t| else LINE_TITLE_LIMIT];
        assert IsLineTitle(lines, 0, r);
        Some(r)
      else
        match FirstTextLine(lines[1..])
        case None => None
        case Some(r) =>
          var j :| 0 <= j < |lines[1..]| && IsLineTitle(lines[1..], j, r);
          assert IsLineTitle(lines, j + 1, r);
          Some(r)
  }

  /**
   * `title` is taken from line `j`: every earlier line is blank, line `j`
   * is not, and `title` is its stripped text's first (at most 120) characters.
   */
  predicate IsLineTitle(lines: seq<string>, j: nat, title: string) {
    && j < |lines|
    && (forall i :: 0 <= i < j ==> Strip(lines[i]) == [])
    && Strip(lines[j]) != []
    && title != []
    && |title| == (if |Strip(lines[j])| <= LINE_TITLE_LIMIT then |Strip(lines[j])| else LINE_TITLE_LIMIT)
    && title == Strip(lines[j])[..|title|]
  }

  /** `get_article_title`: never returns an empty title. */
  function ResolveTitle(meta: map<string, string>, path: string, fallbackText: string): (r: string)
    ensures r != []
  {
    var fromMeta := MetadataTitle(meta);
    if fromMeta != [] then fromMeta
    else
      var base := Stem(Basename(path));
      if base != [] then base
      else match FirstTextLine(Preprocess.Lines(fallbackText))
        case Some(line) => line
        case None => UNTITLED
  }

  /** The fallback order: metadata, then file stem, then a text line, then the placeholder. */
  lemma ResolveTitleOrder(meta: map<string, string>, path: string, fallbackText: string)
    ensures MetadataTitle(meta) != [] ==> ResolveTitle(meta, path, fallbackText) == MetadataTitle(meta)
    ensures MetadataTitle(meta) == [] && Basename(path) != [] ==>
      ResolveTitle(meta, path, fallbackText) == Stem(Basename(path)) != []
    ensures MetadataTitle(meta) == [] && Basename(path) == [] ==>
      var lines := Preprocess.Lines(fallbackText);
      || (exists j :: 0 <= j < |lines| && IsLineTitle(lines, j, ResolveTitle(meta, path, fallbackText)))
      || ((forall j :: 0 <= j < |lines| ==> Strip(lines[j]) == []) && ResolveTitle(meta, path, fallbackText) == UNTITLED)
  {
    StemEmptyIff(Basename(path));
    if MetadataTitle(meta) == [] && Basename(path) == [] {
      var lines := Preprocess.Lines(fallbackText);
      match FirstTextLine(lines)
      case Some(line) =>
        assert ResolveTitle(meta, path, fallbackText) == line;
      case None =>
    }
  }

  /**
   * In the pipeline the path is the input folder joined with a non-empty
   * file name, so the title is the metadata title or the file stem: the
   * text-line and placeholder fallbacks never apply there.
   */
  lemma PipelineTitleNeverFromText(meta: map<string, string>, folder: string, fileName: string, text: string)
    requires fileName != [] && forall i :: 0 <= i < |fileName| ==> fileName[i] != '/'
    ensures var title := ResolveTitle(meta, folder + "/" + fileName, text);
      title == MetadataTitle(meta) || (MetadataTitle(meta) == [] && title == Stem(fileName))
  {
    var path := folder + "/" + fileName;
    assert path[|folder|] == '/';
    assert forall i :: |folder| < i < |path| ==> path[i] == fileName[i - |folder| - 1];
    assert RFindChar(path, '/') == Some(|folder|);
    assert path[|folder| + 1..] == fileName;
    StemEmptyIff(fileName);
  }
}
