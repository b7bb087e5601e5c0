# Article entity pipeline — a Dafny model

This project models a small biomedical text-mining pipeline made of three
scripts.

* **The extractor** (`article_info_extractor.py`) goes through the PDF
  articles of a folder in sorted order. For each one it:
  * cuts the text at the first standalone "References" heading;
  * counts the words, and caps the text sent to the language model at
    `WORD_CAP` words;
  * picks a title: the metadata title, else the file's stem, else the
    first text line, else "Untitled Article";
  * cleans the model's answer into a JSON object (code fences, a brace span,
    `{}` as the last resort);
  * appends one CSV row per article: file name, title, the five entity
    categories as comma-joined lists, and the two word counts.
* **The network generator** (`article_info_network_generator.py`) checks that
  the CSV has the required columns. For each association it then builds an
  article-to-entity network:
  * a cell is split on `, ; | newline /`;
  * each item is trimmed, its spaces are collapsed, it is upper-cased, and
    duplicates are dropped;
  * an article node, the entity nodes and the edges are added at most once
    each, tracked by two "seen" sets.
* **The statistics generator** (`code/article_info_stat_generator.py`)
  counts the entities of each category:
  * a cell is split on `;` and `,`;
  * each token is cleaned (one pair of wrapping quotes or brackets removed,
    spaces collapsed);
  * placeholders such as `nan` or `n/a` are dropped;
  * occurrences are counted per key;
  * each key's most frequent spelling becomes its representative;
  * each category gets a sheet of rows sorted by count, descending, then by
    lower-cased name, together with the number of distinct keys and the
    number of mentions.

## Modules

| file | module | what it holds |
|---|---|---|
| `wrappers.dfy` | `Wrappers` | `Option` |
| `text.dfy` | `Text` | ASCII whitespace and case, `strip`, `\S+` tokens, `join`, `split`, substring search |
| `seqs.dfy` | `Seqs` | order-preserving deduplication and an insertion-ordered counter (`Tally`, Python's `Counter`) with `most_common` |
| `csv.dfy` | `Csv` | a table as column names plus rows of string cells; a missing or NaN cell is absent from its row's map |
| `preprocess.dfy` | `Preprocess` | `truncate_at_references`, `word_count`, `cap_words` |
| `titles.dfy` | `Titles` | `get_article_title` |
| `response.dfy` | `Response` | `clean_and_parse_json` over a JSON value datatype |
| `extractor.dfy` | `Extractor` | `ensure_list`, the row assembly and the main loop of the extractor |
| `network.dfy` | `Network` | `parse_items_to_upper`, `validate_columns` |
| `graph.dfy` | `Graph` | `build_graph` as the class `GraphBuilder`, and the network generator's `main` |
| `ranking.dfy` | `Ranking` | the sort of the sheet rows |
| `stats.dfy` | `Stats` | `clean_token`, `key_for`, `extract_items` and the statistics generator's `main` |

Some operations work step by step in the source. These are modelled as
methods with loops, and each is proved equal to a recursive specification
function. The operations are:

* the rows loop of the extractor's `main`;
* the item loop of `parse_items_to_upper`;
* the row loop of `build_graph`, with its two `seen` sets as fields of
  `GraphBuilder`;
* the counting loops of `extract_items`;
* the category loops of both `main`s.

Those specification functions carry the lemmas.

## Model

| member | source | states |
|---|---|---|
| Preprocess.FirstHeading | article_info_extractor.py:141-143 | the index found is a reference heading and no earlier line is one; no index means no line is a heading |
| Preprocess.FirstHeadingAt | article_info_extractor.py:142-144 | the loop stops at the first line that matches the heading pattern |
| Preprocess.Lines | article_info_extractor.py:141 | `splitlines` on `\n`: the pieces between breaks, without the empty piece after a final break; `LinesRejoin` states it |
| Preprocess.LinesRejoin | article_info_extractor.py:141 | no line holds a `\n`, and the lines re-joined with `\n` give the text back, up to one final line break |
| Preprocess.IsReferenceHeading | article_info_extractor.py:134 | the heading pattern; `HeadingShapesMatch`, `HeadingIgnoresTrailingSpace` and `ProseIsNotHeading` state what it accepts |
| Preprocess.Truncated | article_info_extractor.py:141-145 | what truncation returns; `TruncatedIsPrefix` and `TruncatedHasNoHeading` state it |
| Preprocess.TruncateAtReferences | article_info_extractor.py:136-145 | the loop over the lines computes the truncated text; a text without a heading line comes back unchanged |
| Preprocess.HeadingIgnoresTrailingSpace | article_info_extractor.py:134 | trailing whitespace does not change whether a line is a heading (the pattern's `\s*$`) |
| Preprocess.HeadingShapesMatch | article_info_extractor.py:134 | every line of the form: spaces, "reference"/"references" in any case, spaces, an optional colon, spaces, is a heading |
| Preprocess.ReferenceWordEnds | article_info_extractor.py:134 | a heading word starts and ends with a non-space character that is not a colon |
| Preprocess.StripOfPadded | article_info_extractor.py:134 | stripping a padded word keeps the word without its trailing spaces |
| Preprocess.HeadingWordOf | article_info_extractor.py:134 | the heading word is recovered from a word followed by spaces and an optional colon |
| Preprocess.ProseIsNotHeading | article_info_extractor.py:134-139 | "reference genome", "References and notes" and "references::" are not headings |
| Preprocess.TruncatedIsPrefix | article_info_extractor.py:141-145 | the truncated text is a prefix of the input |
| Preprocess.TruncatedHasNoHeading | article_info_extractor.py:141-145 | no line of the truncated text is a reference heading |
| Preprocess.KeptLinesHaveNoHeading | article_info_extractor.py:144 | joining heading-free lines with newlines and right-stripping them produces no heading line |
| Preprocess.StrippedPieces | article_info_extractor.py:144 | right-stripping joined lines keeps the leading lines intact and only trims whitespace off the last line kept |
| Preprocess.PrefixLength | article_info_extractor.py:160 | the length of `tokens[:cap]`: at most the token count, and `min(cap, count)` for a non-negative cap |
| Preprocess.WordCount | article_info_extractor.py:147-151 | the count is zero exactly when the text is all whitespace |
| Preprocess.CapWords | article_info_extractor.py:153-162 | what capping returns; `CapWordsKeepsFirstWords`, `CapWordsReformats` and `CapWordsIdempotent` state it |
| Preprocess.CapWordsKeepsFirstWords | article_info_extractor.py:153-162 | the capped text's words are exactly the first `min(count, cap)` words of the text |
| Preprocess.CapWordsReformats | article_info_extractor.py:158-162 | an over-budget text is rebuilt with single spaces |
| Preprocess.CapWordsIdempotent | article_info_extractor.py:153-162 | capping at `n` and then at any `m >= n` is the same as capping at `n` |
| Preprocess.ProcessedCountBounded | article_info_extractor.py:255-257 | the processed word count is `min(count, WORD_CAP)`, never above `WORD_CAP` |
| Preprocess.WordCountExample | article_info_extractor.py:147-151 | runs of spaces and newlines separate words: `x  y\nz` has the three words x, y, z |
| Preprocess.WordsExampleRest | article_info_extractor.py:151 | a leading space and a newline separate the words of ` y\nz` |
| Titles.Basename | article_info_extractor.py:62 | the base name holds no `/` |
| Titles.Stem | article_info_extractor.py:62 | `splitext` of the base name, leading dots not starting an extension; `StemEmptyIff` states when it is empty |
| Titles.StemEmptyIff | article_info_extractor.py:62-63 | the stem is empty exactly when the base name is |
| Titles.FirstTextLine | article_info_extractor.py:66-69 | none only when every line is blank; otherwise the title is the first non-blank line, stripped and cut at 120 characters |
| Titles.MetadataTitle | article_info_extractor.py:56 | the first non-empty of the `Title` and `title` entries, stripped; `ResolveTitleOrder` puts it first |
| Titles.ResolveTitle | article_info_extractor.py:50-70 | the title is never empty |
| Titles.ResolveTitleOrder | article_info_extractor.py:53-70 | metadata title first, then the stem, then the first text line, then "Untitled Article" |
| Titles.PipelineTitleNeverFromText | article_info_extractor.py:241-261 | for a listed file the title is the metadata title or the file's stem, never taken from the text |
| Response.AfterFirst | article_info_extractor.py:99-102 | `split(sep, 1)[-1]` is a suffix of the text |
| Response.BeforeFirst | article_info_extractor.py:103 | `split(sep, 1)[0]` is a prefix of the text without the separator |
| Response.FenceInner | article_info_extractor.py:99-102 | the text after the first `` ```json ``, or after the first fence when there is none; `JsonFenceInner` states it |
| Response.Unfenced | article_info_extractor.py:97-103 | the fenced payload, stripped, or the text itself; `UnfencedHasNoFence` and `ClosingFenceFirst` state it |
| Response.NoEarlierOccurrence | article_info_extractor.py:103 | a prefix that ends before the first occurrence contains no occurrence |
| Response.FindFirst | article_info_extractor.py:99-111 | substring search returns the first occurrence |
| Response.BraceSpan | article_info_extractor.py:111-114 | the span runs from the first `{` to the last `}`; none exactly when no `{` comes before a `}` |
| Response.Attempts | article_info_extractor.py:105-115 | the unfenced text is tried first; the brace span is tried second, and only when one exists |
| Response.FirstDecoded | article_info_extractor.py:105-119 | the first attempt that decodes wins; `{}` when none does |
| Response.CleanAndParseJson | article_info_extractor.py:83-119 | a mapping or other non-text answer is returned as is; a text answer yields the unfenced text if it decodes, else the brace span if that decodes, else `{}` |
| Response.UnfencedHasNoFence | article_info_extractor.py:97-103 | after unfencing, no triple backtick remains |
| Response.JsonFenceInner | article_info_extractor.py:99-100 | the text after a `` ```json `` fence is what follows the fence |
| Response.ClosingFenceFirst | article_info_extractor.py:103 | cutting at the closing fence recovers the payload |
| Response.FencedAnswerDecodesPayload | article_info_extractor.py:94-107 | an answer wrapped as `` ```json payload``` `` decodes to the stripped payload's value |
| Response.UnfencingKeepsCharacters | article_info_extractor.py:94-103 | stripping and unfencing add no character that the answer lacks |
| Response.UndecodableWithoutBraceIsEmpty | article_info_extractor.py:109-119 | an undecodable answer without `{` yields `{}` |
| Extractor.IntToString | article_info_extractor.py:127-128 | `str` of an integer item (through `repr`) is a numeral that reads back as that integer, with a leading `-` exactly for negatives |
| Extractor.Repr | article_info_extractor.py:127 | `repr` of a decoded value: `None`, `True`/`False`, a numeral, a quoted string, a bracketed list, and a mapping printed as its dict (`DictOf`), so a repeated key appears once; definition, read through `EnsureList` and `ReprRepeatedKey` |
| Extractor.DictInsert | article_info_extractor.py:107 | writing a key into a dict: a present key keeps its place and takes the new value, a new key is appended, and no other entry changes |
| Extractor.DictOf | article_info_extractor.py:107 | the dict `json.loads` builds from an object: keys stay distinct and every entry is one of the object's members |
| Extractor.DictOfSpec | article_info_extractor.py:107 | the dict's keys are the object's keys once each, in first-occurrence order, and each carries the value `dict.get` finds (the last one written) |
| Extractor.DictValuesStep | article_info_extractor.py:107 | inserting the next member keeps every entry's value equal to the last value written for its key |
| Extractor.LookupSnoc | article_info_extractor.py:289-293 | a member written after the others decides its key's value and leaves other keys alone |
| Extractor.ReprRepeatedKey | article_info_extractor.py:127-128 | the object `{"a": 1, "a": 2}` is printed `{'a': 2}` |
| Extractor.PyStr | article_info_extractor.py:127-128 | `str` of a decoded value: a string is itself, anything else its `repr`; definition, read through `EnsureList` |
| Extractor.Lookup | article_info_extractor.py:289-293 | `dict.get`: null for an absent key, the last value written for a present one |
| Extractor.NonNull | article_info_extractor.py:127 | keeps exactly the non-null items, with their repeats: the same multiset less the nulls |
| Extractor.NonNullAppend | article_info_extractor.py:127 | filtering a concatenation filters each part in turn, so the kept items keep their order |
| Extractor.NonNullOne | article_info_extractor.py:127 | a single item is kept exactly when it is not None |
| Extractor.EnsureList | article_info_extractor.py:122-128 | null gives `[]`; a list gives, position by position, the `str` of its non-null items in order; any other value gives a one-element list |
| Extractor.EnsureListAppend | article_info_extractor.py:127 | the strings of two lists joined are the first list's strings followed by the second's |
| Extractor.NonNullOfNullFree | article_info_extractor.py:127 | a list without nulls is kept whole |
| Extractor.EnsureListExample | article_info_extractor.py:127 | `["a", None, "b"]` becomes `["a", "b"]` |
| Extractor.Counts | article_info_extractor.py:249-257 | the first count is the word count of the truncated text; the second is its minimum with `WORD_CAP` |
| Extractor.AnnotatorInput | article_info_extractor.py:249-273 | the model sees at most `WORD_CAP` words, the first ones of the truncated text |
| Extractor.Row | article_info_extractor.py:300 | nine cells: file name, title, the five category cells, the two counts as decimal strings |
| Extractor.RowFollowsHeader | article_info_extractor.py:232-300 | each category cell sits under the header column of the same name |
| Extractor.CategoryCell | article_info_extractor.py:289-293 | one category cell: the `ensure_list` strings of that key joined with `", "`; `RowFollowsHeader` places it |
| Extractor.DocumentTitle | article_info_extractor.py:261 | a document's title is never empty |
| Extractor.ProcessDocument | article_info_extractor.py:246-304 | a row exists exactly when the parsed answer is a mapping, and it is built from that mapping and the counts |
| Extractor.RowTitleFromMetadataOrName | article_info_extractor.py:241-300 | a row's title is the metadata title or the file's stem |
| Extractor.IsPdfName | article_info_extractor.py:239 | the file filter: the lower-cased name ends in `.pdf`; `RowsOf` and `ArticleRows` use it |
| Extractor.ArticleRowsStep | article_info_extractor.py:240 | the rows of one more document are the earlier rows plus that document's rows |
| Extractor.RowsOf | article_info_extractor.py:239-304 | at most one row per file; one exactly when the name ends in `.pdf` and the answer is a mapping |
| Extractor.ArticleRows | article_info_extractor.py:239-240 | no more rows than files; every row is header-wide and names a `.pdf` file |
| Extractor.CollectRows | article_info_extractor.py:240-304 | the loop appends exactly the rows the listing calls for, in listing order |
| Extractor.ExtractArticles | article_info_extractor.py:226-240 | the header is written only for a new file, then the article rows follow; every row is header-wide |
| Network.SplitRuns | article_info_network_generator.py:46 | the pieces contain no separator; only the first and last may be empty; the first is empty exactly when the cell starts with a separator |
| Network.Runs | article_info_network_generator.py:27 | every run that the split removes is a non-empty string of characters of the pattern `[,;|\n/]` |
| Network.SplitRunsRestore | article_info_network_generator.py:46 | the pieces with the runs put back between them give the cell's text again: the split loses only separator runs |
| Network.Normalize | article_info_network_generator.py:50 | the normalised piece has single inner spaces and no outer ones |
| Network.Candidates | article_info_network_generator.py:49-53 | the candidates are exactly the upper-cased non-empty normalised pieces |
| Network.CellText | article_info_network_generator.py:40-44 | a missing cell gives nothing; a kept cell is non-blank, has no outer whitespace and is not `nan` in any case |
| Network.UpperItems | article_info_network_generator.py:33-57 | what `parse_items_to_upper` returns; `ParseItemsToUpper`, `UpperItemsShape` and `UpperItemsComplete` state it |
| Network.CandidatesStep | article_info_network_generator.py:49-53 | one more piece adds its upper-cased form, or nothing if it normalises to empty |
| Network.CollectItems | article_info_network_generator.py:47-56 | the loop with its `seen` set yields the candidates deduplicated in first-seen order |
| Network.ItemsStep | article_info_network_generator.py:49-56 | one more piece adds its upper-cased item unless it is blank or already seen |
| Network.ParseItemsToUpper | article_info_network_generator.py:33-57 | the items of a cell, without duplicates; `[]` for a missing, blank or `nan` cell |
| Network.UpperItemsShape | article_info_network_generator.py:46-53 | every item is non-empty, upper-case, has collapsed spaces and no separator |
| Network.PieceItemShape | article_info_network_generator.py:50-53 | the same shape for a single piece |
| Network.UpperItemsComplete | article_info_network_generator.py:46-56 | an item appears exactly when some piece normalises to it, in first-occurrence order |
| Network.UpperItemsOfNothing | article_info_network_generator.py:40-44 | a missing, blank or `nan` cell gives no items |
| Network.ValidateColumns | article_info_network_generator.py:60-66 | an error exactly when a required column is absent; it lists exactly the absent ones, with the columns found |
| Csv.MissingColumns | article_info_network_generator.py:61 | exactly the required names that are not columns |
| Graph.ParseRows | article_info_network_generator.py:95-100 | one (stripped article name, items) pair per row; a missing article cell is read as NaN and names the article "nan" |
| Graph.ArticleName | article_info_network_generator.py:95 | `str(row["Article Name"]).strip()`: the stripped cell, or "nan" for a missing (NaN) cell; definition, stated through `ParseRows` |
| Graph.Project | article_info_network_generator.py:95-100 | the (article cell, category cell) pair each row of the table offers `build_graph`; definition, stated through `GenerateNetworks` |
| Graph.ArticleNode | article_info_network_generator.py:107-109 | the article's `add_node` call: id `ARTICLE::name`, labelled with the name, a light blue box; definition, stated through `LoggedNodeShape` |
| Graph.ItemNode | article_info_network_generator.py:114-116 | an item's `add_node` call: id `COLUMN::item`, labelled with the item, a light green ellipse; definition, stated through `LoggedNodeShape` |
| Graph.LoggedNodeShape | article_info_network_generator.py:107-116 | every `add_node` call of a built network is either a light blue box labelled with the name of a row that has items, or a light green ellipse labelled with one of such a row's items |
| Graph.NodeCallLogged | article_info_network_generator.py:109-116 | an `add_node` call of the log is among the logged node calls |
| Graph.NodeCallOrigin | article_info_network_generator.py:94-116 | every node call the table allows is an article box or an item ellipse of a row with a name and items |
| Graph.ItemNodeCallOrigin | article_info_network_generator.py:113-116 | every item node call is the light green ellipse of one of the items |
| Graph.LinkStep | article_info_network_generator.py:113 | one more item adds its edge, its node id and its node call |
| Graph.GraphAppend | article_info_network_generator.py:94-122 | one more row adds just its own edges and nodes to the graph of the table |
| Graph.EdgeList | article_info_network_generator.py:119-122 | the edges added, in order, cover exactly the edge set |
| Graph.AppendNode | article_info_network_generator.py:107-116 | adding an unseen node keeps the log well formed and adds only that id |
| Graph.AppendEdge | article_info_network_generator.py:119-122 | adding an unseen edge between known nodes keeps the log well formed and adds only that edge |
| Graph.EndpointsAreNodes | article_info_network_generator.py:107-122 | every edge endpoint was added as a node |
| Graph.EdgeEnds | article_info_network_generator.py:121 | both ends of a logged edge are endpoints |
| Graph.GraphBuilder.constructor | article_info_network_generator.py:91-92 | empty seen sets and an empty log |
| Graph.GraphBuilder.AddRow | article_info_network_generator.py:94-122 | one loop pass appends the parsed row; a blank article or an empty item list leaves the log unchanged |
| Graph.GraphBuilder.AddParsed | article_info_network_generator.py:101-122 | with the cells parsed, the seen sets stay equal to the nodes and edges the rows so far call for |
| Graph.GraphBuilder.AddArticle | article_info_network_generator.py:107-110 | appends exactly `add_node(ARTICLE::name, label=name, shape="box", color="lightblue")` when the id is unseen and nothing otherwise |
| Graph.GraphBuilder.LinkItems | article_info_network_generator.py:113-122 | adds exactly the item nodes and article-item edges of the row; every node call it logs is an item's light green ellipse labelled with the item |
| Graph.GraphBuilder.LinkNext | article_info_network_generator.py:113-122 | one pass of the item loop: the first `k + 1` items are linked |
| Graph.GraphBuilder.AddLinked | article_info_network_generator.py:107-122 | a row with a name and items adds exactly its own nodes, edges and node calls |
| Graph.GraphBuilder.Link | article_info_network_generator.py:114-122 | appends exactly `add_node(COLUMN::item, label=item, shape="ellipse", color="lightgreen")` when the id is unseen, then `add_edge(article, entity)` when the pair is unseen |
| Graph.GraphBuilder.AddItemNode | article_info_network_generator.py:115-117 | the item's light green ellipse, labelled with the item, only when its id is unseen |
| Graph.GraphBuilder.AddItemEdge | article_info_network_generator.py:119-122 | the article-item edge only when the pair is unseen; no node call is added |
| Graph.BuildGraph | article_info_network_generator.py:69-122 | the log holds exactly the nodes and edges the rows call for, with nothing added twice, and each node is added with its row's label, shape and colour |
| Graph.GenerateNetworks | article_info_network_generator.py:131-142 | a failed validation stops everything; otherwise one network per association, in order, each from the whole table |
| Graph.NetworksFromAppend | article_info_network_generator.py:140-142 | the next association's network, built from the whole table, extends the list of networks |
| Graph.LogDistinct | article_info_network_generator.py:107-122 | no node id and no edge is added twice, and both ends of an edge are added before it |
| Graph.LogNodesDistinct | article_info_network_generator.py:107-116 | no node id is added twice |
| Graph.LogEdgesDistinct | article_info_network_generator.py:119-122 | no edge is added twice |
| Graph.LogEndsFirst | article_info_network_generator.py:107-122 | both ends of an edge are added before the edge |
| Graph.NodeLogged | article_info_network_generator.py:109 | an added node's id is in the node set |
| Graph.EdgeLogged | article_info_network_generator.py:121 | an added edge is in the edge set |
| Graph.EdgeListDistinct | article_info_network_generator.py:119-122 | the edge list has no duplicates |
| Graph.EdgeCount | article_info_network_generator.py:119-122 | the number of edges added equals the number of distinct article-item pairs |
| Graph.ItemEdgeOrigin | article_info_network_generator.py:113-122 | an item edge links the article to one of its items |
| Graph.ItemEdgePresent | article_info_network_generator.py:113-122 | every item of the row gets its edge |
| Graph.EdgeOrigin | article_info_network_generator.py:107-122 | every edge runs from `ARTICLE::name` of a kept row to `COLUMN::item` of one of its items |
| Graph.EdgePresent | article_info_network_generator.py:94-122 | every item of a row with a non-blank article gets its edge |
| Graph.NodeOrigin | article_info_network_generator.py:94-116 | every node is the article or an item of a row with both a name and items, so no node is isolated |
| Graph.ItemNodeOrigin | article_info_network_generator.py:114 | an item node is `COLUMN::item` of one of the items |
| Graph.SkippedRow | article_info_network_generator.py:96-104 | a row with a blank article or no items changes neither nodes nor edges |
| Seqs.FirstIndex | article_info_network_generator.py:54-56 | the first position of an element |
| Seqs.Occ | code/article_info_stat_generator.py:54 | the number of occurrences, zero exactly for an absent element |
| Seqs.Dedup | article_info_network_generator.py:47-56 | no duplicates, the same elements, no longer than the input |
| Seqs.DedupStep | article_info_network_generator.py:54-56 | an element is appended only if not yet seen |
| Seqs.DedupOrder | article_info_network_generator.py:47-56 | kept elements appear in first-occurrence order |
| Seqs.DedupOrderStep | article_info_network_generator.py:54-56 | that order survives one more element |
| Seqs.FirstIndexOfPrefix | article_info_network_generator.py:54-56 | appending does not move an earlier first occurrence |
| Seqs.FirstIndexOfLast | article_info_network_generator.py:54-56 | a new element first occurs at the end |
| Seqs.DistinctCardinality | article_info_network_generator.py:119-122 | a duplicate-free list has as many elements as its set |
| Seqs.Keys | code/article_info_stat_generator.py:90 | the counter's keys in insertion order |
| Seqs.Bump | code/article_info_stat_generator.py:54-55 | `c[k] += 1` adds an entry only for a new key |
| Seqs.CountBump | code/article_info_stat_generator.py:54-55 | `c[k] += 1` raises exactly `k`'s count by one |
| Seqs.KeysBump | code/article_info_stat_generator.py:54-55 | a new key is appended, old keys keep their order |
| Seqs.TotalBump | code/article_info_stat_generator.py:54 | the total grows by one |
| Seqs.BumpPositive | code/article_info_stat_generator.py:54-55 | counts stay positive |
| Seqs.TallyOfSpec | code/article_info_stat_generator.py:53-55 | counting a list gives its distinct elements in first-seen order, with occurrence counts that add up to its length |
| Seqs.MostCommon | code/article_info_stat_generator.py:59 | `most_common(1)[0][0]`: a maximal count, the earliest of ties |
| Seqs.ArgMax | code/article_info_stat_generator.py:59 | the first entry with the largest count |
| Seqs.CountAt | code/article_info_stat_generator.py:55 | an entry's count is the count of its key |
| Seqs.TallyEntryOcc | code/article_info_stat_generator.py:55 | each entry counts its key's occurrences |
| Seqs.TallyEntryOf | code/article_info_stat_generator.py:55 | every element has an entry |
| Seqs.TallyEntryOrder | code/article_info_stat_generator.py:55 | entries follow first occurrence |
| Seqs.ArgMaxBeats | code/article_info_stat_generator.py:59 | the chosen entry occurs at least as often as any element, and strictly more often than any element seen first earlier |
| Seqs.MostCommonOfTally | code/article_info_stat_generator.py:59 | the most common element of a list is in it, is most frequent, and beats every element first seen before it |
| Stats.Unwrapped | code/article_info_stat_generator.py:29-34 | removing a wrapping pair never lengthens the token |
| Stats.Wrapped | code/article_info_stat_generator.py:30-33 | a quote at both ends (of either kind) or a matching bracket pair; `MismatchedQuotesRemoved` and `CleanWrappedWord` state it |
| Stats.CleanToken | code/article_info_stat_generator.py:28-36 | the name has collapsed spaces, is no longer than the token, and keeps the words of the unwrapped token |
| Stats.KeyOfCleaned | code/article_info_stat_generator.py:39-40 | the key of a clean name is the name itself, or its lower-case form when case-insensitive |
| Stats.KeyFor | code/article_info_stat_generator.py:39-40 | the stripped token, lower-cased when case is merged; `KeyOfCleaned` states it for clean names |
| Stats.CleanWrappedWord | code/article_info_stat_generator.py:30-34 | a wrapped word loses exactly its wrapper |
| Stats.CleanPlainWord | code/article_info_stat_generator.py:29-36 | an unwrapped word is only stripped |
| Stats.OnePairRemoved | code/article_info_stat_generator.py:31-34 | only one pair of brackets is removed: `[[BRCA1]]` gives `[BRCA1]` |
| Stats.DoubleBracketsCleaned | code/article_info_stat_generator.py:31-34 | `[[BRCA1]]` cleans to `[BRCA1]` |
| Stats.BracketsCleaned | code/article_info_stat_generator.py:31-34 | `[BRCA1]` cleans to `BRCA1` |
| Stats.MismatchedQuotesRemoved | code/article_info_stat_generator.py:30 | mixed quote characters still count as a wrapping pair |
| Stats.KeysOf | code/article_info_stat_generator.py:53 | one key per name |
| Stats.CleanPartsKept | code/article_info_stat_generator.py:48-52 | every counted name is clean and not a placeholder |
| Stats.KeptNamesKept | code/article_info_stat_generator.py:47-52 | the same for a whole column |
| Stats.KeptNames | code/article_info_stat_generator.py:47-52 | the counted names of a column in order; `KeptNamesKept` and `KeptNamesStep` state it |
| Stats.Kept | code/article_info_stat_generator.py:51 | a cleaned name is counted unless it is empty or its lower-case form is a placeholder; definition, stated through `CleanPartsKept` |
| Stats.KeysOfSpec | code/article_info_stat_generator.py:53 | the i-th key is `key_for` of the i-th name |
| Stats.SpellingsSpec | code/article_info_stat_generator.py:55 | a key's spellings are exactly the names with that key |
| Stats.Spellings | code/article_info_stat_generator.py:55 | the names counted under one key, in order: what `casing_tracker[k]` counts; definition, stated through `SpellingsSpec` |
| Stats.RepOf | code/article_info_stat_generator.py:57-59 | the representative is one of the names and has the key |
| Stats.SpellingsOfKey | code/article_info_stat_generator.py:57-59 | a seen key has spellings, and its representative is their most common one |
| Stats.KeysOfAppend | code/article_info_stat_generator.py:53 | one more name adds its key |
| Stats.TallyOfAppend | code/article_info_stat_generator.py:54 | one more element bumps the counter |
| Stats.SpellingsAppend | code/article_info_stat_generator.py:55 | one more name extends its own key's spellings only |
| Stats.SpellingsOfAbsent | code/article_info_stat_generator.py:55 | an unseen key has no spellings |
| Stats.SpellingsGrow | code/article_info_stat_generator.py:55 | `casing_tracker[k][name] += 1` counts the new spelling |
| Stats.TracksStep | code/article_info_stat_generator.py:53-55 | one counted name keeps the counter and the casing tracker in step with the names seen |
| Stats.Track | code/article_info_stat_generator.py:55 | `casing_tracker[k][name] += 1`, starting an empty counter for a new key; definition, stated through `TracksStep` |
| Stats.TrackedCountsStep | code/article_info_stat_generator.py:54 | `counts[k] += 1` keeps the counter equal to the tally of the keys seen |
| Stats.TrackedKeysStep | code/article_info_stat_generator.py:55 | after one more name the tracker's keys are the keys seen |
| Stats.TrackedSpellingsStep | code/article_info_stat_generator.py:55 | after one more name every tracked key counts exactly its spellings |
| Stats.OtherSpellingsKept | code/article_info_stat_generator.py:55 | counting a name leaves every other key's spellings unchanged |
| Stats.CleanPartsStep | code/article_info_stat_generator.py:49-52 | one more piece adds its cleaned name, or nothing |
| Stats.SeenPiecesStep | code/article_info_stat_generator.py:49-52 | the same, after the names of earlier cells |
| Stats.CountCell | code/article_info_stat_generator.py:48-55 | counting a cell's pieces tracks the earlier names plus that cell's kept names |
| Stats.CountPieces | code/article_info_stat_generator.py:49-55 | the piece loop keeps the counter and tracker in step with the names seen |
| Stats.CountPiece | code/article_info_stat_generator.py:50-55 | a placeholder or empty piece is skipped, any other is counted |
| Stats.CountName | code/article_info_stat_generator.py:53-55 | a name bumps its key's count and its spelling's count |
| Stats.KeptNamesStep | code/article_info_stat_generator.py:47 | one more cell adds its kept names; a missing cell adds none |
| Stats.CountColumn | code/article_info_stat_generator.py:44-55 | after the loop the counter and tracker match the column's kept names |
| Stats.CounterKeys | code/article_info_stat_generator.py:90 | the counter's keys are exactly the keys seen |
| Stats.PickRepresentatives | code/article_info_stat_generator.py:57-59 | one representative per tracked key, the most common spelling |
| Stats.ExtractItems | code/article_info_stat_generator.py:43-60 | the counts are the key counter of the kept names, and each key maps to its representative |
| Stats.OccOfKey | code/article_info_stat_generator.py:54-55 | a key's count is its number of spellings |
| Stats.CountsAddUp | code/article_info_stat_generator.py:54-55 | total mentions equal the kept names; each key's count equals the sum of its spellings' counts |
| Stats.RepMostFrequent | code/article_info_stat_generator.py:57-59 | the representative is the most frequent spelling, and the earliest-seen one among ties |
| Stats.EntriesSpec | code/article_info_stat_generator.py:82-90 | one row per distinct key, in first-seen order, carrying that key's number of occurrences |
| Stats.Entries | code/article_info_stat_generator.py:90 | the unsorted sheet rows; `EntriesSpec` states them |
| Stats.ReportRows | code/article_info_stat_generator.py:90 | each counted key with its representative in place of the key; `ExtractSheet` equates them with `Entries` |
| Stats.SheetOf | code/article_info_stat_generator.py:80-91 | one category's sheet; `SheetFacts` states its rows, unique count and mentions |
| Stats.ExtractSheet | code/article_info_stat_generator.py:81-91 | one loop pass yields the category's sheet |
| Stats.SheetsOf | code/article_info_stat_generator.py:80-91 | one sheet per category |
| Stats.SheetsOfAt | code/article_info_stat_generator.py:80-81 | sheet `k` is computed from category `k`'s column |
| Stats.SheetsOfLast | code/article_info_stat_generator.py:80-81 | the last category's sheet comes last |
| Stats.SheetsOfKeepsInit | code/article_info_stat_generator.py:80 | a later category does not change an earlier sheet |
| Stats.ExtractSheets | code/article_info_stat_generator.py:80-91 | the loop yields sheet `k` from category `k`'s column, for every `k` |
| Stats.GenerateStats | code/article_info_stat_generator.py:63-91 | a missing category is reported before any sheet; otherwise one sheet per category, in order |
| Stats.SheetFacts | code/article_info_stat_generator.py:82-91 | the rows are sorted and a permutation of the entries; the unique count is the number of rows; the mentions are the kept names |
| Ranking.LexLtIrreflexive | code/article_info_stat_generator.py:91 | string `<` is irreflexive |
| Ranking.LexLtTransitive | code/article_info_stat_generator.py:91 | string `<` is transitive |
| Ranking.LexLtTotal | code/article_info_stat_generator.py:91 | distinct strings are ordered one way or the other |
| Ranking.BeforeTransitive | code/article_info_stat_generator.py:91 | the key `(-count, name.lower())` orders rows transitively |
| Ranking.BeforeIrreflexive | code/article_info_stat_generator.py:91 | no row sorts before itself |
| Ranking.Before | code/article_info_stat_generator.py:91 | the sort key `(-count, name.lower())` as a strict order; `BeforeTransitive` and `BeforeIrreflexive` state it |
| Ranking.Insert | code/article_info_stat_generator.py:91 | one step of the stable sort; `InsertPermutes` and `InsertRanked` state it |
| Ranking.Rank | code/article_info_stat_generator.py:91 | `list.sort` as a stable insertion sort; `RankSorts` states it |
| Ranking.InsertPermutes | code/article_info_stat_generator.py:91 | inserting adds exactly the one row |
| Ranking.InsertRanked | code/article_info_stat_generator.py:91 | inserting into sorted rows keeps them sorted |
| Ranking.RankSorts | code/article_info_stat_generator.py:91 | the sort yields sorted rows that are a permutation of its input |
| Text.UpperIsUpperCase | article_info_network_generator.py:53 | `upper()` leaves no lower-case letter and keeps the length and the whitespace |
| Text.CollapseSpacesSpec | article_info_network_generator.py:50 | `" ".join(s.split())` has single spaces, the same words, and is empty exactly when there are none |
| Text.WordsOfJoin | article_info_extractor.py:162 | joining words with single spaces gives back those words |
| Text.NatToString | article_info_extractor.py:300 | a count is written as decimal digits, without a leading zero, that read back as the count |

## Left out

- Reading PDFs with pdfplumber (`pdf_to_text`, the metadata lookup). A document is given as its file name, its text and its metadata map.
- The call to the OpenAI model (`call_model`). The model is the function parameter `annotate`. The API-key check is not modelled.
- `json.loads`. It is the function parameter `decode`.
- Response.CleanAndParseJson: assumes `json.loads(json.dumps(raw))` is the identity on non-text answers, so the `{}` it returns when that round trip raises is not modelled.
- `stringify`, the `.md` and `.txt` dumps, the console output, `ensure_dirs`/`mkdir`, `save_graph`, `barnes_hut`/`set_options` and the Excel writer. These are output only.
- Directory listing and its sorting. The documents are given in listing order.
- Whether the CSV file exists. It is the `tableExists` parameter.
- `find_input_file`. It only locates the input.
- The extractor's `try`/`except` around one document. Only the answer that is not a mapping is modelled (it gives no row). A failure inside PDF reading or the model call is outside the model.
- pandas `read_csv` type coercion. Cells are strings, and a missing or NaN cell is absent from its row. Numeric cells and `dropna` are modelled as absent or string cells.
- Unicode. Whitespace, case mapping and `splitlines` are ASCII approximations. Blank means space, tab, LF, CR, VT and FF; Python also counts \x1c-\x1f, \x85 and Unicode spaces. `\n` is the only line break.
- Extractor.Repr: `repr` escaping of quotes and backslashes is approximated. Floats are not part of the JSON value datatype.
- Ranking.RankSorts: `list.sort` in place is modelled as a functional stable insertion sort. Stability is not stated as a lemma.
- `CASE_INSENSITIVE`: the source's module constant (False) is instead the `caseInsensitive` parameter of `Stats.KeyFor` and of the functions that call it, so both settings are covered.
- Csv.MissingColumns: the order of the missing names is not stated, only which names they are.
- The text of the error messages is not modelled. Only which columns are missing, and which were found, is.
- The final per-category unique-count printout. Each sheet's `unique` field holds the same number.
