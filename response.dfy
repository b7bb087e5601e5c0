/**
 * The tolerant parser for the annotator's answer (`clean_and_parse_json` in
 * article_info_extractor.py). The JSON decoder itself (`json.loads`) is a
 * library call and is taken as a parameter: any function from text to an
 * optional value, None standing for a decoding error.
 */
module Response {
  import opened Wrappers
  import opened Text

  /** A decoded JSON value. An object keeps its members in order, as a Python dict does. */
  datatype Value =
    | Null
    | Bool(b: bool)
    | Int(i: int)
    | Str(s: string)
    | Arr(items: seq<Value>)
    | Obj(members: seq<(string, Value)>)

  /** What the parser is given: the annotator's text, or an already structured value. */
  datatype Raw = Text(text: string) | Data(value: Value)

  /** The value returned on every failure: an empty mapping. */
  const EMPTY: Value := Obj([])

  const FENCE: string := "```"
  const JSON_FENCE: string := "```json"

  /** `s.split(sep, 1)[-1]`: what follows the first `sep`, or `s` when there is none. */
  function AfterFirst(s: string, sep: string): (r: string)
    ensures |r| <= |s|
    ensures r == s[|s| - |r|..]
  {
    match Find(s, sep)
    case None => s
    case Some(i) => s[i + |sep|..]
  }

  /** `s.split(sep, 1)[0]`: what precedes the first `sep`, or `s` when there is none. */
  function BeforeFirst(s: string, sep: string): (r: string)
    requires sep != []
    ensures |r| <= |s| && r == s[..|r|]
    ensures !Contains(r, sep)
  {
    match Find(s, sep)
    case None =>
      assert !Contains(s, sep);
      s
    case Some(i) =>
      NoEarlierOccurrence(s, sep, i);
      s[..i]
  }

  /** When `pat` first occurs at `i`, the text before `i` does not contain it. */
  lemma NoEarlierOccurrence(s: string, pat: string, i: nat)
    requires pat != [] && i <= |s|
    requires forall j :: 0 <= j < i ==> !OccursAt(s, pat, j)
    ensures !Contains(s[..i], pat)
  {
    forall j | 0 <= j <= i
      ensures !OccursAt(s[..i], pat, j)
    {
      if j + |pat| <= i {
        assert !OccursAt(s, pat, j);
        assert s[..i][j..j + |pat|] == s[j..j + |pat|];
      }
    }
  }

  /**
   * The candidate after fence stripping, for an already stripped text: when
   * the text opens with a fence, the part after the first "```json" (or,
   * failing that, after the opening "```") up to the next "```", stripped.
   */
  function Unfenced(text: string): string {
    if StartsWith(text, FENCE) then
      Strip(BeforeFirst(FenceInner(text), FENCE))
    else text
  }

  /** What follows the opening marker: "```json" when present, else "```". */
  function FenceInner(text: string): string {
    if Find(text, JSON_FENCE).Some? then AfterFirst(text, JSON_FENCE) else AfterFirst(text, FENCE)
  }

  /**
   * The brace fallback's bounds: the first '{' and the last '}' of the
   * candidate, when both exist and the '}' comes after the '{'.
   */
  function BraceSpan(c: string): (r: Option<(nat, nat)>)
    ensures r.Some? ==> r.value.0 < r.value.1 < |c| && c[r.value.0] == '{' && c[r.value.1] == '}'
    ensures r.Some? ==> forall k :: 0 <= k < r.value.0 ==> c[k] != '{'
    ensures r.Some? ==> forall k :: r.value.1 < k < |c| ==> c[k] != '}'
    ensures r.None? <==> !exists i, j :: 0 <= i < j < |c| && c[i] == '{' && c[j] == '}'
  {
    match (FindChar(c, '{'), RFindChar(c, '}'))
    case (Some(start), Some(end)) =>
      if end > start then Some((start, end)) else None
    case _ => None
  }

  /** The texts handed to the decoder, in order: the candidate, then its brace window. */
  function Attempts(candidate: string): (r: seq<string>)
    ensures 1 <= |r| <= 2 && r[0] == candidate
    ensures |r| == 2 <==> BraceSpan(candidate).Some?
    ensures |r| == 2 ==> r[1] == candidate[BraceSpan(candidate).value.0..BraceSpan(candidate).value.1 + 1]
  {
    match BraceSpan(candidate)
    case None => [candidate]
    case Some((start, end)) => [candidate, candidate[start..end + 1]]
  }

  /** The first attempt that decodes wins; when none does, the result is EMPTY. */
  function FirstDecoded(decode: string -> Option<Value>, attempts: seq<string>): (r: Value)
    ensures (forall k :: 0 <= k < |attempts| ==> decode(attempts[k]).None?) ==> r == EMPTY
    ensures forall k ::
      (0 <= k < |attempts| && decode(attempts[k]).Some? &&
       forall k' :: 0 <= k' < k ==> decode(attempts[k']).None?)
      ==> r == decode(attempts[k]).value
  {
    if attempts == [] then EMPTY
    else match decode(attempts[0])
      case Some(v) => v
      case None =>
        var r := FirstDecoded(decode, attempts[1..]);
        assert forall k :: 1 <= k < |attempts| ==> attempts[k] == attempts[1..][k - 1];
        r
  }

  /**
   * `clean_and_parse_json`. A structured value is returned as it is (for a
   * non-mapping this is the JSON round trip, which is the identity on
   * values); text is stripped, unfenced, decoded directly and then through
   * its brace window, and every failure gives EMPTY.
   */
  function CleanAndParseJson(raw: Raw, decode: string -> Option<Value>): (r: Value)
    ensures raw.Data? ==> r == raw.value
    ensures raw.Text? && decode(Unfenced(Strip(raw.text))).Some? ==>
      r == decode(Unfenced(Strip(raw.text))).value
    ensures raw.Text? && decode(Unfenced(Strip(raw.text))).None? ==>
      var c := Unfenced(Strip(raw.text));
      match BraceSpan(c)
      case None => r == EMPTY
      case Some((start, end)) =>
        r == (match decode(c[start..end + 1]) case Some(v) => v case None => EMPTY)
  {
    match raw
    case Data(v) => v
    case Text(s) => FirstDecoded(decode, Attempts(Unfenced(Strip(s))))
  }

  /** After a fenced answer is unwrapped, no fence is left in the candidate. */
  lemma UnfencedHasNoFence(text: string)
    requires StartsWith(text, FENCE)
    ensures !Contains(Unfenced(text), FENCE)
  {
    var before := BeforeFirst(FenceInner(text), FENCE);
    var k := StripIsSubstring(before);
    if Contains(Strip(before), FENCE) {
      ContainsInSlice(before, k, k + |Strip(before)|, FENCE);
      assert false;
    }
  }

  /** A text that opens with "```json" is cut right after that marker. */
  lemma JsonFenceInner(payload: string)
    ensures FenceInner(JSON_FENCE + payload) == payload
  {
    var s := JSON_FENCE + payload;
    assert s[..|JSON_FENCE|] == JSON_FENCE;
    assert OccursAt(s, JSON_FENCE, 0);
    assert Find(s, JSON_FENCE) == Some(0);
    assert s[|JSON_FENCE|..] == payload;
  }

  /** In payload + "```", the first fence is the closing one. */
  lemma ClosingFenceFirst(payload: string)
    requires !Contains(payload, FENCE)
    requires payload == [] || payload[|payload| - 1] != '`'
    ensures BeforeFirst(payload + FENCE, FENCE) == payload
  {
    var inner := payload + FENCE;
    assert inner[|payload|..] == FENCE;
    assert OccursAt(inner, FENCE, |payload|);
    forall i | 0 <= i < |payload| ensures !OccursAt(inner, FENCE, i) {
      if i + |FENCE| <= |payload| {
        assert inner[i..i + |FENCE|] == payload[i..i + |FENCE|];
        assert !OccursAt(payload, FENCE, i);
      } else {
        assert inner[i..i + |FENCE|][|payload| - 1 - i] == payload[|payload| - 1];
      }
    }
    FindFirst(inner, FENCE, 0, |payload|);
  }

  /** `Find` lands on an occurrence with none before it. */
  lemma FindFirst(s: string, pat: string, from: nat, at: nat)
    requires from <= at <= |s| && OccursAt(s, pat, at)
    requires forall i :: from <= i < at ==> !OccursAt(s, pat, i)
    ensures Find(s, pat, from) == Some(at)
    decreases at - from
  {
    if from < at {
      FindFirst(s, pat, from + 1, at);
    }
  }

  /**
   * A fenced JSON answer, "```json" + payload + "```", is decoded from its
   * stripped payload (the payload holds no fence and does not end in '`').
   */
  lemma FencedAnswerDecodesPayload(payload: string, decode: string -> Option<Value>, v: Value)
    requires !Contains(payload, FENCE)
    requires payload == [] || payload[|payload| - 1] != '`'
    requires decode(Strip(payload)) == Some(v)
    ensures CleanAndParseJson(Text(JSON_FENCE + payload + FENCE), decode) == v
  {
    var s := JSON_FENCE + payload + FENCE;
    assert s[0] == '`' && s[|s| - 1] == '`';
    StripOfTrimmed(s);
    assert s == JSON_FENCE + (payload + FENCE);
    assert s[..|FENCE|] == FENCE;
    JsonFenceInner(payload + FENCE);
    ClosingFenceFirst(payload);
  }

  /** Stripping and unfencing only ever keep characters of the original text. */
  lemma UnfencingKeepsCharacters(s: string, chars: set<char>)
    requires Avoids(s, chars)
    ensures Avoids(Unfenced(Strip(s)), chars)
  {
    var t := Strip(s);
    StripAvoids(s, chars);
    if StartsWith(t, FENCE) {
      var inner := FenceInner(t);
      AvoidsSlice(t, chars, |t| - |inner|, |t|);
      var before := BeforeFirst(inner, FENCE);
      AvoidsSlice(inner, chars, 0, |before|);
      StripAvoids(before, chars);
    }
  }

  /** Text with no '{' that does not decode as it stands parses to EMPTY. */
  lemma UndecodableWithoutBraceIsEmpty(s: string, decode: string -> Option<Value>)
    requires Avoids(s, {'{'})
    requires decode(Unfenced(Strip(s))).None?
    ensures CleanAndParseJson(Text(s), decode) == EMPTY
  {
    UnfencingKeepsCharacters(s, {'{'});
  }
}
