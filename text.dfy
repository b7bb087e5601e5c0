/**
 * Character and string helpers shared by the three pipelines.
 *
 * Python's Unicode notions are approximated by ASCII ones: whitespace is
 * taken to be the six characters space, tab, LF, CR, VT and FF (Python also
 * counts \x1c-\x1f, \x85 and other Unicode spaces as blank), and case mapping
 * only touches the letters A-Z and a-z.
 */
module Text {
  import opened Wrappers

  // ---------------------------------------------------------------------
  // Characters
  // ---------------------------------------------------------------------

  /** The six common ASCII blanks, standing in for what `\s`, `str.strip()` and `str.split()` treat as blank. */
  predicate IsSpace(c: char) {
    c == ' ' || c == '\t' || c == '\n' || c == '\r' || c == '\U{000B}' || c == '\U{000C}'
  }

  predicate NoSpace(s: string) {
    forall i :: 0 <= i < |s| ==> !IsSpace(s[i])
  }

  predicate AllSpace(s: string) {
    forall i :: 0 <= i < |s| ==> IsSpace(s[i])
  }

  function UpperChar(c: char): char {
    if 'a' <= c <= 'z' then (c as int - 32) as char else c
  }

  function LowerChar(c: char): char {
    if 'A' <= c <= 'Z' then (c as int + 32) as char else c
  }

  /** `str.upper()` */
  function Upper(s: string): string {
    seq(|s|, i requires 0 <= i < |s| => UpperChar(s[i]))
  }

  /** `str.lower()` */
  function Lower(s: string): string {
    seq(|s|, i requires 0 <= i < |s| => LowerChar(s[i]))
  }

  /** Equal up to ASCII letter case, as a regular expression with IGNORECASE compares. */
  predicate SameIgnoringCase(a: string, b: string) {
    |a| == |b| && (a == [] || (LowerChar(a[0]) == LowerChar(b[0]) && SameIgnoringCase(a[1..], b[1..])))
  }

  lemma {:induction false} SameIgnoringCaseAt(a: string, b: string, i: nat)
    requires SameIgnoringCase(a, b) && i < |a|
    ensures LowerChar(a[i]) == LowerChar(b[i])
  {
    if i > 0 {
      SameIgnoringCaseAt(a[1..], b[1..], i - 1);
    }
  }

  /** No lower-case letter occurs in `s`. */
  predicate IsUpperCase(s: string) {
    forall i :: 0 <= i < |s| ==> !('a' <= s[i] <= 'z')
  }

  lemma UpperIsUpperCase(s: string)
    ensures IsUpperCase(Upper(s))
    ensures |Upper(s)| == |s|
    ensures forall i :: 0 <= i < |s| ==> (IsSpace(Upper(s)[i]) <==> IsSpace(s[i]))
    ensures forall i :: 0 <= i < |s| ==> (Upper(s)[i] == ' ' <==> s[i] == ' ')
  {
  }

  // ---------------------------------------------------------------------
  // Stripping
  // ---------------------------------------------------------------------

  /** `str.lstrip()`: drops the leading whitespace and nothing else. */
  function LStrip(s: string): (r: string)
    ensures |r| <= |s|
    ensures r != [] ==> !IsSpace(r[0])
  {
    if s != [] && IsSpace(s[0]) then LStrip(s[1..]) else s
  }

  /** Left-stripping leaves nothing exactly when the string is all whitespace. */
  lemma {:induction false} LStripEmpty(s: string)
    ensures LStrip(s) == [] <==> AllSpace(s)
  {
    if s != [] && IsSpace(s[0]) {
      LStripEmpty(s[1..]);
      assert AllSpace(s) <==> AllSpace(s[1..]) by {
        if AllSpace(s[1..]) {
          forall i | 0 <= i < |s| ensures IsSpace(s[i]) {
            if i > 0 { assert s[i] == s[1..][i - 1]; }
          }
        }
      }
    }
  }

  /** `str.rstrip()`: drops the trailing whitespace and nothing else. */
  function RStrip(s: string): (r: string)
    ensures |r| <= |s|
    ensures r != [] ==> !IsSpace(r[|r| - 1])
  {
    if s != [] && IsSpace(s[|s| - 1]) then RStrip(s[..|s| - 1]) else s
  }

  /** `str.strip()` */
  function Strip(s: string): (r: string)
    ensures |r| <= |s|
    ensures r != [] ==> !IsSpace(r[0]) && !IsSpace(r[|r| - 1])
  {
    RStripIsPrefix(LStrip(s));
    RStrip(LStrip(s))
  }

  lemma {:induction false} LStripSpacePrefix(ws: string, s: string)
    requires AllSpace(ws)
    ensures LStrip(ws + s) == LStrip(s)
    decreases |ws|
  {
    if ws == [] {
      assert ws + s == s;
    } else {
      assert (ws + s)[1..] == ws[1..] + s;
      LStripSpacePrefix(ws[1..], s);
    }
  }

  lemma {:induction false} RStripSpaceSuffix(s: string, ws: string)
    requires AllSpace(ws)
    ensures RStrip(s + ws) == RStrip(s)
    decreases |ws|
  {
    if ws == [] {
      assert s + ws == s;
    } else {
      assert (s + ws)[..|s + ws| - 1] == s + ws[..|ws| - 1];
      RStripSpaceSuffix(s, ws[..|ws| - 1]);
    }
  }

  lemma {:induction false} LStripAppend(s: string, t: string)
    requires LStrip(s) != []
    ensures LStrip(s + t) == LStrip(s) + t
    decreases |s|
  {
    assert (s + t)[0] == s[0];
    if IsSpace(s[0]) {
      assert (s + t)[1..] == s[1..] + t;
      LStripAppend(s[1..], t);
    }
  }

  /** `rstrip` keeps a prefix and drops only whitespace. */
  lemma {:induction false} RStripIsPrefix(s: string)
    ensures RStrip(s) == s[..|RStrip(s)|]
    ensures AllSpace(s[|RStrip(s)|..])
    decreases |s|
  {
    if s != [] && IsSpace(s[|s| - 1]) {
      RStripIsPrefix(s[..|s| - 1]);
      assert s[..|s| - 1][|RStrip(s)|..] + [s[|s| - 1]] == s[|RStrip(s)|..];
    }
  }

  /** `lstrip` keeps a suffix and drops only whitespace. */
  lemma {:induction false} LStripIsSuffix(s: string)
    ensures LStrip(s) == s[|s| - |LStrip(s)|..]
    ensures AllSpace(s[..|s| - |LStrip(s)|])
    decreases |s|
  {
    if s != [] && IsSpace(s[0]) {
      LStripIsSuffix(s[1..]);
      assert s[1..][|s| - 1 - |LStrip(s)|..] == s[|s| - |LStrip(s)|..];
      assert s[..|s| - |LStrip(s)|] == [s[0]] + s[1..][..|s| - 1 - |LStrip(s)|];
    }
  }

  /** `strip` keeps a contiguous piece of its argument. */
  lemma StripIsSubstring(s: string) returns (k: nat)
    ensures k + |Strip(s)| <= |s| && Strip(s) == s[k..k + |Strip(s)|]
  {
    LStripIsSuffix(s);
    RStripIsPrefix(LStrip(s));
    k := |s| - |LStrip(s)|;
  }

  lemma {:induction false} LStripBlankAppend(s: string, ws: string)
    requires LStrip(s) == [] && AllSpace(ws)
    ensures LStrip(s + ws) == []
    decreases |s|
  {
    if s == [] {
      LStripSpacePrefix(ws, []);
      assert ws + [] == ws;
      assert s + ws == ws;
    } else {
      assert (s + ws)[0] == s[0];
      assert (s + ws)[1..] == s[1..] + ws;
      LStripBlankAppend(s[1..], ws);
    }
  }

  /** Trailing whitespace never changes what `strip` keeps. */
  lemma StripSpaceSuffix(s: string, ws: string)
    requires AllSpace(ws)
    ensures Strip(s + ws) == Strip(s)
  {
    if LStrip(s) == [] {
      LStripBlankAppend(s, ws);
    } else {
      LStripAppend(s, ws);
      RStripSpaceSuffix(LStrip(s), ws);
    }
  }

  lemma StripOfTrimmed(s: string)
    requires s != [] ==> !IsSpace(s[0]) && !IsSpace(s[|s| - 1])
    ensures Strip(s) == s
  {
  }

  // ---------------------------------------------------------------------
  // Words: maximal runs of non-whitespace characters (`\S+`, `str.split()`)
  // ---------------------------------------------------------------------

  predicate IsWord(w: string) {
    w != [] && NoSpace(w)
  }

  /** Length of the run of non-whitespace characters at the front of `s`. */
  function RunLength(s: string): (n: nat)
    ensures n <= |s| && NoSpace(s[..n])
    ensures n < |s| ==> IsSpace(s[n])
  {
    if s == [] || IsSpace(s[0]) then 0 else 1 + RunLength(s[1..])
  }

  /** `re.findall(r'\S+', s)`, equally `s.split()` */
  function Words(s: string): (ws: seq<string>)
    ensures forall i :: 0 <= i < |ws| ==> IsWord(ws[i])
    decreases |s|
  {
    var t := LStrip(s);
    if t == [] then []
    else
      var n := RunLength(t);
      [t[..n]] + Words(t[n..])
  }

  lemma {:induction false} RunLengthOfWord(w: string, rest: string)
    requires NoSpace(w)
    requires rest == [] || IsSpace(rest[0])
    ensures RunLength(w + rest) == |w|
    decreases |w|
  {
    if w != [] {
      assert (w + rest)[1..] == w[1..] + rest;
      RunLengthOfWord(w[1..], rest);
    }
  }

  lemma {:induction false} RunLengthAppend(s: string, t: string)
    requires RunLength(s) < |s|
    ensures RunLength(s + t) == RunLength(s)
    decreases |s|
  {
    if !IsSpace(s[0]) {
      assert (s + t)[1..] == s[1..] + t;
      RunLengthAppend(s[1..], t);
    }
  }

  /** `s` has none of the characters in `chars`. */
  predicate Avoids(s: string, chars: set<char>) {
    forall i :: 0 <= i < |s| ==> s[i] !in chars
  }

  /** A slice of a text keeps its characters. */
  lemma AvoidsSlice(s: string, chars: set<char>, a: nat, b: nat)
    requires a <= b <= |s| && Avoids(s, chars)
    ensures Avoids(s[a..b], chars)
  {
    forall i | 0 <= i < b - a ensures s[a..b][i] !in chars {
      assert s[a..b][i] == s[a + i];
    }
  }

  /** Stripping only ever keeps characters of its argument. */
  lemma StripAvoids(s: string, chars: set<char>)
    requires Avoids(s, chars)
    ensures Avoids(Strip(s), chars)
  {
    var k := StripIsSubstring(s);
    AvoidsSlice(s, chars, k, k + |Strip(s)|);
  }

  /** The words of a text are made of its characters. */
  lemma {:induction false} WordsAvoid(s: string, chars: set<char>)
    requires Avoids(s, chars)
    ensures forall i :: 0 <= i < |Words(s)| ==> Avoids(Words(s)[i], chars)
    decreases |s|
  {
    var t := LStrip(s);
    LStripIsSuffix(s);
    AvoidsSlice(s, chars, |s| - |t|, |s|);
    if t != [] {
      var n := RunLength(t);
      AvoidsSlice(t, chars, 0, n);
      AvoidsSlice(t, chars, n, |t|);
      WordsAvoid(t[n..], chars);
      assert Words(s) == [t[..n]] + Words(t[n..]);
    }
  }

  /** Joining keeps to the characters of the pieces and the separator. */
  lemma {:induction false} JoinAvoids(ws: seq<string>, sep: string, chars: set<char>)
    requires forall i :: 0 <= i < |ws| ==> Avoids(ws[i], chars)
    requires Avoids(sep, chars)
    ensures Avoids(Join(ws, sep), chars)
  {
    if |ws| > 1 {
      JoinAvoids(ws[1..], sep, chars);
    }
  }

  /** Collapsing whitespace never brings in a character other than ' '. */
  lemma CollapseAvoids(s: string, chars: set<char>)
    requires Avoids(s, chars) && ' ' !in chars
    ensures Avoids(CollapseSpaces(s), chars)
  {
    WordsAvoid(s, chars);
    JoinAvoids(Words(s), " ", chars);
  }

  /** Upper-casing maps no character into or out of a set of non-letters. */
  lemma UpperAvoids(s: string, chars: set<char>)
    requires Avoids(s, chars)
    requires forall c :: c in chars ==> !('a' <= c <= 'z') && !('A' <= c <= 'Z')
    ensures Avoids(Upper(s), chars)
  {
  }

  lemma WordsOfSpace(ws: string)
    requires AllSpace(ws)
    ensures Words(ws) == []
  {
    LStripSpacePrefix(ws, []);
    assert ws + [] == ws;
  }

  lemma WordsOfWord(w: string)
    requires IsWord(w)
    ensures Words(w) == [w]
  {
    RunLengthOfWord(w, []);
    assert w + [] == w;
  }

  /** Leading whitespace does not change the words. */
  lemma WordsSpacePrefix(ws: string, s: string)
    requires AllSpace(ws)
    ensures Words(ws + s) == Words(s)
  {
    LStripSpacePrefix(ws, s);
  }

  lemma WordsNonSpaceStart(u: string)
    requires u != [] && !IsSpace(u[0])
    ensures Words(u) == [u[..RunLength(u)]] + Words(u[RunLength(u)..])
  {
  }

  /**
   * A whitespace character always ends a word: the words of `a + [c] + b` are
   * the words of `a` followed by the words of `b`. This is what makes the
   * runs maximal.
   */
  lemma {:induction false} WordsSplitAtSpace(a: string, c: char, b: string)
    requires IsSpace(c)
    ensures Words(a + [c] + b) == Words(a) + Words(b)
    decreases |a|, 1
  {
    if a == [] {
      assert a + [c] + b == [c] + b;
      WordsSpacePrefix([c], b);
    } else if IsSpace(a[0]) {
      assert a + [c] + b == [a[0]] + (a[1..] + [c] + b);
      assert a == [a[0]] + a[1..];
      WordsSpacePrefix([a[0]], a[1..] + [c] + b);
      WordsSpacePrefix([a[0]], a[1..]);
      WordsSplitAtSpace(a[1..], c, b);
    } else if RunLength(a) < |a| {
      WordsSplitInsideWord(a, c, b);
    } else {
      WordsSplitAfterWord(a, c, b);
    }
  }

  lemma {:induction false} WordsSplitInsideWord(a: string, c: char, b: string)
    requires IsSpace(c) && a != [] && !IsSpace(a[0]) && RunLength(a) < |a|
    ensures Words(a + [c] + b) == Words(a) + Words(b)
    decreases |a|, 0
  {
    var u := a + ([c] + b);
    assert a + [c] + b == u;
    var n := RunLength(a);
    RunLengthAppend(a, [c] + b);
    WordsNonSpaceStart(a);
    WordsNonSpaceStart(u);
    assert u[n..] == a[n..] + [c] + b;
    assert u[..n] == a[..n];
    WordsSplitAtSpace(a[n..], c, b);
  }

  lemma WordsSplitAfterWord(a: string, c: char, b: string)
    requires IsSpace(c) && IsWord(a)
    ensures Words(a + [c] + b) == Words(a) + Words(b)
  {
    var u := a + ([c] + b);
    assert a + [c] + b == u;
    RunLengthOfWord(a, [c] + b);
    WordsOfWord(a);
    WordsNonSpaceStart(u);
    assert u[|a|..] == [c] + b;
    assert u[..|a|] == a;
    WordsSpacePrefix([c], b);
  }

  // ---------------------------------------------------------------------
  // Joining (`sep.join(ws)`)
  // ---------------------------------------------------------------------

  function Join(ws: seq<string>, sep: string): string {
    if ws == [] then []
    else if |ws| == 1 then ws[0]
    else ws[0] + sep + Join(ws[1..], sep)
  }

  /** Joining words with single spaces and splitting again gives the words back. */
  lemma {:induction false} WordsOfJoin(ws: seq<string>)
    requires forall i :: 0 <= i < |ws| ==> IsWord(ws[i])
    ensures Words(Join(ws, " ")) == ws
  {
    if ws == [] {
      WordsOfSpace([]);
    } else if |ws| == 1 {
      WordsOfWord(ws[0]);
    } else {
      assert Join(ws, " ") == ws[0] + [' '] + Join(ws[1..], " ");
      WordsSplitAtSpace(ws[0], ' ', Join(ws[1..], " "));
      WordsOfWord(ws[0]);
      WordsOfJoin(ws[1..]);
    }
  }

  /** Joining one more piece adds the separator and the piece. */
  lemma {:induction false} JoinSnoc(ws: seq<string>, sep: string, x: string)
    requires ws != []
    ensures Join(ws + [x], sep) == Join(ws, sep) + sep + x
  {
    var ys := ws + [x];
    if |ws| == 1 {
      assert ys[0] == ws[0] && ys[1..] == [x];
    } else {
      assert ys[0] == ws[0] && ys[1..] == ws[1..] + [x];
      JoinSnoc(ws[1..], sep, x);
      var tail := Join(ws[1..], sep);
      assert Join(ys, sep) == ws[0] + sep + (tail + sep + x);
      assert Join(ws, sep) == ws[0] + sep + tail;
    }
  }

  lemma {:induction false} JoinPrefix(ws: seq<string>, sep: string, i: nat)
    requires i <= |ws|
    ensures |Join(ws[..i], sep)| <= |Join(ws, sep)|
    ensures Join(ws[..i], sep) == Join(ws, sep)[..|Join(ws[..i], sep)|]
  {
    if i == 0 {
    } else if |ws| == 1 {
      assert ws[..i] == ws;
    } else if i == 1 {
      assert ws[..i] == [ws[0]];
    } else {
      JoinPrefix(ws[1..], sep, i - 1);
      assert ws[..i][1..] == ws[1..][..i - 1];
    }
  }

  // ---------------------------------------------------------------------
  // Whitespace collapsing
  // ---------------------------------------------------------------------

  /**
   * A string with no leading or trailing whitespace whose only whitespace is
   * single ' ' characters between non-whitespace ones.
   */
  predicate Collapsed(s: string) {
    && (s != [] ==> !IsSpace(s[0]) && !IsSpace(s[|s| - 1]))
    && forall i :: 0 <= i < |s| && IsSpace(s[i]) ==> s[i] == ' ' && i + 1 < |s| && !IsSpace(s[i + 1])
  }

  /** `" ".join(s.split())` */
  function CollapseSpaces(s: string): string {
    Join(Words(s), " ")
  }

  lemma {:induction false} JoinOfWordsCollapsed(ws: seq<string>)
    requires forall i :: 0 <= i < |ws| ==> IsWord(ws[i])
    ensures Collapsed(Join(ws, " "))
    ensures ws != [] ==> Join(ws, " ") != [] && Join(ws, " ")[0] == ws[0][0]
  {
    if |ws| > 1 {
      JoinOfWordsCollapsed(ws[1..]);
      var w, j := ws[0], Join(ws[1..], " ");
      var s := w + [' '] + j;
      assert s == Join(ws, " ");
      forall i | 0 <= i < |s| && IsSpace(s[i])
        ensures s[i] == ' ' && i + 1 < |s| && !IsSpace(s[i + 1])
      {
        if i < |w| {
          assert false;
        } else if i == |w| {
          assert s[i + 1] == j[0];
        } else {
          assert s[i] == j[i - |w| - 1];
          assert i + 1 < |s| ==> s[i + 1] == j[i - |w|];
        }
      }
      assert s[|s| - 1] == j[|j| - 1];
    }
  }

  /** The collapsed form keeps exactly the words of `s`. */
  lemma CollapseSpacesSpec(s: string)
    ensures Collapsed(CollapseSpaces(s))
    ensures Words(CollapseSpaces(s)) == Words(s)
    ensures CollapseSpaces(s) == [] <==> Words(s) == []
  {
    JoinOfWordsCollapsed(Words(s));
    WordsOfJoin(Words(s));
  }

  /** Collapsing whitespace never lengthens a string. */
  lemma {:induction false} CollapseShorter(s: string)
    ensures |CollapseSpaces(s)| <= |s|
    decreases |s|
  {
    var t := LStrip(s);
    if t != [] {
      var n := RunLength(t);
      var rest := t[n..];
      assert Words(s) == [t[..n]] + Words(rest);
      if Words(rest) != [] {
        assert rest != [] && IsSpace(rest[0]);
        assert Words(rest) == Words(rest[1..]);
        CollapseShorter(rest[1..]);
        assert Words(s)[1..] == Words(rest);
      }
    }
  }

  lemma UpperCollapsed(s: string)
    requires Collapsed(s)
    ensures Collapsed(Upper(s))
  {
    UpperIsUpperCase(s);
  }

  // ---------------------------------------------------------------------
  // Splitting on single separator characters (`str.split(c)`, `re.split("[..]")`)
  // ---------------------------------------------------------------------

  function Split(s: string, seps: set<char>): (parts: seq<string>)
    ensures |parts| >= 1
  {
    if s == [] then [[]]
    else
      var rest := Split(s[1..], seps);
      if s[0] in seps then [[]] + rest
      else [[s[0]] + rest[0]] + rest[1..]
  }

  /** Joining the pieces of a split on one separator restores the string. */
  lemma {:induction false} JoinSplit(s: string, c: char)
    ensures Join(Split(s, {c}), [c]) == s
  {
    if s != [] {
      JoinSplit(s[1..], c);
      var rest := Split(s[1..], {c});
      if s[0] != c && |rest| > 1 {
        assert Join(rest, [c]) == rest[0] + [c] + Join(rest[1..], [c]);
      }
    }
  }

  /** Splitting a string that was joined from separator-free pieces gives them back. */
  lemma {:induction false} SplitJoin(ls: seq<string>, c: char)
    requires |ls| >= 1
    requires forall i, j :: 0 <= i < |ls| && 0 <= j < |ls[i]| ==> ls[i][j] != c
    ensures Split(Join(ls, [c]), {c}) == ls
    decreases |Join(ls, [c])|
  {
    var j := Join(ls, [c]);
    if ls[0] == [] {
      if |ls| > 1 {
        assert j == [c] + Join(ls[1..], [c]);
        assert j[1..] == Join(ls[1..], [c]);
        SplitJoin(ls[1..], c);
      }
    } else {
      var ls' := [ls[0][1..]] + ls[1..];
      if |ls| > 1 {
        assert j == [ls[0][0]] + (ls[0][1..] + [c] + Join(ls[1..], [c]));
        assert Join(ls', [c]) == ls[0][1..] + [c] + Join(ls[1..], [c]);
      } else {
        assert j == [ls[0][0]] + ls[0][1..];
      }
      assert j[1..] == Join(ls', [c]);
      assert forall i, k :: 0 <= i < |ls'| && 0 <= k < |ls'[i]| ==> ls'[i][k] != c by {
        forall i, k | 0 <= i < |ls'| && 0 <= k < |ls'[i]| ensures ls'[i][k] != c {
          if i == 0 { assert ls'[0][k] == ls[0][k + 1]; } else { assert ls'[i] == ls[i]; }
        }
      }
      SplitJoin(ls', c);
      assert [ls[0][0]] + ls'[0] == ls[0];
    }
  }

  /**
   * Splitting a concatenation: the last piece of `p` and the first piece of
   * `q` fuse into one piece, every other piece is unchanged.
   */
  lemma {:induction false} SplitConcat(p: string, q: string, seps: set<char>)
    ensures var sp, sq := Split(p, seps), Split(q, seps);
      Split(p + q, seps) == sp[..|sp| - 1] + [sp[|sp| - 1] + sq[0]] + sq[1..]
    decreases |p|, 1
  {
    if p == [] {
      assert p + q == q;
      var sq := Split(q, seps);
      assert [] + sq[0] == sq[0];
      assert [sq[0]] + sq[1..] == sq;
    } else if p[0] in seps {
      SplitConcatSep(p, q, seps);
    } else {
      SplitConcatChar(p, q, seps);
    }
  }

  lemma {:induction false} SplitConcatSep(p: string, q: string, seps: set<char>)
    requires p != [] && p[0] in seps
    ensures var sp, sq := Split(p, seps), Split(q, seps);
      Split(p + q, seps) == sp[..|sp| - 1] + [sp[|sp| - 1] + sq[0]] + sq[1..]
    decreases |p|, 0
  {
    assert (p + q)[0] == p[0];
    assert (p + q)[1..] == p[1..] + q;
    SplitConcat(p[1..], q, seps);
    var sp, sp' := Split(p, seps), Split(p[1..], seps);
    assert sp == [[]] + sp';
    assert sp[..|sp| - 1] == [[]] + sp'[..|sp'| - 1];
  }

  lemma {:induction false} SplitConcatChar(p: string, q: string, seps: set<char>)
    requires p != [] && p[0] !in seps
    ensures var sp, sq := Split(p, seps), Split(q, seps);
      Split(p + q, seps) == sp[..|sp| - 1] + [sp[|sp| - 1] + sq[0]] + sq[1..]
    decreases |p|, 0
  {
    assert (p + q)[0] == p[0];
    assert (p + q)[1..] == p[1..] + q;
    SplitConcat(p[1..], q, seps);
    FuseFirstPiece(p[0], Split(p[1..], seps), Split(q, seps), Split(p[1..] + q, seps));
  }

  /** The list shuffling behind `SplitConcatChar`, kept apart from `Split`. */
  lemma FuseFirstPiece(x: char, sp': seq<string>, sq: seq<string>, rest: seq<string>)
    requires |sp'| >= 1 && |sq| >= 1
    requires rest == sp'[..|sp'| - 1] + [sp'[|sp'| - 1] + sq[0]] + sq[1..]
    ensures var sp := [[x] + sp'[0]] + sp'[1..];
      [[x] + rest[0]] + rest[1..] == sp[..|sp| - 1] + [sp[|sp| - 1] + sq[0]] + sq[1..]
  {
    var sp := [[x] + sp'[0]] + sp'[1..];
    if |sp'| == 1 {
      assert rest[0] == sp'[0] + sq[0] && rest[1..] == sq[1..];
      assert [x] + (sp'[0] + sq[0]) == ([x] + sp'[0]) + sq[0];
      assert sp[..|sp| - 1] == [] && sp[|sp| - 1] == [x] + sp'[0];
    } else {
      assert rest == [sp'[0]] + (sp'[1..][..|sp'| - 2] + [sp'[|sp'| - 1] + sq[0]] + sq[1..]);
      assert sp[..|sp| - 1] == [[x] + sp'[0]] + sp'[1..][..|sp'| - 2];
      assert sp[|sp| - 1] == sp'[|sp'| - 1];
    }
  }

  predicate PiecesAvoid(parts: seq<string>, seps: set<char>) {
    forall i, j :: 0 <= i < |parts| && 0 <= j < |parts[i]| ==> parts[i][j] !in seps
  }

  /** No piece of a split contains a separator. */
  lemma {:induction false} SplitPiecesFree(s: string, seps: set<char>)
    ensures PiecesAvoid(Split(s, seps), seps)
  {
    if s != [] {
      SplitPiecesFree(s[1..], seps);
      var rest := Split(s[1..], seps);
      var parts := Split(s, seps);
      forall i, j | 0 <= i < |parts| && 0 <= j < |parts[i]| ensures parts[i][j] !in seps {
        if s[0] in seps {
          assert parts[i] == ([[]] + rest)[i];
          assert i > 0 && parts[i] == rest[i - 1];
        } else if i == 0 {
          assert parts[0] == [s[0]] + rest[0];
          if j > 0 { assert parts[0][j] == rest[0][j - 1]; }
        } else {
          assert parts[i] == rest[i];
        }
      }
    }
  }

  /** Every piece of a blank string is blank. */
  lemma {:induction false} SplitAllSpace(s: string, seps: set<char>)
    requires AllSpace(s)
    ensures forall i :: 0 <= i < |Split(s, seps)| ==> AllSpace(Split(s, seps)[i])
  {
    if s != [] {
      SplitAllSpace(s[1..], seps);
      var rest := Split(s[1..], seps);
      var parts := Split(s, seps);
      forall i | 0 <= i < |parts| ensures AllSpace(parts[i]) {
        if s[0] in seps {
          assert parts[i] == ([[]] + rest)[i];
        } else if i == 0 {
          assert parts[0] == [s[0]] + rest[0];
          assert AllSpace(rest[0]);
          forall j | 0 <= j < |parts[0]| ensures IsSpace(parts[0][j]) {
            if j > 0 { assert parts[0][j] == rest[0][j - 1]; }
          }
        } else {
          assert parts[i] == rest[i];
        }
      }
    }
  }

  // ---------------------------------------------------------------------
  // Searching
  // ---------------------------------------------------------------------

  predicate OccursAt(s: string, pat: string, i: int) {
    0 <= i && i + |pat| <= |s| && s[i..i + |pat|] == pat
  }

  predicate Contains(s: string, pat: string) {
    exists i :: 0 <= i <= |s| && OccursAt(s, pat, i)
  }

  predicate StartsWith(s: string, pat: string) {
    |pat| <= |s| && s[..|pat|] == pat
  }

  predicate EndsWith(s: string, suffix: string) {
    |suffix| <= |s| && s[|s| - |suffix|..] == suffix
  }

  /** An occurrence inside a slice is an occurrence in the whole text. */
  lemma ContainsInSlice(s: string, a: nat, b: nat, pat: string)
    requires a <= b <= |s|
    requires Contains(s[a..b], pat)
    ensures Contains(s, pat)
  {
    var j :| 0 <= j <= b - a && OccursAt(s[a..b], pat, j);
    forall k | 0 <= k < |pat| ensures s[a + j + k] == pat[k] {
      assert s[a..b][j..j + |pat|][k] == pat[k];
    }
    assert s[a + j..a + j + |pat|] == pat;
    assert OccursAt(s, pat, a + j);
  }

  /** `s.find(pat)`: the first occurrence, if any. */
  function Find(s: string, pat: string, from: nat := 0): (r: Option<nat>)
    requires from <= |s|
    ensures r.Some? ==> from <= r.value && OccursAt(s, pat, r.value)
    ensures r.Some? ==> forall i :: from <= i < r.value ==> !OccursAt(s, pat, i)
    ensures r.None? ==> forall i :: from <= i ==> !OccursAt(s, pat, i)
    decreases |s| - from
  {
    if OccursAt(s, pat, from) then Some(from)
    else if from + |pat| >= |s| then None
    else Find(s, pat, from + 1)
  }

  /** `s.find(c)` for one character: the first occurrence, if any. */
  function FindChar(s: string, c: char, from: nat := 0): (r: Option<nat>)
    requires from <= |s|
    ensures r.Some? ==> from <= r.value < |s| && s[r.value] == c
    ensures r.Some? ==> forall i :: from <= i < r.value ==> s[i] != c
    ensures r.None? ==> forall i :: from <= i < |s| ==> s[i] != c
    decreases |s| - from
  {
    if from == |s| then None
    else if s[from] == c then Some(from)
    else FindChar(s, c, from + 1)
  }

  /** `s.rfind(c)` for one character: the last occurrence, if any. */
  function RFindChar(s: string, c: char): (r: Option<nat>)
    ensures r.Some? ==> r.value < |s| && s[r.value] == c
    ensures r.Some? ==> forall i :: r.value < i < |s| ==> s[i] != c
    ensures r.None? ==> forall i :: 0 <= i < |s| ==> s[i] != c
  {
    if s == [] then None
    else if s[|s| - 1] == c then Some(|s| - 1)
    else RFindChar(s[..|s| - 1], c)
  }

  /** A non-empty run of decimal digits. */
  predicate IsDigits(s: string) {
    s != [] && forall i :: 0 <= i < |s| ==> '0' <= s[i] <= '9'
  }

  /** The number a run of decimal digits spells, most significant digit first. */
  function DigitsValue(s: string): nat
    requires forall i :: 0 <= i < |s| ==> '0' <= s[i] <= '9'
  {
    if s == [] then 0
    else 10 * DigitsValue(s[..|s| - 1]) + (s[|s| - 1] as int - '0' as int)
  }

  /** A decimal numeral: digits, optionally after one minus sign. */
  predicate IsNumeral(s: string) {
    IsDigits(s) || (|s| > 1 && s[0] == '-' && IsDigits(s[1..]))
  }

  /** The integer a decimal numeral spells. */
  function NumeralValue(s: string): int
    requires IsNumeral(s)
  {
    if s[0] == '-' then -(DigitsValue(s[1..]) as int) else DigitsValue(s)
  }

  /**
   * `str(n)` for a non-negative integer: decimal digits that read back as
   * `n`, without a leading zero unless `n` is 0.
   */
  function NatToString(n: nat): (r: string)
    ensures IsDigits(r)
    ensures DigitsValue(r) == n
    ensures r[0] == '0' ==> r == "0"
  {
    var d := ['0' + (n % 10) as char];
    if n < 10 then d
    else
      var p := NatToString(n / 10);
      assert (p + d)[..|p + d| - 1] == p;
      p + d
  }
}
