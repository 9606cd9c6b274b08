/** The citation stream processor: it reads the language model's answer token by
    token, holds back text that may be the start of the stop pattern or of a
    citation `[n]`, reports each cited context document once, and rewrites a
    citation to a markdown link when the document has one, except inside a code
    block. */
module Citations {
  import opened Wrappers
  import opened Strings

  // ---------------------------------------------------------------------------
  // code blocks

  const TripleBacktick := "```"

  /** `in_code_block`: an odd number of fences (counted without overlap) has
      been written so far. */
  predicate InCodeBlock(text: string) {
    CountOccurrences(text, TripleBacktick) % 2 != 0
  }

  /** Text with no backtick contributes no fence. */
  lemma {:induction false} CountAfterPlain(a: string, rest: string)
    requires '`' !in a
    ensures CountOccurrences(a + rest, TripleBacktick) == CountOccurrences(rest, TripleBacktick)
    decreases |a|
  {
    if |a| > 0 {
      var s := a + rest;
      if |s| >= 3 {
        assert s[0] == a[0] && s[0] != TripleBacktick[0];
        assert !(TripleBacktick <= s);
      }
      assert s[1..] == a[1..] + rest;
      CountAfterPlain(a[1..], rest);
      if |s| < 3 {
        assert |rest| < 3;
      }
    } else {
      assert a + rest == rest;
    }
  }

  /** A fence in the text counts once. */
  lemma CountAfterFence(rest: string)
    ensures CountOccurrences(TripleBacktick + rest, TripleBacktick) == 1 + CountOccurrences(rest, TripleBacktick)
  {
    var s := TripleBacktick + rest;
    assert TripleBacktick <= s;
    assert s[3..] == rest;
  }

  /** Plain text is outside a code block; an opening fence enters one and a
      closing fence leaves it. */
  lemma FencesToggle(t: string, u: string, v: string)
    requires '`' !in t && '`' !in u && '`' !in v
    ensures !InCodeBlock(t)
    ensures InCodeBlock(t + TripleBacktick + u)
    ensures !InCodeBlock(t + TripleBacktick + u + TripleBacktick + v)
  {
    CountAfterPlain(t, "");
    assert t + "" == t;
    CountAfterPlain(u, "");
    assert u + "" == u;
    CountAfterPlain(v, "");
    assert v + "" == v;
    CountAfterPlain(t, TripleBacktick + u);
    assert t + TripleBacktick + u == t + (TripleBacktick + u);
    CountAfterFence(u);
    var w := u + TripleBacktick + v;
    CountAfterPlain(t, TripleBacktick + w);
    assert t + TripleBacktick + u + TripleBacktick + v == t + (TripleBacktick + w);
    CountAfterFence(w);
    CountAfterPlain(u, TripleBacktick + v);
    assert w == u + (TripleBacktick + v);
    CountAfterFence(v);
  }

  // ---------------------------------------------------------------------------
  // the two patterns

  /** The characters of `s` from `lo` up to `hi` are digits. */
  predicate DigitsIn(s: string, lo: int, hi: int) {
    forall i :: lo <= i < hi ==> 0 <= i < |s| && IsDigit(s[i])
  }

  /** The number of digits at the start of `s`. */
  function LeadingDigits(s: string): (r: nat)
    ensures r <= |s| && DigitsIn(s, 0, r)
    ensures r < |s| ==> !IsDigit(s[r])
  {
    if |s| == 0 || !IsDigit(s[0]) then 0
    else 1 + LeadingDigits(s[1..])
  }

  /** The number of digits at the end of `s`. */
  function TrailingDigits(s: string): (r: nat)
    ensures r <= |s| && DigitsIn(s, |s| - r, |s|)
    ensures r < |s| ==> !IsDigit(s[|s| - 1 - r])
  {
    if |s| == 0 || !IsDigit(s[|s| - 1]) then 0
    else 1 + TrailingDigits(s[..|s| - 1])
  }

  /** `s` ends with `[` followed by digits only. */
  predicate OpenAtEnd(s: string) {
    var d := TrailingDigits(s);
    d < |s| && s[|s| - 1 - d] == '['
  }

  /** `re.search(r"(\[\d*$)", s)`: a `[` followed by digits up to the end, where
      the end may also be just before a final newline. */
  predicate PossibleCitation(s: string) {
    OpenAtEnd(s) || (|s| > 0 && s[|s| - 1] == '\n' && OpenAtEnd(s[..|s| - 1]))
  }

  /** The reading of the pattern: `[` at `k`, then only digits. */
  predicate OpenBracketAt(s: string, k: int) {
    0 <= k < |s| && s[k] == '[' && DigitsIn(s, k + 1, |s|)
  }

  /** Some `[` is followed by digits only. */
  ghost predicate HasOpenBracket(s: string) {
    exists k :: OpenBracketAt(s, k)
  }

  lemma OpenAtEndMeaning(s: string)
    ensures OpenAtEnd(s) <==> HasOpenBracket(s)
  {
    var d := TrailingDigits(s);
    if OpenAtEnd(s) {
      assert OpenBracketAt(s, |s| - 1 - d);
    }
  }

  /** A possible citation is exactly a `[` followed by digits up to the end of
      the text or up to its final newline. */
  lemma PossibleCitationMeaning(s: string)
    ensures PossibleCitation(s) <==>
              HasOpenBracket(s) || (|s| > 0 && s[|s| - 1] == '\n' && HasOpenBracket(s[..|s| - 1]))
  {
    OpenAtEndMeaning(s);
    if |s| > 0 {
      OpenAtEndMeaning(s[..|s| - 1]);
    }
  }

  /** `re.findall(r"\[(\d+)\]", s)`: the digit strings of the bracketed numbers,
      found left to right, each match consuming its characters. */
  function FindCitations(s: string): (r: seq<string>)
    ensures forall m :: m in r ==> |m| > 0 && AllDigits(m)
    decreases |s|
  {
    if |s| == 0 then []
    else if s[0] == '[' && 0 < LeadingDigits(s[1..]) && 1 + LeadingDigits(s[1..]) < |s| && s[1 + LeadingDigits(s[1..])] == ']' then
      var d := LeadingDigits(s[1..]);
      var x := s[1..1 + d];
      assert AllDigits(x) by {
        forall i | 0 <= i < |x| ensures IsDigit(x[i]) {
          assert x[i] == s[1..][i];
        }
      }
      [x] + FindCitations(s[2 + d..])
    else FindCitations(s[1..])
  }

  /** `re.search(r"\[(\d+)\]", s)` finds something. */
  predicate HasCitation(s: string) {
    |FindCitations(s)| > 0
  }

  /** The reading of the pattern: `[` at `k`, one or more digits, `]` at `j`. */
  predicate CitationAt(s: string, k: int, j: int) {
    0 <= k && k + 1 < j < |s| && s[k] == '[' && s[j] == ']' && DigitsIn(s, k + 1, j)
  }

  /** An occurrence in a suffix is one in the whole text. */
  lemma OccursInSuffix(s: string, c: nat, p: string, k: int)
    requires c <= |s| && OccursAt(s[c..], p, k)
    ensures OccursAt(s, p, c + k)
  {
    assert s[c..][k..k + |p|] == s[c + k..c + k + |p|];
  }

  /** Each number found is written, bracketed, in the text. */
  lemma {:induction false} FoundCitationsOccur(s: string)
    ensures forall m :: m in FindCitations(s) ==> exists k :: OccursAt(s, "[" + m + "]", k)
    decreases |s|
  {
    if |s| > 0 {
      var d := LeadingDigits(s[1..]);
      if s[0] == '[' && 0 < d && 1 + d < |s| && s[1 + d] == ']' {
        var c := 2 + d;
        FoundCitationsOccur(s[c..]);
        var m0 := s[1..1 + d];
        assert s[0..|"[" + m0 + "]"|] == "[" + m0 + "]";
        assert OccursAt(s, "[" + m0 + "]", 0);
        forall m | m in FindCitations(s[c..]) ensures exists k :: OccursAt(s, "[" + m + "]", k) {
          var k :| OccursAt(s[c..], "[" + m + "]", k);
          OccursInSuffix(s, c, "[" + m + "]", k);
        }
      } else {
        FoundCitationsOccur(s[1..]);
        forall m | m in FindCitations(s[1..]) ensures exists k :: OccursAt(s, "[" + m + "]", k) {
          var k :| OccursAt(s[1..], "[" + m + "]", k);
          OccursInSuffix(s, 1, "[" + m + "]", k);
        }
      }
    }
  }

  /** A bracketed number anywhere in the text is found. */
  lemma {:induction false} CitationFound(s: string, k: int, j: int)
    requires CitationAt(s, k, j)
    ensures HasCitation(s)
    decreases k
  {
    var d := LeadingDigits(s[1..]);
    if !(s[0] == '[' && 0 < d && 1 + d < |s| && s[1 + d] == ']') {
      CitationFound(s[1..], k - 1, j - 1);
    }
  }

  /** `findall` leaves no bracketed number out: a match never overlaps the `[`
      of a later one, so every occurrence is listed. */
  lemma {:induction false} CitationListed(s: string, k: int, j: int)
    requires CitationAt(s, k, j)
    ensures s[k + 1..j] in FindCitations(s)
    decreases k, 2
  {
    if k == 0 {
      LeadingDigitsUpTo(s, j);
      assert s[1..1 + LeadingDigits(s[1..])] == s[k + 1..j];
    } else {
      CitationListedLater(s, k, j);
    }
  }

  lemma {:induction false} CitationListedLater(s: string, k: int, j: int)
    requires CitationAt(s, k, j) && k > 0
    ensures s[k + 1..j] in FindCitations(s)
    decreases k, 1
  {
    var d := LeadingDigits(s[1..]);
    if s[0] == '[' && 0 < d && 1 + d < |s| && s[1 + d] == ']' {
      ListedPastMatch(s, k, j);
    } else {
      ListedPastSkip(s, k, j);
    }
  }

  lemma {:induction false} ListedPastMatch(s: string, k: int, j: int)
    requires CitationAt(s, k, j) && k > 0
    requires s[0] == '[' && 0 < LeadingDigits(s[1..]) && 1 + LeadingDigits(s[1..]) < |s| && s[1 + LeadingDigits(s[1..])] == ']'
    ensures s[k + 1..j] in FindCitations(s)
    decreases k, 0
  {
    var c := 2 + LeadingDigits(s[1..]);
    MatchBeforeCitation(s, k, j);
    CitationInSuffix(s, c, k, j);
    var t := s[c..];
    CitationListed(t, k - c, j - c);
    FindAfterMatch(s);
    ListedInTail(FindCitations(s), [s[1..c - 1]], FindCitations(t), t[k - c + 1..j - c]);
  }

  lemma ListedInTail(all: seq<string>, head: seq<string>, tail: seq<string>, x: string)
    requires all == head + tail && x in tail
    ensures x in all
  {
  }

  lemma {:induction false} ListedPastSkip(s: string, k: int, j: int)
    requires CitationAt(s, k, j) && k > 0
    requires !(s[0] == '[' && 0 < LeadingDigits(s[1..]) && 1 + LeadingDigits(s[1..]) < |s| && s[1 + LeadingDigits(s[1..])] == ']')
    ensures s[k + 1..j] in FindCitations(s)
    decreases k, 0
  {
    CitationInSuffix(s, 1, k, j);
    CitationListed(s[1..], k - 1, j - 1);
    FindAfterSkip(s);
  }

  /** A match at the start is listed first, and the search goes on after it. */
  lemma FindAfterMatch(s: string)
    requires |s| > 0 && s[0] == '[' && 0 < LeadingDigits(s[1..]) && 1 + LeadingDigits(s[1..]) < |s|
    requires s[1 + LeadingDigits(s[1..])] == ']'
    ensures FindCitations(s) == [s[1..1 + LeadingDigits(s[1..])]] + FindCitations(s[2 + LeadingDigits(s[1..])..])
  {
  }

  /** Without a match at the start, the search goes on at the next character. */
  lemma FindAfterSkip(s: string)
    requires |s| > 0
    requires !(s[0] == '[' && 0 < LeadingDigits(s[1..]) && 1 + LeadingDigits(s[1..]) < |s| && s[1 + LeadingDigits(s[1..])] == ']')
    ensures FindCitations(s) == FindCitations(s[1..])
  {
  }

  /** A bracketed number after `c` is one of the suffix from `c`. */
  lemma CitationInSuffix(s: string, c: int, k: int, j: int)
    requires CitationAt(s, k, j) && 0 <= c <= k
    ensures CitationAt(s[c..], k - c, j - c)
    ensures s[c..][k - c + 1..j - c] == s[k + 1..j]
  {
  }

  /** A match at the start ends before any later `[`. */
  lemma MatchBeforeCitation(s: string, k: int, j: int)
    requires CitationAt(s, k, j) && k > 0
    requires s[0] == '[' && 0 < LeadingDigits(s[1..]) && 1 + LeadingDigits(s[1..]) < |s| && s[1 + LeadingDigits(s[1..])] == ']'
    ensures k >= 2 + LeadingDigits(s[1..])
  {
    var t := s[1..];
    assert forall i :: 0 <= i < LeadingDigits(t) ==> t[i] == s[i + 1];
  }

  /** At a bracketed number at the start, the leading digits run up to its `]`. */
  lemma LeadingDigitsUpTo(s: string, j: int)
    requires CitationAt(s, 0, j)
    ensures LeadingDigits(s[1..]) == j - 1
  {
    var t := s[1..];
    assert t[j - 1] == s[j];
    assert forall i :: 0 <= i < j - 1 ==> t[i] == s[i + 1];
  }

  /** `re.search` finds a citation exactly when the text holds a bracketed
      number. */
  lemma HasCitationMeaning(s: string)
    ensures HasCitation(s) <==> exists k, j :: CitationAt(s, k, j)
  {
    if HasCitation(s) {
      FoundCitationsOccur(s);
      var m := FindCitations(s)[0];
      assert m in FindCitations(s);
      var k :| OccursAt(s, "[" + m + "]", k);
      BracketedIsCitation(s, m, k);
    }
    if k, j :| CitationAt(s, k, j) {
      CitationFound(s, k, j);
    }
  }

  /** A bracketed digit string in the text reads as the pattern. */
  lemma BracketedIsCitation(s: string, m: string, k: int)
    requires |m| > 0 && AllDigits(m) && OccursAt(s, "[" + m + "]", k)
    ensures CitationAt(s, k, k + 1 + |m|)
  {
    var p := "[" + m + "]";
    assert forall i :: 0 <= i < |p| ==> s[k + i] == p[i];
    assert forall i :: 0 <= i < |m| ==> s[k + 1 + i] == m[i];
  }

  /** The distinct items in order of first occurrence; iterating over
      `set(matches)` visits each match once. */
  function Distinct(xs: seq<string>, seen: set<string>): (r: seq<string>)
    ensures forall x :: x in r <==> x in xs && x !in seen
    ensures forall i, j :: 0 <= i < j < |r| ==> r[i] != r[j]
  {
    if |xs| == 0 then []
    else if xs[0] in seen then Distinct(xs[1..], seen)
    else [xs[0]] + Distinct(xs[1..], seen + {xs[0]})
  }

  // ---------------------------------------------------------------------------
  // the stream

  /** A context document: its id and its link, if any. */
  datatype LlmDoc = LlmDoc(documentId: string, link: Option<string>)

  /** What the stream yields: answer text, or the first citation of a document. */
  datatype Piece = AnswerPiece(text: string) | CitationInfo(citationNum: nat, documentId: string)

  /** The local variables of `extract_citations_from_stream` between tokens; the
      flag `stopped` records that the loop has been left at the stop pattern. */
  datatype State = State(llmOut: string, segment: string, prependBracket: bool, cited: set<nat>, hold: string, stopped: bool)

  const Initial := State("", "", false, {}, "", false)

  /** `if stop_stream:` */
  predicate StopActive(stop: Option<string>) {
    stop.Some? && stop.value != ""
  }

  /** `if link:` */
  predicate Linked(doc: LlmDoc) {
    doc.link.Some? && doc.link.value != ""
  }

  /** The markdown link a citation is rewritten to. */
  function CitationLink(n: nat, link: string): string {
    "[[" + NatToString(n) + "]](" + link + ")"
  }

  /** The citation numbers among the pieces. */
  function Nums(out: seq<Piece>): set<nat> {
    if |out| == 0 then {}
    else (if out[0].CitationInfo? then {out[0].citationNum} else {}) + Nums(out[1..])
  }

  lemma {:induction false} NumsAppend(a: seq<Piece>, b: seq<Piece>)
    ensures Nums(a + b) == Nums(a) + Nums(b)
  {
    if |a| == 0 {
      assert a + b == b;
    } else {
      assert (a + b)[0] == a[0] && (a + b)[1..] == a[1..] + b;
      NumsAppend(a[1..], b);
    }
  }

  lemma {:induction false} NumsMember(out: seq<Piece>, i: int)
    requires 0 <= i < |out| && out[i].CitationInfo?
    ensures out[i].citationNum in Nums(out)
  {
    if i > 0 {
      assert out[1..][i - 1] == out[i];
      NumsMember(out[1..], i - 1);
    }
  }

  /** No citation number is reported twice. */
  predicate DistinctCitations(out: seq<Piece>) {
    forall i, j :: 0 <= i < j < |out| && out[i].CitationInfo? && out[j].CitationInfo? ==> out[i].citationNum != out[j].citationNum
  }

  /** Every reported number is that of a context document, given with its id. */
  predicate WellCited(out: seq<Piece>, docs: seq<LlmDoc>) {
    forall i :: 0 <= i < |out| && out[i].CitationInfo? ==>
      1 <= out[i].citationNum <= |docs| && out[i].documentId == docs[out[i].citationNum - 1].documentId
  }

  /** The three facts about the citations of a stretch of the stream that
      started with `cited` and ended with `cited'`. */
  predicate CitesOnce(out: seq<Piece>, docs: seq<LlmDoc>, cited: set<nat>, cited': set<nat>) {
    && cited' == cited + Nums(out)
    && Nums(out) !! cited
    && DistinctCitations(out)
    && WellCited(out, docs)
  }

  lemma CitesOnceAppend(a: seq<Piece>, b: seq<Piece>, docs: seq<LlmDoc>, c0: set<nat>, c1: set<nat>, c2: set<nat>)
    requires CitesOnce(a, docs, c0, c1) && CitesOnce(b, docs, c1, c2)
    ensures CitesOnce(a + b, docs, c0, c2)
  {
    NumsAppend(a, b);
    var ab := a + b;
    forall i, j | 0 <= i < j < |ab| && ab[i].CitationInfo? && ab[j].CitationInfo?
      ensures ab[i].citationNum != ab[j].citationNum
    {
      if i < |a| && j >= |a| {
        assert ab[i] == a[i] && ab[j] == b[j - |a|];
        NumsMember(a, i);
        NumsMember(b, j - |a|);
      } else if i >= |a| {
        assert ab[i] == b[i - |a|] && ab[j] == b[j - |a|];
      } else {
        assert ab[i] == a[i] && ab[j] == a[j];
      }
    }
    forall i | 0 <= i < |ab| && ab[i].CitationInfo?
      ensures 1 <= ab[i].citationNum <= |docs| && ab[i].documentId == docs[ab[i].citationNum - 1].documentId
    {
      if i < |a| {
        assert ab[i] == a[i];
      } else {
        assert ab[i] == b[i - |a|];
      }
    }
  }

  /** The segment, the cited numbers and the citations after the loop over the
      matches. */
  datatype Cited = Cited(segment: string, cited: set<nat>, infos: seq<Piece>)

  /** The match is a number that names a context document. */
  predicate InRange(docs: seq<LlmDoc>, m: string) {
    AllDigits(m) && 1 <= ParseDigits(m) <= |docs|
  }

  /** No match names a context document that has a link. */
  predicate NoMatchLinked(docs: seq<LlmDoc>, matches: seq<string>) {
    forall m :: m in matches && InRange(docs, m) ==> !Linked(docs[ParseDigits(m) - 1])
  }

  /** Every match that names a context document is among the cited numbers. */
  predicate MatchesCited(docs: seq<LlmDoc>, matches: seq<string>, cited: set<nat>) {
    forall m :: m in matches && InRange(docs, m) ==> ParseDigits(m) in cited
  }

  /** Both predicates split into the first match and the rest. */
  lemma MatchesSplit(docs: seq<LlmDoc>, matches: seq<string>, cited: set<nat>)
    requires |matches| > 0
    ensures NoMatchLinked(docs, matches) ==>
              NoMatchLinked(docs, matches[1..]) && (InRange(docs, matches[0]) ==> !Linked(docs[ParseDigits(matches[0]) - 1]))
    ensures MatchesCited(docs, matches[1..], cited) && (InRange(docs, matches[0]) ==> ParseDigits(matches[0]) in cited) ==>
              MatchesCited(docs, matches, cited)
  {
    assert forall m :: m in matches[1..] ==> m in matches;
    assert forall m :: m in matches ==> m == matches[0] || m in matches[1..];
  }

  /** The loop over the matches: a number in range is reported if it was not
      before, and its first bracketed occurrence becomes a link when the document
      has one; a number out of range is ignored. */
  function Cite(docs: seq<LlmDoc>, matches: seq<string>, segment: string, cited: set<nat>): (r: Cited)
    requires forall m :: m in matches ==> AllDigits(m)
    ensures CitesOnce(r.infos, docs, cited, r.cited)
    ensures forall i :: 0 <= i < |r.infos| ==> r.infos[i].CitationInfo?
    ensures MatchesCited(docs, matches, r.cited)
    ensures NoMatchLinked(docs, matches) ==> r.segment == segment
    ensures (forall i :: 0 <= i < |docs| ==> !Linked(docs[i])) ==> r.segment == segment
  {
    if |matches| == 0 then Cited(segment, cited, [])
    else
      var m := matches[0];
      var n := ParseDigits(m);
      if 1 <= n <= |docs| then
        var doc := docs[n - 1];
        var infos := if n in cited then [] else [CitationInfo(n, doc.documentId)];
        var segment' := if Linked(doc) then ReplaceFirst(segment, "[" + m + "]", CitationLink(n, doc.link.value)) else segment;
        var rest := Cite(docs, matches[1..], segment', cited + {n});
        CiteInRange(docs, matches, segment, cited, rest);
        Cited(rest.segment, rest.cited, infos + rest.infos)
      else
        var rest := Cite(docs, matches[1..], segment, cited);
        CiteOutOfRange(docs, matches, segment, cited, rest);
        rest
  }

  /** The contract of `Cite` for one result. */
  predicate CiteMeets(docs: seq<LlmDoc>, matches: seq<string>, segment: string, cited: set<nat>, r: Cited) {
    && CitesOnce(r.infos, docs, cited, r.cited)
    && (forall i :: 0 <= i < |r.infos| ==> r.infos[i].CitationInfo?)
    && MatchesCited(docs, matches, r.cited)
    && (NoMatchLinked(docs, matches) ==> r.segment == segment)
    && ((forall i :: 0 <= i < |docs| ==> !Linked(docs[i])) ==> r.segment == segment)
  }

  /** One step of the loop over the matches, for a number that names a
      context document: the contract carries over from the rest of the loop. */
  lemma CiteInRange(docs: seq<LlmDoc>, matches: seq<string>, segment: string, cited: set<nat>, rest: Cited)
    requires |matches| > 0 && InRange(docs, matches[0])
    requires var n := ParseDigits(matches[0]); var doc := docs[n - 1];
      var segment' := if Linked(doc) then ReplaceFirst(segment, "[" + matches[0] + "]", CitationLink(n, doc.link.value)) else segment;
      CiteMeets(docs, matches[1..], segment', cited + {n}, rest)
    ensures var n := ParseDigits(matches[0]); var doc := docs[n - 1];
      var infos := if n in cited then [] else [CitationInfo(n, doc.documentId)];
      CiteMeets(docs, matches, segment, cited, Cited(rest.segment, rest.cited, infos + rest.infos))
  {
    var n := ParseDigits(matches[0]);
    var infos := if n in cited then [] else [CitationInfo(n, docs[n - 1].documentId)];
    CiteInfos(docs, n, cited, rest.infos, rest.cited);
    MatchesSplit(docs, matches, rest.cited);
  }

  /** One step of the loop over the matches, for a number that names no
      context document: the step changes nothing. */
  lemma CiteOutOfRange(docs: seq<LlmDoc>, matches: seq<string>, segment: string, cited: set<nat>, rest: Cited)
    requires |matches| > 0 && AllDigits(matches[0]) && !InRange(docs, matches[0])
    requires CiteMeets(docs, matches[1..], segment, cited, rest)
    ensures CiteMeets(docs, matches, segment, cited, rest)
  {
    MatchesSplit(docs, matches, rest.cited);
  }

  /** The citation of one step, if new, followed by those of the rest of the
      loop: each number once, all of them citations. */
  lemma CiteInfos(docs: seq<LlmDoc>, n: nat, cited: set<nat>, rest: seq<Piece>, cited': set<nat>)
    requires 1 <= n <= |docs|
    requires CitesOnce(rest, docs, cited + {n}, cited')
    requires forall i :: 0 <= i < |rest| ==> rest[i].CitationInfo?
    ensures var all := (if n in cited then [] else [CitationInfo(n, docs[n - 1].documentId)]) + rest;
      && CitesOnce(all, docs, cited, cited')
      && forall i :: 0 <= i < |all| ==> all[i].CitationInfo?
  {
    var infos := if n in cited then [] else [CitationInfo(n, docs[n - 1].documentId)];
    assert Nums(infos) == if n in cited then {} else {n};
    CitesOnceAppend(infos, rest, docs, cited, cited + {n}, cited');
    var all := infos + rest;
    forall i | 0 <= i < |all|
      ensures all[i].CitationInfo?
    {
      if i >= |infos| {
        assert all[i] == rest[i - |infos|];
      }
    }
  }

  /** Lines 100-106: a segment ending in `[` is yielded without it, and the `[`
      is remembered for the next segment. */
  function YieldSegment(st: State, segment: string, cited: set<nat>, infos: seq<Piece>): (r: (State, seq<Piece>))
    ensures r.0.segment == "" && r.0.cited == cited && r.0.llmOut == st.llmOut && r.0.hold == st.hold && r.0.stopped == st.stopped
    ensures |r.1| == |infos| + 1 && r.1[..|infos|] == infos && r.1[|infos|].AnswerPiece?
    ensures r.1[|infos|].text + (if r.0.prependBracket then "[" else "") == segment
  {
    if |segment| > 0 && segment[|segment| - 1] == '[' then
      assert segment[..|segment| - 1] + "[" == segment;
      (st.(segment := "", prependBracket := true, cited := cited), infos + [AnswerPiece(segment[..|segment| - 1])])
    else
      assert segment + "" == segment;
      (st.(segment := "", prependBracket := false, cited := cited), infos + [AnswerPiece(segment)])
  }

  /** What the two searches of lines 60-92 decide about the segment: rewrite
      the citations found, hold the segment back, or yield it. */
  datatype Decision = Found(matches: seq<string>) | Hold | Plain

  function Decide(segment: string, out: string): (d: Decision)
    ensures d.Found? <==> HasCitation(segment) && !InCodeBlock(out)
    ensures d.Hold? <==> !d.Found? && PossibleCitation(segment)
    ensures d.Found? ==> d.matches == Distinct(FindCitations(segment), {})
    ensures d.Found? ==> forall m :: m in d.matches ==> AllDigits(m)
  {
    if HasCitation(segment) && !InCodeBlock(out) then Found(Distinct(FindCitations(segment), {}))
    else if PossibleCitation(segment) then Hold
    else Plain
  }

  /** Lines 66-106 once the decision is made. */
  function Handle(docs: seq<LlmDoc>, st: State, segment: string, d: Decision): (r: (State, seq<Piece>))
    requires d.Found? ==> forall m :: m in d.matches ==> AllDigits(m)
    ensures r.0.llmOut == st.llmOut && r.0.hold == st.hold && r.0.stopped == st.stopped
    ensures !d.Found? ==> r.0.cited == st.cited && |r.1| <= 1 && (forall i :: 0 <= i < |r.1| ==> r.1[i].AnswerPiece?)
  {
    match d
    case Found(matches) =>
      var c := Cite(docs, matches, segment, st.cited);
      YieldSegment(st, c.segment, c.cited, c.infos)
    case Hold => (st.(segment := segment), [])
    case Plain => YieldSegment(st, segment, st.cited, [])
  }

  /** Outside a code block, every bracketed number of the segment that names a
      context document is cited once the segment is handled. */
  lemma HandleCitesEvery(docs: seq<LlmDoc>, st: State, segment: string, out: string, k: int, j: int)
    requires !InCodeBlock(out) && CitationAt(segment, k, j)
    requires 1 <= ParseDigits(segment[k + 1..j]) <= |docs|
    ensures ParseDigits(segment[k + 1..j]) in Handle(docs, st, segment, Decide(segment, out)).0.cited
  {
    CitationListed(segment, k, j);
    CitationFound(segment, k, j);
  }

  /** The citations of one segment are new, distinct and well formed. */
  lemma HandleCitesOnce(docs: seq<LlmDoc>, st: State, segment: string, d: Decision)
    requires d.Found? ==> forall m :: m in d.matches ==> AllDigits(m)
    ensures var r := Handle(docs, st, segment, d);
      CitesOnce(r.1, docs, st.cited, r.0.cited)
  {
    var r := Handle(docs, st, segment, d);
    match d
    case Found(matches) =>
      var c := Cite(docs, matches, segment, st.cited);
      YieldCitesOnce(st, c.segment, docs, st.cited, c.cited, c.infos);
    case Hold =>
      assert Nums([]) == {};
    case Plain =>
      YieldCitesOnce(st, segment, docs, st.cited, st.cited, []);
  }

  /** Yielding the segment adds no citation to those already made. */
  lemma YieldCitesOnce(st: State, segment: string, docs: seq<LlmDoc>, c0: set<nat>, c1: set<nat>, infos: seq<Piece>)
    requires CitesOnce(infos, docs, c0, c1)
    ensures CitesOnce(YieldSegment(st, segment, c1, infos).1, docs, c0, c1)
  {
    var r := YieldSegment(st, segment, c1, infos);
    var p := r.1[|infos|];
    assert r.1 == infos + [p];
    assert Nums([p]) == {};
    CitesOnceAppend(infos, [p], docs, c0, c1, c1);
  }

  /** Lines 53-106 for a token that got past the stop check. */
  function Process(docs: seq<LlmDoc>, st: State, token: string): (r: (State, seq<Piece>))
    ensures r.0.llmOut == st.llmOut + token && r.0.hold == st.hold && r.0.stopped == st.stopped
    ensures InCodeBlock(st.llmOut + token) ==> r.0.cited == st.cited && (forall i :: 0 <= i < |r.1| ==> r.1[i].AnswerPiece?)
  {
    var segment := (if st.prependBracket then st.segment + "[" + st.segment else st.segment) + token;
    var out := st.llmOut + token;
    Handle(docs, st.(llmOut := out, prependBracket := false), segment, Decide(segment, out))
  }

  lemma ProcessCitesOnce(docs: seq<LlmDoc>, st: State, token: string)
    ensures var r := Process(docs, st, token);
      CitesOnce(r.1, docs, st.cited, r.0.cited)
  {
    var segment := (if st.prependBracket then st.segment + "[" + st.segment else st.segment) + token;
    var out := st.llmOut + token;
    HandleCitesOnce(docs, st.(llmOut := out, prependBracket := false), segment, Decide(segment, out));
  }

  /** Lines 36-49 and then the rest of the loop body for one raw token. */
  function Step(docs: seq<LlmDoc>, stop: Option<string>, st: State, raw: string): (State, seq<Piece>) {
    if StopActive(stop) then
      var next := st.hold + raw;
      if Contains(next, stop.value) then (st.(stopped := true), [])
      else if next <= stop.value then (st.(hold := next), [])
      else Process(docs, st.(hold := ""), next)
    else Process(docs, st, raw)
  }

  lemma StepCitesOnce(docs: seq<LlmDoc>, stop: Option<string>, st: State, raw: string)
    ensures var r := Step(docs, stop, st, raw);
      CitesOnce(r.1, docs, st.cited, r.0.cited)
  {
    if StopActive(stop) {
      var next := st.hold + raw;
      if Contains(next, stop.value) || next <= stop.value {
        assert Nums([]) == {};
      } else {
        ProcessCitesOnce(docs, st.(hold := ""), next);
      }
    } else {
      ProcessCitesOnce(docs, st, raw);
    }
  }

  /** The loop over the tokens, left at the stop pattern. */
  function Run(docs: seq<LlmDoc>, stop: Option<string>, st: State, tokens: seq<string>): (r: (State, seq<Piece>))
    ensures CitesOnce(r.1, docs, st.cited, r.0.cited)
    ensures !r.0.stopped ==> !st.stopped
    decreases |tokens|
  {
    if |tokens| == 0 || st.stopped then (st, [])
    else
      var s := Step(docs, stop, st, tokens[0]);
      var rest := Run(docs, stop, s.0, tokens[1..]);
      StepCitesOnce(docs, stop, st, tokens[0]);
      CitesOnceAppend(s.1, rest.1, docs, st.cited, s.0.cited, rest.0.cited);
      (rest.0, s.1 + rest.1)
  }

  /** Lines 108-112 as written: the remembered `[` is only yielded together
      with a non-empty segment. */
  function FlushAsWritten(st: State): seq<Piece> {
    if st.segment != "" then
      if st.prependBracket then [AnswerPiece("[" + st.segment)] else [AnswerPiece(st.segment)]
    else []
  }

  /** The end of the stream as intended: whatever is pending, the remembered `[`
      included, is yielded. */
  function Flush(st: State): (r: seq<Piece>)
    ensures Nums(r) == {}
    ensures AnswerText(r) == Pending(st)
  {
    if st.prependBracket then [AnswerPiece("[" + st.segment)]
    else if st.segment != "" then [AnswerPiece(st.segment)]
    else []
  }

  lemma FlushCitesNothing(docs: seq<LlmDoc>, st: State)
    ensures CitesOnce(Flush(st), docs, st.cited, st.cited)
  {
  }

  lemma FlushAsWrittenCitesNothing(docs: seq<LlmDoc>, st: State)
    ensures CitesOnce(FlushAsWritten(st), docs, st.cited, st.cited)
  {
    assert Nums(FlushAsWritten(st)) == {};
  }

  /** `extract_citations_from_stream` as written. */
  function ExtractCitationsAsWritten(docs: seq<LlmDoc>, stop: Option<string>, tokens: seq<string>): seq<Piece> {
    var r := Run(docs, stop, Initial, tokens);
    r.1 + FlushAsWritten(r.0)
  }

  /** `extract_citations_from_stream` with the end of the stream flushed as
      intended. */
  function ExtractCitations(docs: seq<LlmDoc>, stop: Option<string>, tokens: seq<string>): (r: seq<Piece>)
    ensures DistinctCitations(r) && WellCited(r, docs)
  {
    var s := Run(docs, stop, Initial, tokens);
    var f := Flush(s.0);
    FlushCitesNothing(docs, s.0);
    CitesOnceAppend(s.1, f, docs, {}, s.0.cited, s.0.cited);
    s.1 + f
  }

  // ---------------------------------------------------------------------------
  // properties of the stream

  /** What has been read but not yielded: the remembered `[` and the segment. */
  function Pending(st: State): string {
    (if st.prependBracket then "[" else "") + st.segment
  }

  /** The answer text of the pieces, in order. */
  function AnswerText(out: seq<Piece>): string {
    if |out| == 0 then ""
    else (if out[0].AnswerPiece? then out[0].text else "") + AnswerText(out[1..])
  }

  lemma {:induction false} AnswerTextAppend(a: seq<Piece>, b: seq<Piece>)
    ensures AnswerText(a + b) == AnswerText(a) + AnswerText(b)
  {
    if |a| == 0 {
      assert a + b == b;
    } else {
      assert (a + b)[0] == a[0] && (a + b)[1..] == a[1..] + b;
      AnswerTextAppend(a[1..], b);
    }
  }

  /** Between tokens: a remembered `[` has an empty segment after it, and the
      held text is a proper prefix of the stop pattern (none without one). */
  predicate Inv(stop: Option<string>, st: State) {
    && (st.prependBracket ==> st.segment == "")
    && (if StopActive(stop) then st.hold <= stop.value && st.hold != stop.value else st.hold == "")
  }

  lemma YieldSegmentInv(stop: Option<string>, st: State, segment: string, cited: set<nat>, infos: seq<Piece>)
    requires Inv(stop, st)
    ensures Inv(stop, YieldSegment(st, segment, cited, infos).0)
  {
  }

  lemma ProcessInv(docs: seq<LlmDoc>, stop: Option<string>, st: State, token: string)
    requires Inv(stop, st)
    ensures Inv(stop, Process(docs, st, token).0)
  {
  }

  /** Every step keeps the invariant. */
  lemma StepInv(docs: seq<LlmDoc>, stop: Option<string>, st: State, raw: string)
    requires Inv(stop, st)
    ensures Inv(stop, Step(docs, stop, st, raw).0)
  {
    if StopActive(stop) {
      var next := st.hold + raw;
      if !Contains(next, stop.value) && !(next <= stop.value) {
        ProcessInv(docs, stop, st.(hold := ""), next);
      }
    } else {
      ProcessInv(docs, stop, st, raw);
    }
  }

  /** A held `[` never meets a non-empty segment at the end of a step, so the
      `"[" + curr_segment` branch of the flush as written is never taken and
      the `[` is lost. */
  lemma FlushAsWrittenDropsBracket(stop: Option<string>, st: State)
    requires Inv(stop, st)
    ensures FlushAsWritten(st) == if st.segment != "" then [AnswerPiece(st.segment)] else []
    ensures st.prependBracket ==> AnswerText(FlushAsWritten(st)) + "[" == Pending(st)
  {
  }

  /** Nothing is lost or invented in one step when no document has a link: the
      pending text and the held text, followed by the token, are the yielded
      text followed by what is pending and held afterwards. */
  lemma StepKeepsText(docs: seq<LlmDoc>, stop: Option<string>, st: State, raw: string)
    requires forall i :: 0 <= i < |docs| ==> !Linked(docs[i])
    requires Inv(stop, st)
    ensures var r := Step(docs, stop, st, raw);
      !r.0.stopped ==> Pending(st) + st.hold + raw == AnswerText(r.1) + Pending(r.0) + r.0.hold
  {
    if StopActive(stop) {
      var next := st.hold + raw;
      if !Contains(next, stop.value) && !(next <= stop.value) {
        var r := Process(docs, st.(hold := ""), next);
        assert Step(docs, stop, st, raw) == r;
        ProcessKeepsText(docs, st.(hold := ""), next);
        Regroup(Pending(st), st.hold, raw, AnswerText(r.1) + Pending(r.0));
      }
    } else {
      var r := Process(docs, st, raw);
      assert Step(docs, stop, st, raw) == r;
      ProcessKeepsText(docs, st, raw);
      assert st.hold == "" && r.0.hold == "";
      Regroup(Pending(st), "", raw, AnswerText(r.1) + Pending(r.0));
    }
  }

  /** The same text, grouped as a step and as the processing of its token. */
  lemma Regroup(p: string, h: string, raw: string, out: string)
    requires p + (h + raw) == out
    ensures p + h + raw == out + ""
  {
    assert p + h + raw == p + (h + raw);
  }

  lemma ProcessKeepsText(docs: seq<LlmDoc>, st: State, token: string)
    requires forall i :: 0 <= i < |docs| ==> !Linked(docs[i])
    requires st.prependBracket ==> st.segment == ""
    requires st.hold == ""
    ensures var r := Process(docs, st, token);
      Pending(st) + token == AnswerText(r.1) + Pending(r.0)
  {
    var segment := (if st.prependBracket then st.segment + "[" + st.segment else st.segment) + token;
    var out := st.llmOut + token;
    assert segment == Pending(st) + token;
    HandleKeepsText(docs, st.(llmOut := out, prependBracket := false), segment, Decide(segment, out));
  }

  /** Inside a code block no citation is rewritten, whatever links the documents
      have: the text read is yielded unchanged or kept pending. */
  lemma ProcessInCodeBlockKeepsText(docs: seq<LlmDoc>, st: State, token: string)
    requires InCodeBlock(st.llmOut + token)
    requires st.prependBracket ==> st.segment == ""
    ensures var r := Process(docs, st, token);
      Pending(st) + token == AnswerText(r.1) + Pending(r.0)
  {
    var segment := (if st.prependBracket then st.segment + "[" + st.segment else st.segment) + token;
    var out := st.llmOut + token;
    assert segment == Pending(st) + token;
    if Decide(segment, out).Plain? {
      YieldKeepsText(st.(llmOut := out, prependBracket := false), segment, st.cited, []);
    }
  }

  lemma HandleKeepsText(docs: seq<LlmDoc>, st: State, segment: string, d: Decision)
    requires forall i :: 0 <= i < |docs| ==> !Linked(docs[i])
    requires d.Found? ==> forall m :: m in d.matches ==> AllDigits(m)
    requires !st.prependBracket
    ensures var r := Handle(docs, st, segment, d);
      segment == AnswerText(r.1) + Pending(r.0)
  {
    match d
    case Found(matches) =>
      var c := Cite(docs, matches, segment, st.cited);
      YieldKeepsText(st, c.segment, c.cited, c.infos);
    case Hold =>
    case Plain =>
      YieldKeepsText(st, segment, st.cited, []);
  }

  /** Yielding after citations loses no text: the piece and the remembered `[`
      give back the segment. */
  lemma YieldKeepsText(st: State, segment: string, cited: set<nat>, infos: seq<Piece>)
    requires forall i :: 0 <= i < |infos| ==> infos[i].CitationInfo?
    ensures var r := YieldSegment(st, segment, cited, infos);
      AnswerText(r.1) + Pending(r.0) == segment
  {
    var r := YieldSegment(st, segment, cited, infos);
    assert r.1 == infos + [r.1[|infos|]];
    AnswerTextAppend(infos, [r.1[|infos|]]);
    CitationsHaveNoText(infos);
    assert AnswerText([r.1[|infos|]]) == r.1[|infos|].text;
  }

  lemma {:induction false} CitationsHaveNoText(infos: seq<Piece>)
    requires forall i :: 0 <= i < |infos| ==> infos[i].CitationInfo?
    ensures AnswerText(infos) == ""
  {
    if |infos| > 0 {
      CitationsHaveNoText(infos[1..]);
    }
  }

  /** Two consecutive accounts of the text chain into one. */
  lemma TextChain(p0: string, h0: string, t: string, ts: string, a1: string, p1: string, h1: string, a2: string, p2: string, h2: string)
    requires p0 + h0 + t == a1 + p1 + h1
    requires p1 + h1 + ts == a2 + p2 + h2
    ensures p0 + h0 + (t + ts) == (a1 + a2) + p2 + h2
  {
    calc {
      p0 + h0 + (t + ts);
      (p0 + h0 + t) + ts;
      (a1 + p1 + h1) + ts;
      a1 + (p1 + h1 + ts);
      a1 + (a2 + p2 + h2);
    }
  }

  /** Over a run that does not meet the stop pattern, with no document linked,
      the text read is the text yielded followed by what is pending and held. */
  lemma {:induction false} RunKeepsText(docs: seq<LlmDoc>, stop: Option<string>, st: State, tokens: seq<string>)
    requires forall i :: 0 <= i < |docs| ==> !Linked(docs[i])
    requires Inv(stop, st) && !st.stopped
    ensures var r := Run(docs, stop, st, tokens);
      && Inv(stop, r.0)
      && (!r.0.stopped ==> Pending(st) + st.hold + Concat(tokens) == AnswerText(r.1) + Pending(r.0) + r.0.hold)
    decreases |tokens|
  {
    if |tokens| > 0 {
      var s := Step(docs, stop, st, tokens[0]);
      StepInv(docs, stop, st, tokens[0]);
      var rest := Run(docs, stop, s.0, tokens[1..]);
      assert Run(docs, stop, st, tokens) == (rest.0, s.1 + rest.1);
      if !s.0.stopped {
        RunKeepsText(docs, stop, s.0, tokens[1..]);
        if !rest.0.stopped {
          StepKeepsText(docs, stop, st, tokens[0]);
          AnswerTextAppend(s.1, rest.1);
          assert Concat(tokens) == tokens[0] + Concat(tokens[1..]);
          TextChain(Pending(st), st.hold, tokens[0], Concat(tokens[1..]), AnswerText(s.1), Pending(s.0), s.0.hold,
                    AnswerText(rest.1), Pending(rest.0), rest.0.hold);
        }
      } else {
        assert rest == (s.0, []);
      }
    } else {
      assert Concat(tokens) == "";
    }
  }

  /** Without links and without meeting the stop pattern, the corrected stream
      yields the whole answer, except a held beginning of the stop pattern. */
  lemma AnswerPreserved(docs: seq<LlmDoc>, stop: Option<string>, tokens: seq<string>)
    requires forall i :: 0 <= i < |docs| ==> !Linked(docs[i])
    ensures var r := Run(docs, stop, Initial, tokens);
      !r.0.stopped ==> AnswerText(ExtractCitations(docs, stop, tokens)) + r.0.hold == Concat(tokens)
  {
    var r := Run(docs, stop, Initial, tokens);
    RunKeepsText(docs, stop, Initial, tokens);
    var f := Flush(r.0);
    assert ExtractCitations(docs, stop, tokens) == r.1 + f;
    AnswerTextAppend(r.1, f);
    assert Pending(Initial) + Initial.hold + Concat(tokens) == Concat(tokens);
  }

  /** Once the held text and a token contain the stop pattern, neither that
      token nor any later one yields anything. */
  lemma StopSilencesRest(docs: seq<LlmDoc>, stop: Option<string>, st: State, tokens: seq<string>)
    requires StopActive(stop) && !st.stopped && |tokens| > 0
    requires Contains(st.hold + tokens[0], stop.value)
    ensures Run(docs, stop, st, tokens) == (st.(stopped := true), [])
  {
    var s := Step(docs, stop, st, tokens[0]);
    assert s == (st.(stopped := true), []);
    assert Run(docs, stop, s.0, tokens[1..]) == (s.0, []);
  }

  /** A token that continues the stop pattern without completing it is held,
      and yields nothing yet. */
  lemma PrefixOfStopHeld(docs: seq<LlmDoc>, stop: Option<string>, st: State, raw: string)
    requires StopActive(stop) && Inv(stop, st)
    requires st.hold + raw <= stop.value && st.hold + raw != stop.value
    ensures Step(docs, stop, st, raw) == (st.(hold := st.hold + raw), [])
  {
  }

  /** Tokens after the one that completes the stop pattern change nothing: the
      loop ends in the state it reached before that token, marked stopped, with
      the pieces it yielded before it. */
  lemma {:induction false} RunThroughStop(docs: seq<LlmDoc>, stop: Option<string>, st: State, pre: seq<string>, rest: seq<string>)
    requires StopActive(stop) && |rest| > 0
    requires !Run(docs, stop, st, pre).0.stopped
    requires Contains(Run(docs, stop, st, pre).0.hold + rest[0], stop.value)
    ensures var r := Run(docs, stop, st, pre);
      Run(docs, stop, st, pre + rest) == (r.0.(stopped := true), r.1)
    decreases |pre|
  {
    if |pre| == 0 {
      assert pre + rest == rest;
      StopSilencesRest(docs, stop, st, rest);
    } else {
      var s := Step(docs, stop, st, pre[0]);
      RunConsLive(docs, stop, st, pre);
      RunThroughStop(docs, stop, s.0, pre[1..], rest);
      RunConsAppend(docs, stop, st, pre, rest);
    }
  }

  /** A loop over tokens that ends live took a live first step. */
  lemma RunConsLive(docs: seq<LlmDoc>, stop: Option<string>, st: State, tokens: seq<string>)
    requires |tokens| > 0 && !Run(docs, stop, st, tokens).0.stopped
    ensures !st.stopped
    ensures var s := Step(docs, stop, st, tokens[0]);
      var rest := Run(docs, stop, s.0, tokens[1..]);
      && !rest.0.stopped
      && Run(docs, stop, st, tokens) == (rest.0, s.1 + rest.1)
  {
  }

  /** The loop over a non-empty run followed by more tokens takes its first step
      and goes on over the rest of both. */
  lemma RunConsAppend(docs: seq<LlmDoc>, stop: Option<string>, st: State, pre: seq<string>, rest: seq<string>)
    requires |pre| > 0 && !st.stopped
    ensures var s := Step(docs, stop, st, pre[0]);
      var r := Run(docs, stop, s.0, pre[1..] + rest);
      Run(docs, stop, st, pre + rest) == (r.0, s.1 + r.1)
  {
    assert (pre + rest)[0] == pre[0] && (pre + rest)[1..] == pre[1..] + rest;
  }

  /** The stop pattern ends the loop but not the stream: what the loop yielded
      before the token that completes the pattern is followed by the flush of
      the text pending at that point, and nothing from that token on. */
  lemma StoppedStreamFlushes(docs: seq<LlmDoc>, stop: Option<string>, pre: seq<string>, t: string, post: seq<string>)
    requires StopActive(stop)
    requires !Run(docs, stop, Initial, pre).0.stopped
    requires Contains(Run(docs, stop, Initial, pre).0.hold + t, stop.value)
    ensures var r := Run(docs, stop, Initial, pre);
      ExtractCitationsAsWritten(docs, stop, pre + [t] + post) == r.1 + FlushAsWritten(r.0)
  {
    assert pre + [t] + post == pre + ([t] + post);
    RunThroughStop(docs, stop, Initial, pre, [t] + post);
  }

  /** A possible citation held when the stop pattern arrives is still yielded,
      by the flush after the loop. */
  lemma HeldTextFlushedAfterStop(docs: seq<LlmDoc>)
    ensures ExtractCitationsAsWritten(docs, Some("STOP"), ["[1", "STOP"]) == [AnswerPiece("[1")]
  {
    OpenCitationHeldStop(docs);
    assert Find("" + "STOP", "STOP") == Some(0);
    StoppedStreamFlushes(docs, Some("STOP"), ["[1"], "STOP", []);
    assert ["[1"] + ["STOP"] + [] == ["[1", "STOP"];
  }

  /** The stream as a whole reports each number at most once, only for a
      context document, and with that document's id. */
  lemma CitationsOnce(docs: seq<LlmDoc>, stop: Option<string>, tokens: seq<string>)
    ensures var r := ExtractCitationsAsWritten(docs, stop, tokens);
      DistinctCitations(r) && WellCited(r, docs)
  {
    var s := Run(docs, stop, Initial, tokens);
    FlushAsWrittenCitesNothing(docs, s.0);
    CitesOnceAppend(s.1, FlushAsWritten(s.0), docs, {}, s.0.cited, s.0.cited);
  }

  // ---------------------------------------------------------------------------
  // rewriting

  lemma NoFenceWithoutBacktick(s: string)
    requires '`' !in s
    ensures !InCodeBlock(s)
  {
    CountAfterPlain(s, "");
    assert s + "" == s;
  }

  lemma {:induction false} LeadingDigitsOf(m: string, rest: string)
    requires AllDigits(m) && |rest| > 0 && !IsDigit(rest[0])
    ensures LeadingDigits(m + rest) == |m|
  {
    if |m| == 0 {
      assert m + rest == rest;
    } else {
      assert (m + rest)[0] == m[0];
      assert (m + rest)[1..] == m[1..] + rest;
      LeadingDigitsOf(m[1..], rest);
    }
  }

  /** A bracketed number followed by text without `[` is the only match. */
  lemma FindCitationThen(m: string, rest: string)
    requires |m| > 0 && AllDigits(m) && (rest == "" || rest == "[")
    ensures FindCitations("[" + m + "]" + rest) == [m]
  {
    var s := "[" + m + "]" + rest;
    assert s[1..] == m + ("]" + rest);
    LeadingDigitsOf(m, "]" + rest);
    var d := |m|;
    assert s[1..1 + d] == m;
    assert s[2 + d..] == rest;
    if rest == "[" {
      assert LeadingDigits(rest[1..]) == 0;
      assert FindCitations(rest) == FindCitations(rest[1..]);
    }
  }

  /** The loop over a single match of a number in range. */
  lemma CiteOne(docs: seq<LlmDoc>, n: nat, segment: string)
    requires 1 <= n <= |docs|
    ensures var m := NatToString(n);
      Cite(docs, [m], segment, {}) ==
        Cited(if Linked(docs[n - 1]) then ReplaceFirst(segment, "[" + m + "]", CitationLink(n, docs[n - 1].link.value)) else segment,
              {n}, [CitationInfo(n, docs[n - 1].documentId)])
  {
    var m := NatToString(n);
    assert [m][1..] == [];
  }

  /** A first token holding exactly one bracketed number and no backtick. */
  lemma ProcessOne(docs: seq<LlmDoc>, m: string, token: string)
    requires FindCitations(token) == [m] && '`' !in token
    ensures Process(docs, Initial, token) == Handle(docs, Initial.(llmOut := token), token, Found([m]))
  {
    assert token == Initial.segment + token && token == Initial.llmOut + token;
    NoFenceWithoutBacktick(token);
    assert [m][1..] == [];
    assert Distinct([m], {}) == [m];
    assert Decide(token, token) == Found([m]);
  }

  /** Handling a single match of a number in range, from the start. */
  lemma HandleOne(docs: seq<LlmDoc>, n: nat, st: State, segment: string)
    requires 1 <= n <= |docs| && st.cited == {}
    ensures var m := NatToString(n);
      var c := Cite(docs, [m], segment, {});
      Handle(docs, st, segment, Found([m])) == YieldSegment(st, c.segment, {n}, [CitationInfo(n, docs[n - 1].documentId)])
  {
    CiteOne(docs, n, segment);
  }

  lemma DigitsHaveNoBacktick(m: string, rest: string)
    requires AllDigits(m) && '`' !in rest
    ensures '`' !in "[" + m + "]" + rest
  {
    var s := "[" + m + "]" + rest;
    forall i | 0 <= i < |s| ensures s[i] != '`' {
      if 1 <= i <= |m| {
        assert s[i] == m[i - 1];
      } else if i >= |m| + 2 {
        assert s[i] == rest[i - |m| - 2];
      }
    }
  }

  lemma LinkEndsClosed(n: nat, link: string)
    ensures var l := CitationLink(n, link); |l| > 0 && l[|l| - 1] == ')'
  {
  }

  /** A segment that does not end in `[` is yielded whole, after the one
      citation found in it. */
  lemma YieldWhole(st: State, segment: string, cited: set<nat>, info: Piece)
    requires |segment| > 0 && segment[|segment| - 1] != '['
    ensures YieldSegment(st, segment, cited, [info]) == (st.(segment := "", prependBracket := false, cited := cited), [info, AnswerPiece(segment)])
  {
    assert [info] + [AnswerPiece(segment)] == [info, AnswerPiece(segment)];
  }

  /** A token that is exactly the citation of a linked document becomes the link. */
  lemma CiteWhole(docs: seq<LlmDoc>, n: nat, s: string)
    requires 1 <= n <= |docs| && Linked(docs[n - 1]) && s == "[" + NatToString(n) + "]"
    ensures Cite(docs, [NatToString(n)], s, {}) ==
              Cited(CitationLink(n, docs[n - 1].link.value), {n}, [CitationInfo(n, docs[n - 1].documentId)])
  {
    CiteOne(docs, n, s);
    ReplaceWhole(s, CitationLink(n, docs[n - 1].link.value));
  }

  /** A citation of a linked document, as one token outside a code block, is
      reported and written as a link to the document. */
  lemma LinkedCitation(docs: seq<LlmDoc>, n: nat)
    requires 1 <= n <= |docs| && Linked(docs[n - 1])
    ensures var m := NatToString(n);
      Process(docs, Initial, "[" + m + "]") ==
        (State("[" + m + "]", "", false, {n}, "", false),
         [CitationInfo(n, docs[n - 1].documentId), AnswerPiece(CitationLink(n, docs[n - 1].link.value))])
  {
    var m := NatToString(n);
    var s := "[" + m + "]";
    assert s == "[" + m + "]" + "";
    FindCitationThen(m, "");
    DigitsHaveNoBacktick(m, "");
    ProcessOne(docs, m, s);
    HandleOne(docs, n, Initial.(llmOut := s), s);
    CiteWhole(docs, n, s);
    var link := CitationLink(n, docs[n - 1].link.value);
    LinkEndsClosed(n, docs[n - 1].link.value);
    YieldWhole(Initial.(llmOut := s), link, {n}, CitationInfo(n, docs[n - 1].documentId));
  }

  /** An unfinished citation is held back: nothing is yielded and the text
      stays in the segment. */
  lemma OpenCitationHeld(docs: seq<LlmDoc>, m: string)
    requires AllDigits(m)
    ensures Process(docs, Initial, "[" + m) == (State("[" + m, "[" + m, false, {}, "", false), [])
  {
    var s := "[" + m;
    assert s == Initial.segment + s && s == Initial.llmOut + s;
    assert OpenBracketAt(s, 0);
    OpenAtEndMeaning(s);
    HasCitationMeaning(s);
  }

  /** A token that neither completes nor continues the stop pattern is
      processed together with the text held before it. */
  lemma StepProcessesHeld(docs: seq<LlmDoc>, stop: Option<string>, st: State, raw: string)
    requires StopActive(stop)
    requires !Contains(st.hold + raw, stop.value) && !(st.hold + raw <= stop.value)
    ensures Step(docs, stop, st, raw) == Process(docs, st.(hold := ""), st.hold + raw)
  {
  }

  /** The loop over one token from a live state is one step. */
  lemma RunSingle(docs: seq<LlmDoc>, stop: Option<string>, st: State, t: string)
    requires !st.stopped
    ensures Run(docs, stop, st, [t]) == Step(docs, stop, st, t)
  {
    var s := Step(docs, stop, st, t);
    assert [t][0] == t && [t][1..] == [];
    assert Run(docs, stop, s.0, []) == (s.0, []);
    assert s.1 + [] == s.1;
  }

  /** `[1` neither contains `STOP` nor is a prefix of it. */
  lemma OpenBracketNotStop()
    ensures !Contains("[1", "STOP") && !("[1" <= "STOP")
  {
    assert Find("[1", "STOP") == None;
    assert "[1"[0] != "STOP"[0];
  }

  /** With the stop pattern `STOP`, the token `[1` is neither the pattern nor a
      prefix of it, so it is processed and held as a possible citation. */
  lemma OpenCitationHeldStop(docs: seq<LlmDoc>)
    ensures Run(docs, Some("STOP"), Initial, ["[1"]) == (State("[1", "[1", false, {}, "", false), [])
  {
    RunSingle(docs, Some("STOP"), Initial, "[1");
    assert Initial.hold + "[1" == "[1" && Initial.(hold := "") == Initial;
    OpenBracketNotStop();
    StepProcessesHeld(docs, Some("STOP"), Initial, "[1");
    assert AllDigits("1") && "[" + "1" == "[1";
    OpenCitationHeld(docs, "1");
  }

  // ---------------------------------------------------------------------------
  // the end of the stream

  /** A citation of a document without a link followed by the opening of the
      next citation, as the last token: as written the final `[` is never
      yielded; the intended end yields it. With one context document `d` this
      is the stream `["[1]["]`, which yields `[1]` and loses the `[`. */
  lemma TrailingBracketLost(docs: seq<LlmDoc>, n: nat)
    requires 1 <= n <= |docs| && !Linked(docs[n - 1])
    ensures var m := NatToString(n);
      && ExtractCitationsAsWritten(docs, None, ["[" + m + "]["]) ==
           [CitationInfo(n, docs[n - 1].documentId), AnswerPiece("[" + m + "]")]
      && ExtractCitations(docs, None, ["[" + m + "]["]) ==
           [CitationInfo(n, docs[n - 1].documentId), AnswerPiece("[" + m + "]"), AnswerPiece("[")]
  {
    var m := NatToString(n);
    var s := "[" + m + "][";
    CitationThenBracket(docs, n);
    RunOne(docs, Initial, s);
    EndsHoldingBracket(docs, [s], s, [CitationInfo(n, docs[n - 1].documentId), AnswerPiece("[" + m + "]")], {n});
  }

  /** A stream whose run ends with only a remembered `[`: as written nothing
      more is yielded, as intended the `[` is. */
  lemma EndsHoldingBracket(docs: seq<LlmDoc>, tokens: seq<string>, out: string, pieces: seq<Piece>, cited: set<nat>)
    requires Run(docs, None, Initial, tokens) == (State(out, "", true, cited, "", false), pieces)
    ensures ExtractCitationsAsWritten(docs, None, tokens) == pieces
    ensures ExtractCitations(docs, None, tokens) == pieces + [AnswerPiece("[")]
  {
    var end := State(out, "", true, cited, "", false);
    assert FlushAsWritten(end) == [];
    assert "[" + end.segment == "[";
    assert Flush(end) == [AnswerPiece("[")];
    assert pieces + [] == pieces;
  }

  /** The first token `[n][` for a document without a link: the citation is
      reported, `[n]` yielded, and the `[` remembered. */
  lemma CitationThenBracket(docs: seq<LlmDoc>, n: nat)
    requires 1 <= n <= |docs| && !Linked(docs[n - 1])
    ensures var m := NatToString(n);
      Process(docs, Initial, "[" + m + "][") ==
        (State("[" + m + "][", "", true, {n}, "", false),
         [CitationInfo(n, docs[n - 1].documentId), AnswerPiece("[" + m + "]")])
  {
    var m := NatToString(n);
    var s := "[" + m + "][";
    assert s == "[" + m + "]" + "[";
    FindCitationThen(m, "[");
    DigitsHaveNoBacktick(m, "[");
    ProcessOne(docs, m, s);
    HandleOne(docs, n, Initial.(llmOut := s), s);
    CiteOne(docs, n, s);
    YieldOpen(Initial.(llmOut := s), s, {n}, CitationInfo(n, docs[n - 1].documentId));
    assert s[..|s| - 1] == "[" + m + "]";
  }

  /** A segment ending in `[` is yielded without it, after the one citation
      found in it. */
  lemma YieldOpen(st: State, segment: string, cited: set<nat>, info: Piece)
    requires |segment| > 0 && segment[|segment| - 1] == '['
    ensures YieldSegment(st, segment, cited, [info]) ==
              (st.(segment := "", prependBracket := true, cited := cited), [info, AnswerPiece(segment[..|segment| - 1])])
  {
    assert [info] + [AnswerPiece(segment[..|segment| - 1])] == [info, AnswerPiece(segment[..|segment| - 1])];
  }

  /** A stream of one token without a stop pattern is that token processed. */
  lemma RunOne(docs: seq<LlmDoc>, st: State, token: string)
    requires !st.stopped
    ensures Run(docs, None, st, [token]) == Process(docs, st, token)
  {
    var p := Process(docs, st, token);
    assert Step(docs, None, st, token) == p;
    assert [token][1..] == [];
    assert Run(docs, None, p.0, []) == (p.0, []);
    assert p.1 + [] == p.1;
  }
}
