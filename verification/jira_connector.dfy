/** The Jira connector: it pages through the results of a JQL search, turns each
    issue into a document (dropping issues with a skip label and tickets over
    the size limit), and yields the documents in batches. The search endpoint is
    an input: the pages it answers, in the order they are requested. */
module JiraConnector {
  import opened Wrappers
  import opened Strings
  import opened OrderedDict
  import opened Documents
  import opened Batching
  import opened Dynamic
  import opened JiraUtils

  /** The page size of both entry points. */
  const FullPageSize := 50

  // ---------------------------------------------------------------------------
  // paging

  datatype SearchRequest = SearchRequest(jql: string, startAt: int, maxResults: int)

  /** A search result: an issue, or some other object. */
  datatype SearchItem = IssueItem(issue: Issue) | OtherItem(value: Value)

  /** The requests made, the issues yielded, and the error that ended the paging
      if any. */
  datatype Paged = Paged(requests: seq<SearchRequest>, issues: seq<Issue>, failure: Option<SyncError>)

  /** The issues of a page up to its first item that is not an issue. */
  function LeadingIssues(page: seq<SearchItem>): (r: seq<Issue>)
    ensures |r| <= |page|
    ensures forall i :: 0 <= i < |r| ==> page[i] == IssueItem(r[i])
    ensures |r| < |page| ==> page[|r|].OtherItem?
  {
    if |page| == 0 || page[0].OtherItem? then []
    else
      var rest := LeadingIssues(page[1..]);
      assert forall i :: 1 <= i < |page| ==> page[i] == page[1..][i - 1];
      [page[0].issue] + rest
  }

  /** `_paginate_jql_search` from the `i`-th request on: the request asks for
      `maxResults` results from offset `i * maxResults`; an item that is not an
      issue fails the page after the issues before it; a page shorter than asked
      ends the search. Running past the given pages means the remote had more
      to say than the model was given. */
  function Paginate(jql: string, maxResults: int, pages: seq<seq<SearchItem>>, i: nat): (r: Paged)
    decreases |pages| - i
  {
    if i >= |pages| then Paged([], [], Some(Undrained))
    else
      var page := pages[i];
      var request := SearchRequest(jql, i * maxResults, maxResults);
      var issues := LeadingIssues(page);
      if |issues| < |page| then Paged([request], issues, Some(UnexpectedItem))
      else if |page| < maxResults then Paged([request], issues, None)
      else
        var rest := Paginate(jql, maxResults, pages, i + 1);
        Paged([request] + rest.requests, issues + rest.issues, rest.failure)
  }

  /** The `k`-th request of a search begun at request `i` asks for offset
      `(i + k) * maxResults`. */
  predicate OffsetsFrom(requests: seq<SearchRequest>, jql: string, maxResults: int, i: nat) {
    forall k {:trigger requests[k]} :: 0 <= k < |requests| ==> requests[k] == SearchRequest(jql, (i + k) * maxResults, maxResults)
  }

  /** The pages answered before the last request were full and held only issues. */
  predicate FullPagesFrom(pages: seq<seq<SearchItem>>, maxResults: int, i: nat, n: nat) {
    && i + n <= |pages|
    && forall k {:trigger pages[k]} :: i <= k < i + n ==>
         |pages[k]| >= maxResults && |LeadingIssues(pages[k])| == |pages[k]|
  }

  /** The issues of `n` pages from page `i`, page by page. */
  function IssuesOf(pages: seq<seq<SearchItem>>, i: nat, n: nat): seq<Issue>
    requires i + n <= |pages|
    decreases n
  {
    if n == 0 then [] else LeadingIssues(pages[i]) + IssuesOf(pages, i + 1, n - 1)
  }

  lemma OffsetsStep(requests: seq<SearchRequest>, jql: string, maxResults: int, i: nat)
    requires |requests| > 0
    requires requests[0] == SearchRequest(jql, i * maxResults, maxResults)
    requires OffsetsFrom(requests[1..], jql, maxResults, i + 1)
    ensures OffsetsFrom(requests, jql, maxResults, i)
  {
    forall k | 0 <= k < |requests| ensures requests[k] == SearchRequest(jql, (i + k) * maxResults, maxResults) {
      if k > 0 {
        assert requests[k] == requests[1..][k - 1];
      }
    }
  }

  /** The search asks for offsets `0, p, 2p, ...`, continues exactly while the
      pages come back full and clean, and stops after the first short page; the
      issues come out page by page, in order. */
  lemma {:induction false} PaginateShape(jql: string, maxResults: int, pages: seq<seq<SearchItem>>, i: nat)
    ensures var r := Paginate(jql, maxResults, pages, i);
      && OffsetsFrom(r.requests, jql, maxResults, i)
      && (|r.requests| == 0 <==> i >= |pages|)
      && (|r.requests| > 0 ==> i + |r.requests| <= |pages|)
      && (|r.requests| > 0 ==> FullPagesFrom(pages, maxResults, i, |r.requests| - 1))
      && (r.failure.None? ==>
            && |r.requests| > 0
            && |pages[i + |r.requests| - 1]| < maxResults
            && r.issues == IssuesOf(pages, i, |r.requests|))
    decreases |pages| - i
  {
    var r := Paginate(jql, maxResults, pages, i);
    if i < |pages| {
      var page := pages[i];
      var issues := LeadingIssues(page);
      if |issues| == |page| && |page| >= maxResults {
        PaginateShape(jql, maxResults, pages, i + 1);
        var rest := Paginate(jql, maxResults, pages, i + 1);
        assert r.requests[1..] == rest.requests;
        OffsetsStep(r.requests, jql, maxResults, i);
        if |rest.requests| > 0 {
          assert FullPagesFrom(pages, maxResults, i + 1, |rest.requests| - 1);
          assert FullPagesFrom(pages, maxResults, i, |r.requests| - 1);
        }
        if r.failure.None? {
          assert IssuesOf(pages, i, |r.requests|) == issues + IssuesOf(pages, i + 1, |rest.requests|);
        }
      } else {
        assert IssuesOf(pages, i + 1, 0) == [];
      }
    }
  }

  /** The pages of a remote that holds `results` and answers each request with
      the slice it asks for. */
  function Items(issues: seq<Issue>): (r: seq<SearchItem>)
    ensures |r| == |issues| && LeadingIssues(r) == issues
  {
    var r := seq(|issues|, i requires 0 <= i < |issues| => IssueItem(issues[i]));
    ItemsLead(r, issues);
    r
  }

  lemma {:induction false} ItemsLead(r: seq<SearchItem>, issues: seq<Issue>)
    requires |r| == |issues| && forall i :: 0 <= i < |r| ==> r[i] == IssueItem(issues[i])
    ensures LeadingIssues(r) == issues
  {
    if |r| > 0 {
      ItemsLead(r[1..], issues[1..]);
    }
  }

  function Min(a: int, b: int): int { if a <= b then a else b }

  predicate SlicesOf(pages: seq<seq<SearchItem>>, results: seq<Issue>, p: int)
    requires p > 0
  {
    forall k {:trigger pages[k]} :: 0 <= k < |pages| ==>
      pages[k] == Items(results[Min(k * p, |results|)..Min((k + 1) * p, |results|)])
  }

  lemma MulSucc(i: nat, p: nat)
    ensures (i + 1) * p == i * p + p
  {
  }

  /** `a * p <= n < (b + 1) * p` puts `a` at most `b`. */
  lemma QuotientBound(a: nat, b: nat, p: nat, n: nat)
    requires p > 0 && a * p <= n < (b + 1) * p
    ensures a <= b
  {
    if a > b {
      MulMono(b + 1, a, p);
    }
  }

  /** `n / p` full pages of `p` fit in `n`, one more does not. */
  lemma DivBounds(n: nat, p: nat)
    requires p > 0
    ensures (n / p) * p <= n < (n / p) * p + p
  {
    assert n == (n / p) * p + n % p;
  }

  lemma MulMono(x: nat, y: nat, p: nat)
    requires x <= y
    ensures x * p <= y * p
  {
    assert y * p == x * p + (y - x) * p;
  }

  /** Against a remote that answers with the slices of `results`, of which `c`
      full pages fit, the search from request `i` (offset `i * p` within the
      results) yields the remaining results and makes `c + 1 - i` requests. */
  lemma {:induction false} PaginateSlices(jql: string, p: nat, pages: seq<seq<SearchItem>>, results: seq<Issue>, i: nat, c: nat)
    requires p > 0 && SlicesOf(pages, results, p)
    requires c * p <= |results| < (c + 1) * p && c < |pages|
    requires i * p <= |results|
    ensures var r := Paginate(jql, p, pages, i);
      && r.failure.None?
      && r.issues == results[i * p..]
      && |r.requests| == c + 1 - i
    decreases |pages| - i
  {
    var n := |results|;
    MulSucc(i, p);
    QuotientBound(i, c, p, n);
    if (i + 1) * p <= n {
      PaginateFullPage(jql, p, pages, results, i);
      PaginateSlices(jql, p, pages, results, i + 1, c);
      PagedStep(Paginate(jql, p, pages, i), Paginate(jql, p, pages, i + 1), results, i * p, (i + 1) * p);
    } else {
      PaginateSlicesLast(jql, p, pages, results, i, c);
    }
  }

  /** The request at the last, short page is the `c`-th and ends the search. */
  lemma PaginateSlicesLast(jql: string, p: nat, pages: seq<seq<SearchItem>>, results: seq<Issue>, i: nat, c: nat)
    requires p > 0 && SlicesOf(pages, results, p)
    requires c * p <= |results| < (c + 1) * p && c < |pages|
    requires i * p <= |results| < (i + 1) * p
    ensures var r := Paginate(jql, p, pages, i);
      && r.failure.None?
      && r.issues == results[i * p..]
      && |r.requests| == c + 1 - i
  {
    QuotientBound(c, i, p, |results|);
    QuotientBound(i, c, p, |results|);
    PaginateLastPage(jql, p, pages, results, i);
  }

  /** A page of `results[a..b]` followed by a search that yields `results[b..]`
      yields `results[a..]`. */
  lemma PagedStep(r: Paged, rest: Paged, results: seq<Issue>, a: nat, b: nat)
    requires a <= b <= |results|
    requires r.issues == results[a..b] + rest.issues && rest.issues == results[b..]
    ensures r.issues == results[a..]
  {
    assert results[a..] == results[a..b] + results[b..];
  }

  /** A full page of the slices lets the search go on. */
  lemma PaginateFullPage(jql: string, p: nat, pages: seq<seq<SearchItem>>, results: seq<Issue>, i: nat)
    requires p > 0 && SlicesOf(pages, results, p) && i < |pages|
    requires (i + 1) * p <= |results| && (i + 1) * p == i * p + p
    ensures var rest := Paginate(jql, p, pages, i + 1);
      Paginate(jql, p, pages, i) ==
        Paged([SearchRequest(jql, i * p, p)] + rest.requests, results[i * p..(i + 1) * p] + rest.issues, rest.failure)
  {
    PageOfSlices(pages, results, p, i);
  }

  /** A short page of the slices ends the search with the rest of the results. */
  lemma PaginateLastPage(jql: string, p: nat, pages: seq<seq<SearchItem>>, results: seq<Issue>, i: nat)
    requires p > 0 && SlicesOf(pages, results, p) && i < |pages|
    requires i * p <= |results| < (i + 1) * p
    ensures Paginate(jql, p, pages, i) == Paged([SearchRequest(jql, i * p, p)], results[i * p..], None)
  {
    MulSucc(i, p);
    PageOfSlices(pages, results, p, i);
    assert Min((i + 1) * p, |results|) == |results|;
    assert |pages[i]| < p;
    assert results[i * p..] == results[i * p..|results|];
  }

  /** A consistent remote holding `N` issues, with page size `p`, is asked
      `N / p + 1` times, the last answer being short (possibly empty), and every
      issue comes out once, in order. */
  lemma PaginateAllResults(jql: string, p: nat, pages: seq<seq<SearchItem>>, results: seq<Issue>)
    requires p > 0 && SlicesOf(pages, results, p) && |results| / p < |pages|
    ensures var r := Paginate(jql, p, pages, 0);
      r.failure.None? && r.issues == results && |r.requests| == |results| / p + 1
  {
    var n := |results|;
    var c := n / p;
    DivBounds(n, p);
    MulSucc(c, p);
    PaginateSlices(jql, p, pages, results, 0, c);
  }

  /** The `i`-th page of a consistent remote holds the `i`-th slice of the
      results. */
  lemma PageOfSlices(pages: seq<seq<SearchItem>>, results: seq<Issue>, p: nat, i: nat)
    requires p > 0 && SlicesOf(pages, results, p) && i < |pages| && i * p <= |results|
    ensures var hi := Min((i + 1) * p, |results|);
      && i * p <= hi
      && |pages[i]| == hi - i * p
      && LeadingIssues(pages[i]) == results[i * p..hi]
  {
    var hi := Min((i + 1) * p, |results|);
    assert pages[i] == Items(results[Min(i * p, |results|)..hi]);
  }

  // ---------------------------------------------------------------------------
  // one issue

  /** What the connector needs besides the issue: the API version the client
      speaks, the size limit in bytes, the address the client reports, and
      Python's representation of values that are not scalars. */
  datatype Env = Env(apiVersion: string, maxTicketSize: int, clientInfo: string, repr: Value -> string)

  /** `labels_to_skip` is non-empty and one of its labels is among the issue's
      labels; the labels must be iterable. */
  function SkipLabelled(issue: Issue, labelsToSkip: set<string>): (r: Result<bool, SyncError>)
    ensures |labelsToSkip| == 0 ==> r == Ok(false)
    ensures r == Ok(true) <==>
              && |labelsToSkip| > 0 && Field(issue.fields, "labels").Ok?
              && var labels := Field(issue.fields, "labels").value;
              && Iterable(labels) && exists l :: l in labelsToSkip && Member(l, labels)
  {
    if |labelsToSkip| == 0 then Ok(false)
    else
      var labels :- Field(issue.fields, "labels");
      if Iterable(labels) then Ok(exists l :: l in labelsToSkip && Member(l, labels))
      else Err(WrongType("argument is not iterable"))
  }

  /** The truthy comments, as text, in order. */
  function ShownComments(comments: seq<Value>, repr: Value -> string): (r: seq<string>)
    ensures |r| <= |comments|
    ensures forall i :: 0 <= i < |r| ==> exists j :: 0 <= j < |comments| && Truthy(comments[j]) && r[i] == Str(comments[j], repr)
    ensures (forall j :: 0 <= j < |comments| ==> Truthy(comments[j])) ==>
              |r| == |comments| && forall j :: 0 <= j < |comments| ==> r[j] == Str(comments[j], repr)
    ensures (forall j :: 0 <= j < |comments| ==> !Truthy(comments[j])) ==> r == []
  {
    if |comments| == 0 then []
    else
      var rest := ShownComments(comments[1..], repr);
      assert forall j :: 0 <= j < |comments[1..]| ==> comments[1..][j] == comments[j + 1];
      (if Truthy(comments[0]) then [Str(comments[0], repr)] else []) + rest
  }

  /** One comment on its own is shown exactly when it is truthy. */
  lemma ShownComment(c: Value, repr: Value -> string)
    ensures ShownComments([c], repr) == if Truthy(c) then [Str(c, repr)] else []
  {
    assert [c][1..] == [];
  }

  /** Each comment is shown or not on its own: the comments shown from a
      concatenation are those of its parts, one after the other. */
  lemma {:induction false} ShownCommentsAppend(a: seq<Value>, b: seq<Value>, repr: Value -> string)
    ensures ShownComments(a + b, repr) == ShownComments(a, repr) + ShownComments(b, repr)
  {
    if |a| > 0 {
      var ab := a + b;
      assert ab[0] == a[0];
      assert ab[1..] == a[1..] + b;
      ShownCommentsAppend(a[1..], b, repr);
      var head := if Truthy(a[0]) then [Str(a[0], repr)] else [];
      assert ShownComments(ab, repr) == head + ShownComments(a[1..] + b, repr);
      assert ShownComments(a, repr) == head + ShownComments(a[1..], repr);
    } else {
      assert a + b == b;
    }
  }

  function CommentLines(shown: seq<string>): (r: seq<string>)
    ensures |r| == |shown| && forall i :: 0 <= i < |shown| ==> r[i] == "Comment: " + shown[i]
  {
    seq(|shown|, i requires 0 <= i < |shown| => "Comment: " + shown[i])
  }

  /** The ticket text: the description, a newline, and one `Comment: ` line per
      comment, separated by newlines. */
  function TicketContent(description: string, shown: seq<string>): string {
    description + "\n" + Join(CommentLines(shown), "\n")
  }

  /** The ticket text splits back, at its newlines, into the description and the
      comment lines, when none of them contains a newline; without comments the
      text ends with the newline after the description. */
  lemma TicketContentLines(description: string, shown: seq<string>)
    requires '\n' !in description
    requires forall i :: 0 <= i < |shown| ==> '\n' !in shown[i]
    ensures Split(TicketContent(description, shown), '\n') ==
              [description] + (if |shown| == 0 then [""] else CommentLines(shown))
  {
    var lines := CommentLines(shown);
    var tail := if |shown| == 0 then [""] else lines;
    var parts := [description] + tail;
    assert "\n" == ['\n'];
    assert parts[1..] == tail;
    assert Join(tail, "\n") == Join(lines, "\n");
    assert Join(parts, "\n") == TicketContent(description, shown);
    forall i | 0 <= i < |parts| ensures '\n' !in parts[i] {
      if i > 0 && |shown| > 0 {
        assert parts[i] == "Comment: " + shown[i - 1];
      }
    }
    SplitJoin(parts, '\n');
  }

  /** The description and the comments of the issue as one text. */
  function IssueText(env: Env, issue: Issue, blacklist: seq<string>): Result<string, SyncError> {
    var description :-
      if env.apiVersion == "2" then Field(issue.fields, "description")
      else
        var f :- Subscript(issue.raw, "fields");
        var d :- Subscript(f, "description");
        var t :- ExtractText(d);
        Ok(VStr(t));
    var comments :- GetCommentStrs(issue, blacklist, env.apiVersion);
    Ok(TicketContent(Str(description, env.repr), ShownComments(comments, env.repr)))
  }

  function PageUrl(env: Env, key: string): string {
    env.clientInfo + "/browse/" + key
  }

  /** The person a best-effort field names, if any; a failure names nobody. */
  function Owner(issue: Issue, field: string): (r: set<ExpertInfo>)
    ensures forall e :: e in r <==> BestEffortExpertInfo(BestEffortField(issue, field)) == Ok(Some(e))
  {
    match BestEffortExpertInfo(BestEffortField(issue, field))
    case Ok(Some(e)) => {e}
    case _ => {}
  }

  /** The creator and the assignee, as a set. */
  function Owners(issue: Issue): set<ExpertInfo> {
    Owner(issue, "creator") + Owner(issue, "assignee")
  }

  /** A creator who is also the assignee is one owner. */
  lemma OwnersDeduplicated(issue: Issue, e: ExpertInfo)
    requires BestEffortExpertInfo(BestEffortField(issue, "creator")) == Ok(Some(e))
    requires BestEffortExpertInfo(BestEffortField(issue, "assignee")) == Ok(Some(e))
    ensures Owners(issue) == {e}
  {
  }

  /** `[key]` when the best-effort field is truthy. */
  function KeyIfSet(issue: Issue, field: string, key: string): seq<string> {
    if Truthy(BestEffortField(issue, field)) then [key] else []
  }

  /** The metadata keys an issue sets, in order. */
  function MetaKeyList(issue: Issue): seq<string> {
    KeyIfSet(issue, "priority", "priority") + KeyIfSet(issue, "status", "status")
    + KeyIfSet(issue, "resolution", "resolution") + KeyIfSet(issue, "labels", "label")
  }

  /** `metadata_dict[key] = field.name` when the best-effort field is truthy. */
  function NamedMeta(issue: Issue, field: string, key: string): (r: Result<seq<(string, Value)>, SyncError>)
    ensures r.Ok? ==> Keys(r.value) == KeyIfSet(issue, field, key)
    ensures Truthy(BestEffortField(issue, field)) ==> (r.Ok? <==> HasAttr(BestEffortField(issue, field), "name"))
  {
    var v := BestEffortField(issue, field);
    if Truthy(v) then
      var name :- Attr(v, "name");
      Ok([(key, name)])
    else Ok([])
  }

  /** The metadata entries, in the order they are set. */
  function MetaEntries(issue: Issue): (r: Result<seq<(string, Value)>, SyncError>)
    ensures r.Ok? ==> Keys(r.value) == MetaKeyList(issue)
  {
    var priority :- NamedMeta(issue, "priority", "priority");
    var status :- NamedMeta(issue, "status", "status");
    var resolution :- NamedMeta(issue, "resolution", "resolution");
    var labels := BestEffortField(issue, "labels");
    var l := if Truthy(labels) then [("label", labels)] else [];
    KeysAppend(priority, status);
    KeysAppend(priority + status, resolution);
    KeysAppend(priority + status + resolution, l);
    Ok(priority + status + resolution + l)
  }

  /** A metadata value must be a string or a list of strings. */
  function MetaValueOf(v: Value): (r: Result<MetaValue, SyncError>)
    ensures v.VStr? ==> r == Ok(MetaText(v.s))
    ensures r.Ok? <==> v.VStr? || (v.VList? && AllText(v.items))
  {
    if v.VStr? then Ok(MetaText(v.s))
    else if v.VList? && AllText(v.items) then Ok(MetaList(Texts(v.items)))
    else Err(WrongType("metadata"))
  }

  /** The metadata map: its keys are exactly the keys of the entries. */
  function Metadata(entries: seq<(string, Value)>): (r: Result<map<string, MetaValue>, SyncError>)
    ensures r.Ok? ==> forall k :: k in r.value <==> k in Keys(entries)
  {
    if |entries| == 0 then Ok(map[])
    else
      var m :- Metadata(entries[1..]);
      var v :- MetaValueOf(entries[0].1);
      Ok(m[entries[0].0 := v])
  }

  /** The fields of the document other than its id and text. */
  datatype Details = Details(title: string, updated: string, metadata: map<string, MetaValue>)

  function IssueDetails(env: Env, issue: Issue): (r: Result<Details, SyncError>)
    ensures r.Ok? ==> forall k :: k in r.value.metadata <==> k in MetaKeyList(issue)
    ensures r.Ok? ==>
              && Field(issue.fields, "summary").Ok?
              && r.value.title == Str(Field(issue.fields, "summary").value, env.repr)
              && Field(issue.fields, "updated") == Ok(VStr(r.value.updated))
  {
    var entries :- MetaEntries(issue);
    var summary :- Field(issue.fields, "summary");
    var updated :- Field(issue.fields, "updated");
    var updatedText :- if updated.VStr? then Ok(updated.s) else Err(WrongType("updated"));
    var metadata :- Metadata(entries);
    Ok(Details(Str(summary, env.repr), updatedText, metadata))
  }

  /** The body of the loop in `fetch_jira_issues_batch` for one issue: no
      document for an issue with a skip label or a ticket text over the size
      limit in UTF-8 bytes; otherwise a document whose id and only section link
      are the issue's browse URL and whose section holds the ticket text. */
  function IssueDocument(env: Env, issue: Issue, blacklist: seq<string>, labelsToSkip: set<string>): (r: Result<Option<Document>, SyncError>)
    ensures SkipLabelled(issue, labelsToSkip) == Ok(true) ==> r == Ok(None)
    ensures r.Ok? ==> SkipLabelled(issue, labelsToSkip).Ok?
    ensures r.Ok? && SkipLabelled(issue, labelsToSkip) == Ok(false) ==>
              && IssueText(env, issue, blacklist).Ok?
              && (r.value.None? <==> Utf8Length(IssueText(env, issue, blacklist).value) > env.maxTicketSize)
    ensures r.Ok? && r.value.Some? ==>
              var doc := r.value.value;
              && doc.id == PageUrl(env, issue.key)
              && doc.sections == [Section(doc.id, IssueText(env, issue, blacklist).value)]
              && doc.source == Jira
              && (doc.primaryOwners.Some? <==> Owners(issue) != {})
              && (doc.primaryOwners.Some? ==> doc.primaryOwners.value == Owners(issue))
              && IssueDetails(env, issue).Ok?
              && doc.metadata == IssueDetails(env, issue).value.metadata
              && doc.semanticIdentifier == issue.key + ": " + IssueDetails(env, issue).value.title
              && doc.title == Some(issue.key + " " + IssueDetails(env, issue).value.title)
              && doc.updatedAt == Some(IssueDetails(env, issue).value.updated)
  {
    var skip :- SkipLabelled(issue, labelsToSkip);
    if skip then Ok(None)
    else
      var content :- IssueText(env, issue, blacklist);
      if |Utf8Encode(content)| > env.maxTicketSize then Ok(None)
      else
        var url := PageUrl(env, issue.key);
        var people := Owners(issue);
        var details :- IssueDetails(env, issue);
        Ok(Some(Document(
          url,
          [Section(url, content)],
          Jira,
          issue.key + ": " + details.title,
          Some(issue.key + " " + details.title),
          Some(details.updated),
          if people == {} then None else Some(people),
          details.metadata)))
  }

  /** A metadata key is present exactly when its field is truthy. */
  lemma MetadataKeys(env: Env, issue: Issue)
    requires IssueDetails(env, issue).Ok?
    ensures var m := IssueDetails(env, issue).value.metadata;
      && ("priority" in m <==> Truthy(BestEffortField(issue, "priority")))
      && ("status" in m <==> Truthy(BestEffortField(issue, "status")))
      && ("resolution" in m <==> Truthy(BestEffortField(issue, "resolution")))
      && ("label" in m <==> Truthy(BestEffortField(issue, "labels")))
      && forall k :: k in m ==> k in {"priority", "status", "resolution", "label"}
  {
    MetaKeyListMembers(issue);
  }

  lemma MetaKeyListMembers(issue: Issue)
    ensures var keys := MetaKeyList(issue);
      && ("priority" in keys <==> Truthy(BestEffortField(issue, "priority")))
      && ("status" in keys <==> Truthy(BestEffortField(issue, "status")))
      && ("resolution" in keys <==> Truthy(BestEffortField(issue, "resolution")))
      && ("label" in keys <==> Truthy(BestEffortField(issue, "labels")))
      && forall k :: k in keys ==> k in {"priority", "status", "resolution", "label"}
  {
    var p := KeyIfSet(issue, "priority", "priority");
    var s := KeyIfSet(issue, "status", "status");
    var res := KeyIfSet(issue, "resolution", "resolution");
    var l := KeyIfSet(issue, "labels", "label");
    assert MetaKeyList(issue) == p + s + res + l;
  }

  // ---------------------------------------------------------------------------
  // the stream of documents

  /** The conversion of one issue: a document, no document, or an error. */
  type Convert = Issue -> Result<Option<Document>, SyncError>

  /** `fetch_jira_issues_batch` over the yielded issues: the documents of the
      issues in order; a failing issue ends the stream with its error, and
      otherwise the stream ends as the paging did. */
  function ConvertIssues(convert: Convert, issues: seq<Issue>, tail: Option<SyncError>): (r: (seq<Document>, Option<SyncError>))
    ensures |r.0| <= |issues|
  {
    if |issues| == 0 then ([], tail)
    else match convert(issues[0])
      case Err(e) => ([], Some(e))
      case Ok(d) =>
        var rest := ConvertIssues(convert, issues[1..], tail);
        ((if d.Some? then [d.value] else []) + rest.0, rest.1)
  }

  /** Every document comes from one of the issues, whose conversion gives it. */
  lemma {:induction false} ConvertedFromIssues(convert: Convert, issues: seq<Issue>, tail: Option<SyncError>)
    ensures forall d :: d in ConvertIssues(convert, issues, tail).0 ==>
              exists i :: 0 <= i < |issues| && convert(issues[i]) == Ok(Some(d))
  {
    if |issues| > 0 {
      ConvertedFromIssues(convert, issues[1..], tail);
      var rest := ConvertIssues(convert, issues[1..], tail).0;
      forall d | d in ConvertIssues(convert, issues, tail).0
        ensures exists i :: 0 <= i < |issues| && convert(issues[i]) == Ok(Some(d))
      {
        if convert(issues[0]) != Ok(Some(d)) {
          assert d in rest;
          var j :| 0 <= j < |issues[1..]| && convert(issues[1..][j]) == Ok(Some(d));
          assert issues[1..][j] == issues[j + 1];
        }
      }
    }
  }

  /** The stream over a concatenation is the stream over the first part followed
      by the stream over the second, when the first part converts cleanly. */
  lemma {:induction false} ConvertIssuesAppend(convert: Convert, a: seq<Issue>, b: seq<Issue>, tail: Option<SyncError>)
    requires ConvertIssues(convert, a, None).1.None?
    ensures ConvertIssues(convert, a + b, tail) ==
              (ConvertIssues(convert, a, None).0 + ConvertIssues(convert, b, tail).0, ConvertIssues(convert, b, tail).1)
  {
    if |a| == 0 {
      assert a + b == b;
      assert [] + ConvertIssues(convert, b, tail).0 == ConvertIssues(convert, b, tail).0;
    } else {
      assert convert(a[0]).Ok?;
      var d := convert(a[0]).value;
      var head := if d.Some? then [d.value] else [];
      assert ConvertIssues(convert, a, None).0 == head + ConvertIssues(convert, a[1..], None).0;
      assert (a + b)[0] == a[0];
      assert (a + b)[1..] == a[1..] + b;
      ConvertIssuesAppend(convert, a[1..], b, tail);
      var restA := ConvertIssues(convert, a[1..], None).0;
      var restB := ConvertIssues(convert, b, tail).0;
      assert ConvertIssues(convert, a + b, tail).0 == head + (restA + restB);
      assert head + (restA + restB) == (head + restA) + restB;
    }
  }

  /** An issue that converts to no document leaves no trace: the stream is the
      one without it, whatever issues surround it. */
  lemma {:induction false} SkippedIssueLeavesNoTrace(convert: Convert, a: seq<Issue>, x: Issue, b: seq<Issue>, tail: Option<SyncError>)
    requires convert(x) == Ok(None)
    ensures ConvertIssues(convert, a + [x] + b, tail) == ConvertIssues(convert, a + b, tail)
  {
    if |a| == 0 {
      assert a + [x] + b == [x] + b;
      assert ([x] + b)[0] == x;
      assert ([x] + b)[1..] == b;
      assert a + b == b;
      var rest := ConvertIssues(convert, b, tail);
      assert [] + rest.0 == rest.0;
    } else {
      assert (a + [x] + b)[0] == a[0] && (a + b)[0] == a[0];
      assert (a + [x] + b)[1..] == a[1..] + [x] + b;
      assert (a + b)[1..] == a[1..] + b;
      SkippedIssueLeavesNoTrace(convert, a[1..], x, b, tail);
    }
  }

  /** The conversion `fetch_jira_issues_batch` applies to each issue. */
  function IssueConverter(env: Env, blacklist: seq<string>, labelsToSkip: set<string>): Convert {
    issue => IssueDocument(env, issue, blacklist, labelsToSkip)
  }

  /** No document of the stream comes from an issue with a skip label, and each
      is the browse page of an issue of the search. */
  lemma StreamRespectsSkipLabels(env: Env, issues: seq<Issue>, blacklist: seq<string>, labelsToSkip: set<string>, tail: Option<SyncError>)
    ensures forall d :: d in ConvertIssues(IssueConverter(env, blacklist, labelsToSkip), issues, tail).0 ==>
              exists i :: 0 <= i < |issues| && SkipLabelled(issues[i], labelsToSkip) == Ok(false) && d.id == PageUrl(env, issues[i].key)
  {
    var convert := IssueConverter(env, blacklist, labelsToSkip);
    ConvertedFromIssues(convert, issues, tail);
    forall d | d in ConvertIssues(convert, issues, tail).0
      ensures exists i :: 0 <= i < |issues| && SkipLabelled(issues[i], labelsToSkip) == Ok(false) && d.id == PageUrl(env, issues[i].key)
    {
      var i :| 0 <= i < |issues| && convert(issues[i]) == Ok(Some(d));
      assert IssueDocument(env, issues[i], blacklist, labelsToSkip) == Ok(Some(d));
    }
  }

  /** Inserting an issue with a skip label anywhere in the search results
      changes nothing downstream. */
  lemma SkipLabelledIssueIgnored(env: Env, a: seq<Issue>, x: Issue, b: seq<Issue>, blacklist: seq<string>, labelsToSkip: set<string>, tail: Option<SyncError>)
    requires SkipLabelled(x, labelsToSkip) == Ok(true)
    ensures var convert := IssueConverter(env, blacklist, labelsToSkip);
      ConvertIssues(convert, a + [x] + b, tail) == ConvertIssues(convert, a + b, tail)
  {
    SkippedIssueLeavesNoTrace(IssueConverter(env, blacklist, labelsToSkip), a, x, b, tail);
  }

  /** `fetch_jira_issues_batch`: the documents of the issues the search yields. */
  function FetchIssuesBatch(env: Env, jql: string, batchSize: int, blacklist: seq<string>, labelsToSkip: set<string>, pages: seq<seq<SearchItem>>): (seq<Document>, Option<SyncError>) {
    var paged := Paginate(jql, batchSize, pages, 0);
    ConvertIssues(IssueConverter(env, blacklist, labelsToSkip), paged.issues, paged.failure)
  }

  // ---------------------------------------------------------------------------
  // the connector

  datatype Auth = BasicAuth(email: string, token: string) | TokenAuth(token: string)

  /** The arguments the client is built with. */
  datatype Client = Client(server: string, auth: Auth, apiVersion: string)

  datatype JiraConfig = JiraConfig(
    batchSize: int,
    jiraBase: string,
    client: Option<Client>,
    blacklist: seq<string>,
    labelsToSkip: set<string>,
    jiraFilter: string)

  /** `JiraConnector.__init__`: no client yet; no blacklist when none is given. */
  function NewJiraConnector(jiraBase: string, jiraFilter: string, blacklist: Option<seq<string>>, batchSize: int, labelsToSkip: seq<string>): (c: JiraConfig)
    ensures c.client.None?
    ensures c.blacklist == if blacklist.Some? then blacklist.value else []
    ensures forall l :: l in c.labelsToSkip <==> l in labelsToSkip
  {
    JiraConfig(batchSize, jiraBase, None, blacklist.GetOr([]), set l | l in labelsToSkip :: l, jiraFilter)
  }

  /** `comment_email_blacklist`: the entries with surrounding whitespace removed. */
  function CommentEmailBlacklist(c: JiraConfig): (r: seq<string>)
    ensures |r| == |c.blacklist|
    ensures forall i :: 0 <= i < |r| ==> r[i] == [] || (!IsSpace(r[i][0]) && !IsSpace(r[i][|r[i]| - 1]))
    ensures forall i :: 0 <= i < |r| ==> r[i] == Strip(c.blacklist[i])
  {
    seq(|c.blacklist|, i requires 0 <= i < |c.blacklist| => Strip(c.blacklist[i]))
  }

  /** Loading the blacklist twice changes nothing: its entries are already
      stripped. */
  lemma BlacklistStripped(c: JiraConfig)
    ensures CommentEmailBlacklist(c.(blacklist := CommentEmailBlacklist(c))) == CommentEmailBlacklist(c)
  {
    var r := CommentEmailBlacklist(c);
    forall i | 0 <= i < |r| ensures Strip(r[i]) == r[i] {
      StripIdempotent(c.blacklist[i]);
    }
  }

  /** `jira_client`: the client once credentials are loaded. */
  function JiraClient(c: JiraConfig): (r: Result<Client, SyncError>)
    ensures r.Ok? <==> c.client.Some?
    ensures r.Ok? ==> r.value == c.client.value
    ensures r.Err? ==> r.error == MissingCredential("Jira")
  {
    match c.client
    case Some(client) => Ok(client)
    case None => Err(MissingCredential("Jira"))
  }

  /** `load_credentials`: the API token is required; with an e-mail address the
      client authenticates with both, otherwise with the token alone. */
  function LoadCredentials(c: JiraConfig, credentials: map<string, string>, apiVersion: string): (r: Result<JiraConfig, SyncError>)
    ensures "jira_api_token" !in credentials ==> r == Err(MissingKey("jira_api_token"))
    ensures "jira_api_token" in credentials ==> r.Ok?
    ensures r.Ok? ==>
              && r.value.client.Some?
              && r.value == c.(client := r.value.client)
              && r.value.client.value.server == c.jiraBase
              && r.value.client.value.apiVersion == apiVersion
              && r.value.client.value.auth.token == credentials["jira_api_token"]
              && (r.value.client.value.auth.BasicAuth? <==> "jira_user_email" in credentials)
              && (r.value.client.value.auth.BasicAuth? ==> r.value.client.value.auth.email == credentials["jira_user_email"])
  {
    if "jira_api_token" !in credentials then Err(MissingKey("jira_api_token"))
    else
      var token := credentials["jira_api_token"];
      var auth := if "jira_user_email" in credentials then BasicAuth(credentials["jira_user_email"], token) else TokenAuth(token);
      Ok(c.(client := Some(Client(c.jiraBase, auth, apiVersion))))
  }

  /** The shared body of both entry points: the documents of the search, in
      batches that are yielded once they reach the batch size. */
  function Sync(c: JiraConfig, env: Env, jql: string, pages: seq<seq<SearchItem>>): (o: SyncOutcome)
    ensures c.client.None? ==> o == SyncOutcome([], Some(MissingCredential("Jira")))
    ensures c.client.Some? ==>
              var fetched := FetchIssuesBatch(env, jql, FullPageSize, CommentEmailBlacklist(c), c.labelsToSkip, pages);
              Batches(o, fetched.0, fetched.1, BatchLimit(Reached, c.batchSize))
  {
    match JiraClient(c)
    case Err(e) => SyncOutcome([], Some(e))
    case Ok(_) =>
      var fetched := FetchIssuesBatch(env, jql, FullPageSize, CommentEmailBlacklist(c), c.labelsToSkip, pages);
      Emit(fetched.0, fetched.1, Reached, c.batchSize)
  }

  /** `load_from_state` as written: the query reads an attribute the connector
      never sets, so the first step of the generator raises. */
  function LoadFromStateAsWritten(c: JiraConfig, env: Env, pages: seq<seq<SearchItem>>): (o: SyncOutcome)
    ensures o.error == Some(MissingAttribute("quoted_jira_project"))
  {
    SyncOutcome([], Some(MissingAttribute("quoted_jira_project")))
  }

  /** Whatever the configuration and the remote, the full load as written yields
      no batch at all. */
  lemma FullLoadAsWrittenYieldsNothing(c: JiraConfig, env: Env, pages: seq<seq<SearchItem>>)
    requires c.client.Some?
    ensures LoadFromStateAsWritten(c, env, pages).batches == []
    ensures Sync(c, env, c.jiraFilter, pages).error.None? ==> |Sync(c, env, c.jiraFilter, pages).batches| > 0
  {
  }

  /** `load_from_state` with the query the connector is configured with: every
      issue the filter selects, without a time bound. */
  function LoadFromState(c: JiraConfig, env: Env, pages: seq<seq<SearchItem>>): (o: SyncOutcome)
    ensures c.client.None? ==> o == SyncOutcome([], Some(MissingCredential("Jira")))
    ensures c.client.Some? && c.batchSize >= 1 && o.error.None? ==>
              && |o.batches| >= 1
              && (forall i :: 0 <= i < |o.batches| - 1 ==> |o.batches[i]| == c.batchSize)
              && |o.batches[|o.batches| - 1]| < c.batchSize
    ensures c.client.Some? ==>
              var fetched := FetchIssuesBatch(env, c.jiraFilter, FullPageSize, CommentEmailBlacklist(c), c.labelsToSkip, pages);
              Batches(o, fetched.0, fetched.1, BatchLimit(Reached, c.batchSize))
  {
    Sync(c, env, c.jiraFilter, pages)
  }

  /** The JQL of a poll: the filter, then the inclusive lower and upper bounds on
      the update time, each written as a quoted timestamp. */
  function PollQuery(filter: string, start: string, end: string): string {
    filter + " AND updated >= '" + start + "' AND updated <= '" + end + "'"
  }

  const UpperBound := "' AND updated <= '"

  /** The two timestamps read back from the end of a poll query, given their
      widths (the timestamp format has a fixed width). */
  function WindowOf(q: string, startWidth: nat, endWidth: nat): Option<(string, string)> {
    var n := |q|;
    var before := 1 + endWidth + |UpperBound| + startWidth;
    if n < before then None
    else Some((q[n - before..n - before + startWidth], q[n - 1 - endWidth..n - 1]))
  }

  /** The window of a poll can be read back from its query: the bounds appear,
      inclusive, as the last two conditions. */
  lemma PollQueryWindow(filter: string, start: string, end: string)
    ensures WindowOf(PollQuery(filter, start, end), |start|, |end|) == Some((start, end))
  {
    var q := PollQuery(filter, start, end);
    var prefix := filter + " AND updated >= '";
    assert q == prefix + start + UpperBound + end + "'";
    var n := |q|;
    var before := 1 + |end| + |UpperBound| + |start|;
    assert n - before == |prefix|;
    assert q[n - before..n - before + |start|] == start;
    assert q[n - 1 - |end|..n - 1] == end;
  }

  /** `poll_source`: without credentials nothing is yielded and the missing
      credential is reported; otherwise the filter restricted to the window is
      searched. */
  function PollSource(c: JiraConfig, env: Env, start: string, end: string, pages: seq<seq<SearchItem>>): (o: SyncOutcome)
    ensures c.client.None? ==> o == SyncOutcome([], Some(MissingCredential("Jira")))
    ensures c.client.Some? ==> o == Sync(c, env, PollQuery(c.jiraFilter, start, end), pages)
    ensures c.client.Some? ==>
              var fetched := FetchIssuesBatch(env, PollQuery(c.jiraFilter, start, end), FullPageSize, CommentEmailBlacklist(c), c.labelsToSkip, pages);
              Batches(o, fetched.0, fetched.1, BatchLimit(Reached, c.batchSize))
  {
    if c.client.None? then SyncOutcome([], Some(MissingCredential("Jira")))
    else Sync(c, env, PollQuery(c.jiraFilter, start, end), pages)
  }
}
