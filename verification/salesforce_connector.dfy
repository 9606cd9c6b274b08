/** The Salesforce knowledge-article connector: it builds one SOQL query over the
    published English articles (optionally limited to product components and a
    modification window), follows the result's continuation links, merges the
    records by `Id`, and turns each merged record into a document. The HTTP
    calls are inputs: the token endpoint, the pages of the query, and the answers
    of the user-name lookup. */
module SalesforceConnector {
  import opened Wrappers
  import opened Strings
  import opened OrderedDict
  import opened Json
  import opened Documents
  import opened Batching
  import opened SalesforceUtils

  const IdPrefix := "SALESFORCE_"
  const QueryPath := "/services/data/v56.0/query"

  // ---------------------------------------------------------------------------
  // configuration

  /** `product_component_list`: absent without requested objects; otherwise the
      first requested entry split at commas, each piece stripped. */
  function ParseRequestedObjects(requested: seq<string>): (r: Option<seq<string>>)
    ensures r.None? <==> |requested| == 0
    ensures r.Some? ==>
              var pieces := Split(requested[0], ',');
              && |r.value| == |pieces|
              && forall i :: 0 <= i < |pieces| ==> r.value[i] == Strip(pieces[i])
  {
    if |requested| == 0 then None
    else
      var pieces := Split(requested[0], ',');
      Some(seq(|pieces|, i requires 0 <= i < |pieces| => Strip(pieces[i])))
  }

  /** Names written comma-separated, without commas and without surrounding
      whitespace, come back as they were. */
  lemma ParseRequestedObjectsRoundTrip(names: seq<string>, rest: seq<string>)
    requires |names| > 0
    requires forall i :: 0 <= i < |names| ==> ',' !in names[i] && Strip(names[i]) == names[i]
    ensures ParseRequestedObjects([Join(names, ",")] + rest) == Some(names)
  {
    var requested := [Join(names, ",")] + rest;
    assert [','] == ",";
    SplitJoin(names, ',');
    assert Split(requested[0], ',') == names;
    ParsedPieces(requested, names);
  }

  /** When the first requested entry splits into names that need no stripping,
      those names are the product components. */
  lemma ParsedPieces(requested: seq<string>, names: seq<string>)
    requires |requested| > 0 && Split(requested[0], ',') == names
    requires forall i :: 0 <= i < |names| ==> Strip(names[i]) == names[i]
    ensures ParseRequestedObjects(requested) == Some(names)
  {
    var r := ParseRequestedObjects(requested).value;
    assert |r| == |names|;
    forall i | 0 <= i < |names| ensures r[i] == names[i] {
      assert r[i] == Strip(names[i]);
    }
    assert r == names;
  }

  datatype Config = Config(batchSize: int, productComponents: Option<seq<string>>)

  function NewConnector(batchSize: int, requested: seq<string>): Config {
    Config(batchSize, ParseRequestedObjects(requested))
  }

  // ---------------------------------------------------------------------------
  // the query

  const QueryFields: seq<string> := [
    "Id", "Title", "Summary", "Product_Component__c", "Product_Component_Version__c",
    "Question_Problem__c", "Resolution__c", "Sub_Component__c", "IsVisibleInPkb",
    "IsVisibleInCsp", "IsVisibleInPrm", "ArticleCreatedDate", "ArticleNumber",
    "CreatedDate", "ArticleTotalViewCount", "FirstPublishedDate", "IsDeleted",
    "IsLatestVersion", "Language", "LastModifiedDate", "LastModifiedById",
    "LastPublishedDate", "Orchestrator_Version__c", "Studio_Version__c"]

  const SelectPart := "SELECT\n            "
  const WherePart :=
    "\n        FROM Knowledge__kav\n        WHERE Language='en_US'\n        AND PublishStatus = 'Online'\n        AND IsDeleted = FALSE"

  /** The fixed part of the query, from `SELECT` to the last fixed condition, as
      the template lays it out: one selected field per line. */
  const QueryHead: string := SelectPart + Join(QueryFields, ",\n            ") + WherePart

  /** The components that are not blank once stripped, each stripped and quoted. */
  function QuotedComponents(components: seq<string>): (r: seq<string>)
    ensures |r| <= |components|
    ensures forall q | q in r :: exists c | c in components :: Strip(c) != "" && q == "'" + Strip(c) + "'"
    ensures forall c | c in components && Strip(c) != "" :: "'" + Strip(c) + "'" in r
  {
    if |components| == 0 then []
    else
      var c := components[0];
      var rest := QuotedComponents(components[1..]);
      assert forall c' | c' in components[1..] :: c' in components;
      if Strip(c) == "" then rest else ["'" + Strip(c) + "'"] + rest
  }

  /** The product condition: empty without components, otherwise an `IN` list of
      the quoted components (possibly an empty list when all are blank). */
  function ProductFilter(components: Option<seq<string>>): (f: string)
    ensures f == "" <==> components.None? || |components.value| == 0
    ensures f != "" ==>
              f == "AND Product_Component__c IN (" + Join(QuotedComponents(components.value), ", ") + ")"
  {
    if components.None? || |components.value| == 0 then ""
    else "AND Product_Component__c IN (" + Join(QuotedComponents(components.value), ", ") + ")"
  }

  /** The f-string before `.strip()`, around the given head. */
  function QueryTemplate(head: string, filter: string): string {
    "\n        " + head + "\n        " + filter + "\n        "
  }

  /** `build_salesforce_query`: the fixed head, the product condition on a line of
      its own when there is one, then a lower and an upper bound on
      `LastModifiedDate` for the given (already formatted) times. */
  function BuildQuery(components: Option<seq<string>>, start: Option<string>, end: Option<string>): string {
    var f := ProductFilter(components);
    QueryHead + (if f == "" then "" else "\n        " + f)
    + (if start.Some? then " AND LastModifiedDate >= " + start.value else "")
    + (if end.Some? then " AND LastModifiedDate <= " + end.value else "")
  }

  lemma QueryHeadEnds()
    ensures |QueryHead| > 0 && QueryHead[0] == 'S' && QueryHead[|QueryHead| - 1] == 'E'
  {
    var h := QueryHead;
    assert h == SelectPart + Join(QueryFields, ",\n            ") + WherePart;
    assert h[0] == SelectPart[0];
  }

  lemma StripQueryTemplate(head: string, f: string)
    requires |head| > 0 && head[0] == 'S' && head[|head| - 1] == 'E'
    requires f != "" ==> f[0] == 'A' && f[|f| - 1] == ')'
    ensures Strip(QueryTemplate(head, f)) == head + (if f == "" then "" else "\n        " + f)
  {
    var lead := "\n        ";
    assert forall i :: 0 <= i < |lead| ==> IsSpace(lead[i]);
    StripLayout(lead, head, f);
  }

  /** The query is the template with its layout stripped: stripping removes the
      leading and trailing line breaks and indentation and nothing else, whether
      or not there is a product condition. */
  lemma BuildQueryIsStrippedTemplate(components: Option<seq<string>>, start: Option<string>, end: Option<string>)
    ensures BuildQuery(components, start, end) ==
              Strip(QueryTemplate(QueryHead, ProductFilter(components)))
              + (if start.Some? then " AND LastModifiedDate >= " + start.value else "")
              + (if end.Some? then " AND LastModifiedDate <= " + end.value else "")
  {
    var f := ProductFilter(components);
    assert f != "" ==> f[0] == 'A' && f[|f| - 1] == ')';
    QueryHeadEnds();
    StripQueryTemplate(QueryHead, f);
  }

  // ---------------------------------------------------------------------------
  // authentication

  datatype Session = Session(accessToken: string, instanceUrl: string)

  /** The form posted to the token endpoint. */
  datatype TokenRequest = TokenRequest(clientId: string, clientSecret: string, username: string, password: string)

  /** `load_credentials`: the four credentials are required; the token endpoint
      (a parameter: the decoded body of a successful answer, or nothing) must
      answer and return the token and the instance URL. */
  function LoadCredentials(credentials: map<string, string>, tokenEndpoint: TokenRequest -> Option<Dict<string, Json>>): (r: Result<Session, SyncError>)
    ensures r.Ok? ==> && "sf_client_id" in credentials && "sf_client_secret" in credentials
                      && "sf_username" in credentials && "sf_password" in credentials
    ensures r.Ok? ==>
              var answer := tokenEndpoint(TokenRequest(credentials["sf_client_id"], credentials["sf_client_secret"],
                                                       credentials["sf_username"], credentials["sf_password"]));
              && answer.Some?
              && Get(answer.value, "access_token") == Some(JStr(r.value.accessToken))
              && Get(answer.value, "instance_url") == Some(JStr(r.value.instanceUrl))
    ensures (&& "sf_client_id" in credentials && "sf_client_secret" in credentials
             && "sf_username" in credentials && "sf_password" in credentials) ==>
              var answer := tokenEndpoint(TokenRequest(credentials["sf_client_id"], credentials["sf_client_secret"],
                                                       credentials["sf_username"], credentials["sf_password"]));
              r.Ok? <==> && answer.Some?
                         && Get(answer.value, "access_token").Some? && Get(answer.value, "access_token").value.JStr?
                         && Get(answer.value, "instance_url").Some? && Get(answer.value, "instance_url").value.JStr?
  {
    if "sf_client_id" !in credentials then Err(MissingKey("sf_client_id"))
    else if "sf_client_secret" !in credentials then Err(MissingKey("sf_client_secret"))
    else if "sf_username" !in credentials then Err(MissingKey("sf_username"))
    else if "sf_password" !in credentials then Err(MissingKey("sf_password"))
    else
      var request := TokenRequest(credentials["sf_client_id"], credentials["sf_client_secret"],
                                  credentials["sf_username"], credentials["sf_password"]);
      match tokenEndpoint(request)
      case None => Err(AuthenticationFailed)
      case Some(data) =>
        var token :- StringMember(data, "access_token");
        var instance :- StringMember(data, "instance_url");
        Ok(Session(token, instance))
  }

  /** `data[key]` where the value must be a string. */
  function StringMember(data: Dict<string, Json>, key: string): (r: Result<string, SyncError>)
    ensures r.Ok? <==> Get(data, key).Some? && Get(data, key).value.JStr?
    ensures r.Ok? ==> Get(data, key) == Some(JStr(r.value))
    ensures Get(data, key).None? ==> r == Err(MissingKey(key))
  {
    match Get(data, key)
    case None => Err(MissingKey(key))
    case Some(v) => if v.JStr? then Ok(v.s) else Err(WrongType(key))
  }

  // ---------------------------------------------------------------------------
  // paging and merging

  /** One GET of the query endpoint or of a continuation; every request carries
      the query parameter. */
  datatype Request = Request(url: string, query: string)

  /** Merged records by Salesforce id, in order of first appearance. */
  type Merged = Dict<string, Dict<string, Json>>

  /** `query_results.setdefault(record["Id"], {}).update(record)`. */
  function MergeRecord(merged: Merged, record: Json): (r: Result<Merged, SyncError>)
    ensures r.Ok? <==> record.JObj? && Get(record.entries, "Id").Some? && Get(record.entries, "Id").value.JStr?
    ensures r.Ok? ==>
              var id := Get(record.entries, "Id").value.s;
              r.value == Put(merged, id, Update(Get(merged, id).GetOr([]), record.entries))
  {
    if !record.JObj? then Err(WrongType("record"))
    else
      var id :- StringMember(record.entries, "Id");
      Ok(Put(merged, id, Update(Get(merged, id).GetOr([]), record.entries)))
  }

  function MergeRecords(merged: Merged, records: seq<Json>): Result<Merged, SyncError>
    decreases |records|
  {
    if |records| == 0 then Ok(merged)
    else
      var next :- MergeRecord(merged, records[0]);
      MergeRecords(next, records[1..])
  }

  /** The records of one page. Iterating a dict or a string yields keys or
      characters, on which `["Id"]` fails; only an empty one gets through. */
  function PageRecords(data: Dict<string, Json>): Result<seq<Json>, SyncError> {
    match Get(data, "records")
    case None => Ok([])
    case Some(v) =>
      match v
      case JArr(xs) => Ok(xs)
      case JObj(es) => if |es| == 0 then Ok([]) else Err(WrongType("string indices must be integers"))
      case JStr(s) => if s == "" then Ok([]) else Err(WrongType("string indices must be integers"))
      case _ => Err(WrongType("object is not iterable"))
  }

  /** The records of one page merged into those before. */
  function MergePage(merged: Merged, data: Dict<string, Json>): Result<Merged, SyncError> {
    var records :- PageRecords(data);
    MergeRecords(merged, records)
  }

  /** The loop over pages: `pages[i]` answers the `i`-th request of the loop. A
      truthy `nextRecordsUrl` is appended to the instance URL and requested next;
      a loop that would need more pages than given ends with `Undrained`. */
  function Drain(instanceUrl: string, url: string, query: string, pages: seq<Dict<string, Json>>, i: nat, merged: Merged): Result<(seq<Request>, Merged), SyncError>
    decreases |pages| - i
  {
    if i >= |pages| then Err(Undrained)
    else
      var data := pages[i];
      var next :- MergePage(merged, data);
      var link := Get(data, "nextRecordsUrl");
      if link.None? || !Truthy(link.value) then Ok(([Request(url, query)], next))
      else if !link.value.JStr? then Err(WrongType("nextRecordsUrl"))
      else
        var more :- Drain(instanceUrl, instanceUrl + link.value.s, query, pages, i + 1, next);
        Ok(([Request(url, query)] + more.0, more.1))
  }

  /** `_fetch_from_salesforce` up to the merged records: a first request whose
      answer is discarded, then the loop starting again at the query URL. */
  function FetchRecords(session: Session, query: string, pages: seq<Dict<string, Json>>): Result<(seq<Request>, Merged), SyncError> {
    var url := session.instanceUrl + QueryPath;
    var loop :- Drain(session.instanceUrl, url, query, pages, 0, []);
    Ok(([Request(url, query)] + loop.0, loop.1))
  }

  /** The URL of the continuation a page names: the instance URL followed by
      the link, or by nothing when it names none. */
  function NextUrl(instanceUrl: string, data: Dict<string, Json>): string {
    var link := Get(data, "nextRecordsUrl");
    instanceUrl + if link.Some? && link.value.JStr? then link.value.s else ""
  }

  /** The requests after the first go to the instance URL followed by the
      continuation named by the page answering the request before. */
  predicate FollowsLinks(reqs: seq<Request>, instanceUrl: string, query: string, pages: seq<Dict<string, Json>>, i: nat) {
    && i + |reqs| <= |pages|
    && forall j {:trigger reqs[j]} :: 0 < j < |reqs| ==> reqs[j] == Request(NextUrl(instanceUrl, pages[i + j - 1]), query)
  }

  lemma FollowsLinksStep(
    first: Request, more: seq<Request>, instanceUrl: string, query: string, pages: seq<Dict<string, Json>>, i: nat)
    requires i < |pages|
    requires |more| > 0 && more[0] == Request(NextUrl(instanceUrl, pages[i]), query)
    requires FollowsLinks(more, instanceUrl, query, pages, i + 1)
    ensures FollowsLinks([first] + more, instanceUrl, query, pages, i)
  {
    var reqs := [first] + more;
    forall j | 0 < j < |reqs|
      ensures reqs[j] == Request(NextUrl(instanceUrl, pages[i + j - 1]), query)
    {
      var k := j - 1;
      assert reqs[j] == more[k];
      if k > 0 {
        assert i + 1 + k - 1 == i + j - 1;
      }
    }
  }

  /** Every request of the loop carries the query; the first goes to the given
      URL and each later one to the instance URL followed by the continuation the
      page before named. */
  lemma {:induction false} DrainRequests(instanceUrl: string, url: string, query: string, pages: seq<Dict<string, Json>>, i: nat, merged: Merged)
    ensures var r := Drain(instanceUrl, url, query, pages, i, merged);
      r.Ok? ==>
        && |r.value.0| > 0
        && r.value.0[0] == Request(url, query)
        && FollowsLinks(r.value.0, instanceUrl, query, pages, i)
    decreases |pages| - i
  {
    if i < |pages| {
      var data := pages[i];
      var next := MergePage(merged, data);
      if next.Ok? {
        var link := Get(data, "nextRecordsUrl");
        if link.Some? && Truthy(link.value) && link.value.JStr? {
          var path := link.value.s;
          assert NextUrl(instanceUrl, data) == instanceUrl + path;
          var more := Drain(instanceUrl, instanceUrl + path, query, pages, i + 1, next.value);
          DrainRequests(instanceUrl, instanceUrl + path, query, pages, i + 1, next.value);
          if more.Ok? {
            FollowsLinksStep(Request(url, query), more.value.0, instanceUrl, query, pages, i);
          }
        }
      }
    }
  }

  /** Merging one record changes the entry of its id only. */
  lemma MergeRecordGet(merged: Merged, record: Json, id: string)
    requires MergeRecord(merged, record).Ok?
    ensures Get(MergeRecord(merged, record).value, id) ==
              if Get(record.entries, "Id") == Some(JStr(id)) then Some(Update(Get(merged, id).GetOr([]), record.entries))
              else Get(merged, id)
  {
  }

  /** The merged records have distinct ids, and under each id is what updating an
      empty record with every record of that id, in order, gives. */
  lemma {:induction false} MergeRecordsById(merged: Merged, records: seq<Json>)
    requires UniqueKeys(merged)
    ensures var r := MergeRecords(merged, records);
      r.Ok? ==>
        && UniqueKeys(r.value)
        && forall id :: Get(r.value, id) == MergedFields(Get(merged, id), records, id)
    decreases |records|
  {
    if |records| > 0 {
      var step := MergeRecord(merged, records[0]);
      if step.Ok? {
        var next := step.value;
        MergeRecordsById(next, records[1..]);
        var r := MergeRecords(next, records[1..]);
        assert MergeRecords(merged, records) == r;
        if r.Ok? {
          forall id ensures Get(r.value, id) == MergedFields(Get(merged, id), records, id) {
            MergeRecordGet(merged, records[0], id);
          }
        }
      }
    }
  }

  /** Each merged record is stored under its own `Id`, once. */
  predicate IdsMatch(merged: Merged) {
    && UniqueKeys(merged)
    && forall e :: e in merged ==> Get(e.1, "Id") == Some(JStr(e.0))
  }

  lemma MergeRecordKeepsIds(merged: Merged, record: Json)
    requires IdsMatch(merged) && Decoded(record)
    requires MergeRecord(merged, record).Ok?
    ensures IdsMatch(MergeRecord(merged, record).value)
  {
    var id := Get(record.entries, "Id").value.s;
    var fields := Update(Get(merged, id).GetOr([]), record.entries);
    GetLastUnique(record.entries, "Id");
    assert Get(fields, "Id") == Some(JStr(id));
    PutEntries(merged, id, fields);
  }

  lemma {:induction false} MergeRecordsKeepIds(merged: Merged, records: seq<Json>)
    requires IdsMatch(merged)
    requires forall r :: r in records ==> Decoded(r)
    ensures MergeRecords(merged, records).Ok? ==> IdsMatch(MergeRecords(merged, records).value)
    decreases |records|
  {
    if |records| > 0 {
      var step := MergeRecord(merged, records[0]);
      if step.Ok? {
        var rest := records[1..];
        assert MergeRecords(merged, records) == MergeRecords(step.value, rest);
        assert records[0] in records;
        MergeRecordKeepsIds(merged, records[0]);
        assert forall r :: r in rest ==> r in records;
        MergeRecordsKeepIds(step.value, rest);
      }
    }
  }

  lemma MergePageKeepsIds(merged: Merged, data: Dict<string, Json>)
    requires IdsMatch(merged) && Decoded(JObj(data))
    ensures MergePage(merged, data).Ok? ==> IdsMatch(MergePage(merged, data).value)
  {
    var records := PageRecords(data);
    if records.Ok? {
      if Get(data, "records").Some? {
        DecodedMember(data, "records");
      }
      MergeRecordsKeepIds(merged, records.value);
    }
  }

  lemma {:induction false} DrainKeepsIds(instanceUrl: string, url: string, query: string, pages: seq<Dict<string, Json>>, i: nat, merged: Merged)
    requires IdsMatch(merged)
    requires forall p :: p in pages ==> Decoded(JObj(p))
    ensures var r := Drain(instanceUrl, url, query, pages, i, merged);
      r.Ok? ==> IdsMatch(r.value.1)
    decreases |pages| - i
  {
    if i < |pages| {
      var data := pages[i];
      var next := MergePage(merged, data);
      MergePageKeepsIds(merged, data);
      if next.Ok? {
        var link := Get(data, "nextRecordsUrl");
        if link.Some? && Truthy(link.value) && link.value.JStr? {
          DrainKeepsIds(instanceUrl, instanceUrl + link.value.s, query, pages, i + 1, next.value);
        }
      }
    }
  }

  /** The reference grouping: the fields an id has after the given records, from
      what it had before (`None` for an id not yet seen). */
  function MergedFields(before: Option<Dict<string, Json>>, records: seq<Json>, id: string): Option<Dict<string, Json>>
    decreases |records|
  {
    if |records| == 0 then before
    else
      var rec := records[0];
      if rec.JObj? && Get(rec.entries, "Id") == Some(JStr(id)) then
        MergedFields(Some(Update(before.GetOr([]), rec.entries)), records[1..], id)
      else MergedFields(before, records[1..], id)
  }

  // ---------------------------------------------------------------------------
  // documents

  /** The top level of a record after `extract_dict_text`: cleaning merges an
      `attributes` dict into the record in place, unless the record holds
      `records`, in which case cleaning works on that value instead. */
  function RecordAfterExtract(obj: Dict<string, Json>): Dict<string, Json> {
    if Get(obj, "records").Some? then obj
    else
      var m := MergeAttributes(JObj(obj));
      if m.JObj? then m.entries else obj
  }

  /** `_get_name_from_id` given the decoded answer to the user query (nothing for
      a failed request): the `Name` of the first record, `Unknown` when the
      request failed, there are no records, or the record has no name. A `null`
      name is `None`, which the owner's display name accepts; any other
      non-string name is refused by it. */
  function OwnerName(answer: Option<Dict<string, Json>>): (r: Result<Option<string>, SyncError>)
    ensures answer.None? ==> r == Ok(Some("Unknown"))
    ensures answer.Some? && Get(answer.value, "records").None? ==> r == Ok(Some("Unknown"))
    ensures answer.Some? && Get(answer.value, "records").Some? && !Truthy(Get(answer.value, "records").value) ==> r == Ok(Some("Unknown"))
    ensures answer.Some? && Get(answer.value, "records") == Some(JArr([])) ==> r == Ok(Some("Unknown"))
    ensures answer.Some? && Get(answer.value, "records").Some? && Get(answer.value, "records").value.JArr?
            && |Get(answer.value, "records").value.items| > 0 && Get(answer.value, "records").value.items[0].JObj? ==>
              var name := Get(Get(answer.value, "records").value.items[0].entries, "Name");
              && (name.None? ==> r == Ok(Some("Unknown")))
              && (name.Some? && name.value.JStr? ==> r == Ok(Some(name.value.s)))
              && (name == Some(JNull) ==> r == Ok(None))
              && (name.Some? && !name.value.JStr? && name.value != JNull ==> r.Err?)
  {
    match answer
    case None => Ok(Some("Unknown"))
    case Some(data) =>
      var records := Get(data, "records").GetOr(JArr([]));
      if !Truthy(records) then Ok(Some("Unknown"))
      else match records
        case JArr(xs) =>
          (match xs[0]
           case JObj(first) =>
             (match Get(first, "Name")
              case None => Ok(Some("Unknown"))
              case Some(n) =>
                if n.JStr? then Ok(Some(n.s))
                else if n == JNull then Ok(None)
                else Err(WrongType("display_name")))
           case _ => Err(MissingAttribute("get")))
        case JObj(_) => Err(MissingKey("0"))
        case JStr(_) => Err(MissingAttribute("get"))
        case _ => Err(WrongType("object is not subscriptable"))
  }

  function UserQuery(id: string): string {
    "SELECT Name FROM User WHERE Id = '" + id + "'"
  }

  /** `object_dict.get("Title", "Unknown Object")`; the identifier must be text. */
  function SemanticIdentifier(record: Dict<string, Json>): (r: Result<string, SyncError>)
    ensures Get(record, "Title").None? ==> r == Ok("Unknown Object")
    ensures Get(record, "Title").Some? && Get(record, "Title").value.JStr? ==> r == Ok(Get(record, "Title").value.s)
    ensures r.Ok? <==> Get(record, "Title").None? || Get(record, "Title").value.JStr?
    ensures r.Ok? && Get(record, "Title").Some? ==> Get(record, "Title") == Some(JStr(r.value))
  {
    match Get(record, "Title")
    case None => Ok("Unknown Object")
    case Some(t) => if t.JStr? then Ok(t.s) else Err(WrongType("semantic_identifier"))
  }

  /** What `extract_dict_text` leaves: the article text, and the record as its
      in-place cleaning left it. */
  type Extracted = Result<(string, Dict<string, Json>), SyncError>

  /** `_convert_object_instance_to_document`, given the outcome of extracting the
      record's article text: the id is the Salesforce id with a prefix, the single
      section links to the record on the instance and holds the text, the title
      and the owner's id are read from the record as extraction left it, and the
      owner is named by the user lookup. The fields are read in the order the
      source reads them, so the first missing one decides the error; the title
      is checked last, when the document is built. */
  function ConvertRecord(
    session: Session, obj: Dict<string, Json>, extracted: Extracted,
    userLookup: string -> Option<Dict<string, Json>>): (r: Result<Document, SyncError>)
    ensures r.Ok? ==>
              && Get(obj, "Id").Some? && Get(obj, "Id").value.JStr?
              && var sid := Get(obj, "Id").value.s;
              && r.value.id == IdPrefix + sid
              && extracted.Ok?
              && r.value.sections == [Section(session.instanceUrl + "/" + sid, extracted.value.0)]
              && r.value.source == SalesforceKnowledge
              && r.value.metadata == map[]
              && r.value.primaryOwners.Some? && |r.value.primaryOwners.value| == 1
              && SemanticIdentifier(extracted.value.1) == Ok(r.value.semanticIdentifier)
    ensures r.Ok? ==>
              && Get(obj, "LastModifiedDate").Some? && Get(obj, "LastModifiedDate").value.JStr?
              && r.value.updatedAt == Some(Get(obj, "LastModifiedDate").value.s)
    ensures r.Ok? ==>
              && extracted.Ok?
              && Get(extracted.value.1, "LastModifiedById").Some? && Get(extracted.value.1, "LastModifiedById").value.JStr?
              && var owner := OwnerName(userLookup(UserQuery(Get(extracted.value.1, "LastModifiedById").value.s)));
              && owner.Ok?
              && r.value.primaryOwners == Some({ExpertInfo(owner.value, None)})
    ensures r.Ok? <==>
              && Get(obj, "Id").Some? && Get(obj, "Id").value.JStr?
              && Get(obj, "LastModifiedDate").Some? && Get(obj, "LastModifiedDate").value.JStr?
              && extracted.Ok?
              && Get(extracted.value.1, "LastModifiedById").Some? && Get(extracted.value.1, "LastModifiedById").value.JStr?
              && OwnerName(userLookup(UserQuery(Get(extracted.value.1, "LastModifiedById").value.s))).Ok?
              && (Get(extracted.value.1, "Title").None? || Get(extracted.value.1, "Title").value.JStr?)
    ensures Get(obj, "Id").None? ==> r == Err(MissingKey("Id"))
    ensures (&& Get(obj, "Id").Some? && Get(obj, "Id").value.JStr? && Get(obj, "LastModifiedDate").Some?
             && Get(obj, "LastModifiedDate").value.JStr? && extracted.Err?) ==> r == Err(extracted.error)
    ensures (&& Get(obj, "Id").Some? && Get(obj, "Id").value.JStr? && Get(obj, "LastModifiedDate").Some?
             && Get(obj, "LastModifiedDate").value.JStr? && extracted.Ok?
             && Get(extracted.value.1, "LastModifiedById").None?) ==> r == Err(MissingKey("LastModifiedById"))
  {
    var sid :- StringMember(obj, "Id");
    var updated :- StringMember(obj, "LastModifiedDate");
    var ext :- extracted;
    var ownerId :- StringMember(ext.1, "LastModifiedById");
    var owner :- OwnerName(userLookup(UserQuery(ownerId)));
    var title :- SemanticIdentifier(ext.1);
    Ok(Document(
      IdPrefix + sid,
      [Section(session.instanceUrl + "/" + sid, ext.0)],
      SalesforceKnowledge,
      title,
      None,
      Some(updated),
      Some({ExpertInfo(owner, None)}),
      map[]))
  }

  /** How the article text of a record is obtained: `extract_dict_text` with the
      given list rule and the HTML-to-text step of the given parser. */
  type Extractor = Dict<string, Json> -> Extracted

  function ArticleText(rule: ListRule, parsedText: string -> string): Extractor {
    obj => match ExtractDictText(rule, obj, parsedText)
           case Ok(text) => Ok((text, RecordAfterExtract(obj)))
           case Err(e) => Err(e)
  }

  /** The extractor a sync uses gives the article text of `extract_dict_text`
      and the record after its in-place cleaning. */
  lemma ArticleTextIsExtraction(rule: ListRule, parsedText: string -> string, obj: Dict<string, Json>)
    ensures var e := ArticleText(rule, parsedText)(obj);
      && (e.Ok? <==> ExtractDictText(rule, obj, parsedText).Ok?)
      && (e.Ok? ==> ExtractDictText(rule, obj, parsedText) == Ok(e.value.0) && e.value.1 == RecordAfterExtract(obj))
      && (e.Err? ==> ExtractDictText(rule, obj, parsedText) == Err(e.error))
  {
  }

  /** The record `{"Id": "a", "LastModifiedDate": "d", "Body": ["x"]}`. */
  const ListRecord: Dict<string, Json> := [("Id", JStr("a")), ("LastModifiedDate", JStr("d"))] + BodyRecord

  /** Cleaning skips the id and the date, and is left with the list. */
  lemma ListRecordCleaned(rule: ListRule)
    ensures CleanBy(rule, JObj(ListRecord)) == CleanBy(rule, JObj(BodyRecord))
  {
    ListRecordPrepared();
    ListRecordEntries(rule);
  }

  /** Neither record is wrapped or carries attributes. */
  lemma ListRecordPrepared()
    ensures Prepare(JObj(ListRecord)) == JObj(ListRecord)
    ensures Prepare(JObj(BodyRecord)) == JObj(BodyRecord)
  {
    assert Get(ListRecord, "records") == None;
    assert Get(ListRecord, "attributes") == None;
    BodyRecordPrepared();
  }

  /** The members of the record clean to those of the list alone. */
  lemma ListRecordEntries(rule: ListRule)
    ensures CleanEntries(rule, ListRecord, []) == CleanEntries(rule, BodyRecord, [])
  {
    IdAndDateFiltered();
    var rest := ListRecord[1..];
    assert ListRecord[0].0 == "Id" && rest[0].0 == "LastModifiedDate";
    assert rest[1..] == BodyRecord;
    SkipFiltered(rule, ListRecord, []);
    SkipFiltered(rule, rest, []);
  }

  /** As written, a record holding a list of text, with its id and modification
      date, does not convert, so the sync stops at it; corrected, its text is
      the list under its key. */
  lemma AsWrittenRecordFails(session: Session, parsedText: string -> string, userLookup: string -> Option<Dict<string, Json>>)
    ensures ConvertRecord(session, ListRecord, ArticleText(AsWritten, parsedText)(ListRecord), userLookup) == Err(UnboundLocal("filtered_item"))
    ensures ArticleText(Corrected, parsedText)(ListRecord).Ok?
    ensures ArticleText(Corrected, parsedText)(ListRecord).value.0 == "Body:\n  x"
  {
    ListRecordCleaned(AsWritten);
    ListRecordCleaned(Corrected);
    BodyRecordCleaned();
    AsWrittenExtractionFails(parsedText);
    assert ExtractDictText(AsWritten, ListRecord, parsedText) == Err(UnboundLocal("filtered_item"));
    assert ExtractDictText(Corrected, ListRecord, parsedText) == ExtractDictText(Corrected, BodyRecord, parsedText);
    assert Get(ListRecord, "Id") == Some(JStr("a"));
    assert Get(ListRecord, "LastModifiedDate") == Some(JStr("d"));
  }

  /** The document carries the record's Salesforce id behind the prefix. */
  predicate IdentifiedBy(doc: Document, record: Dict<string, Json>) {
    && Get(record, "Id").Some? && Get(record, "Id").value.JStr?
    && doc.id == IdPrefix + Get(record, "Id").value.s
  }

  /** Converts the merged records in order, stopping at the first failure. */
  function ConvertAll(
    session: Session, records: seq<Dict<string, Json>>,
    extract: Extractor, userLookup: string -> Option<Dict<string, Json>>): (r: (seq<Document>, Option<SyncError>))
    ensures |r.0| <= |records|
    ensures r.1.None? <==> |r.0| == |records|
    ensures forall i :: 0 <= i < |r.0| ==> IdentifiedBy(r.0[i], records[i])
  {
    if |records| == 0 then ([], None)
    else match ConvertRecord(session, records[0], extract(records[0]), userLookup)
      case Err(e) => ([], Some(e))
      case Ok(doc) =>
        var rest := ConvertAll(session, records[1..], extract, userLookup);
        ConvertedIdentified(doc, rest.0, records);
        ([doc] + rest.0, rest.1)
  }

  lemma ConvertedIdentified(doc: Document, docs: seq<Document>, records: seq<Dict<string, Json>>)
    requires |records| > 0 && |docs| <= |records| - 1
    requires IdentifiedBy(doc, records[0])
    requires forall i :: 0 <= i < |docs| ==> IdentifiedBy(docs[i], records[1..][i])
    ensures forall i :: 0 <= i < |docs| + 1 ==> IdentifiedBy(([doc] + docs)[i], records[i])
  {
    forall i | 0 < i < |docs| + 1 ensures IdentifiedBy(([doc] + docs)[i], records[i]) {
      assert records[1..][i - 1] == records[i];
    }
  }

  /** Each document is the conversion of the record at its position. */
  predicate ConvertedInOrder(
    session: Session, records: seq<Dict<string, Json>>, extract: Extractor,
    userLookup: string -> Option<Dict<string, Json>>, docs: seq<Document>)
  {
    && |docs| <= |records|
    && forall i {:trigger docs[i]} :: 0 <= i < |docs| ==>
         ConvertRecord(session, records[i], extract(records[i]), userLookup) == Ok(docs[i])
  }

  lemma ConvertedInOrderStep(
    session: Session, records: seq<Dict<string, Json>>, extract: Extractor,
    userLookup: string -> Option<Dict<string, Json>>, doc: Document, docs: seq<Document>)
    requires |records| > 0
    requires ConvertRecord(session, records[0], extract(records[0]), userLookup) == Ok(doc)
    requires ConvertedInOrder(session, records[1..], extract, userLookup, docs)
    ensures ConvertedInOrder(session, records, extract, userLookup, [doc] + docs)
  {
    var all := [doc] + docs;
    forall i | 0 <= i < |all|
      ensures ConvertRecord(session, records[i], extract(records[i]), userLookup) == Ok(all[i])
    {
      if i > 0 {
        assert all[i] == docs[i - 1];
        assert records[i] == records[1..][i - 1];
      }
    }
  }

  /** Each document is the conversion of the record at its position, and a
      failure is that of the first record that does not convert. */
  lemma {:induction false} ConvertAllConverts(
    session: Session, records: seq<Dict<string, Json>>,
    extract: Extractor, userLookup: string -> Option<Dict<string, Json>>)
    ensures var r := ConvertAll(session, records, extract, userLookup);
      && ConvertedInOrder(session, records, extract, userLookup, r.0)
      && (r.1.Some? ==> ConvertRecord(session, records[|r.0|], extract(records[|r.0|]), userLookup) == Err(r.1.value))
  {
    if |records| > 0 {
      var first := ConvertRecord(session, records[0], extract(records[0]), userLookup);
      if first.Ok? {
        ConvertAllConverts(session, records[1..], extract, userLookup);
        var rest := ConvertAll(session, records[1..], extract, userLookup);
        ConvertedInOrderStep(session, records, extract, userLookup, first.value, rest.0);
        if rest.1.Some? {
          assert records[1 + |rest.0|] == records[1..][|rest.0|];
        }
      }
    }
  }

  /** `_fetch_from_salesforce`, `load_from_state` (no bounds) and `poll_source`
      (bounds given as formatted times). Without a session no batch is produced;
      a failure while paging produces none either. Otherwise the merged records
      are converted in order and yielded in batches of `batch_size + 1`, the last
      batch always following; a failure while converting ends the sync after the
      full batches before it. */
  function Fetch(
    config: Config, session: Option<Session>, start: Option<string>, end: Option<string>,
    pages: seq<Dict<string, Json>>,
    userLookup: string -> Option<Dict<string, Json>>, parsedText: string -> string, rule: ListRule): (o: SyncOutcome)
    ensures session.None? ==> o == SyncOutcome([], Some(MissingAttribute("instance_url")))
    ensures session.Some? ==>
              var fetched := FetchRecords(session.value, BuildQuery(config.productComponents, start, end), pages);
              && (fetched.Err? ==> o == SyncOutcome([], Some(fetched.error)))
              && (fetched.Ok? ==>
                    var c := ConvertAll(session.value, MergedRecords(fetched.value.1), ArticleText(rule, parsedText), userLookup);
                    Batches(o, c.0, c.1, BatchLimit(Exceeded, config.batchSize)))
  {
    if session.None? then SyncOutcome([], Some(MissingAttribute("instance_url")))
    else
      var query := BuildQuery(config.productComponents, start, end);
      Publish(config, session.value, FetchRecords(session.value, query, pages), ArticleText(rule, parsedText), userLookup)
  }

  /** The part of a sync after paging: a paging failure yields nothing, otherwise
      the merged records are converted and batched. */
  function Publish(
    config: Config, session: Session, fetched: Result<(seq<Request>, Merged), SyncError>,
    extract: Extractor, userLookup: string -> Option<Dict<string, Json>>): (o: SyncOutcome)
    ensures fetched.Err? ==> o == SyncOutcome([], Some(fetched.error))
    ensures fetched.Ok? ==>
              var c := ConvertAll(session, MergedRecords(fetched.value.1), extract, userLookup);
              Batches(o, c.0, c.1, BatchLimit(Exceeded, config.batchSize))
  {
    match fetched
    case Err(e) => SyncOutcome([], Some(e))
    case Ok(f) =>
      var converted := ConvertAll(session, MergedRecords(f.1), extract, userLookup);
      Emit(converted.0, converted.1, Exceeded, config.batchSize)
  }

  /** The merged records in order of first appearance of their ids. */
  function MergedRecords(merged: Merged): (r: seq<Dict<string, Json>>)
    ensures |r| == |merged|
    ensures forall i :: 0 <= i < |merged| ==> r[i] == merged[i].1
  {
    seq(|merged|, i requires 0 <= i < |merged| => merged[i].1)
  }

  predicate DistinctIds(docs: seq<Document>) {
    forall i, j :: 0 <= i < j < |docs| ==> docs[i].id != docs[j].id
  }

  /** A converted record's document id is its merge key behind the prefix. */
  lemma ConvertedIds(
    session: Session, merged: Merged,
    extract: Extractor, userLookup: string -> Option<Dict<string, Json>>)
    requires IdsMatch(merged)
    ensures var docs := ConvertAll(session, MergedRecords(merged), extract, userLookup).0;
      forall i :: 0 <= i < |docs| ==> docs[i].id == IdPrefix + merged[i].0
  {
    var records := MergedRecords(merged);
    var docs := ConvertAll(session, records, extract, userLookup).0;
    forall i | 0 <= i < |docs| ensures docs[i].id == IdPrefix + merged[i].0 {
      assert IdentifiedBy(docs[i], records[i]);
      assert merged[i] in merged;
    }
  }

  /** Ids made from distinct keys with one prefix are distinct, and so are those
      of any prefix of the documents. */
  lemma PrefixedIdsDistinct(docs: seq<Document>, keys: seq<string>, shown: seq<Document>)
    requires |docs| <= |keys|
    requires forall i :: 0 <= i < |docs| ==> docs[i].id == IdPrefix + keys[i]
    requires forall i, j :: 0 <= i < j < |keys| ==> keys[i] != keys[j]
    requires shown <= docs
    ensures DistinctIds(shown)
  {
    forall i, j | 0 <= i < j < |shown| ensures shown[i].id != shown[j].id {
      assert shown[i] == docs[i] && shown[j] == docs[j];
      assert (IdPrefix + keys[i])[|IdPrefix|..] == keys[i];
      assert (IdPrefix + keys[j])[|IdPrefix|..] == keys[j];
    }
  }

  /** Publishing merged records whose ids match their keys yields documents with
      distinct ids. */
  lemma PublishDistinctIds(
    config: Config, session: Session, requests: seq<Request>, merged: Merged,
    extract: Extractor, userLookup: string -> Option<Dict<string, Json>>)
    requires IdsMatch(merged)
    ensures DistinctIds(Flatten(Publish(config, session, Ok((requests, merged)), extract, userLookup).batches))
  {
    var converted := ConvertAll(session, MergedRecords(merged), extract, userLookup);
    assert Publish(config, session, Ok((requests, merged)), extract, userLookup)
        == Emit(converted.0, converted.1, Exceeded, config.batchSize);
    ConvertedIds(session, merged, extract, userLookup);
    EmittedIdsDistinct(converted.0, merged, converted.1, config.batchSize);
  }

  /** Batching documents whose ids are the distinct merge keys behind the prefix
      keeps the ids distinct. */
  lemma EmittedIdsDistinct(docs: seq<Document>, merged: Merged, failure: Option<SyncError>, batchSize: int)
    requires |docs| <= |merged|
    requires UniqueKeys(merged)
    requires forall i :: 0 <= i < |docs| ==> docs[i].id == IdPrefix + merged[i].0
    ensures DistinctIds(Flatten(Emit(docs, failure, Exceeded, batchSize).batches))
  {
    var keys := Keys(merged);
    UniqueKeysDistinct(merged);
    EmittedPrefix(docs, failure, Exceeded, batchSize);
    PrefixedIdsDistinct(docs, keys, Flatten(Emit(docs, failure, Exceeded, batchSize).batches));
  }

  /** The documents of a sync have distinct ids: one per merged record. Pages are
      what JSON decoding yields, so no object repeats a key. */
  lemma FetchDistinctIds(
    config: Config, session: Session, start: Option<string>, end: Option<string>,
    pages: seq<Dict<string, Json>>,
    userLookup: string -> Option<Dict<string, Json>>, parsedText: string -> string, rule: ListRule)
    requires forall p :: p in pages ==> Decoded(JObj(p))
    ensures DistinctIds(Flatten(Fetch(config, Some(session), start, end, pages, userLookup, parsedText, rule).batches))
  {
    var query := BuildQuery(config.productComponents, start, end);
    var fetched := FetchRecords(session, query, pages);
    assert Fetch(config, Some(session), start, end, pages, userLookup, parsedText, rule)
        == Publish(config, session, fetched, ArticleText(rule, parsedText), userLookup);
    if fetched.Ok? {
      DrainKeepsIds(session.instanceUrl, session.instanceUrl + QueryPath, query, pages, 0, []);
      PublishDistinctIds(config, session, fetched.value.0, fetched.value.1, ArticleText(rule, parsedText), userLookup);
    }
  }

  /** A sync that ends normally yields exactly one document per merged record id,
      in order of first appearance, and converts every merged record. */
  lemma FetchOneDocumentPerId(
    config: Config, session: Session, start: Option<string>, end: Option<string>,
    pages: seq<Dict<string, Json>>,
    userLookup: string -> Option<Dict<string, Json>>, parsedText: string -> string, rule: ListRule)
    requires forall p :: p in pages ==> Decoded(JObj(p))
    ensures var o := Fetch(config, Some(session), start, end, pages, userLookup, parsedText, rule);
      var fetched := FetchRecords(session, BuildQuery(config.productComponents, start, end), pages);
      o.error.None? ==>
        && fetched.Ok?
        && |Flatten(o.batches)| == |fetched.value.1|
        && forall i :: 0 <= i < |fetched.value.1| ==> Flatten(o.batches)[i].id == IdPrefix + fetched.value.1[i].0
  {
    var fetched := FetchRecords(session, BuildQuery(config.productComponents, start, end), pages);
    if fetched.Ok? {
      var query := BuildQuery(config.productComponents, start, end);
      DrainKeepsIds(session.instanceUrl, session.instanceUrl + QueryPath, query, pages, 0, []);
      ConvertedIds(session, fetched.value.1, ArticleText(rule, parsedText), userLookup);
    }
  }
}
