# Danswer connector normalisation, citation stream and Confluence group sync in Dafny

This project models four pieces of the Danswer backend:

- **The Jira connector.** It pages through a JQL search, turns each issue into a `Document` and yields the documents in batches. An issue is dropped when it carries a skip label or when its ticket text is over the size limit. The model covers the helpers that read users, fields, rich text, comments and custom fields.
- **The Salesforce knowledge-article connector.** It builds a SOQL query and follows `nextRecordsUrl` continuations. It merges record fragments by `Id`, then cleans and serialises each record and yields the documents in batches.
- **The citation stream processor.** It holds back a possible stop pattern and unfinished `[n` citations. It reports each in-range citation once, and outside code blocks it rewrites `[n]` to a markdown link to the cited document.
- **The Confluence group sync.** It folds the user listing, together with each user's groups, into a map from group name to member emails, and turns that map into external user groups.

The model has one module per component:

- Connectors: `JiraUtils`, `JiraConnector`, `SalesforceUtils`, `SalesforceConnector`.
- Citation processor: `Citations`.
- Group sync: `GroupSync`.

Shared modules:

- `Wrappers`: `Option` and `Result`.
- `Strings`: Python string operations.
- `OrderedDict`: an insertion-ordered dict.
- `Json`: decoded JSON.
- `Dynamic`: the dynamically typed values the Jira client hands out.
- `Documents`: `Document` and the errors.
- `Batching`: the batch accumulator both connectors use.

Remote services are inputs of the model:

- **Jira:** the search answers with pages of items.
- **Salesforce:** the pages are a finite list, answered in request order. The token endpoint and the user-name query are functions.
- **Confluence:** the user listing is a sequence. The username-to-email lookup and the per-user group listing are functions.

Python exceptions are `Err` values of `SyncError`. A generator that raises is a `SyncOutcome`: the batches yielded before the failure, and the error.

## Model

| member | source | states |
|---|---|---|
| Strings.Strip | backend/danswer/connectors/salesforce/connector.py:38 | `str.strip()` removes only whitespace, and only from the two ends, and leaves no whitespace at either end |
| Strings.StripFramed | backend/danswer/connectors/salesforce/connector.py:138-140 | stripping text surrounded by whitespace gives back exactly that text |
| Strings.StripIdempotent | backend/danswer/connectors/danswer_jira/connector.py:174 | stripping an already stripped string changes nothing |
| Strings.StripLayout | backend/danswer/connectors/salesforce/connector.py:145-176 | stripping the query template removes the indentation around the head and the condition, and keeps the line break before a present condition |
| Strings.Split | backend/danswer/connectors/salesforce/connector.py:38 | `s.split(c)` gives one piece more than there are separators; no piece holds the separator; joining the pieces with it restores `s` |
| Strings.SplitJoin | backend/danswer/connectors/salesforce/connector.py:38 | splitting the join of separator-free pieces gives back the pieces |
| Strings.Find | backend/danswer/llm/answering/stream_processing/citation_processing.py:90 | the offset found is an occurrence and no earlier offset is; none is found only when there is no occurrence |
| Strings.ReplaceFirst | backend/danswer/llm/answering/stream_processing/citation_processing.py:90 | `replace(old, new, 1)` keeps everything around the first occurrence and changes nothing when there is none |
| Strings.CountWithoutOccurrence | backend/danswer/llm/answering/stream_processing/citation_processing.py:19 | `count` is zero for text without an occurrence |
| Strings.NatToString | backend/danswer/llm/answering/stream_processing/citation_processing.py:88-89 | `str(n)` is a non-empty digit string without a leading zero that parses back to `n` |
| Strings.EncodeChar | backend/danswer/connectors/danswer_jira/connector.py:102 | a character encodes to 1 to 4 bytes (section 3 of RFC 3629), and to one byte equal to itself exactly when it is ASCII |
| Strings.Utf8Encode | backend/danswer/connectors/danswer_jira/connector.py:102 | the length of the encoding is the sum of the character widths |
| Strings.Utf8LengthConcat | backend/danswer/connectors/danswer_jira/connector.py:97-102 | the byte length of a concatenation is the sum of the byte lengths |
| Strings.Utf8LengthBounds | backend/danswer/connectors/danswer_jira/connector.py:102 | text needs one to four bytes per character, and one per character exactly when it is all ASCII |
| OrderedDict.Get | backend/danswer/connectors/salesforce/connector.py:85 | `d.get(k)` answers exactly for present keys, with the value of a pair stored under `k` |
| OrderedDict.GetLast | backend/danswer/connectors/danswer_jira/utils.py:120-124 | a comprehension over pairs leaves, under each key, the value of a pair with that key |
| OrderedDict.Put | backend/danswer/connectors/salesforce/utils.py:27-29 | `d[k] = v` stores `v` under `k`; every other key keeps its value; an existing key keeps its position and a new key goes last; distinct keys stay distinct |
| OrderedDict.Update | backend/danswer/connectors/salesforce/connector.py:211 | `d.update(r)` gives each key of `r` the last value `r` holds for it, keeps the rest of `d`, and keys stay distinct |
| OrderedDict.Remove | backend/danswer/connectors/salesforce/utils.py:16 | `d.pop(k)` removes `k` and nothing else |
| Dynamic.Attr | backend/danswer/connectors/danswer_jira/utils.py:22-23 | `getattr` succeeds exactly on a resource object that has the attribute, and otherwise raises naming it |
| Dynamic.Field | backend/danswer/connectors/danswer_jira/connector.py:81 | an `issue.fields` attribute is read when present and raises when absent |
| Dynamic.DictGet | backend/danswer/connectors/danswer_jira/utils.py:25 | `.get` works only on dicts and answers `None` for a missing key |
| Dynamic.Subscript | backend/danswer/connectors/danswer_jira/utils.py:43 | `v[key]` succeeds exactly on a dict holding the key |
| Dynamic.Iterate | backend/danswer/connectors/danswer_jira/utils.py:51 | iteration succeeds exactly on lists, dicts and strings, and a list yields its items |
| Dynamic.Str | backend/danswer/connectors/danswer_jira/connector.py:97 | interpolating a string gives the string; `None` gives `"None"` |
| Dynamic.StrJoin | backend/danswer/connectors/danswer_jira/utils.py:56 | `" ".join` succeeds exactly when every part is a string, and then joins their texts |
| Dynamic.Len | backend/danswer/connectors/danswer_jira/utils.py:133 | `len` works exactly on strings, lists and dicts, and a string's length is its character count |
| Batching.BatchLimit | backend/danswer/connectors/salesforce/connector.py:221 | the comparison after each append fires exactly when the batch reaches the limit: `batch_size` for `>=` (Jira) and `batch_size + 1` for `>` (Salesforce), never below 1 |
| Batching.AccumulateContent | backend/danswer/connectors/salesforce/connector.py:217-225 | the batches followed by the remainder are the documents, in order |
| Batching.AccumulateSizes | backend/danswer/connectors/danswer_jira/connector.py:211-214 | every yielded batch holds exactly the limit, and the remainder fewer |
| Batching.AccumulateShape | backend/danswer/connectors/danswer_jira/connector.py:203-216 | the number of yielded batches is the document count divided by the limit |
| Batching.Emit | backend/danswer/connectors/danswer_jira/connector.py:237-250 | a finished stream yields all documents, in full batches and then one short (possibly empty) final batch; a failing stream yields only full batches, of a prefix of the documents that leaves less than a batch behind, and reports the failure |
| JiraUtils.OptionalText | backend/danswer/connectors/danswer_jira/utils.py:35 | `BasicExpertInfo` accepts exactly `None` or a string for each field |
| JiraUtils.BestEffortExpertInfo | backend/danswer/connectors/danswer_jira/utils.py:19-36 | succeeds exactly when both lookups succeed and, unless both values are falsy, each is `None` or a string; then no person exactly when both are falsy, and otherwise a person holding both values as found |
| JiraUtils.ExpertInfoFromDict | backend/danswer/connectors/danswer_jira/utils.py:24-35 | a plain dict is read by its `displayName` and `emailAddress` keys, and a dict with neither is nobody |
| JiraUtils.ExpertInfoNeedsDisplayNameAttribute | backend/danswer/connectors/danswer_jira/utils.py:22-25 | a resource object without `display_name` has no `get` to fall back on, so the lookup raises |
| JiraUtils.BestEffortField | backend/danswer/connectors/danswer_jira/utils.py:38-45 | the attribute of `issue.fields` when present, else `raw["fields"][field]`, else `None` |
| JiraUtils.BestEffortFieldAbsent | backend/danswer/connectors/danswer_jira/utils.py:42-45 | a field found in neither place is `None` |
| JiraUtils.ExtractText | backend/danswer/connectors/danswer_jira/utils.py:48-56 | content without a `content` key flattens to the empty string |
| JiraUtils.In | backend/danswer/connectors/danswer_jira/utils.py:50-52 | `in` succeeds exactly on searchable values, and then means membership |
| JiraUtils.ExtractTextOfDocument | backend/danswer/connectors/danswer_jira/utils.py:48-56 | a well-formed document flattens to the space-joined texts of its text items two levels down, in document order |
| JiraUtils.ExtractTextIsShallow | backend/danswer/connectors/danswer_jira/utils.py:51-55 | a text node three levels down is not collected |
| JiraUtils.KeepComment | backend/danswer/connectors/danswer_jira/utils.py:64-81 | a comment is kept exactly when its body can be read and its author's email is not in the blacklist |
| JiraUtils.KeptComment | backend/danswer/connectors/danswer_jira/utils.py:64-81 | a single comment yields its body, or nothing when it is dropped |
| JiraUtils.KeptCommentsAppend | backend/danswer/connectors/danswer_jira/utils.py:63-81 | the decision for each comment is independent of the others, so the kept bodies of a concatenation concatenate, order preserved |
| JiraUtils.GetCommentStrs | backend/danswer/connectors/danswer_jira/utils.py:59-83 | raises exactly when `fields.comment` or its `comments` cannot be read or is not iterable; otherwise a failing comment drops only itself |
| JiraUtils.ProcessCustomFieldValue | backend/danswer/connectors/danswer_jira/utils.py:88-107 | a string passes through; an option gives its value; a user gives its display name; a list gives the space-join of its processed items, or `""` when one of them is not a string; anything else gives `str(value)`; a failure gives `""` |
| JiraUtils.ProcessedIsText | backend/danswer/connectors/danswer_jira/utils.py:92-104 | a value whose options and users hold strings always yields a string |
| JiraUtils.ProcessStringList | backend/danswer/connectors/danswer_jira/utils.py:99-102 | a list of strings yields them space-joined |
| JiraUtils.ProcessListWithNumberOption | backend/danswer/connectors/danswer_jira/utils.py:99-107 | a list with a numeric option makes the join raise, and the whole value yields `""` |
| JiraUtils.LastSelectedMeaning | backend/danswer/connectors/danswer_jira/utils.py:120-124 | the reference selection under a display name is empty exactly when no truthy configured field is shown under it, and otherwise holds the value of the last such field |
| JiraUtils.SelectedNames | backend/danswer/connectors/danswer_jira/utils.py:120-124 | under each display name the comprehension holds the value of the last truthy configured field shown under it, and has a key exactly for those names; keys are distinct |
| JiraUtils.KeptShort | backend/danswer/connectors/danswer_jira/utils.py:126-134 | only processed values strictly shorter than the maximum are kept |
| JiraUtils.KeepShortMeaning | backend/danswer/connectors/danswer_jira/utils.py:126-134 | over distinct names the loop raises exactly when some processed value has no `len`; otherwise each name holds its processed value exactly when that is shorter than the maximum |
| JiraUtils.SelectedUnmeasurable | backend/danswer/connectors/danswer_jira/utils.py:120-134 | some selected value has no processed length exactly when the last field shown under some display name has none |
| JiraUtils.GetIssueCustomFields | backend/danswer/connectors/danswer_jira/utils.py:110-136 | raises exactly when the last truthy field shown under some display name processes to a value without `len`; otherwise each display name holds the processed value of that field when it is shorter than the maximum, and no other name is present; keys are distinct |
| JiraUtils.CustomStringField | backend/danswer/connectors/danswer_jira/utils.py:130-134 | a configured string field is kept unchanged when short enough and dropped, not truncated, otherwise |
| JiraUtils.UnconfiguredFieldIgnored | backend/danswer/connectors/danswer_jira/utils.py:120-124 | an unconfigured or falsy field yields no entry |
| JiraUtils.SubName | backend/danswer/connectors/danswer_jira/utils.py:152 | a falsy sub-object gives `None`; a truthy one gives its attribute or raises |
| JiraUtils.CommonFieldsFrom | backend/danswer/connectors/danswer_jira/utils.py:151-163 | succeeds exactly when every sub-object can be read, with one entry per source, in order |
| JiraUtils.CommonFields | backend/danswer/connectors/danswer_jira/utils.py:150-163 | always the five keys Priority, Reporter, Assignee, Status, Resolution, in that order, each with its sub-object's name or `None` |
| JiraConnector.LeadingIssues | backend/danswer/connectors/danswer_jira/connector.py:56-60 | the issues before the first item that is not an issue |
| JiraConnector.PaginateShape | backend/danswer/connectors/danswer_jira/connector.py:43-65 | requests ask for offsets 0, p, 2p, …; the search continues exactly while pages come back full and clean, and stops after the first short page; the issues come out page by page (states Paginate) |
| JiraConnector.PaginateSlices | backend/danswer/connectors/danswer_jira/connector.py:43-65 | against a remote that answers with slices of its results, the search from request `i` yields the remaining results (states Paginate) |
| JiraConnector.PaginateFullPage | backend/danswer/connectors/danswer_jira/connector.py:62-65 | a full page lets the search go on at the next offset |
| JiraConnector.PaginateLastPage | backend/danswer/connectors/danswer_jira/connector.py:62-63 | a short page ends the search with the rest of the results |
| JiraConnector.PaginateAllResults | backend/danswer/connectors/danswer_jira/connector.py:37-65 | a remote holding N issues is asked N/p + 1 times (floor) and yields every issue once, in order |
| JiraConnector.SkipLabelled | backend/danswer/connectors/danswer_jira/connector.py:80-81 | an issue is skipped exactly when the skip set is non-empty and shares a label with the issue |
| JiraConnector.ShownComments | backend/danswer/connectors/danswer_jira/connector.py:98 | every shown line is the text of a truthy comment; when all comments are truthy all are shown, in order; when none is, nothing is |
| JiraConnector.ShownComment | backend/danswer/connectors/danswer_jira/connector.py:98 | one comment is shown, as its text, exactly when it is truthy |
| JiraConnector.ShownCommentsAppend | backend/danswer/connectors/danswer_jira/connector.py:98 | the comments shown from a concatenation are those of the parts, in order, so the shown comments are the truthy ones in their order |
| JiraConnector.CommentLines | backend/danswer/connectors/danswer_jira/connector.py:98 | one `Comment: ` line per shown comment, in order |
| JiraConnector.TicketContentLines | backend/danswer/connectors/danswer_jira/connector.py:97-99 | splitting the ticket text at newlines gives back the description and the comment lines |
| JiraConnector.Owner | backend/danswer/connectors/danswer_jira/connector.py:112-126 | a field names an owner exactly when the best-effort lookup finds a person; a failure names nobody |
| JiraConnector.OwnersDeduplicated | backend/danswer/connectors/danswer_jira/connector.py:111-126 | a creator who is also the assignee is one owner |
| JiraConnector.NamedMeta | backend/danswer/connectors/danswer_jira/connector.py:129-134 | a metadata key is set exactly for a truthy field, whose `name` must exist |
| JiraConnector.MetaEntries | backend/danswer/connectors/danswer_jira/connector.py:128-136 | the keys set are priority, status, resolution and label, each only when its field is truthy, in that order |
| JiraConnector.MetaValueOf | backend/danswer/connectors/danswer_jira/connector.py:147 | a metadata value is accepted exactly when it is a string or a list of strings |
| JiraConnector.Metadata | backend/danswer/connectors/danswer_jira/connector.py:147 | the metadata map has exactly the keys of the entries |
| JiraConnector.IssueDetails | backend/danswer/connectors/danswer_jira/connector.py:140-147 | the document's metadata keys are exactly those the issue sets; when the details can be read, the summary field is present and gives the title, and the updated field is the updated time string |
| JiraConnector.IssueDocument | backend/danswer/connectors/danswer_jira/connector.py:80-148 | no document for a skip-labelled issue or a ticket over the byte limit; otherwise the id and only section link are the browse URL, the section holds the ticket text, the semantic identifier is the key, `: ` and the summary, the title is the key, a space and the summary, the updated time is the issue's `updated` field, and the owners and metadata are those of the issue |
| JiraConnector.MetadataKeys | backend/danswer/connectors/danswer_jira/connector.py:128-136 | each metadata key is present exactly when its field is truthy |
| JiraConnector.ConvertIssues | backend/danswer/connectors/danswer_jira/connector.py:75-148 | never more documents than issues |
| JiraConnector.ConvertedFromIssues | backend/danswer/connectors/danswer_jira/connector.py:75-148 | every document is the conversion of one of the issues |
| JiraConnector.ConvertIssuesAppend | backend/danswer/connectors/danswer_jira/connector.py:75-86 | the stream over a concatenation is the two streams one after the other |
| JiraConnector.SkippedIssueLeavesNoTrace | backend/danswer/connectors/danswer_jira/connector.py:80-86 | an issue that converts to nothing can be removed without changing the stream |
| JiraConnector.StreamRespectsSkipLabels | backend/danswer/connectors/danswer_jira/connector.py:80-86 | every document is the browse page of an issue without a skip label |
| JiraConnector.SkipLabelledIssueIgnored | backend/danswer/connectors/danswer_jira/connector.py:80-86 | inserting a skip-labelled issue anywhere changes nothing |
| JiraConnector.NewJiraConnector | backend/danswer/connectors/danswer_jira/connector.py:152-169 | a new connector has no client and an empty blacklist when none is given, and its skip set holds exactly the given labels |
| JiraConnector.CommentEmailBlacklist | backend/danswer/connectors/danswer_jira/connector.py:172-174 | one entry per configured email, each that email stripped, so none has whitespace at either end |
| JiraConnector.BlacklistStripped | backend/danswer/connectors/danswer_jira/connector.py:172-174 | stripping the blacklist again changes nothing |
| JiraConnector.JiraClient | backend/danswer/connectors/danswer_jira/connector.py:176-180 | the client is returned exactly when credentials were loaded; otherwise the missing-credential error for Jira |
| JiraConnector.LoadCredentials | backend/danswer/connectors/danswer_jira/connector.py:182-198 | the API token is required; with an email the client uses basic auth with both, otherwise token auth |
| JiraConnector.Sync | backend/danswer/connectors/danswer_jira/connector.py:237-250 | without a client nothing is yielded and the missing credential is reported; with one, the documents of the search are yielded in batches of `batch_size`: all of them and a short last batch when the search ends, only full batches and the error when it fails (states FetchIssuesBatch, the paginated search converted issue by issue) |
| JiraConnector.LoadFromStateAsWritten | backend/danswer/connectors/danswer_jira/connector.py:200-201 | as written, the full load fails on the undefined `quoted_jira_project` |
| JiraConnector.FullLoadAsWrittenYieldsNothing | backend/danswer/connectors/danswer_jira/connector.py:200-216 | as written, the full load yields no batch at all, whereas a successful sync always yields at least one |
| JiraConnector.LoadFromState | backend/danswer/connectors/danswer_jira/connector.py:200-216 | the corrected full load yields exactly the documents converted from the search of the configured filter, in full batches and a final short one, or the full batches and the error when the search fails |
| JiraConnector.PollQueryWindow | backend/danswer/connectors/danswer_jira/connector.py:231-235 | the window can be read back from the poll query, whose last two conditions are the inclusive bounds |
| JiraConnector.PollSource | backend/danswer/connectors/danswer_jira/connector.py:218-250 | without credentials the missing-credential error; otherwise exactly the documents converted from the search of the filter restricted to the window, in batches of `batch_size` with a short last one, or full batches and the error when the search fails |
| SalesforceUtils.FilteredKeyIsSearch | backend/danswer/connectors/salesforce/utils.py:6-21 | the suffix test is exactly a case-insensitive search for `Id$`, `Date$`, `stamp$` or `url$`, where `$` also matches before a final newline |
| SalesforceUtils.LastCharKeepsKey | backend/danswer/connectors/salesforce/utils.py:21 | a key whose last character cannot end a filter word passes the filter |
| SalesforceUtils.RenameKey | backend/danswer/connectors/salesforce/utils.py:22-23 | a key containing `__c` loses its last three characters; any other key is unchanged |
| SalesforceUtils.RenameCustomField | backend/danswer/connectors/salesforce/utils.py:22-23 | `base__c` is shown as `base` |
| SalesforceUtils.MergeAttributes | backend/danswer/connectors/salesforce/utils.py:13-16 | an `attributes` dict is replaced by its members, which override members of the same name; everything else stays |
| SalesforceUtils.RulesAgree | backend/danswer/connectors/salesforce/utils.py:31-40 | on data in which no visited list holds a non-null scalar, the cleaner as written and the corrected one give the same result |
| SalesforceUtils.CleanTidy | backend/danswer/connectors/salesforce/utils.py:9-42 | with the corrected list rule the cleaner never fails, and its output has no null and no empty nested container |
| SalesforceUtils.Clean | backend/danswer/connectors/salesforce/utils.py:9-42 | the cleaned value is tidy and is what the corrected cleaner returns |
| SalesforceUtils.CleanEntriesKeys | backend/danswer/connectors/salesforce/utils.py:18-30 | every key of a cleaned dict is the display name of an input key that passed the filter; every such key holding a non-null scalar is present |
| SalesforceUtils.CleanEntriesKeysKept | backend/danswer/connectors/salesforce/utils.py:20-29 | the loop over a dict's members never drops a key it has already stored |
| SalesforceUtils.CleanEntriesKeysFrom | backend/danswer/connectors/salesforce/utils.py:20-29 | every key the loop stores is the display name of an input key that passed the filter |
| SalesforceUtils.CleanEntriesKeysScalar | backend/danswer/connectors/salesforce/utils.py:20-29 | every input key that passed the filter and holds a non-null scalar ends up stored under its display name |
| SalesforceUtils.CleanEntriesUntouched | backend/danswer/connectors/salesforce/utils.py:20-29 | a key that no later input key maps to keeps its value |
| SalesforceUtils.CleanEntriesScalar | backend/danswer/connectors/salesforce/utils.py:20-29 | a non-null scalar under a kept key is the value of its display name, unless a later kept key has the same display name |
| SalesforceUtils.CleanRecord | backend/danswer/connectors/salesforce/utils.py:9-30 | a record's keys come from unfiltered input keys, and each unfiltered non-null scalar is kept under its display name |
| SalesforceUtils.CleanKeepsCustomField | backend/danswer/connectors/salesforce/utils.py:21-29 | `base__c` holding a non-null scalar is kept under `base` whatever `base` ends in, because the filter runs before the rename |
| SalesforceUtils.CustomIdFieldKept | backend/danswer/connectors/salesforce/utils.py:21-23 | `Parent_Id` is filtered, but `Parent_Id__c` is kept and shown as `Parent_Id` |
| SalesforceUtils.CleanScalarList | backend/danswer/connectors/salesforce/utils.py:31-40 | with the corrected rule, a list of scalars keeps every non-null scalar, in order |
| SalesforceUtils.AsWrittenScalarListFails | backend/danswer/connectors/salesforce/utils.py:33-39 | as written, a list starting with a non-null scalar raises `UnboundLocalError`; corrected, the scalars are kept |
| SalesforceUtils.AsWrittenScalarRepeatsContainer | backend/danswer/connectors/salesforce/utils.py:33-39 | as written, a scalar after a non-empty container is replaced by a second copy of that container; corrected, the scalar follows it |
| SalesforceUtils.OneMemberRecordIsClean | backend/danswer/connectors/salesforce/utils.py:18-30 | a record of one kept, unrenamed scalar key is already clean under both rules |
| SalesforceUtils.AsWrittenListExample | backend/danswer/connectors/salesforce/utils.py:31-40 | a concrete record followed by a product name: as written the record appears twice |
| SalesforceUtils.RenderIsLines | backend/danswer/connectors/salesforce/utils.py:45-62 | the serialisation of a tidy value is its lines joined by newlines: a scalar member is `key: value`; a nested one is `key:` followed by the child two columns in; list items stay at the list's indentation |
| SalesforceUtils.LinesIndented | backend/danswer/connectors/salesforce/utils.py:45-62 | every line starts with the indentation of its level |
| SalesforceUtils.ScalarMemberLine | backend/danswer/connectors/salesforce/utils.py:54-55 | each scalar member appears as its own `key: value` line |
| SalesforceUtils.CleanHtml | backend/danswer/connectors/salesforce/utils.py:89-94 | the parsed text with every non-breaking space turned into a space and nothing else changed |
| SalesforceUtils.ExtractCleanFails | backend/danswer/connectors/salesforce/utils.py:65-66 | under either list rule, a failure of the cleaner is the failure of the extraction |
| SalesforceUtils.ExtractRulesAgree | backend/danswer/connectors/salesforce/utils.py:65-72 | where no list holds a non-null scalar, the extraction as written is the corrected one |
| SalesforceUtils.AsWrittenExtractionFails | backend/danswer/connectors/salesforce/utils.py:35-39 | the record `{"Body": ["x"]}` makes the extraction as written raise `UnboundLocalError`; corrected, its text is `Body:` and `  x` |
| SalesforceUtils.ExtractWithoutResolution | backend/danswer/connectors/salesforce/utils.py:65-72 | under either list rule, a record whose cleaned form has no `Resolution` is its lines joined by newlines, and the HTML cleaner plays no part |
| SalesforceUtils.ExtractWithResolution | backend/danswer/connectors/salesforce/utils.py:65-72 | under either list rule, a string `Resolution` is replaced by its cleaned HTML and shown as a `Resolution:` line, and every other member keeps its value; a non-string `Resolution` fails |
| SalesforceUtils.ExtractList | backend/danswer/connectors/salesforce/utils.py:65-72 | under either list rule, a cleaned list is written item by item unless it holds the string `Resolution`, which the item assignment cannot take |
| SalesforceConnector.ParseRequestedObjects | backend/danswer/connectors/salesforce/connector.py:37-41 | no requested objects gives `None`; otherwise the first entry split at commas, each piece stripped |
| SalesforceConnector.ParseRequestedObjectsRoundTrip | backend/danswer/connectors/salesforce/connector.py:37-41 | comma-joined names without commas or surrounding whitespace parse back to the names |
| SalesforceConnector.QuotedComponents | backend/danswer/connectors/salesforce/connector.py:136-142 | exactly the components that are not blank, each stripped and quoted |
| SalesforceConnector.ProductFilter | backend/danswer/connectors/salesforce/connector.py:133-143 | no condition exactly when there are no components; otherwise an `IN` list of the quoted components |
| SalesforceConnector.BuildQueryIsStrippedTemplate | backend/danswer/connectors/salesforce/connector.py:145-185 | the query is the stripped template, followed by a `>=` bound when a start is given and a `<=` bound when an end is given (states BuildQuery) |
| SalesforceConnector.LoadCredentials | backend/danswer/connectors/salesforce/connector.py:43-74 | a session needs all four credentials; with them, it is made exactly when the token endpoint answers with a string access token and a string instance URL, which the session holds |
| SalesforceConnector.MergeRecord | backend/danswer/connectors/salesforce/connector.py:211 | merging succeeds exactly for a dict with a string `Id` (see Left out), and updates the fields stored under that id |
| SalesforceConnector.MergeRecordGet | backend/danswer/connectors/salesforce/connector.py:211 | merging one record changes only the entry of its id |
| SalesforceConnector.MergeRecordsById | backend/danswer/connectors/salesforce/connector.py:209-211 | one entry per distinct id, holding, field by field, the value of the last fragment that supplied it |
| SalesforceConnector.DrainRequests | backend/danswer/connectors/salesforce/connector.py:203-215 | the loop starts at the query URL, and each later request goes to the instance URL followed by the continuation the previous page named (states Drain and FetchRecords) |
| SalesforceConnector.DrainKeepsIds | backend/danswer/connectors/salesforce/connector.py:203-215 | after every page each merged record is stored, once, under its own `Id` (states Drain) |
| SalesforceConnector.OwnerName | backend/danswer/connectors/salesforce/connector.py:103-122 | `Unknown` when the request failed, `records` is missing, falsy or an empty list, or the first record has no `Name`; otherwise the first record's string `Name`, or no name for `null`; any other `Name` is refused |
| SalesforceConnector.SemanticIdentifier | backend/danswer/connectors/salesforce/connector.py:85 | the record's `Title` when it is a string, `Unknown Object` without one; any other title is refused, and only then |
| SalesforceConnector.ConvertRecord | backend/danswer/connectors/salesforce/connector.py:76-101 | conversion succeeds exactly when `Id`, `LastModifiedDate` and `LastModifiedById` are strings, extraction and the owner lookup succeed, and the title is absent or a string; a missing `LastModifiedById` is reported before any title problem, as the document is built last; the id is `SALESFORCE_` plus the Salesforce id; the only section links to the instance URL, `/` and the id, and holds the article text; the updated time is `LastModifiedDate`; the one owner has the name the user query answers for `LastModifiedById`; there is no metadata; a missing id or a failed extraction is the conversion's failure |
| SalesforceConnector.ArticleTextIsExtraction | backend/danswer/connectors/salesforce/connector.py:84 | for the given list rule, the text is that of `extract_dict_text` and its failure is the extraction's, and the record is read afterwards as the in-place cleaning left it |
| SalesforceConnector.AsWrittenRecordFails | backend/danswer/connectors/salesforce/connector.py:76-101 | a record with an id, a modification date and `"Body": ["x"]` does not convert as written, so a sync stops there; with the corrected rule its text is the list under its key |
| SalesforceConnector.ConvertAll | backend/danswer/connectors/salesforce/connector.py:217-220 | records are converted in order; the conversion stops only at a failure, and each document carries its record's id |
| SalesforceConnector.ConvertAllConverts | backend/danswer/connectors/salesforce/connector.py:217-220 | each document is the conversion of the record at its position, and a failure is that of the first record that does not convert |
| SalesforceConnector.MergedRecords | backend/danswer/connectors/salesforce/connector.py:217 | the merged records in order of first appearance of their ids |
| SalesforceConnector.ConvertedIds | backend/danswer/connectors/salesforce/connector.py:80-81 | each document id is its merge key behind the prefix |
| SalesforceConnector.Publish | backend/danswer/connectors/salesforce/connector.py:217-225 | a paging failure yields no batch; otherwise the merged records, converted in order until the first failure, are yielded in batches of `batch_size + 1`, with a short last batch when every record converts and only full batches before a conversion failure |
| SalesforceConnector.Fetch | backend/danswer/connectors/salesforce/connector.py:187-235 | without a session nothing is yielded and the missing `instance_url` is reported; with one, the records FetchRecords merges from the pages of the BuildQuery query are published as Publish states; the list rule of the cleaner is a parameter, `AsWritten` being the code as written |
| SalesforceConnector.PublishDistinctIds | backend/danswer/connectors/salesforce/connector.py:217-225 | the published documents have distinct ids |
| SalesforceConnector.FetchDistinctIds | backend/danswer/connectors/salesforce/connector.py:187-225 | no two documents a sync yields share an id |
| SalesforceConnector.FetchOneDocumentPerId | backend/danswer/connectors/salesforce/connector.py:203-225 | a sync that ends normally yields exactly one document per merged record id, in order of first appearance |
| Citations.FencesToggle | backend/danswer/llm/answering/stream_processing/citation_processing.py:18-20 | text without fences is outside a code block; an opening fence enters one and a closing fence leaves it |
| Citations.PossibleCitationMeaning | backend/danswer/llm/answering/stream_processing/citation_processing.py:60-61 | a possible citation is exactly a `[` followed by digits up to the end of the text or up to its final newline |
| Citations.FindCitations | backend/danswer/llm/answering/stream_processing/citation_processing.py:67-68 | every match is a non-empty digit string (CitationListed gives completeness) |
| Citations.FoundCitationsOccur | backend/danswer/llm/answering/stream_processing/citation_processing.py:67-68 | every match occurs bracketed in the text |
| Citations.CitationListed | backend/danswer/llm/answering/stream_processing/citation_processing.py:67-68 | every bracketed number in the segment is among the matches `findall` returns |
| Citations.HasCitationMeaning | backend/danswer/llm/answering/stream_processing/citation_processing.py:63-64 | the search finds a citation exactly when the text holds a bracketed number |
| Citations.Distinct | backend/danswer/llm/answering/stream_processing/citation_processing.py:69-71 | iterating over the match set visits every match exactly once |
| Citations.Cite | backend/danswer/llm/answering/stream_processing/citation_processing.py:71-90 | only new in-range numbers are reported, each with its document's id; every in-range match is cited afterwards, now or before; the segment is unchanged when no matched document has a link, whatever links other documents have |
| Citations.HandleCitesEvery | backend/danswer/llm/answering/stream_processing/citation_processing.py:66-85 | outside a code block, every bracketed number of the segment that names a context document is cited once the segment is handled |
| Citations.YieldSegment | backend/danswer/llm/answering/stream_processing/citation_processing.py:100-106 | the citations come first and then one answer piece; the piece with the remembered `[` gives back the segment |
| Citations.Decide | backend/danswer/llm/answering/stream_processing/citation_processing.py:60-92 | citations are rewritten exactly when one is found outside a code block; otherwise the segment is held exactly when it ends in a possible citation |
| Citations.Handle | backend/danswer/llm/answering/stream_processing/citation_processing.py:66-106 | without a citation found, nothing is reported and at most one answer piece is yielded |
| Citations.HandleCitesOnce | backend/danswer/llm/answering/stream_processing/citation_processing.py:71-85 | the citations of one segment are new, distinct and of context documents |
| Citations.Process | backend/danswer/llm/answering/stream_processing/citation_processing.py:53-106 | the token is appended to the output, and inside a code block nothing is cited |
| Citations.ProcessInCodeBlockKeepsText | backend/danswer/llm/answering/stream_processing/citation_processing.py:66-106 | inside a code block, whatever links the documents have, the text read is yielded unchanged or kept pending |
| Citations.Run | backend/danswer/llm/answering/stream_processing/citation_processing.py:35-106 | over any run of tokens each number is reported at most once, only in range, and with its document's id |
| Citations.Flush | backend/danswer/llm/answering/stream_processing/citation_processing.py:108-112 | corrected flush: yields exactly the pending text, the remembered `[` included, and no citation |
| Citations.ExtractCitations | backend/danswer/llm/answering/stream_processing/citation_processing.py:23-112 | the whole stream reports each number at most once, only for context documents, with their ids |
| Citations.StepInv | backend/danswer/llm/answering/stream_processing/citation_processing.py:36-106 | between tokens a remembered `[` has an empty segment after it, and the held text is a proper prefix of the stop pattern (states Step) |
| Citations.FlushAsWrittenDropsBracket | backend/danswer/llm/answering/stream_processing/citation_processing.py:101-112 | as written, the `"[" + curr_segment` branch is never taken, so a remembered `[` is lost at the end |
| Citations.YieldKeepsText | backend/danswer/llm/answering/stream_processing/citation_processing.py:100-106 | yielding loses no text: the piece and the remembered `[` give back the segment |
| Citations.StepKeepsText | backend/danswer/llm/answering/stream_processing/citation_processing.py:35-106 | without links, one step loses or invents no text (states Step) |
| Citations.RunKeepsText | backend/danswer/llm/answering/stream_processing/citation_processing.py:35-106 | without links and before the stop pattern, the text read is the text yielded followed by what is pending and held |
| Citations.AnswerPreserved | backend/danswer/llm/answering/stream_processing/citation_processing.py:23-112 | without links or stop pattern, the corrected stream yields the whole answer except a held beginning of the stop pattern |
| Citations.StopSilencesRest | backend/danswer/llm/answering/stream_processing/citation_processing.py:36-40 | from the token with which the held text contains the stop pattern on, the loop yields nothing and its state is kept, marked stopped; text pending before that token is still flushed at lines 108-112 |
| Citations.RunThroughStop | backend/danswer/llm/answering/stream_processing/citation_processing.py:35-40 | the loop over tokens that reach the stop pattern ends in the state reached before the completing token, marked stopped, with the pieces yielded before it, whatever tokens follow |
| Citations.StoppedStreamFlushes | backend/danswer/llm/answering/stream_processing/citation_processing.py:35-112 | a stream cut at the stop pattern (lines 36-40) yields the pieces yielded before the completing token followed by the flush of lines 108-112 of the text pending at that point |
| Citations.HeldTextFlushedAfterStop | backend/danswer/llm/answering/stream_processing/citation_processing.py:35-112 | with the stop pattern `STOP`, the stream `[1`, `STOP` still yields `[1`: the held possible citation is flushed (lines 108-112) after the loop stops (lines 36-40) |
| Citations.PrefixOfStopHeld | backend/danswer/llm/answering/stream_processing/citation_processing.py:42-44 | a token that continues the stop pattern without completing it is held and yields nothing |
| Citations.CitationsOnce | backend/danswer/llm/answering/stream_processing/citation_processing.py:73-85 | the stream as written also reports each number at most once, in range, with the document's id (states ExtractCitationsAsWritten) |
| Citations.CiteOne | backend/danswer/llm/answering/stream_processing/citation_processing.py:71-85 | a single in-range match is reported once with its document's id |
| Citations.CiteWhole | backend/danswer/llm/answering/stream_processing/citation_processing.py:87-90 | a token that is exactly the citation of a linked document becomes the markdown link |
| Citations.LinkedCitation | backend/danswer/llm/answering/stream_processing/citation_processing.py:66-106 | a citation of a linked document, outside a code block, is reported and then yielded as the link |
| Citations.OpenCitationHeld | backend/danswer/llm/answering/stream_processing/citation_processing.py:60-98 | an unfinished `[digits` yields nothing and stays in the segment |
| Citations.EndsHoldingBracket | backend/danswer/llm/answering/stream_processing/citation_processing.py:108-112 | a run ending with only a remembered `[` yields nothing more as written, and the `[` when corrected |
| Citations.TrailingBracketLost | backend/danswer/llm/answering/stream_processing/citation_processing.py:101-112 | the one-token stream `[n][` yields `[n]` and loses the `[` as written; the corrected end yields it |
| GroupSync.Subscript | backend/ee/danswer/external_permissions/confluence/group_sync.py:17 | `v[key]` succeeds exactly on a dict with the key; a dict without it raises `KeyError` |
| GroupSync.UserEmail | backend/ee/danswer/external_permissions/confluence/group_sync.py:18-27 | the user's email when truthy; else the lookup of a truthy username; fails exactly on a non-dict user |
| GroupSync.AddMember | backend/ee/danswer/external_permissions/confluence/group_sync.py:34-35 | the group's name becomes a key and only its set gains the email; an unhashable name or email raises |
| GroupSync.AddToGroups | backend/ee/danswer/external_permissions/confluence/group_sync.py:32-35 | the email joins exactly the groups listed for the user, and only their names become keys |
| GroupSync.AddUser | backend/ee/danswer/external_permissions/confluence/group_sync.py:16-35 | a result without `user` raises, and a user without a truthy email leaves the map as it was |
| GroupSync.UserWithoutEmailIgnored | backend/ee/danswer/external_permissions/confluence/group_sync.py:28-30 | a user without an email, even after the username lookup, contributes to no group |
| GroupSync.AddUserMembers | backend/ee/danswer/external_permissions/confluence/group_sync.py:32-35 | one user adds its email to exactly its groups |
| GroupSync.AddUsersMembers | backend/ee/danswer/external_permissions/confluence/group_sync.py:16-35 | over a run of users, each group grows by exactly its members among them |
| GroupSync.MapIsMembership | backend/ee/danswer/external_permissions/confluence/group_sync.py:12-37 | the map holds, under each group name, exactly the emails of the qualifying users listed in that group, and no name without a member; names are distinct (states BuildGroupMemberEmailMap) |
| GroupSync.ToGroups | backend/ee/danswer/external_permissions/confluence/group_sync.py:52-59 | one group per map entry, in map order, with the entry's name and emails |
| GroupSync.ConfluenceGroupSync | backend/ee/danswer/external_permissions/confluence/group_sync.py:40-61 | a missing `wiki_base` raises `KeyError`; otherwise the sync succeeds exactly when building the map does |
| GroupSync.SyncedGroupsAreMemberships | backend/ee/danswer/external_permissions/confluence/group_sync.py:52-61 | the synced groups are exactly the groups with a member, each once, holding exactly its members |

## Left out

- HTTP, OAuth and client construction. `requests`, the `JIRA` client, the Salesforce token endpoint, the user-name query and the Confluence client are parameters: given pages, or functions from the request to the decoded answer. Jira's `client_info()` is a given string.
- The duplicate first Salesforce request (connector.py:199-201) is recorded in the request list, but its answer is ignored, as in the source.
- A Salesforce continuation beyond the given pages ends the model's loop with an `Undrained` error. Likewise, a Jira search that needs more pages than given ends with `Undrained`. A real remote would answer those requests.
- `clean_html`'s HTML parsing (BeautifulSoup and lxml) is a function parameter. Only the replacement of non-breaking spaces is modelled.
- Timestamps. `time_str_to_utc`, `datetime.fromtimestamp` and `strftime` are not modelled. The formatted window strings are inputs, and the updated-time field is kept as the string the source parses.
- Python's `repr` of containers and resource objects is a function parameter of `Dynamic.Str`.
- The regular expressions' `\d` is modelled as ASCII digits. `re.IGNORECASE` matching covers ASCII letters plus the three non-ASCII characters Python matches against the filter's letters: `İ` and `ı` for `i`, and `ſ` for `s`.
- Citations.Distinct: the order in which Python iterates over `set(matches)` is unspecified. The model visits the distinct matches in order of first occurrence. The set of reported citations does not depend on that order, but the rewritten text can: with document 7 linked, the segment `[007] [7]` becomes two links when `7` is replaced first, but when `007` is replaced first its link contains `[7]`, which the later `replace(..., 1)` for `7` rewrites instead of the second citation. The model promises only the first-occurrence order.
- `doc_id_to_rank_map`, `build_citation_processor` and the default `STOP_STREAM_PAT` are not modelled. The model takes the stop pattern as an argument, while the source's only caller, `build_citation_processor`, passes none and so relies on the default value, which is not part of this model. The rank map is unused in the source.
- Text that is held as a prefix of the stop pattern when the stream ends is never yielded, in the source as in the model. Citations.AnswerPreserved states this exception.
- Line 54 of the citation processor prepends `"[" + curr_segment`. This equals `"["` because the segment is always empty when a `[` is remembered (Citations.StepInv). The model follows the line literally.
- `primary_owners` (Jira) is a set. `list(people)` has no fixed order in Python.
- `ExternalUserGroup.user_emails` is kept as the set. `list(...)` of a set has no fixed order.
- GroupSync.AddMember: Python treats `True` and `1` as the same dict key. The model compares JSON values structurally.
- The Confluence `is_cloud` setting and the credentials only reach the client builder, which is a parameter.
- `CustomFieldExtractor.get_all_custom_fields` is left out. It only reads the field list from the Jira client, and the configured custom fields are an input of `JiraUtils.GetIssueCustomFields`.
- The Jira API version and the maximum ticket size are parameters (`Env`), because the source reads them from the environment.
- Logging and the `__main__` demo blocks.
- JiraConnector.PaginateAllResults: a remote with N issues and page size p gets N/p + 1 requests, rounded down, not ⌈N/p⌉. The last page may be empty. This is what the loop does.
- JiraUtils.GetIssueCustomFields: the doc comment says over-long values are truncated, but the code drops them. The model follows the code (JiraUtils.CustomStringField).
- Batching.BatchLimit: Jira emits when the batch reaches `batch_size` (`>=`). Salesforce emits only once it exceeds it (`>`), so its full batches hold `batch_size + 1` documents. Both are modelled as written.
- SalesforceConnector.Fetch: the sync is stated for both list rules. `AsWritten` is the cleaner as the code reads; `Corrected` appends the scalar itself (see Findings). SalesforceUtils.RulesAgree shows the two coincide unless a list holds a non-null scalar, and SalesforceConnector.AsWrittenRecordFails shows a record on which the sync as written stops.
- SalesforceConnector.MergeRecord: only a string `Id` is accepted. `setdefault` also takes an integer, boolean or `null` id; the model refuses those records, because document ids are built by string concatenation later on.
- SalesforceConnector.Drain: a truthy `nextRecordsUrl` that is not a string is refused, whereas the f-string would render it; a page is a JSON object, so an array answer, on which `data.get` raises, cannot be expressed.
- SalesforceConnector.LoadCredentials: an `access_token` or `instance_url` that is not a string is refused, whereas the source stores whatever the token endpoint returned.
- SalesforceConnector.ConvertRecord: a `LastModifiedById` that is not a string is refused, whereas the source interpolates it into the user query.
- SalesforceConnector.SemanticIdentifier: the `Document` type that validates the title is not part of this model; a present title that is not a string is refused, which is what a `null` title does, while a validator that converts numbers to text would accept a numeric one.
- JSON numbers are integers only. Salesforce doubles such as `ArticleTotalViewCount` decode to Python floats and are written as `12.0`; the model has no float and would write `12`.
- Dafny's `char` has no lone surrogates, so the `UnicodeEncodeError` that `encode("utf-8")` raises on one in a Jira ticket cannot arise in the model.
- SalesforceUtils.CleanRecord: the key filter runs before the `__c` suffix is removed, so `X_Id__c` is kept as `X_Id`. This is what the code does (SalesforceUtils.CustomIdFieldKept).

## Findings

| source | as written | input that shows it | evidently intended | confidence | as-written member | corrected member |
|---|---|---|---|---|---|---|
| backend/danswer/connectors/salesforce/utils.py:39 | a non-null scalar list item appends `filtered_item`, the last cleaned container, or raises `UnboundLocalError` when there is none | `[{"Summary": "Robot"}, "Studio"]` cleans to `[{"Summary": "Robot"}, {"Summary": "Robot"}]`; `["Studio"]` raises | append the item itself | high (not executed) | SalesforceUtils.AsWrittenScalarListFails | SalesforceUtils.CleanScalarList |
| backend/danswer/connectors/danswer_jira/connector.py:201 | `load_from_state` reads `self.quoted_jira_project`, which the connector never sets | any full load of a connector with credentials | build the query from the configured filter, as `poll_source` does | high (not executed) | JiraConnector.FullLoadAsWrittenYieldsNothing | JiraConnector.LoadFromState |
| backend/danswer/connectors/salesforce/utils.py:66 | `extract_dict_text` runs the cleaner as written, so the conversion of a record holding a list with a non-null scalar raises and ends the sync | the record `{"Id": "a", "LastModifiedDate": "d", "Body": ["x"]}` | the text of the list under its key, `Body:` and `  x` | high (not executed) | SalesforceConnector.AsWrittenRecordFails | SalesforceUtils.CorrectedCleansTidy |
| backend/danswer/llm/answering/stream_processing/citation_processing.py:108-112 | at the end of the stream a remembered `[` is yielded only together with a non-empty segment, which never follows it | the single token `[1][` with one unlinked context document yields `[1]` and drops the `[` | yield the remembered `[` even when the segment is empty | medium (not executed) | Citations.TrailingBracketLost | Citations.ExtractCitations |
