/** The field helpers of the Jira connector: best-effort owner and field lookup,
    the flattening of Atlassian rich text, the comment list with its author
    blacklist, and the coercion of custom-field values to text. */
module JiraUtils {
  import opened Wrappers
  import opened Strings
  import opened OrderedDict
  import opened Documents
  import opened Dynamic

  /** A Jira issue: its key, the attribute table of `issue.fields`, and the raw
      decoded JSON it was built from. */
  datatype Issue = Issue(key: string, fields: Dict<string, Value>, raw: Value)

  // ---------------------------------------------------------------------------
  // owners and fields

  /** An attribute when the object has it, otherwise `obj.get(key)`. */
  function AttrOrGet(obj: Value, attr: string, key: string): Result<Value, SyncError> {
    if HasAttr(obj, attr) then Attr(obj, attr) else DictGet(obj, key)
  }

  /** The optional text a `BasicExpertInfo` field accepts. */
  function OptionalText(v: Value): (r: Result<Option<string>, SyncError>)
    ensures r.Ok? <==> v.VNone? || v.VStr?
    ensures r == Ok(None) <==> v.VNone?
    ensures v.VStr? ==> r == Ok(Some(v.s))
  {
    match v
    case VNone => Ok(None)
    case VStr(s) => Ok(Some(s))
    case _ => Err(WrongType("BasicExpertInfo"))
  }

  /** The value an optional text stands for. */
  function TextValue(t: Option<string>): (v: Value)
    ensures OptionalText(v) == Ok(t)
  {
    match t
    case None => VNone
    case Some(s) => VStr(s)
  }

  /** `best_effort_basic_expert_info`: no person when both the display name and
      the e-mail address are falsy, otherwise a person carrying both values as
      they were found. */
  function BestEffortExpertInfo(obj: Value): (r: Result<Option<ExpertInfo>, SyncError>)
    ensures r.Ok? ==> AttrOrGet(obj, "display_name", "displayName").Ok? && AttrOrGet(obj, "emailAddress", "emailAddress").Ok?
    ensures r.Ok? ==>
              var name := AttrOrGet(obj, "display_name", "displayName").value;
              var email := AttrOrGet(obj, "emailAddress", "emailAddress").value;
              && (r.value.None? <==> !Truthy(name) && !Truthy(email))
              && (r.value.Some? ==> TextValue(r.value.value.displayName) == name && TextValue(r.value.value.email) == email)
    ensures var name := AttrOrGet(obj, "display_name", "displayName");
      var email := AttrOrGet(obj, "emailAddress", "emailAddress");
      r.Ok? <==> && name.Ok? && email.Ok?
                 && (Truthy(name.value) || Truthy(email.value) ==> OptionalText(name.value).Ok? && OptionalText(email.value).Ok?)
  {
    var name :- AttrOrGet(obj, "display_name", "displayName");
    var email :- AttrOrGet(obj, "emailAddress", "emailAddress");
    if !Truthy(email) && !Truthy(name) then Ok(None)
    else
      var n :- OptionalText(name);
      var e :- OptionalText(email);
      Ok(Some(ExpertInfo(n, e)))
  }

  /** A user given as a plain dict is found by its `displayName` and
      `emailAddress` keys; a dict with neither is nobody. */
  lemma ExpertInfoFromDict(name: string, email: string)
    ensures var obj := VDict([("displayName", VStr(name)), ("emailAddress", VStr(email))]);
      BestEffortExpertInfo(obj) ==
        if name == "" && email == "" then Ok(None) else Ok(Some(ExpertInfo(Some(name), Some(email))))
  {
  }

  /** A resource object without a `display_name` attribute has no `get` to fall
      back on, so the lookup raises. */
  lemma ExpertInfoNeedsDisplayNameAttribute(kind: Kind, attrs: Dict<string, Value>)
    requires "display_name" !in Keys(attrs)
    ensures BestEffortExpertInfo(VObj(kind, attrs)).Err?
  {
  }

  /** `best_effort_get_field_from_issue`: the attribute of `issue.fields` when it
      exists, else `issue.raw["fields"][field]`, else `None`. */
  function BestEffortField(issue: Issue, field: string): (r: Value)
    ensures field in Keys(issue.fields) ==> Get(issue.fields, field) == Some(r)
    ensures field !in Keys(issue.fields) ==>
              var f := Subscript(issue.raw, "fields");
              if f.Ok? && Subscript(f.value, field).Ok? then r == Subscript(f.value, field).value else r == VNone
  {
    match Field(issue.fields, field)
    case Ok(v) => v
    case Err(_) =>
      match Subscript(issue.raw, "fields")
      case Err(_) => VNone
      case Ok(f) =>
        match Subscript(f, field)
        case Ok(v) => v
        case Err(_) => VNone
  }

  /** A field missing from both places is `None`. */
  lemma BestEffortFieldAbsent(key: string, field: string)
    ensures BestEffortField(Issue(key, [], VDict([])), field) == VNone
  {
  }

  // ---------------------------------------------------------------------------
  // rich text

  /** `extract_text_from_content`: the `text` of every item of type `text` in
      every block of the document's `content`, joined with spaces. Deeper levels
      are not visited. */
  function ExtractText(content: Value): (r: Result<string, SyncError>)
    ensures content.VDict? && "content" !in Keys(content.entries) ==> r == Ok("")
  {
    var has :- In("content", content);
    if !has then Ok("")
    else
      var blocks :- Subscript(content, "content");
      var blockList :- Iterate(blocks);
      var texts :- BlockTexts(blockList);
      StrJoin(" ", texts)
  }

  /** `s in v`, raising for a value that cannot be searched. */
  function In(s: string, v: Value): (r: Result<bool, SyncError>)
    ensures r.Ok? <==> Iterable(v)
    ensures r.Ok? ==> (r.value <==> Member(s, v))
  {
    if Iterable(v) then Ok(Member(s, v)) else Err(WrongType("argument is not iterable"))
  }

  /** The texts collected from the blocks, in order. */
  function BlockTexts(blocks: seq<Value>): Result<seq<Value>, SyncError> {
    if |blocks| == 0 then Ok([])
    else
      var block := blocks[0];
      var has :- In("content", block);
      var here :-
        if has then
          var items :- Subscript(block, "content");
          var itemList :- Iterate(items);
          ItemTexts(itemList)
        else Ok([]);
      var rest :- BlockTexts(blocks[1..]);
      Ok(here + rest)
  }

  function ItemTexts(items: seq<Value>): Result<seq<Value>, SyncError> {
    if |items| == 0 then Ok([])
    else
      var kind :- Subscript(items[0], "type");
      var here :- if kind == VStr("text") then (var t :- Subscript(items[0], "text"); Ok([t])) else Ok([]);
      var rest :- ItemTexts(items[1..]);
      Ok(here + rest)
  }

  /** An Atlassian document node: its type, its text if it has one, and its
      children. A reference for what the flattening reads. */
  datatype AdfNode = AdfNode(kind: string, text: Option<string>, children: seq<AdfNode>)

  /** Text nodes carry their text. */
  predicate ValidNode(n: AdfNode)
    decreases n
  {
    && (n.kind == "text" ==> n.text.Some?)
    && forall i :: 0 <= i < |n.children| ==> ValidNode(n.children[i])
  }

  /** The JSON of a node: `type`, then `text` if any, then `content` if it has
      children. */
  function Encode(n: AdfNode): (v: Value)
    decreases n, 1
  {
    VDict([("type", VStr(n.kind))]
          + (if n.text.Some? then [("text", VStr(n.text.value))] else [])
          + (if |n.children| > 0 then [("content", VList(EncodeAll(n.children)))] else []))
  }

  function EncodeAll(ns: seq<AdfNode>): (vs: seq<Value>)
    decreases ns, 0
    ensures |vs| == |ns|
    ensures forall i :: 0 <= i < |ns| ==> vs[i] == Encode(ns[i])
  {
    seq(|ns|, i requires 0 <= i < |ns| => Encode(ns[i]))
  }

  /** The texts of the text items among the children of the blocks. */
  function SecondLevelTexts(blocks: seq<AdfNode>): seq<string> {
    if |blocks| == 0 then [] else ItemsText(blocks[0].children) + SecondLevelTexts(blocks[1..])
  }

  function ItemsText(items: seq<AdfNode>): seq<string> {
    if |items| == 0 then []
    else (if items[0].kind == "text" && items[0].text.Some? then [items[0].text.value] else []) + ItemsText(items[1..])
  }

  lemma EncodedMembers(n: AdfNode)
    ensures var es := Encode(n).entries;
      && Get(es, "type") == Some(VStr(n.kind))
      && (n.text.Some? ==> Get(es, "text") == Some(VStr(n.text.value)))
      && ("content" in Keys(es) <==> |n.children| > 0)
      && (|n.children| > 0 ==> Get(es, "content") == Some(VList(EncodeAll(n.children))))
  {
    var es := Encode(n).entries;
    var mid := if n.text.Some? then [("text", VStr(n.text.value))] else [];
    var tail := if |n.children| > 0 then [("content", VList(EncodeAll(n.children)))] else [];
    assert es == [("type", VStr(n.kind))] + mid + tail;
    assert es[0] == ("type", VStr(n.kind));
    if n.text.Some? {
      assert es[1] == ("text", VStr(n.text.value));
    }
    KeysAppend([("type", VStr(n.kind))] + mid, tail);
    KeysAppend([("type", VStr(n.kind))], mid);
    assert Keys(es) == ["type"] + Keys(mid) + Keys(tail);
    assert "content" !in Keys(mid);
    if |n.children| > 0 {
      assert es[|es| - 1] == ("content", VList(EncodeAll(n.children)));
      assert Keys(tail) == ["content"];
    } else {
      assert Keys(tail) == [];
    }
  }

  /** The texts as Python strings. */
  function TextValues(ss: seq<string>): (vs: seq<Value>)
    ensures |vs| == |ss| && AllText(vs) && Texts(vs) == ss
  {
    seq(|ss|, i requires 0 <= i < |ss| => VStr(ss[i]))
  }

  lemma TextValuesAppend(a: seq<string>, b: seq<string>)
    ensures TextValues(a + b) == TextValues(a) + TextValues(b)
  {
  }

  lemma {:induction false} ItemTextsOfNodes(items: seq<AdfNode>)
    requires forall i :: 0 <= i < |items| ==> ValidNode(items[i])
    ensures ItemTexts(EncodeAll(items)) == Ok(TextValues(ItemsText(items)))
  {
    if |items| > 0 {
      var vs := EncodeAll(items);
      var n := items[0];
      EncodedMembers(n);
      assert vs[0] == Encode(n);
      assert EncodeAll(items[1..]) == vs[1..];
      ItemTextsOfNodes(items[1..]);
      var head := if n.kind == "text" && n.text.Some? then [n.text.value] else [];
      assert ItemsText(items) == head + ItemsText(items[1..]);
      TextValuesAppend(head, ItemsText(items[1..]));
      assert Subscript(vs[0], "type") == Ok(VStr(n.kind));
      if n.kind == "text" {
        assert Subscript(vs[0], "text") == Ok(VStr(n.text.value));
        assert TextValues(head) == [VStr(n.text.value)];
      }
    }
  }

  lemma {:induction false} BlockTextsOfNodes(blocks: seq<AdfNode>)
    requires forall i :: 0 <= i < |blocks| ==> ValidNode(blocks[i])
    ensures BlockTexts(EncodeAll(blocks)) == Ok(TextValues(SecondLevelTexts(blocks)))
  {
    if |blocks| > 0 {
      var vs := EncodeAll(blocks);
      var b := blocks[0];
      EncodedMembers(b);
      assert vs[0] == Encode(b);
      assert EncodeAll(blocks[1..]) == vs[1..];
      BlockTextsOfNodes(blocks[1..]);
      assert SecondLevelTexts(blocks) == ItemsText(b.children) + SecondLevelTexts(blocks[1..]);
      TextValuesAppend(ItemsText(b.children), SecondLevelTexts(blocks[1..]));
      assert In("content", vs[0]) == Ok(|b.children| > 0);
      if |b.children| > 0 {
        assert Subscript(vs[0], "content") == Ok(VList(EncodeAll(b.children)));
        ItemTextsOfNodes(b.children);
      } else {
        assert ItemsText(b.children) == [];
      }
    }
  }

  /** The flattening of a well-formed document is the space-joined texts of the
      text items two levels down, in document order. */
  lemma ExtractTextOfDocument(doc: AdfNode)
    requires ValidNode(doc)
    ensures ExtractText(Encode(doc)) == Ok(Join(SecondLevelTexts(doc.children), " "))
  {
    EncodedMembers(doc);
    var v := Encode(doc);
    assert In("content", v) == Ok(|doc.children| > 0);
    if |doc.children| > 0 {
      assert Subscript(v, "content") == Ok(VList(EncodeAll(doc.children)));
      BlockTextsOfNodes(doc.children);
    } else {
      assert SecondLevelTexts(doc.children) == [];
    }
  }

  /** A text node inside a paragraph inside a block is three levels down and is
      not collected. */
  lemma ExtractTextIsShallow(t: string)
    ensures var leaf := AdfNode("text", Some(t), []);
      var para := AdfNode("paragraph", None, [leaf]);
      var block := AdfNode("panel", None, [para]);
      ExtractText(Encode(AdfNode("doc", None, [block]))) == Ok("")
  {
    var leaf := AdfNode("text", Some(t), []);
    var para := AdfNode("paragraph", None, [leaf]);
    var block := AdfNode("panel", None, [para]);
    var doc := AdfNode("doc", None, [block]);
    assert ValidNode(leaf);
    assert ValidNode(para);
    assert ValidNode(block);
    ExtractTextOfDocument(doc);
    assert ItemsText([para]) == [];
    assert SecondLevelTexts(doc.children) == ItemsText([para]) + SecondLevelTexts([]);
  }

  // ---------------------------------------------------------------------------
  // comments

  /** The body of a comment: the `body` attribute under API version 2, the
      flattened `raw["body"]` otherwise. */
  function CommentBody(comment: Value, apiVersion: string): Result<Value, SyncError> {
    if apiVersion == "2" then Attr(comment, "body")
    else
      var raw :- Attr(comment, "raw");
      var body :- Subscript(raw, "body");
      var text :- ExtractText(body);
      Ok(VStr(text))
  }

  /** The comment has an author with an e-mail address that equals a blacklist
      entry. */
  predicate AuthorBlacklisted(comment: Value, blacklist: seq<string>) {
    && HasAttr(comment, "author")
    && HasAttr(Attr(comment, "author").value, "emailAddress")
    && Attr(Attr(comment, "author").value, "emailAddress").value in seq(|blacklist|, i requires 0 <= i < |blacklist| => VStr(blacklist[i]))
  }

  /** The body of one comment as a list: empty when the body cannot be read or
      the author is blacklisted. */
  function KeepComment(c: Value, blacklist: seq<string>, apiVersion: string): (r: seq<Value>)
    ensures |r| <= 1
    ensures |r| == 1 <==> CommentBody(c, apiVersion).Ok? && !AuthorBlacklisted(c, blacklist)
    ensures |r| == 1 ==> r[0] == CommentBody(c, apiVersion).value
  {
    match CommentBody(c, apiVersion)
    case Err(_) => []
    case Ok(body) => if AuthorBlacklisted(c, blacklist) then [] else [body]
  }

  /** The kept comment bodies, in order: a comment is left out when its body
      cannot be read or its author is blacklisted; nothing else is. */
  function KeptComments(comments: seq<Value>, blacklist: seq<string>, apiVersion: string): (r: seq<Value>)
    ensures |r| <= |comments|
  {
    if |comments| == 0 then []
    else KeepComment(comments[0], blacklist, apiVersion) + KeptComments(comments[1..], blacklist, apiVersion)
  }

  /** One comment on its own: kept exactly when its body reads and its author is
      not blacklisted. */
  lemma KeptComment(c: Value, blacklist: seq<string>, apiVersion: string)
    ensures KeptComments([c], blacklist, apiVersion) ==
              if CommentBody(c, apiVersion).Ok? && !AuthorBlacklisted(c, blacklist) then [CommentBody(c, apiVersion).value] else []
  {
    assert [c][1..] == [];
  }

  /** The decision for one comment does not depend on the others: the kept
      comments of a concatenation are the concatenation of the kept comments. */
  lemma {:induction false} KeptCommentsAppend(a: seq<Value>, b: seq<Value>, blacklist: seq<string>, apiVersion: string)
    ensures KeptComments(a + b, blacklist, apiVersion) == KeptComments(a, blacklist, apiVersion) + KeptComments(b, blacklist, apiVersion)
  {
    if |a| > 0 {
      var ab := a + b;
      assert ab[0] == a[0];
      assert ab[1..] == a[1..] + b;
      KeptCommentsAppend(a[1..], b, blacklist, apiVersion);
      var head := KeepComment(a[0], blacklist, apiVersion);
      assert KeptComments(ab, blacklist, apiVersion) == head + KeptComments(a[1..] + b, blacklist, apiVersion);
      assert KeptComments(a, blacklist, apiVersion) == head + KeptComments(a[1..], blacklist, apiVersion);
    } else {
      assert a + b == b;
    }
  }

  /** `get_comment_strs`: the comment list itself must be there; a failure on one
      comment only drops that comment. */
  function GetCommentStrs(issue: Issue, blacklist: seq<string>, apiVersion: string): (r: Result<seq<Value>, SyncError>)
    ensures r.Ok? ==>
              && Field(issue.fields, "comment").Ok?
              && Attr(Field(issue.fields, "comment").value, "comments").Ok?
              && var cs := Attr(Field(issue.fields, "comment").value, "comments").value;
              && Iterable(cs)
              && r.value == KeptComments(Iterate(cs).value, blacklist, apiVersion)
    ensures r.Err? <==>
              || Field(issue.fields, "comment").Err?
              || Attr(Field(issue.fields, "comment").value, "comments").Err?
              || !Iterable(Attr(Field(issue.fields, "comment").value, "comments").value)
  {
    var holder :- Field(issue.fields, "comment");
    var cs :- Attr(holder, "comments");
    var comments :- Iterate(cs);
    Ok(KeptComments(comments, blacklist, apiVersion))
  }

  // ---------------------------------------------------------------------------
  // custom fields

  /** `_process_custom_field_value`, returning what Python returns: a string
      passes through, an option gives its `value`, a user their `displayName`, a
      list the space-joined results of its items, anything else its `str()`. A
      missing attribute or a join over a non-string gives the empty string. */
  function ProcessCustomFieldValue(v: Value, repr: Value -> string): (r: Value)
    ensures v.VStr? ==> r == v
    ensures v.VObj? && v.kind == FieldOption ==> r == if HasAttr(v, "value") then Attr(v, "value").value else VStr("")
    ensures v.VObj? && v.kind == UserResource ==> r == if HasAttr(v, "displayName") then Attr(v, "displayName").value else VStr("")
    ensures v.VList? ==> r.VStr?
    ensures v.VList? ==>
              var parts := seq(|v.items|, i requires 0 <= i < |v.items| => ProcessCustomFieldValue(v.items[i], repr));
              r == if AllText(parts) then VStr(Join(Texts(parts), " ")) else VStr("")
    ensures !v.VStr? && !v.VList? && !(v.VObj? && v.kind != Resource) ==> r == VStr(Str(v, repr))
    decreases v
  {
    if v.VStr? then v
    else if v.VObj? && v.kind == FieldOption then
      if HasAttr(v, "value") then Attr(v, "value").value else VStr("")
    else if v.VObj? && v.kind == UserResource then
      if HasAttr(v, "displayName") then Attr(v, "displayName").value else VStr("")
    else if v.VList? then
      var parts := seq(|v.items|, i requires 0 <= i < |v.items| => ProcessCustomFieldValue(v.items[i], repr));
      match StrJoin(" ", parts)
      case Ok(s) => VStr(s)
      case Err(_) => VStr("")
    else VStr(Str(v, repr))
  }

  /** A value every part of which yields text: strings, options whose value is a
      string, users whose display name is a string, and lists of such. */
  predicate TextLike(v: Value)
    decreases v
  {
    match v
    case VObj(kind, attrs) =>
      && (kind == FieldOption && Get(attrs, "value").Some? ==> Get(attrs, "value").value.VStr?)
      && (kind == UserResource && Get(attrs, "displayName").Some? ==> Get(attrs, "displayName").value.VStr?)
    case VList(items) => forall i :: 0 <= i < |items| ==> TextLike(items[i])
    case _ => true
  }

  /** Every value yields text except an option or user whose attribute is not a
      string. */
  lemma ProcessedIsText(v: Value, repr: Value -> string)
    requires TextLike(v)
    ensures ProcessCustomFieldValue(v, repr).VStr?
  {
  }

  /** A list of strings becomes their space-joined text. */
  lemma ProcessStringList(strs: seq<string>, repr: Value -> string)
    ensures ProcessCustomFieldValue(VList(seq(|strs|, i requires 0 <= i < |strs| => VStr(strs[i]))), repr) == VStr(Join(strs, " "))
  {
    var items := seq(|strs|, i requires 0 <= i < |strs| => VStr(strs[i]));
    var parts := seq(|items|, i requires 0 <= i < |items| => ProcessCustomFieldValue(items[i], repr));
    assert parts == items;
    assert Texts(parts) == strs;
  }

  /** A list holding an option whose value is a number makes the join raise; the
      whole list then yields the empty string. */
  lemma ProcessListWithNumberOption(n: int, repr: Value -> string)
    ensures ProcessCustomFieldValue(VList([VObj(FieldOption, [("value", VInt(n))])]), repr) == VStr("")
  {
    var opt := VObj(FieldOption, [("value", VInt(n))]);
    assert ProcessCustomFieldValue(opt, repr) == VInt(n);
  }

  /** `k` is the display name of one of the issue's fields. */
  predicate NamesField(fields: Dict<string, Value>, customFields: Dict<string, string>, k: string) {
    exists i :: 0 <= i < |fields| && Get(customFields, fields[i].0) == Some(k)
  }

  /** The comprehension's condition for the `i`-th field, and the display name it
      goes under: a truthy value of a configured custom field shown as `k`. */
  predicate SelectsAs(fields: Dict<string, Value>, customFields: Dict<string, string>, i: int, k: string)
    requires 0 <= i < |fields|
  {
    Truthy(fields[i].1) && Get(customFields, fields[i].0) == Some(k)
  }

  /** The reference for what the comprehension leaves under a display name: the
      value of the last field selected under it, if any. */
  function LastSelected(fields: Dict<string, Value>, customFields: Dict<string, string>, k: string): Option<Value> {
    if |fields| == 0 then None
    else
      var later := LastSelected(fields[1..], customFields, k);
      if later.Some? then later
      else if SelectsAs(fields, customFields, 0, k) then Some(fields[0].1)
      else None
  }

  /** `LastSelected` finds nothing exactly when no field is selected under `k`,
      and otherwise the value of the last field that is. */
  lemma {:induction false} LastSelectedMeaning(fields: Dict<string, Value>, customFields: Dict<string, string>, k: string)
    ensures LastSelected(fields, customFields, k).None? <==>
              forall i :: 0 <= i < |fields| ==> !SelectsAs(fields, customFields, i, k)
    ensures LastSelected(fields, customFields, k).Some? ==>
              exists i :: && 0 <= i < |fields| && SelectsAs(fields, customFields, i, k)
                          && fields[i].1 == LastSelected(fields, customFields, k).value
                          && forall j :: i < j < |fields| ==> !SelectsAs(fields, customFields, j, k)
  {
    if |fields| > 0 {
      var rest := fields[1..];
      LastSelectedMeaning(rest, customFields, k);
      assert forall i :: 0 <= i < |rest| ==> (SelectsAs(rest, customFields, i, k) <==> SelectsAs(fields, customFields, i + 1, k));
      var r := LastSelected(fields, customFields, k);
      if LastSelected(rest, customFields, k).Some? {
        var i :| && 0 <= i < |rest| && SelectsAs(rest, customFields, i, k)
                 && rest[i].1 == r.value
                 && forall j :: i < j < |rest| ==> !SelectsAs(rest, customFields, j, k);
        assert SelectsAs(fields, customFields, i + 1, k) && fields[i + 1].1 == r.value;
        forall j | i + 1 < j < |fields| ensures !SelectsAs(fields, customFields, j, k) {
          assert !SelectsAs(rest, customFields, j - 1, k);
        }
      } else if SelectsAs(fields, customFields, 0, k) {
        assert fields[0].1 == r.value;
        forall j | 0 < j < |fields| ensures !SelectsAs(fields, customFields, j, k) {
          assert !SelectsAs(rest, customFields, j - 1, k);
        }
      } else {
        forall i | 0 <= i < |fields| ensures !SelectsAs(fields, customFields, i, k) {
          if i > 0 {
            assert !SelectsAs(rest, customFields, i - 1, k);
          }
        }
      }
    }
  }

  /** The issue's fields that are configured custom fields and hold a truthy
      value, under their display names; a later field with the same display name
      replaces the value of an earlier one. */
  function SelectCustomFields(fields: Dict<string, Value>, customFields: Dict<string, string>, acc: Dict<string, Value>): Dict<string, Value> {
    if |fields| == 0 then acc
    else
      var key := fields[0].0;
      var value := fields[0].1;
      var next := if Truthy(value) && Get(customFields, key).Some? then Put(acc, Get(customFields, key).value, value) else acc;
      SelectCustomFields(fields[1..], customFields, next)
  }

  /** The selection holds, under each display name, the value of the last field
      selected under it, and otherwise what it held before; keys stay distinct. */
  lemma SelectedNames(fields: Dict<string, Value>, customFields: Dict<string, string>, acc: Dict<string, Value>)
    requires UniqueKeys(acc)
    ensures var r := SelectCustomFields(fields, customFields, acc);
      && UniqueKeys(r)
      && (forall k :: k in Keys(r) ==> k in Keys(acc) || NamesField(fields, customFields, k))
      && (forall k :: Get(r, k) == if LastSelected(fields, customFields, k).Some? then LastSelected(fields, customFields, k) else Get(acc, k))
      && (forall k :: k in Keys(r) <==> k in Keys(acc) || LastSelected(fields, customFields, k).Some?)
  {
    SelectedKeys(fields, customFields, acc);
    forall k ensures Get(SelectCustomFields(fields, customFields, acc), k) ==
                     if LastSelected(fields, customFields, k).Some? then LastSelected(fields, customFields, k) else Get(acc, k) {
      SelectedValue(fields, customFields, acc, k);
    }
  }

  /** The selection's keys stay distinct and each is a display name. */
  lemma {:induction false} SelectedKeys(fields: Dict<string, Value>, customFields: Dict<string, string>, acc: Dict<string, Value>)
    requires UniqueKeys(acc)
    ensures var r := SelectCustomFields(fields, customFields, acc);
      && UniqueKeys(r)
      && (forall k :: k in Keys(r) ==> k in Keys(acc) || NamesField(fields, customFields, k))
  {
    if |fields| > 0 {
      var key := fields[0].0;
      var value := fields[0].1;
      var next := if Truthy(value) && Get(customFields, key).Some? then Put(acc, Get(customFields, key).value, value) else acc;
      SelectedKeys(fields[1..], customFields, next);
      assert SelectCustomFields(fields, customFields, acc) == SelectCustomFields(fields[1..], customFields, next);
      forall k | NamesField(fields[1..], customFields, k) ensures NamesField(fields, customFields, k) {
        var i :| 0 <= i < |fields[1..]| && Get(customFields, fields[1..][i].0) == Some(k);
        assert fields[1..][i] == fields[i + 1];
      }
    }
  }

  /** Under `k` the selection holds the value of the last field selected as `k`,
      and otherwise what it held before. */
  lemma {:induction false} SelectedValue(fields: Dict<string, Value>, customFields: Dict<string, string>, acc: Dict<string, Value>, k: string)
    ensures Get(SelectCustomFields(fields, customFields, acc), k) ==
              if LastSelected(fields, customFields, k).Some? then LastSelected(fields, customFields, k) else Get(acc, k)
  {
    if |fields| > 0 {
      var key := fields[0].0;
      var value := fields[0].1;
      var next := if Truthy(value) && Get(customFields, key).Some? then Put(acc, Get(customFields, key).value, value) else acc;
      SelectedValue(fields[1..], customFields, next, k);
      assert SelectCustomFields(fields, customFields, acc) == SelectCustomFields(fields[1..], customFields, next);
      assert Get(next, k) == if SelectsAs(fields, customFields, 0, k) then Some(value) else Get(acc, k);
    }
  }

  /** The kept processed values, in order; `len` of a processed value that has no
      length raises. */
  function KeepShort(selected: Dict<string, Value>, maxLength: int, repr: Value -> string, acc: Dict<string, Value>): Result<Dict<string, Value>, SyncError> {
    if |selected| == 0 then Ok(acc)
    else
      var name := selected[0].0;
      var processed := ProcessCustomFieldValue(selected[0].1, repr);
      var n :- Len(processed);
      KeepShort(selected[1..], maxLength, repr, if n < maxLength then Put(acc, name, processed) else acc)
  }

  /** A processed value that is shorter than the maximum. */
  predicate Short(v: Value, maxLength: int) {
    Len(v).Ok? && Len(v).value < maxLength
  }

  lemma {:induction false} KeptShort(selected: Dict<string, Value>, maxLength: int, repr: Value -> string, acc: Dict<string, Value>)
    requires UniqueKeys(acc)
    requires forall k :: Get(acc, k).Some? ==> Short(Get(acc, k).value, maxLength)
    ensures var r := KeepShort(selected, maxLength, repr, acc);
      r.Ok? ==>
        && UniqueKeys(r.value)
        && (forall k :: k in Keys(r.value) ==> k in Keys(acc) || k in Keys(selected))
        && (forall k :: Get(r.value, k).Some? ==> Short(Get(r.value, k).value, maxLength))
  {
    if |selected| > 0 && KeepShort(selected, maxLength, repr, acc).Ok? {
      var name := selected[0].0;
      var processed := ProcessCustomFieldValue(selected[0].1, repr);
      var n := Len(processed).value;
      var next := if n < maxLength then Put(acc, name, processed) else acc;
      KeptShort(selected[1..], maxLength, repr, next);
      assert Keys(selected) == [name] + Keys(selected[1..]);
    }
  }

  /** A selected value whose processed form has no length. */
  predicate Unmeasurable(v: Value, repr: Value -> string) {
    Len(ProcessCustomFieldValue(v, repr)).Err?
  }

  /** The value a kept name ends up with: its processed value when that is
      shorter than the maximum, otherwise what the result held before. */
  function KeptValue(v: Option<Value>, maxLength: int, repr: Value -> string, before: Option<Value>): Option<Value> {
    if v.Some? && Short(ProcessCustomFieldValue(v.value, repr), maxLength) then Some(ProcessCustomFieldValue(v.value, repr))
    else before
  }

  /** Over a selection with distinct names, the loop fails exactly when some
      processed value has no length; otherwise each name holds its processed
      value when that is short enough, and nothing new otherwise. */
  lemma {:induction false} KeepShortMeaning(selected: Dict<string, Value>, maxLength: int, repr: Value -> string, acc: Dict<string, Value>)
    requires UniqueKeys(selected)
    ensures var r := KeepShort(selected, maxLength, repr, acc);
      && (r.Err? <==> exists i :: 0 <= i < |selected| && Unmeasurable(selected[i].1, repr))
      && (r.Ok? ==> forall k :: Get(r.value, k) == KeptValue(Get(selected, k), maxLength, repr, Get(acc, k)))
  {
    if |selected| > 0 {
      var name := selected[0].0;
      var rest := selected[1..];
      var processed := ProcessCustomFieldValue(selected[0].1, repr);
      assert forall i :: 0 <= i < |rest| ==> rest[i] == selected[i + 1];
      if Len(processed).Ok? {
        var n := Len(processed).value;
        var next := if n < maxLength then Put(acc, name, processed) else acc;
        KeepShortMeaning(rest, maxLength, repr, next);
        assert KeepShort(selected, maxLength, repr, acc) == KeepShort(rest, maxLength, repr, next);
        assert !Unmeasurable(selected[0].1, repr);
        var r := KeepShort(rest, maxLength, repr, next);
        if r.Ok? {
          forall k ensures Get(r.value, k) == KeptValue(Get(selected, k), maxLength, repr, Get(acc, k)) {
            if k == name {
              assert Get(rest, k).None?;
            }
          }
        } else {
          var i :| 0 <= i < |rest| && Unmeasurable(rest[i].1, repr);
          assert Unmeasurable(selected[i + 1].1, repr);
        }
      } else {
        assert Unmeasurable(selected[0].1, repr);
      }
    }
  }

  /** `get_issue_custom_fields`: every kept entry is named after a configured
      custom field of the issue and its processed value is shorter than the
      maximum length. Under each display name is the processed value of the last
      truthy field shown under that name, when it is short enough; the call fails
      exactly when such a value has no length. */
  function GetIssueCustomFields(fields: Dict<string, Value>, customFields: Dict<string, string>, maxLength: int, repr: Value -> string): (r: Result<Dict<string, Value>, SyncError>)
    ensures r.Ok? ==> UniqueKeys(r.value)
    ensures r.Ok? ==> forall k :: k in Keys(r.value) ==> NamesField(fields, customFields, k)
    ensures r.Ok? ==> forall k :: Get(r.value, k).Some? ==> Short(Get(r.value, k).value, maxLength)
    ensures r.Ok? ==> forall k :: Get(r.value, k) == KeptValue(LastSelected(fields, customFields, k), maxLength, repr, None)
    ensures r.Err? <==> exists k :: LastSelected(fields, customFields, k).Some? && Unmeasurable(LastSelected(fields, customFields, k).value, repr)
  {
    var selected := SelectCustomFields(fields, customFields, []);
    SelectedNames(fields, customFields, []);
    KeptShort(selected, maxLength, repr, []);
    KeepShortMeaning(selected, maxLength, repr, []);
    SelectedUnmeasurable(fields, customFields, repr);
    KeepShort(selected, maxLength, repr, [])
  }

  /** Some selected value has no processed length exactly when the last field
      under some display name has none. */
  lemma SelectedUnmeasurable(fields: Dict<string, Value>, customFields: Dict<string, string>, repr: Value -> string)
    ensures var selected := SelectCustomFields(fields, customFields, []);
      (exists i :: 0 <= i < |selected| && Unmeasurable(selected[i].1, repr)) <==>
      (exists k :: LastSelected(fields, customFields, k).Some? && Unmeasurable(LastSelected(fields, customFields, k).value, repr))
  {
    var selected := SelectCustomFields(fields, customFields, []);
    SelectedNames(fields, customFields, []);
    if i :| 0 <= i < |selected| && Unmeasurable(selected[i].1, repr) {
      GetAt(selected, i);
      var k := selected[i].0;
      assert LastSelected(fields, customFields, k) == Some(selected[i].1);
    }
    if k :| LastSelected(fields, customFields, k).Some? && Unmeasurable(LastSelected(fields, customFields, k).value, repr) {
      assert Get(selected, k) == LastSelected(fields, customFields, k);
      var i :| 0 <= i < |selected| && selected[i] == (k, Get(selected, k).value);
      assert Unmeasurable(selected[i].1, repr);
    }
  }

  /** A configured field holding a string is kept, unchanged, when it is shorter
      than the maximum and dropped (not truncated) when it is not. */
  lemma CustomStringField(id: string, name: string, s: string, maxLength: int, repr: Value -> string)
    requires s != ""
    ensures var r := GetIssueCustomFields([(id, VStr(s))], [(id, name)], maxLength, repr);
      && r.Ok?
      && (|s| < maxLength ==> Get(r.value, name) == Some(VStr(s)))
      && (|s| >= maxLength ==> r.value == [])
  {
    var fields := [(id, VStr(s))];
    var custom := [(id, name)];
    assert SelectCustomFields(fields, custom, []) == SelectCustomFields(fields[1..], custom, [(name, VStr(s))]);
    var selected := SelectCustomFields(fields, custom, []);
    assert selected == [(name, VStr(s))];
    assert KeepShort(selected, maxLength, repr, []) ==
             KeepShort(selected[1..], maxLength, repr, if |s| < maxLength then [(name, VStr(s))] else []);
  }

  /** A field that is not configured, or holds a falsy value, is not selected. */
  lemma UnconfiguredFieldIgnored(id: string, v: Value, customFields: Dict<string, string>, maxLength: int, repr: Value -> string)
    requires Get(customFields, id).None? || !Truthy(v)
    ensures GetIssueCustomFields([(id, v)], customFields, maxLength, repr) == Ok([])
  {
    assert SelectCustomFields([(id, v)], customFields, []) == SelectCustomFields([], customFields, []);
  }

  // ---------------------------------------------------------------------------
  // common fields

  /** The attribute `attr` of the sub-object `field`, or `None` when the
      sub-object is falsy; a missing sub-object, or a truthy one without the
      attribute, raises. */
  function SubName(fields: Dict<string, Value>, field: string, attr: string): (r: Result<Value, SyncError>)
    ensures r.Ok? <==> Field(fields, field).Ok? && (Truthy(Field(fields, field).value) ==> HasAttr(Field(fields, field).value, attr))
    ensures r.Ok? && !Truthy(Field(fields, field).value) ==> r.value == VNone
    ensures r.Ok? && Truthy(Field(fields, field).value) ==> r.value == Attr(Field(fields, field).value, attr).value
  {
    var sub :- Field(fields, field);
    if Truthy(sub) then Attr(sub, attr) else Ok(VNone)
  }

  /** Each reported key with the field and attribute it is read from. */
  const CommonFieldSources: seq<(string, string, string)> := [
    ("Priority", "priority", "name"), ("Reporter", "reporter", "displayName"),
    ("Assignee", "assignee", "displayName"), ("Status", "status", "name"),
    ("Resolution", "resolution", "name")]

  /** The entries for the given sources, read in order. */
  function CommonFieldsFrom(fields: Dict<string, Value>, sources: seq<(string, string, string)>): (r: Result<Dict<string, Value>, SyncError>)
    ensures r.Ok? <==> forall i :: 0 <= i < |sources| ==> SubName(fields, sources[i].1, sources[i].2).Ok?
    ensures r.Ok? ==> |r.value| == |sources| && forall i :: 0 <= i < |sources| ==>
              r.value[i] == (sources[i].0, SubName(fields, sources[i].1, sources[i].2).value)
  {
    if |sources| == 0 then Ok([])
    else
      var v :- SubName(fields, sources[0].1, sources[0].2);
      var rest :- CommonFieldsFrom(fields, sources[1..]);
      assert forall i :: 1 <= i < |sources| ==> sources[i] == sources[1..][i - 1];
      Ok([(sources[0].0, v)] + rest)
  }

  /** The report names of the sources, in order. */
  function SourceNames(sources: seq<(string, string, string)>): (ns: seq<string>)
    ensures |ns| == |sources| && forall i :: 0 <= i < |sources| ==> ns[i] == sources[i].0
  {
    seq(|sources|, i requires 0 <= i < |sources| => sources[i].0)
  }

  lemma CommonFieldNames()
    ensures SourceNames(CommonFieldSources) == ["Priority", "Reporter", "Assignee", "Status", "Resolution"]
  {
  }

  /** `get_issue_common_fields`: always the same five keys, in that order, each
      holding the name (or display name) of its sub-object, `None` for a falsy
      one; the first unreadable sub-object raises. */
  function CommonFields(fields: Dict<string, Value>): (r: Result<Dict<string, Value>, SyncError>)
    ensures r.Ok? <==> forall i :: 0 <= i < |CommonFieldSources| ==> SubName(fields, CommonFieldSources[i].1, CommonFieldSources[i].2).Ok?
    ensures r.Ok? ==> Keys(r.value) == ["Priority", "Reporter", "Assignee", "Status", "Resolution"]
    ensures r.Ok? ==> forall i :: 0 <= i < |CommonFieldSources| ==>
              r.value[i].1 == SubName(fields, CommonFieldSources[i].1, CommonFieldSources[i].2).value
  {
    var r := CommonFieldsFrom(fields, CommonFieldSources);
    if r.Ok? then
      CommonFieldNames();
      assert Keys(r.value) == SourceNames(CommonFieldSources);
      r
    else r
  }
}
