/** The Salesforce record cleaner and serialiser: a decoded record is stripped of
    identifiers, dates, timestamps, URLs, nulls and empty containers, custom-field
    names lose their `__c` suffix, and what remains is written out as indented
    `key: value` lines, the text of a knowledge-article document. */
module SalesforceUtils {
  import opened Wrappers
  import opened Strings
  import opened OrderedDict
  import opened Json
  import opened Documents

  // ---------------------------------------------------------------------------
  // the key filter `Id$|Date$|stamp$|url$`, searched case-insensitively

  /** `c` matches the lower-case pattern letter `l` under `re.IGNORECASE`: the
      letter itself, its upper-case form, and the Unicode characters Python's
      regular-expression engine treats as equivalent (dotted and dotless i, long s). */
  predicate FoldsTo(c: char, l: char) {
    || c == l
    || ('A' <= c <= 'Z' && c as int + 32 == l as int)
    || (l == 'i' && (c == 'İ' || c == 'ı'))
    || (l == 's' && c == 'ſ')
  }

  /** `word` (lower case) matches `s` at offset `j`, ignoring case. */
  predicate MatchesFolded(s: string, word: string, j: int) {
    && 0 <= j && j + |word| <= |s|
    && forall i :: 0 <= i < |word| ==> FoldsTo(s[j + i], word[i])
  }

  /** The four alternatives of the filter, lower-cased. */
  predicate FilterWordAt(s: string, j: int) {
    || (MatchesFolded(s, "id", j) && j + 2 == |s|)
    || (MatchesFolded(s, "date", j) && j + 4 == |s|)
    || (MatchesFolded(s, "stamp", j) && j + 5 == |s|)
    || (MatchesFolded(s, "url", j) && j + 3 == |s|)
  }

  /** The key ends with one of the filter words, or does so once a single
      trailing newline is set aside: `$` matches at the very end and just before
      a final newline. */
  predicate IsFilteredKey(key: string) {
    || FilterWordAt(key, |key| - 2) || FilterWordAt(key, |key| - 3)
    || FilterWordAt(key, |key| - 4) || FilterWordAt(key, |key| - 5)
    || (&& |key| > 0 && key[|key| - 1] == '\n'
        && var k := key[..|key| - 1];
           FilterWordAt(k, |k| - 2) || FilterWordAt(k, |k| - 3)
           || FilterWordAt(k, |k| - 4) || FilterWordAt(k, |k| - 5))
  }

  /** A regular-expression search: some alternative matches at some offset `j` and
      what follows the match is empty or a single newline. */
  predicate SearchMatchesAt(key: string, j: int) {
    exists w :: w in ["id", "date", "stamp", "url"] && MatchesFolded(key, w, j) &&
      (j + |w| == |key| || (j + |w| + 1 == |key| && key[|key| - 1] == '\n'))
  }

  lemma MatchesFoldedPrefix(key: string, w: string, j: int)
    requires |key| > 0 && MatchesFolded(key, w, j) && j + |w| < |key|
    ensures MatchesFolded(key[..|key| - 1], w, j)
  {
    var k := key[..|key| - 1];
    forall i | 0 <= i < |w| ensures FoldsTo(k[j + i], w[i]) {
      assert k[j + i] == key[j + i];
    }
  }

  lemma MatchesFoldedExtend(key: string, w: string, j: int)
    requires |key| > 0 && MatchesFolded(key[..|key| - 1], w, j)
    ensures MatchesFolded(key, w, j)
  {
    forall i | 0 <= i < |w| ensures FoldsTo(key[j + i], w[i]) {
      assert key[..|key| - 1][j + i] == key[j + i];
    }
  }

  lemma FilterWordFound(key: string, j: int)
    requires FilterWordAt(key, j)
    ensures SearchMatchesAt(key, j)
  {
    var words := ["id", "date", "stamp", "url"];
    var w := if MatchesFolded(key, "id", j) && j + 2 == |key| then "id"
             else if MatchesFolded(key, "date", j) && j + 4 == |key| then "date"
             else if MatchesFolded(key, "stamp", j) && j + 5 == |key| then "stamp"
             else "url";
    assert w in words && MatchesFolded(key, w, j) && j + |w| == |key|;
  }

  lemma FilterWordFoundBeforeNewline(key: string, j: int)
    requires |key| > 0 && key[|key| - 1] == '\n' && FilterWordAt(key[..|key| - 1], j)
    ensures SearchMatchesAt(key, j)
  {
    var words := ["id", "date", "stamp", "url"];
    var k := key[..|key| - 1];
    var w := if MatchesFolded(k, "id", j) && j + 2 == |k| then "id"
             else if MatchesFolded(k, "date", j) && j + 4 == |k| then "date"
             else if MatchesFolded(k, "stamp", j) && j + 5 == |k| then "stamp"
             else "url";
    MatchesFoldedExtend(key, w, j);
    assert w in words && MatchesFolded(key, w, j) && j + |w| + 1 == |key|;
  }

  /** A filter word matched at the very end is one of the suffix tests. */
  lemma WordAtEnd(key: string, w: string, j: int)
    requires w in ["id", "date", "stamp", "url"] && MatchesFolded(key, w, j) && j + |w| == |key|
    ensures FilterWordAt(key, j)
    ensures |key| - 5 <= j <= |key| - 2
  {
    if w == "id" {
      assert MatchesFolded(key, "id", j);
    } else if w == "date" {
      assert MatchesFolded(key, "date", j);
    } else if w == "stamp" {
      assert MatchesFolded(key, "stamp", j);
    } else {
      assert MatchesFolded(key, "url", j);
    }
  }

  lemma FilterWordAtEnd(key: string, j: int)
    requires |key| - 5 <= j <= |key| - 2 && FilterWordAt(key, j)
    ensures IsFilteredKey(key)
  {
  }

  lemma FilterWordBeforeNewline(key: string, j: int)
    requires |key| > 0 && key[|key| - 1] == '\n'
    requires var k := key[..|key| - 1]; |k| - 5 <= j <= |k| - 2 && FilterWordAt(k, j)
    ensures IsFilteredKey(key)
  {
  }

  lemma SearchFindsFilterWord(key: string, j: int)
    requires SearchMatchesAt(key, j)
    ensures IsFilteredKey(key)
  {
    var w :| w in ["id", "date", "stamp", "url"] && MatchesFolded(key, w, j) &&
      (j + |w| == |key| || (j + |w| + 1 == |key| && key[|key| - 1] == '\n'));
    if j + |w| == |key| {
      WordAtEnd(key, w, j);
      FilterWordAtEnd(key, j);
    } else {
      MatchesFoldedPrefix(key, w, j);
      WordAtEnd(key[..|key| - 1], w, j);
      FilterWordBeforeNewline(key, j);
    }
  }

  /** The suffix test is exactly the search the source performs. */
  lemma FilteredKeyIsSearch(key: string)
    ensures IsFilteredKey(key) <==> exists j :: SearchMatchesAt(key, j)
  {
    if IsFilteredKey(key) {
      var n := |key|;
      if FilterWordAt(key, n - 2) { FilterWordFound(key, n - 2); }
      else if FilterWordAt(key, n - 3) { FilterWordFound(key, n - 3); }
      else if FilterWordAt(key, n - 4) { FilterWordFound(key, n - 4); }
      else if FilterWordAt(key, n - 5) { FilterWordFound(key, n - 5); }
      else {
        var m := n - 1;
        if FilterWordAt(key[..m], m - 2) { FilterWordFoundBeforeNewline(key, m - 2); }
        else if FilterWordAt(key[..m], m - 3) { FilterWordFoundBeforeNewline(key, m - 3); }
        else if FilterWordAt(key[..m], m - 4) { FilterWordFoundBeforeNewline(key, m - 4); }
        else { FilterWordFoundBeforeNewline(key, m - 5); }
      }
    }
    if j :| SearchMatchesAt(key, j) {
      SearchFindsFilterWord(key, j);
    }
  }

  /** Display name of a kept key: a key containing `__c` loses its last three
      characters, wherever the `__c` occurs. */
  function RenameKey(key: string): (r: string)
    ensures Contains(key, "__c") ==> |r| + 3 == |key| && key == r + key[|r|..]
    ensures !Contains(key, "__c") ==> r == key
  {
    if Contains(key, "__c") then
      assert OccursAt(key, "__c", Find(key, "__c").value);
      key[..|key| - 3]
    else key
  }

  /** A custom field `base__c` is displayed as `base`. */
  lemma RenameCustomField(base: string)
    ensures RenameKey(base + "__c") == base
  {
    assert OccursAt(base + "__c", "__c", |base|);
  }

  // ---------------------------------------------------------------------------
  // preparation of one level: a query result is replaced by its records, and an
  // `attributes` object is merged into its record

  /** `data["records"]` replaces a dict that has that key. */
  function Unwrap(data: Json): (r: Json)
    ensures Size(r) <= Size(data)
  {
    match data
    case JObj(es) =>
      (match Get(es, "records")
       case Some(v) =>
         var i :| 0 <= i < |es| && es[i] == ("records", v);
         SizeEntriesMember(es, i);
         SizeOfObj(es);
         v
       case None => data)
    case _ => data
  }

  /** `data.update(data.pop("attributes"))` when the attributes are a dict: their
      members take the place of the `attributes` key, overriding members of the
      same name, and everything else stays. */
  function MergeAttributes(data: Json): (r: Json)
    ensures Size(r) <= Size(data)
    ensures data.JObj? && UniqueKeys(data.entries) ==>
              var a := Get(data.entries, "attributes");
              if a.Some? && a.value.JObj? then
                && r.JObj?
                && forall k :: Get(r.entries, k) ==
                     if k in Keys(a.value.entries) then GetLast(a.value.entries, k)
                     else if k == "attributes" then None
                     else Get(data.entries, k)
              else r == data
  {
    match data
    case JObj(es) =>
      var a := Get(es, "attributes");
      if a.Some? && a.value.JObj? then
        var attrs := a.value.entries;
        var r := JObj(Update(Remove(es, "attributes"), attrs));
        SizeEntriesRemove(es, "attributes");
        SizeEntriesUpdate(Remove(es, "attributes"), attrs);
        SizeOfObj(es);
        SizeOfObj(attrs);
        SizeOfObj(Update(Remove(es, "attributes"), attrs));
        r
      else data
    case _ => data
  }

  function Prepare(data: Json): (r: Json)
    ensures Size(r) <= Size(data)
  {
    MergeAttributes(Unwrap(data))
  }

  // ---------------------------------------------------------------------------
  // cleaning

  /** How a non-null scalar inside a list is treated: as written, the loop appends
      the last cleaned container (and fails when there has been none); corrected,
      it appends the scalar itself. */
  datatype ListRule = AsWritten | Corrected

  /** `_clean_salesforce_dict`. */
  function CleanBy(rule: ListRule, data: Json): Result<Json, SyncError>
    decreases Size(data), 1
  {
    var d := Prepare(data);
    match d
    case JObj(es) =>
      SizeOfObj(es);
      var r :- CleanEntries(rule, es, []);
      Ok(JObj(r))
    case JArr(xs) =>
      SizeOfArr(xs);
      var r :- CleanItems(rule, xs, [], None);
      Ok(JArr(r))
    case _ => Ok(d)
  }

  /** The loop over the members of a dict, `acc` being the members kept so far. */
  function CleanEntries(rule: ListRule, es: Dict<string, Json>, acc: Dict<string, Json>): Result<Dict<string, Json>, SyncError>
    decreases SizeEntries(es), 0
  {
    if |es| == 0 then Ok(acc)
    else
      var key := es[0].0;
      var value := es[0].1;
      if IsFilteredKey(key) then CleanEntries(rule, es[1..], acc)
      else if IsContainer(value) then
        var fv :- CleanBy(rule, value);
        CleanEntries(rule, es[1..], if Truthy(fv) then Put(acc, RenameKey(key), fv) else acc)
      else
        CleanEntries(rule, es[1..], if value != JNull then Put(acc, RenameKey(key), value) else acc)
  }

  /** The loop over the items of a list; `last` is the most recent cleaned
      container, the value the as-written loop appends for a scalar. */
  function CleanItems(rule: ListRule, xs: seq<Json>, acc: seq<Json>, last: Option<Json>): Result<seq<Json>, SyncError>
    decreases SizeItems(xs), 0
  {
    if |xs| == 0 then Ok(acc)
    else
      var item := xs[0];
      if IsContainer(item) then
        var fi :- CleanBy(rule, item);
        CleanItems(rule, xs[1..], if Truthy(fi) then acc + [fi] else acc, Some(fi))
      else if item == JNull then CleanItems(rule, xs[1..], acc, last)
      else match rule
        case Corrected => CleanItems(rule, xs[1..], acc + [item], last)
        case AsWritten =>
          if last.None? then Err(UnboundLocal("filtered_item"))
          else CleanItems(rule, xs[1..], acc + [last.value], last)
  }

  /** A cleaned value: no member or item is null, and every nested container is
      non-empty and cleaned itself. */
  predicate Tidy(j: Json)
    decreases j, 0
  {
    match j
    case JObj(es) => forall e | e in es :: Kept(e.1)
    case JArr(xs) => forall x | x in xs :: Kept(x)
    case _ => true
  }

  predicate Kept(v: Json)
    decreases v, 1
  {
    v != JNull && (IsContainer(v) ==> Truthy(v) && Tidy(v))
  }

  /** With the corrected list rule the cleaner never fails and its output is tidy. */
  lemma {:induction false} CleanTidy(data: Json)
    ensures CleanBy(Corrected, data).Ok?
    ensures Tidy(CleanBy(Corrected, data).value)
    decreases Size(data), 1
  {
    match Prepare(data)
    case JObj(es) =>
      SizeOfObj(es);
      CleanEntriesTidy(es, []);
    case JArr(xs) =>
      SizeOfArr(xs);
      CleanItemsTidy(xs, [], None);
    case _ =>
  }

  lemma {:induction false} CleanEntriesTidy(es: Dict<string, Json>, acc: Dict<string, Json>)
    requires forall e | e in acc :: Kept(e.1)
    ensures CleanEntries(Corrected, es, acc).Ok?
    ensures forall e | e in CleanEntries(Corrected, es, acc).value :: Kept(e.1)
    decreases SizeEntries(es), 0
  {
    if |es| > 0 {
      var key := es[0].0;
      var value := es[0].1;
      if IsFilteredKey(key) {
        CleanEntriesTidy(es[1..], acc);
      } else if IsContainer(value) {
        CleanTidy(value);
        var fv := CleanBy(Corrected, value).value;
        if Truthy(fv) {
          PutEntries(acc, RenameKey(key), fv);
          CleanEntriesTidy(es[1..], Put(acc, RenameKey(key), fv));
        } else {
          CleanEntriesTidy(es[1..], acc);
        }
      } else if value != JNull {
        PutEntries(acc, RenameKey(key), value);
        CleanEntriesTidy(es[1..], Put(acc, RenameKey(key), value));
      } else {
        CleanEntriesTidy(es[1..], acc);
      }
    }
  }

  lemma {:induction false} CleanItemsTidy(xs: seq<Json>, acc: seq<Json>, last: Option<Json>)
    requires forall x | x in acc :: Kept(x)
    ensures CleanItems(Corrected, xs, acc, last).Ok?
    ensures forall x | x in CleanItems(Corrected, xs, acc, last).value :: Kept(x)
    decreases SizeItems(xs), 0
  {
    if |xs| > 0 {
      var item := xs[0];
      if IsContainer(item) {
        CleanTidy(item);
        var fi := CleanBy(Corrected, item).value;
        CleanItemsTidy(xs[1..], if Truthy(fi) then acc + [fi] else acc, Some(fi));
      } else if item == JNull {
        CleanItemsTidy(xs[1..], acc, last);
      } else {
        CleanItemsTidy(xs[1..], acc + [item], last);
      }
    }
  }

  /** The cleaner as the rest of the model uses it (the corrected list rule). */
  function Clean(data: Json): (r: Json)
    ensures Tidy(r)
    ensures CleanBy(Corrected, data) == Ok(r)
  {
    CleanTidy(data);
    CleanBy(Corrected, data).value
  }

  // ---------------------------------------------------------------------------
  // what the cleaner keeps

  /** One pair of the loop: the dict after it keeps every key it had, gains at
      most the display name of the pair's key, stores a non-null scalar under
      that name, and changes no other key. */
  lemma CleanEntriesStep(rule: ListRule, es: Dict<string, Json>, acc: Dict<string, Json>) returns (next: Dict<string, Json>)
    requires |es| > 0 && CleanEntries(rule, es, acc).Ok?
    ensures CleanEntries(rule, es, acc) == CleanEntries(rule, es[1..], next)
    ensures forall k :: k in Keys(acc) ==> k in Keys(next)
    ensures forall k :: k in Keys(next) ==> k in Keys(acc) || (!IsFilteredKey(es[0].0) && k == RenameKey(es[0].0))
    ensures !IsFilteredKey(es[0].0) && !IsContainer(es[0].1) && es[0].1 != JNull ==>
              Get(next, RenameKey(es[0].0)) == Some(es[0].1)
    ensures forall k :: IsFilteredKey(es[0].0) || k != RenameKey(es[0].0) ==> Get(next, k) == Get(acc, k)
  {
    var key := es[0].0;
    var value := es[0].1;
    next :=
      if IsFilteredKey(key) then acc
      else if IsContainer(value) then
        (if Truthy(CleanBy(rule, value).value) then Put(acc, RenameKey(key), CleanBy(rule, value).value) else acc)
      else if value != JNull then Put(acc, RenameKey(key), value)
      else acc;
  }

  /** The loop goes on from some dict after its first pair; the proofs that
      need nothing else about that dict stay small with this view of the step. */
  lemma CleanEntriesNext(rule: ListRule, es: Dict<string, Json>, acc: Dict<string, Json>) returns (next: Dict<string, Json>)
    requires |es| > 0 && CleanEntries(rule, es, acc).Ok?
    ensures CleanEntries(rule, es, acc) == CleanEntries(rule, es[1..], next)
  {
    next := CleanEntriesStep(rule, es, acc);
  }

  /** The step, as the facts about keys see it. */
  lemma CleanEntriesStepKeys(rule: ListRule, es: Dict<string, Json>, acc: Dict<string, Json>) returns (next: Dict<string, Json>)
    requires |es| > 0 && CleanEntries(rule, es, acc).Ok?
    ensures CleanEntries(rule, es, acc) == CleanEntries(rule, es[1..], next)
    ensures forall k :: k in Keys(acc) ==> k in Keys(next)
    ensures forall k :: k in Keys(next) ==> k in Keys(acc) || (!IsFilteredKey(es[0].0) && k == RenameKey(es[0].0))
    ensures !IsFilteredKey(es[0].0) && !IsContainer(es[0].1) && es[0].1 != JNull ==> RenameKey(es[0].0) in Keys(next)
  {
    next := CleanEntriesStep(rule, es, acc);
  }

  /** The step, as the facts about stored values see it. */
  lemma CleanEntriesStepGet(rule: ListRule, es: Dict<string, Json>, acc: Dict<string, Json>) returns (next: Dict<string, Json>)
    requires |es| > 0 && CleanEntries(rule, es, acc).Ok?
    ensures CleanEntries(rule, es, acc) == CleanEntries(rule, es[1..], next)
    ensures forall k :: IsFilteredKey(es[0].0) || k != RenameKey(es[0].0) ==> Get(next, k) == Get(acc, k)
  {
    next := CleanEntriesStep(rule, es, acc);
  }

  /** Every key of a cleaned dict is the display name of an input key that passed
      the filter, and every input key that passed the filter and holds a non-null
      scalar is there under its display name. */
  lemma CleanEntriesKeys(rule: ListRule, es: Dict<string, Json>, acc: Dict<string, Json>)
    ensures var r := CleanEntries(rule, es, acc);
      r.Ok? ==>
        && (forall k :: k in Keys(acc) ==> k in Keys(r.value))
        && (forall k :: k in Keys(r.value) ==>
              k in Keys(acc) || exists i :: 0 <= i < |es| && !IsFilteredKey(es[i].0) && k == RenameKey(es[i].0))
        && (forall i :: 0 <= i < |es| && !IsFilteredKey(es[i].0) && !IsContainer(es[i].1) && es[i].1 != JNull ==>
              RenameKey(es[i].0) in Keys(r.value))
  {
    CleanEntriesKeysKept(rule, es, acc);
    CleanEntriesKeysFrom(rule, es, acc);
    CleanEntriesKeysScalar(rule, es, acc);
  }

  /** The loop never drops a key it has stored. */
  lemma {:induction false} CleanEntriesKeysKept(rule: ListRule, es: Dict<string, Json>, acc: Dict<string, Json>)
    ensures var r := CleanEntries(rule, es, acc);
      r.Ok? ==> forall k :: k in Keys(acc) ==> k in Keys(r.value)
    decreases |es|
  {
    if |es| > 0 && CleanEntries(rule, es, acc).Ok? {
      var next := CleanEntriesStepKeys(rule, es, acc);
      CleanEntriesKeysKept(rule, es[1..], next);
    }
  }

  /** A key the loop stores is the display name of an input key that passed the
      filter. */
  lemma {:induction false} CleanEntriesKeysFrom(rule: ListRule, es: Dict<string, Json>, acc: Dict<string, Json>)
    ensures var r := CleanEntries(rule, es, acc);
      r.Ok? ==> forall k :: k in Keys(r.value) ==>
        k in Keys(acc) || exists i :: 0 <= i < |es| && !IsFilteredKey(es[i].0) && k == RenameKey(es[i].0)
    decreases |es|
  {
    if |es| > 0 && CleanEntries(rule, es, acc).Ok? {
      var next := CleanEntriesStepKeys(rule, es, acc);
      CleanEntriesKeysFrom(rule, es[1..], next);
      assert forall i :: 1 <= i < |es| ==> es[1..][i - 1] == es[i];
    }
  }

  /** A non-null scalar under a key that passed the filter is stored under its
      display name. */
  lemma {:induction false} CleanEntriesKeysScalar(rule: ListRule, es: Dict<string, Json>, acc: Dict<string, Json>)
    ensures var r := CleanEntries(rule, es, acc);
      r.Ok? ==> forall i :: 0 <= i < |es| && !IsFilteredKey(es[i].0) && !IsContainer(es[i].1) && es[i].1 != JNull ==>
        RenameKey(es[i].0) in Keys(r.value)
    decreases |es|
  {
    if |es| > 0 && CleanEntries(rule, es, acc).Ok? {
      var next := CleanEntriesStepKeys(rule, es, acc);
      CleanEntriesKeysKept(rule, es[1..], next);
      CleanEntriesKeysScalar(rule, es[1..], next);
      assert forall i :: 1 <= i < |es| ==> es[1..][i - 1] == es[i];
    }
  }

  /** A key no later input key maps to keeps the value it has. */
  lemma {:induction false} CleanEntriesUntouched(rule: ListRule, es: Dict<string, Json>, acc: Dict<string, Json>, k: string)
    requires forall i :: 0 <= i < |es| && !IsFilteredKey(es[i].0) ==> RenameKey(es[i].0) != k
    ensures CleanEntries(rule, es, acc).Ok? ==> Get(CleanEntries(rule, es, acc).value, k) == Get(acc, k)
    decreases |es|
  {
    if |es| > 0 && CleanEntries(rule, es, acc).Ok? {
      var next := CleanEntriesStepGet(rule, es, acc);
      assert forall i :: 1 <= i < |es| ==> es[1..][i - 1] == es[i];
      CleanEntriesUntouched(rule, es[1..], next, k);
    }
  }

  /** A non-null scalar under a kept key is the value of its display name, unless
      a later kept key has the same display name. */
  lemma {:induction false} CleanEntriesScalar(rule: ListRule, es: Dict<string, Json>, acc: Dict<string, Json>, i: nat)
    requires i < |es| && !IsFilteredKey(es[i].0) && !IsContainer(es[i].1) && es[i].1 != JNull
    requires forall j :: i < j < |es| && !IsFilteredKey(es[j].0) ==> RenameKey(es[j].0) != RenameKey(es[i].0)
    ensures CleanEntries(rule, es, acc).Ok? ==>
              Get(CleanEntries(rule, es, acc).value, RenameKey(es[i].0)) == Some(es[i].1)
    decreases |es|, 1
  {
    if i == 0 {
      CleanEntriesScalarFirst(rule, es, acc);
    } else {
      CleanEntriesScalarLater(rule, es, acc, i);
    }
  }

  lemma {:induction false} CleanEntriesScalarLater(rule: ListRule, es: Dict<string, Json>, acc: Dict<string, Json>, i: nat)
    requires 0 < i < |es| && !IsFilteredKey(es[i].0) && !IsContainer(es[i].1) && es[i].1 != JNull
    requires forall j :: i < j < |es| && !IsFilteredKey(es[j].0) ==> RenameKey(es[j].0) != RenameKey(es[i].0)
    ensures CleanEntries(rule, es, acc).Ok? ==>
              Get(CleanEntries(rule, es, acc).value, RenameKey(es[i].0)) == Some(es[i].1)
    decreases |es|, 0
  {
    if CleanEntries(rule, es, acc).Ok? {
      var next := CleanEntriesNext(rule, es, acc);
      LaterKeysShift(es, i);
      CleanEntriesScalar(rule, es[1..], next, i - 1);
      ScalarAfterStep(rule, es, acc, next, i);
    }
  }

  /** What the rest of the loop stores under the `i`-th pair's display name is
      what the whole loop stores there. */
  lemma ScalarAfterStep(rule: ListRule, es: Dict<string, Json>, acc: Dict<string, Json>, next: Dict<string, Json>, i: nat)
    requires 0 < i < |es|
    requires CleanEntries(rule, es, acc) == CleanEntries(rule, es[1..], next)
    requires CleanEntries(rule, es[1..], next).Ok? ==>
               Get(CleanEntries(rule, es[1..], next).value, RenameKey(es[1..][i - 1].0)) == Some(es[1..][i - 1].1)
    ensures CleanEntries(rule, es, acc).Ok? ==>
              Get(CleanEntries(rule, es, acc).value, RenameKey(es[i].0)) == Some(es[i].1)
  {
    assert es[1..][i - 1] == es[i];
  }

  /** Dropping the first pair keeps "no later kept key has the same display name". */
  lemma LaterKeysShift(es: Dict<string, Json>, i: nat)
    requires 0 < i < |es|
    requires forall j :: i < j < |es| && !IsFilteredKey(es[j].0) ==> RenameKey(es[j].0) != RenameKey(es[i].0)
    ensures es[1..][i - 1] == es[i]
    ensures forall j :: i - 1 < j < |es[1..]| && !IsFilteredKey(es[1..][j].0) ==> RenameKey(es[1..][j].0) != RenameKey(es[1..][i - 1].0)
  {
    var tail := es[1..];
    forall j | i - 1 < j < |tail| && !IsFilteredKey(tail[j].0)
      ensures RenameKey(tail[j].0) != RenameKey(tail[i - 1].0)
    {
      assert tail[j] == es[j + 1];
    }
  }

  /** The first pair, a non-null scalar, is stored under its display name and
      no later kept key overwrites it. */
  lemma CleanEntriesScalarFirst(rule: ListRule, es: Dict<string, Json>, acc: Dict<string, Json>)
    requires |es| > 0 && !IsFilteredKey(es[0].0) && !IsContainer(es[0].1) && es[0].1 != JNull
    requires forall j :: 0 < j < |es| && !IsFilteredKey(es[j].0) ==> RenameKey(es[j].0) != RenameKey(es[0].0)
    ensures CleanEntries(rule, es, acc).Ok? ==>
              Get(CleanEntries(rule, es, acc).value, RenameKey(es[0].0)) == Some(es[0].1)
  {
    if CleanEntries(rule, es, acc).Ok? {
      var next := CleanEntriesStep(rule, es, acc);
      assert forall j :: 1 <= j < |es| ==> es[1..][j - 1] == es[j];
      CleanEntriesUntouched(rule, es[1..], next, RenameKey(es[0].0));
    }
  }

  /** The cleaned form of a record: keys come from unfiltered input keys, and each
      unfiltered non-null scalar is kept, under its display name, with its value
      when no later key shares that name. */
  lemma CleanRecord(data: Json)
    requires Prepare(data).JObj?
    ensures var es := Prepare(data).entries;
      && Clean(data).JObj?
      && (forall k :: k in Keys(Clean(data).entries) ==>
            exists i :: 0 <= i < |es| && !IsFilteredKey(es[i].0) && k == RenameKey(es[i].0))
      && (forall i :: 0 <= i < |es| && !IsFilteredKey(es[i].0) && !IsContainer(es[i].1) && es[i].1 != JNull ==>
            RenameKey(es[i].0) in Keys(Clean(data).entries))
      && (forall i :: (&& 0 <= i < |es| && !IsFilteredKey(es[i].0) && !IsContainer(es[i].1) && es[i].1 != JNull
                       && forall j :: i < j < |es| && !IsFilteredKey(es[j].0) ==> RenameKey(es[j].0) != RenameKey(es[i].0)) ==>
            Get(Clean(data).entries, RenameKey(es[i].0)) == Some(es[i].1))
  {
    var es := Prepare(data).entries;
    SizeOfObj(es);
    CleanEntriesKeys(Corrected, es, []);
    forall i | (&& 0 <= i < |es| && !IsFilteredKey(es[i].0) && !IsContainer(es[i].1) && es[i].1 != JNull
                && forall j :: i < j < |es| && !IsFilteredKey(es[j].0) ==> RenameKey(es[j].0) != RenameKey(es[i].0))
      ensures Get(Clean(data).entries, RenameKey(es[i].0)) == Some(es[i].1)
    {
      CleanEntriesScalar(Corrected, es, [], i);
    }
  }

  /** Each filter word ends in `d`, `e`, `p` or `l`, so a key whose last character
      matches none of them (and is not a newline) passes the filter. */
  lemma FilterWordLastChar(s: string, j: int)
    ensures FilterWordAt(s, j) ==>
              var c := s[|s| - 1]; FoldsTo(c, 'd') || FoldsTo(c, 'e') || FoldsTo(c, 'p') || FoldsTo(c, 'l')
  {
    if FilterWordAt(s, j) {
      var n := |s|;
      if MatchesFolded(s, "id", j) && j + 2 == n {
        assert FoldsTo(s[j + 1], "id"[1]);
      } else if MatchesFolded(s, "date", j) && j + 4 == n {
        assert FoldsTo(s[j + 3], "date"[3]);
      } else if MatchesFolded(s, "stamp", j) && j + 5 == n {
        assert FoldsTo(s[j + 4], "stamp"[4]);
      } else {
        assert FoldsTo(s[j + 2], "url"[2]);
      }
    }
  }

  lemma LastCharKeepsKey(key: string)
    requires |key| > 0 && key[|key| - 1] != '\n'
    requires var c := key[|key| - 1]; !FoldsTo(c, 'd') && !FoldsTo(c, 'e') && !FoldsTo(c, 'p') && !FoldsTo(c, 'l')
    ensures !IsFilteredKey(key)
  {
    var n := |key|;
    FilterWordLastChar(key, n - 2);
    FilterWordLastChar(key, n - 3);
    FilterWordLastChar(key, n - 4);
    FilterWordLastChar(key, n - 5);
  }

  /** A custom field `base__c` holding a non-null scalar is kept under `base`,
      whatever `base` ends in: the filter looks at the key before `__c` is
      removed, and a key ending in `c` never matches it. */
  lemma CleanKeepsCustomField(base: string, v: Json)
    requires !IsContainer(v) && v != JNull
    ensures var r := Clean(JObj([(base + "__c", v)]));
      r.JObj? && Get(r.entries, base) == Some(v)
  {
    var key := base + "__c";
    var es := [(key, v)];
    assert key[|key| - 1] == 'c';
    LastCharKeepsKey(key);
    RenameCustomField(base);
    assert Prepare(JObj(es)) == JObj(es);
    CleanRecord(JObj(es));
    assert es[0].1 == v;
  }

  /** An identifier field that is custom: `Parent_Id` alone is filtered, but
      `Parent_Id__c` is kept and shown as `Parent_Id`. */
  lemma CustomIdFieldKept()
    ensures IsFilteredKey("Parent_Id")
    ensures var r := Clean(JObj([("Parent_Id__c", JStr("a"))]));
      r.JObj? && Get(r.entries, "Parent_Id") == Some(JStr("a"))
  {
    var base := "Parent_Id";
    assert MatchesFolded(base, "id", |base| - 2);
    CleanKeepsCustomField(base, JStr("a"));
    assert base + "__c" == "Parent_Id__c";
  }

  // ---------------------------------------------------------------------------
  // lists

  function DropNulls(xs: seq<Json>): (r: seq<Json>)
    ensures forall x :: x in r <==> x in xs && x != JNull
  {
    if |xs| == 0 then []
    else (if xs[0] == JNull then [] else [xs[0]]) + DropNulls(xs[1..])
  }

  lemma {:induction false} CleanScalarItems(xs: seq<Json>, acc: seq<Json>, last: Option<Json>)
    requires forall x | x in xs :: !IsContainer(x)
    ensures CleanItems(Corrected, xs, acc, last) == Ok(acc + DropNulls(xs))
    decreases |xs|
  {
    if |xs| > 0 {
      if xs[0] == JNull {
        assert DropNulls(xs) == DropNulls(xs[1..]);
        assert CleanItems(Corrected, xs, acc, last) == CleanItems(Corrected, xs[1..], acc, last);
        CleanScalarItems(xs[1..], acc, last);
      } else {
        assert xs[0] in xs;
        assert DropNulls(xs) == [xs[0]] + DropNulls(xs[1..]);
        assert CleanItems(Corrected, xs, acc, last) == CleanItems(Corrected, xs[1..], acc + [xs[0]], last);
        CleanScalarItems(xs[1..], acc + [xs[0]], last);
        assert acc + [xs[0]] + DropNulls(xs[1..]) == acc + DropNulls(xs);
      }
    } else {
      assert acc + DropNulls(xs) == acc;
    }
  }

  /** A list of scalars keeps every non-null scalar, in order. */
  lemma CleanScalarList(xs: seq<Json>)
    requires forall x | x in xs :: !IsContainer(x)
    ensures Clean(JArr(xs)) == JArr(DropNulls(xs))
  {
    SizeOfArr(xs);
    CleanScalarItems(xs, [], None);
  }

  /** As written, a list of scalars that starts with a non-null one makes the loop
      read a variable it has not yet assigned; corrected, the scalars are kept. */
  lemma AsWrittenScalarListFails(xs: seq<Json>)
    requires |xs| > 0 && xs[0] != JNull
    requires forall x | x in xs :: !IsContainer(x)
    ensures CleanBy(AsWritten, JArr(xs)) == Err(UnboundLocal("filtered_item"))
    ensures Clean(JArr(xs)) == JArr(DropNulls(xs))
  {
    AsWrittenScalarFirst(xs);
    CleanScalarList(xs);
  }

  lemma AsWrittenScalarFirst(xs: seq<Json>)
    requires |xs| > 0 && xs[0] != JNull && !IsContainer(xs[0])
    ensures CleanBy(AsWritten, JArr(xs)) == Err(UnboundLocal("filtered_item"))
  {
    assert Prepare(JArr(xs)) == JArr(xs);
    SizeOfArr(xs);
    assert CleanItems(AsWritten, xs, [], None) == Err(UnboundLocal("filtered_item"));
  }

  /** As written, a scalar after a non-empty container is replaced by a second
      copy of the cleaned container; corrected, the scalar itself follows it. */
  lemma AsWrittenScalarRepeatsContainer(x: Json, y: Json, v: Json)
    requires IsContainer(x) && CleanBy(AsWritten, x) == Ok(y) && CleanBy(Corrected, x) == Ok(y) && Truthy(y)
    requires !IsContainer(v) && v != JNull
    ensures CleanBy(AsWritten, JArr([x, v])) == Ok(JArr([y, y]))
    ensures Clean(JArr([x, v])) == JArr([y, v])
  {
    var xs := [x, v];
    SizeOfArr(xs);
    assert xs[1..] == [v] && [v][1..] == [];
    assert [] + [y] == [y] && [y] + [y] == [y, y] && [y] + [v] == [y, v];
    assert CleanItems(AsWritten, xs, [], None) == CleanItems(AsWritten, [v], [y], Some(y));
    assert CleanItems(AsWritten, [v], [y], Some(y)) == CleanItems(AsWritten, [], [y, y], Some(y));
    assert CleanItems(Corrected, xs, [], None) == CleanItems(Corrected, [v], [y], Some(y));
    assert CleanItems(Corrected, [v], [y], Some(y)) == CleanItems(Corrected, [], [y, v], Some(y));
  }

  /** A record of one kept, unrenamed key with a non-null scalar is already clean. */
  lemma OneMemberRecordIsClean(rule: ListRule, k: string, v: Json)
    requires !IsFilteredKey(k) && RenameKey(k) == k
    requires k != "records" && k != "attributes"
    requires !IsContainer(v) && v != JNull
    ensures CleanBy(rule, JObj([(k, v)])) == Ok(JObj([(k, v)]))
  {
    var es := [(k, v)];
    assert Keys(es) == [k];
    assert Prepare(JObj(es)) == JObj(es);
    SizeOfObj(es);
    assert CleanEntries(rule, es, []) == CleanEntries(rule, [], Put([], k, v));
  }

  lemma SummaryRecordIsClean(rule: ListRule)
    ensures var x := JObj([("Summary", JStr("Robot"))]); CleanBy(rule, x) == Ok(x)
  {
    LastCharKeepsKey("Summary");
    assert RenameKey("Summary") == "Summary" by {
      ContainsHead("Summary", "__c");
    }
    OneMemberRecordIsClean(rule, "Summary", JStr("Robot"));
  }

  /** An instance: a one-member record followed by a product name. */
  lemma AsWrittenListExample()
    ensures var x := JObj([("Summary", JStr("Robot"))]);
      && CleanBy(AsWritten, JArr([x, JStr("Studio")])) == Ok(JArr([x, x]))
      && Clean(JArr([x, JStr("Studio")])) == JArr([x, JStr("Studio")])
  {
    var x := JObj([("Summary", JStr("Robot"))]);
    SummaryRecordIsClean(AsWritten);
    SummaryRecordIsClean(Corrected);
    AsWrittenScalarRepeatsContainer(x, x, JStr("Studio"));
  }

  /** No list the cleaner visits holds a non-null scalar: the one case in which
      the two list rules differ. Members under filtered keys are never visited. */
  predicate NoScalarItems(data: Json)
    decreases Size(data), 1
  {
    match Prepare(data)
    case JObj(es) => SizeOfObj(es); EntriesWithoutScalarItems(es)
    case JArr(xs) => SizeOfArr(xs); ItemsWithoutScalars(xs)
    case _ => true
  }

  predicate EntriesWithoutScalarItems(es: Dict<string, Json>)
    decreases SizeEntries(es), 0
  {
    || |es| == 0
    || (&& (IsFilteredKey(es[0].0) || !IsContainer(es[0].1) || NoScalarItems(es[0].1))
        && EntriesWithoutScalarItems(es[1..]))
  }

  predicate ItemsWithoutScalars(xs: seq<Json>)
    decreases SizeItems(xs), 0
  {
    || |xs| == 0
    || (&& (if IsContainer(xs[0]) then NoScalarItems(xs[0]) else xs[0] == JNull)
        && ItemsWithoutScalars(xs[1..]))
  }

  /** Where no list holds a non-null scalar, the cleaner as written and the
      corrected one agree, failure included. */
  lemma {:induction false} RulesAgree(data: Json)
    requires NoScalarItems(data)
    ensures CleanBy(AsWritten, data) == CleanBy(Corrected, data)
    decreases Size(data), 1
  {
    match Prepare(data)
    case JObj(es) =>
      SizeOfObj(es);
      EntriesRulesAgree(es, []);
    case JArr(xs) =>
      SizeOfArr(xs);
      ItemsRulesAgree(xs, [], None);
    case _ =>
  }

  lemma {:induction false} EntriesRulesAgree(es: Dict<string, Json>, acc: Dict<string, Json>)
    requires EntriesWithoutScalarItems(es)
    ensures CleanEntries(AsWritten, es, acc) == CleanEntries(Corrected, es, acc)
    decreases SizeEntries(es), 0
  {
    if |es| > 0 {
      var key := es[0].0;
      var value := es[0].1;
      if IsFilteredKey(key) {
        EntriesRulesAgree(es[1..], acc);
      } else if IsContainer(value) {
        RulesAgree(value);
        var fv := CleanBy(Corrected, value);
        if fv.Ok? {
          EntriesRulesAgree(es[1..], if Truthy(fv.value) then Put(acc, RenameKey(key), fv.value) else acc);
        }
      } else {
        EntriesRulesAgree(es[1..], if value != JNull then Put(acc, RenameKey(key), value) else acc);
      }
    }
  }

  lemma {:induction false} ItemsRulesAgree(xs: seq<Json>, acc: seq<Json>, last: Option<Json>)
    requires ItemsWithoutScalars(xs)
    ensures CleanItems(AsWritten, xs, acc, last) == CleanItems(Corrected, xs, acc, last)
    decreases SizeItems(xs), 0
  {
    if |xs| > 0 {
      var item := xs[0];
      if IsContainer(item) {
        RulesAgree(item);
        var fi := CleanBy(Corrected, item);
        if fi.Ok? {
          ItemsRulesAgree(xs[1..], if Truthy(fi.value) then acc + [fi.value] else acc, Some(fi.value));
        }
      } else {
        ItemsRulesAgree(xs[1..], acc, last);
      }
    }
  }



  // ---------------------------------------------------------------------------
  // serialising: `_json_to_natural_language`

  function Indent(n: nat): (r: string)
    ensures |r| == n && forall i :: 0 <= i < n ==> r[i] == ' '
  {
    seq(n, _ => ' ')
  }

  /** One text per member or item, joined with newlines: a member holding a
      container is a `key:` header followed by the container written two columns
      further in; any other member is `key: value`; a list writes its items at
      its own indentation. */
  function Render(j: Json, indent: nat): string
    decreases Size(j), 1
  {
    match j
    case JObj(es) => SizeOfObj(es); Join(RenderEntries(es, indent), "\n")
    case JArr(xs) => SizeOfArr(xs); Join(RenderItems(xs, indent), "\n")
    case _ => Indent(indent) + ScalarText(j)
  }

  function RenderEntries(es: Dict<string, Json>, indent: nat): seq<string>
    decreases SizeEntries(es), 0
  {
    if |es| == 0 then []
    else
      var key := es[0].0;
      var value := es[0].1;
      (if IsContainer(value) then [Indent(indent) + key + ":", Render(value, indent + 2)]
       else [Indent(indent) + key + ": " + ScalarText(value)])
      + RenderEntries(es[1..], indent)
  }

  function RenderItems(xs: seq<Json>, indent: nat): seq<string>
    decreases SizeItems(xs), 0
  {
    if |xs| == 0 then [] else [Render(xs[0], indent)] + RenderItems(xs[1..], indent)
  }

  /** The lines of the text, as a flat list: a reference for `Render`. */
  function Lines(j: Json, indent: nat): seq<string>
    decreases Size(j), 1
  {
    match j
    case JObj(es) => SizeOfObj(es); EntryLines(es, indent)
    case JArr(xs) => SizeOfArr(xs); ItemLines(xs, indent)
    case _ => [Indent(indent) + ScalarText(j)]
  }

  function EntryLines(es: Dict<string, Json>, indent: nat): seq<string>
    decreases SizeEntries(es), 0
  {
    if |es| == 0 then []
    else
      var key := es[0].0;
      var value := es[0].1;
      (if IsContainer(value) then [Indent(indent) + key + ":"] + Lines(value, indent + 2)
       else [Indent(indent) + key + ": " + ScalarText(value)])
      + EntryLines(es[1..], indent)
  }

  function ItemLines(xs: seq<Json>, indent: nat): seq<string>
    decreases SizeItems(xs), 0
  {
    if |xs| == 0 then [] else Lines(xs[0], indent) + ItemLines(xs[1..], indent)
  }

  /** The text of a cleaned value is its lines joined with newlines, and a value
      that is a scalar or a non-empty container has at least one line. */
  lemma {:induction false} RenderIsLines(j: Json, indent: nat)
    requires Tidy(j)
    ensures Render(j, indent) == Join(Lines(j, indent), "\n")
    ensures !IsContainer(j) || Truthy(j) ==> |Lines(j, indent)| > 0
    decreases Size(j), 1
  {
    match j
    case JObj(es) =>
      SizeOfObj(es);
      RenderEntriesAreLines(es, indent);
    case JArr(xs) =>
      SizeOfArr(xs);
      RenderItemsAreLines(xs, indent);
    case _ =>
  }

  lemma {:induction false} RenderEntriesAreLines(es: Dict<string, Json>, indent: nat)
    requires forall e | e in es :: Kept(e.1)
    ensures Join(RenderEntries(es, indent), "\n") == Join(EntryLines(es, indent), "\n")
    ensures |RenderEntries(es, indent)| == 0 <==> |es| == 0
    ensures |EntryLines(es, indent)| == 0 <==> |es| == 0
    decreases SizeEntries(es), 0
  {
    if |es| > 0 {
      var key := es[0].0;
      var value := es[0].1;
      assert es[0] in es;
      var p, q;
      if IsContainer(value) {
        RenderIsLines(value, indent + 2);
        var sub := Lines(value, indent + 2);
        p := [Indent(indent) + key + ":", Render(value, indent + 2)];
        q := [Indent(indent) + key + ":"] + sub;
        assert q[1..] == sub;
        assert Join(p, "\n") == Join(q, "\n");
      } else {
        p := [Indent(indent) + key + ": " + ScalarText(value)];
        q := p;
      }
      assert RenderEntries(es, indent) == p + RenderEntries(es[1..], indent);
      assert EntryLines(es, indent) == q + EntryLines(es[1..], indent);
      RenderEntriesAreLines(es[1..], indent);
      if |es| == 1 {
        assert RenderEntries(es, indent) == p;
        assert EntryLines(es, indent) == q;
      } else {
        JoinConcat(p, RenderEntries(es[1..], indent), "\n");
        JoinConcat(q, EntryLines(es[1..], indent), "\n");
      }
    }
  }

  lemma {:induction false} RenderItemsAreLines(xs: seq<Json>, indent: nat)
    requires forall x | x in xs :: Kept(x)
    ensures Join(RenderItems(xs, indent), "\n") == Join(ItemLines(xs, indent), "\n")
    ensures |RenderItems(xs, indent)| == 0 <==> |xs| == 0
    ensures |ItemLines(xs, indent)| == 0 <==> |xs| == 0
    decreases SizeItems(xs), 0
  {
    if |xs| > 0 {
      assert xs[0] in xs;
      RenderIsLines(xs[0], indent);
      var p := [Render(xs[0], indent)];
      var q := Lines(xs[0], indent);
      assert RenderItems(xs, indent) == p + RenderItems(xs[1..], indent);
      RenderItemsAreLines(xs[1..], indent);
      if |xs| == 1 {
        assert RenderItems(xs, indent) == p;
        assert ItemLines(xs, indent) == q;
      } else {
        JoinConcat(p, RenderItems(xs[1..], indent), "\n");
        JoinConcat(q, ItemLines(xs[1..], indent), "\n");
      }
    }
  }

  /** Every line starts with the indentation of the level it is written at. */
  lemma {:induction false} LinesIndented(j: Json, indent: nat)
    ensures forall line | line in Lines(j, indent) :: Indent(indent) <= line
    decreases Size(j), 1
  {
    match j
    case JObj(es) =>
      SizeOfObj(es);
      EntryLinesIndented(es, indent);
    case JArr(xs) =>
      SizeOfArr(xs);
      ItemLinesIndented(xs, indent);
    case _ =>
  }

  lemma {:induction false} EntryLinesIndented(es: Dict<string, Json>, indent: nat)
    ensures forall line | line in EntryLines(es, indent) :: Indent(indent) <= line
    decreases SizeEntries(es), 0
  {
    if |es| > 0 {
      var value := es[0].1;
      EntryLinesIndented(es[1..], indent);
      if IsContainer(value) {
        SizeEntriesMember(es, 0);
        LinesIndented(value, indent + 2);
        assert Indent(indent) <= Indent(indent + 2);
      }
    }
  }

  lemma {:induction false} ItemLinesIndented(xs: seq<Json>, indent: nat)
    ensures forall line | line in ItemLines(xs, indent) :: Indent(indent) <= line
    decreases SizeItems(xs), 0
  {
    if |xs| > 0 {
      LinesIndented(xs[0], indent);
      ItemLinesIndented(xs[1..], indent);
    }
  }

  /** A scalar member is written as one `key: value` line. */
  lemma {:induction false} ScalarMemberLine(es: Dict<string, Json>, indent: nat, i: nat)
    requires i < |es| && !IsContainer(es[i].1)
    ensures Indent(indent) + es[i].0 + ": " + ScalarText(es[i].1) in EntryLines(es, indent)
    decreases |es|
  {
    if i > 0 {
      ScalarMemberLine(es[1..], indent, i - 1);
    }
  }

  // ---------------------------------------------------------------------------
  // the article text

  /** `clean_html`: the text the HTML parser extracts (a parameter here) with
      every non-breaking space turned into a plain space. */
  function CleanHtml(html: string, parsedText: string -> string): (r: string)
    ensures |r| == |parsedText(html)|
    ensures forall i :: 0 <= i < |r| ==>
              r[i] == if parsedText(html)[i] == '\U{A0}' then ' ' else parsedText(html)[i]
    ensures '\U{A0}' !in r
  {
    var t := parsedText(html);
    seq(|t|, i requires 0 <= i < |t| => if t[i] == '\U{A0}' then ' ' else t[i])
  }

  /** `extract_dict_text`: clean the record with the given list rule, pass a
      `Resolution` member through `clean_html`, and serialise. A failure of the
      cleaner is the failure of the extraction. `'Resolution' in` and the item
      assignment fail on what a cleaned record can also be: a list holding that
      string, a string containing it, a scalar; a non-string `Resolution` is
      refused by the parser. */
  function ExtractDictText(rule: ListRule, raw: Dict<string, Json>, parsedText: string -> string): Result<string, SyncError>
  {
    var processed :- CleanBy(rule, JObj(raw));
    TextOfCleaned(processed, parsedText)
  }

  /** The part of `extract_dict_text` after cleaning. */
  function TextOfCleaned(processed: Json, parsedText: string -> string): Result<string, SyncError>
  {
    match processed
    case JObj(es) =>
      (match Get(es, "Resolution")
       case None => Ok(Render(processed, 0))
       case Some(v) =>
         if v.JStr? then Ok(Render(JObj(Put(es, "Resolution", JStr(CleanHtml(v.s, parsedText)))), 0))
         else Err(WrongType("Resolution")))
    case JArr(xs) =>
      if JStr("Resolution") in xs then Err(WrongType("list indices must be integers"))
      else Ok(Render(processed, 0))
    case JStr(text) =>
      if Contains(text, "Resolution") then Err(WrongType("str does not support item assignment"))
      else Ok(Render(processed, 0))
    case _ => Err(WrongType("argument is not iterable"))
  }

  /** The cleaned record under the given rule, when the cleaner succeeds and its
      output is tidy; the corrected rule always gives one (`Clean`). */
  predicate CleansTidy(rule: ListRule, raw: Dict<string, Json>) {
    CleanBy(rule, JObj(raw)).Ok? && Tidy(CleanBy(rule, JObj(raw)).value)
  }

  lemma CorrectedCleansTidy(raw: Dict<string, Json>)
    ensures CleansTidy(Corrected, raw) && CleanBy(Corrected, JObj(raw)).value == Clean(JObj(raw))
  {
    CleanTidy(JObj(raw));
  }

  /** Where no list holds a non-null scalar, the extraction as written is the
      corrected one. */
  lemma ExtractRulesAgree(raw: Dict<string, Json>, parsedText: string -> string)
    requires NoScalarItems(JObj(raw))
    ensures ExtractDictText(AsWritten, raw, parsedText) == ExtractDictText(Corrected, raw, parsedText)
  {
    RulesAgree(JObj(raw));
  }

  /** `Body` passes the filter and keeps its name. */
  lemma BodyKeyKept()
    ensures !IsFilteredKey("Body") && RenameKey("Body") == "Body"
  {
    assert "Body"[3] == 'y';
    LastCharKeepsKey("Body");
    ContainsHead("Body", "__c");
  }

  /** The id and the modification date of a record are filtered. */
  lemma IdAndDateFiltered()
    ensures IsFilteredKey("Id") && IsFilteredKey("LastModifiedDate")
  {
    assert MatchesFolded("Id", "id", 0);
    assert MatchesFolded("LastModifiedDate", "date", 12);
  }

  /** A member under a filtered key is skipped. */
  lemma SkipFiltered(rule: ListRule, es: Dict<string, Json>, acc: Dict<string, Json>)
    requires |es| > 0 && IsFilteredKey(es[0].0)
    ensures CleanEntries(rule, es, acc) == CleanEntries(rule, es[1..], acc)
  {
  }

  /** The one-member record `{"Body": ["x"]}`. */
  const BodyRecord: Dict<string, Json> := [("Body", JArr([JStr("x")]))]

  lemma BodyRecordCleaned()
    ensures CleanBy(AsWritten, JObj(BodyRecord)) == Err(UnboundLocal("filtered_item"))
    ensures CleanBy(Corrected, JObj(BodyRecord)) == Ok(JObj(BodyRecord))
  {
    BodyRecordPrepared();
    SizeOfObj(BodyRecord);
    BodyEntriesCleaned();
  }

  /** The record is neither wrapped nor carries attributes. */
  lemma BodyRecordPrepared()
    ensures Prepare(JObj(BodyRecord)) == JObj(BodyRecord)
  {
    assert Get(BodyRecord, "records") == None;
    assert Get(BodyRecord, "attributes") == None;
  }

  lemma BodyEntriesCleaned()
    ensures CleanEntries(AsWritten, BodyRecord, []) == Err(UnboundLocal("filtered_item"))
    ensures CleanEntries(Corrected, BodyRecord, []) == Ok(BodyRecord)
  {
    var list := JArr([JStr("x")]);
    BodyKeyKept();
    AsWrittenScalarListFails([JStr("x")]);
    assert DropNulls([JStr("x")]) == [JStr("x")];
    assert CleanEntries(Corrected, BodyRecord, []) == CleanEntries(Corrected, [], Put([], "Body", list));
    assert Put([], "Body", list) == BodyRecord;
  }

  lemma BodyRecordRendered()
    ensures Render(JObj(BodyRecord), 0) == "Body:\n  x"
  {
    var list := JArr([JStr("x")]);
    SizeOfObj(BodyRecord);
    SizeOfArr([JStr("x")]);
    assert Indent(2) == "  " && Indent(0) == "";
    assert Render(JStr("x"), 2) == "  x";
    assert [JStr("x")][1..] == [];
    assert RenderItems([JStr("x")], 2) == ["  x"];
    assert Render(list, 2) == "  x";
    assert BodyRecord[1..] == [];
    assert BodyRecord[0] == ("Body", list);
    assert Indent(0) + "Body" + ":" == "Body:";
    assert RenderEntries(BodyRecord, 0) == [Indent(0) + "Body" + ":", Render(list, 2)] + RenderEntries([], 0);
    assert RenderEntries(BodyRecord, 0) == ["Body:", "  x"];
  }

  /** The record `{"Body": ["x"]}`: the extraction as written raises, because the
      cleaner reads `filtered_item` before assigning it; the corrected one writes
      the list under its key. */
  lemma AsWrittenExtractionFails(parsedText: string -> string)
    ensures ExtractDictText(AsWritten, BodyRecord, parsedText) == Err(UnboundLocal("filtered_item"))
    ensures ExtractDictText(Corrected, BodyRecord, parsedText) == Ok("Body:\n  x")
  {
    BodyRecordCleaned();
    BodyRecordRendered();
    assert Get(BodyRecord, "Resolution").None?;
  }

  /** A record without a `Resolution` member is its lines joined by newlines; the
      HTML cleaner plays no part. */
  lemma ExtractWithoutResolution(rule: ListRule, raw: Dict<string, Json>, parsedText: string -> string)
    requires CleansTidy(rule, raw)
    requires CleanBy(rule, JObj(raw)).value.JObj?
    requires "Resolution" !in Keys(CleanBy(rule, JObj(raw)).value.entries)
    ensures ExtractDictText(rule, raw, parsedText) == Ok(Join(EntryLines(CleanBy(rule, JObj(raw)).value.entries, 0), "\n"))
  {
    var es := CleanBy(rule, JObj(raw)).value.entries;
    RenderIsLines(JObj(es), 0);
  }
  lemma PutKeepsTidy(es: Dict<string, Json>, k: string, v: Json)
    requires Tidy(JObj(es)) && Kept(v)
    ensures Tidy(JObj(Put(es, k, v)))
  {
    PutEntries(es, k, v);
    forall e | e in Put(es, k, v) ensures Kept(e.1) {
      assert e in es || e == (k, v);
    }
  }

  /** A member stored with `d[k] = v` is written as its own line. */
  lemma PutMemberLine(es: Dict<string, Json>, k: string, v: Json)
    requires !IsContainer(v)
    ensures k + ": " + ScalarText(v) in EntryLines(Put(es, k, v), 0)
  {
    var shown := Put(es, k, v);
    var i :| 0 <= i < |shown| && shown[i] == (k, v);
    ScalarMemberLine(shown, 0, i);
    var line := Indent(0) + shown[i].0 + ": " + ScalarText(shown[i].1);
    assert Indent(0) + k == k;
    assert line == k + ": " + ScalarText(v);
  }

  /** Writing a tidy record whose `Resolution` is replaced by a string. */
  lemma ResolutionShown(es: Dict<string, Json>, clean: string)
    requires Tidy(JObj(es))
    ensures var shown := Put(es, "Resolution", JStr(clean));
      && Render(JObj(shown), 0) == Join(EntryLines(shown, 0), "\n")
      && "Resolution: " + clean in EntryLines(shown, 0)
  {
    ResolutionRendered(es, clean);
    ResolutionLine(es, clean);
  }

  lemma ResolutionRendered(es: Dict<string, Json>, clean: string)
    requires Tidy(JObj(es))
    ensures var shown := Put(es, "Resolution", JStr(clean));
      Render(JObj(shown), 0) == Join(EntryLines(shown, 0), "\n")
  {
    var shown := Put(es, "Resolution", JStr(clean));
    PutKeepsTidy(es, "Resolution", JStr(clean));
    RenderIsLines(JObj(shown), 0);
  }

  lemma ResolutionLine(es: Dict<string, Json>, clean: string)
    ensures "Resolution: " + clean in EntryLines(Put(es, "Resolution", JStr(clean)), 0)
  {
    PutMemberLine(es, "Resolution", JStr(clean));
    assert ScalarText(JStr(clean)) == clean;
    assert "Resolution" + ": " == "Resolution: ";
  }

  /** With a string `Resolution`, the text is the lines of the record in which that
      member holds the cleaned HTML, among them the line `Resolution: <text>`;
      every other member keeps its value. */
  lemma ExtractWithResolution(rule: ListRule, raw: Dict<string, Json>, parsedText: string -> string)
    requires CleansTidy(rule, raw)
    requires CleanBy(rule, JObj(raw)).value.JObj?
    requires Get(CleanBy(rule, JObj(raw)).value.entries, "Resolution").Some?
    ensures var es := CleanBy(rule, JObj(raw)).value.entries;
      var v := Get(es, "Resolution").value;
      v.JStr? ==>
        var clean := CleanHtml(v.s, parsedText);
        var shown := Put(es, "Resolution", JStr(clean));
        && ExtractDictText(rule, raw, parsedText) == Ok(Join(EntryLines(shown, 0), "\n"))
        && "Resolution: " + clean in EntryLines(shown, 0)
        && (forall k :: k != "Resolution" ==> Get(shown, k) == Get(es, k))
    ensures !Get(CleanBy(rule, JObj(raw)).value.entries, "Resolution").value.JStr? ==> ExtractDictText(rule, raw, parsedText).Err?
  {
    var es := CleanBy(rule, JObj(raw)).value.entries;
    var v := Get(es, "Resolution").value;
    assert ExtractDictText(rule, raw, parsedText) == TextOfCleaned(JObj(es), parsedText);
    if v.JStr? {
      ResolutionShown(es, CleanHtml(v.s, parsedText));
    }
  }

  /** A cleaned list is written item by item, unless it holds the string
      `Resolution`, which the item assignment cannot take. */
  lemma ExtractList(rule: ListRule, raw: Dict<string, Json>, parsedText: string -> string)
    requires CleansTidy(rule, raw)
    requires CleanBy(rule, JObj(raw)).value.JArr?
    ensures var xs := CleanBy(rule, JObj(raw)).value.items;
      ExtractDictText(rule, raw, parsedText) ==
        if JStr("Resolution") in xs then Err(WrongType("list indices must be integers"))
        else Ok(Join(ItemLines(xs, 0), "\n"))
  {
    RenderIsLines(CleanBy(rule, JObj(raw)).value, 0);
  }

  /** A cleaner failure is the extraction's failure. */
  lemma ExtractCleanFails(rule: ListRule, raw: Dict<string, Json>, parsedText: string -> string)
    requires CleanBy(rule, JObj(raw)).Err?
    ensures ExtractDictText(rule, raw, parsedText) == Err(CleanBy(rule, JObj(raw)).error)
  {
  }
}
