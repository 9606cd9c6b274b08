/** JSON values as the Salesforce REST API returns them and Python's `json`
    module decodes them: objects keep their key order. A size measure bounds the
    recursion of the cleaner and the serialiser. */
module Json {
  import opened Strings
  import opened OrderedDict

  datatype Json =
    | JNull
    | JBool(b: bool)
    | JInt(i: int)
    | JStr(s: string)
    | JArr(items: seq<Json>)
    | JObj(entries: Dict<string, Json>)

  predicate IsContainer(j: Json) { j.JArr? || j.JObj? }

  /** Python truthiness of the decoded value. */
  predicate Truthy(j: Json) {
    match j
    case JNull => false
    case JBool(b) => b
    case JInt(i) => i != 0
    case JStr(s) => s != ""
    case JArr(items) => |items| > 0
    case JObj(entries) => |entries| > 0
  }

  /** Python `str(value)` (and f-string interpolation) of a non-container value. */
  function ScalarText(j: Json): string
    requires !IsContainer(j)
  {
    match j
    case JNull => "None"
    case JBool(b) => if b then "True" else "False"
    case JInt(i) => IntToString(i)
    case JStr(s) => s
  }

  /** Every object in the value has distinct keys, as in whatever `json.loads`
      returns. */
  predicate Decoded(j: Json)
    decreases j
  {
    match j
    case JArr(xs) => forall i :: 0 <= i < |xs| ==> Decoded(xs[i])
    case JObj(es) => UniqueKeys(es) && forall i :: 0 <= i < |es| ==> Decoded(es[i].1)
    case _ => true
  }

  /** A member of a decoded object is itself decoded. */
  lemma DecodedMember(es: Dict<string, Json>, k: string)
    requires Decoded(JObj(es)) && Get(es, k).Some?
    ensures Decoded(Get(es, k).value)
  {
    var i :| 0 <= i < |es| && es[i] == (k, Get(es, k).value);
  }

  // ---------------------------------------------------------------------------
  // size measure

  function Sum(ns: seq<nat>): nat {
    if |ns| == 0 then 0 else ns[0] + Sum(ns[1..])
  }

  /** Number of nodes, counting each array element and object member once more. */
  function Size(j: Json): nat
    decreases j
  {
    match j
    case JArr(xs) => 1 + Sum(seq(|xs|, i requires 0 <= i < |xs| => 1 + Size(xs[i])))
    case JObj(es) => 1 + Sum(seq(|es|, i requires 0 <= i < |es| => 1 + Size(es[i].1)))
    case _ => 1
  }

  function SizeItems(xs: seq<Json>): nat {
    if |xs| == 0 then 0 else 1 + Size(xs[0]) + SizeItems(xs[1..])
  }

  function SizeEntries(es: Dict<string, Json>): nat {
    if |es| == 0 then 0 else 1 + Size(es[0].1) + SizeEntries(es[1..])
  }

  lemma {:induction false} SumItems(xs: seq<Json>)
    ensures Sum(seq(|xs|, i requires 0 <= i < |xs| => 1 + Size(xs[i]))) == SizeItems(xs)
  {
    if |xs| > 0 {
      SumItems(xs[1..]);
      assert seq(|xs|, i requires 0 <= i < |xs| => 1 + Size(xs[i]))[1..]
          == seq(|xs[1..]|, i requires 0 <= i < |xs[1..]| => 1 + Size(xs[1..][i]));
    }
  }

  lemma {:induction false} SumEntries(es: Dict<string, Json>)
    ensures Sum(seq(|es|, i requires 0 <= i < |es| => 1 + Size(es[i].1))) == SizeEntries(es)
  {
    if |es| > 0 {
      SumEntries(es[1..]);
      assert seq(|es|, i requires 0 <= i < |es| => 1 + Size(es[i].1))[1..]
          == seq(|es[1..]|, i requires 0 <= i < |es[1..]| => 1 + Size(es[1..][i].1));
    }
  }

  lemma SizeOfArr(xs: seq<Json>)
    ensures Size(JArr(xs)) == 1 + SizeItems(xs)
  {
    SumItems(xs);
  }

  lemma SizeOfObj(es: Dict<string, Json>)
    ensures Size(JObj(es)) == 1 + SizeEntries(es)
  {
    SumEntries(es);
  }

  lemma {:induction false} SizeEntriesMember(es: Dict<string, Json>, i: nat)
    requires i < |es|
    ensures Size(es[i].1) < SizeEntries(es)
  {
    if i > 0 {
      SizeEntriesMember(es[1..], i - 1);
    }
  }

  lemma {:induction false} SizeEntriesAppend(es: Dict<string, Json>, e: (string, Json))
    ensures SizeEntries(es + [e]) == SizeEntries(es) + 1 + Size(e.1)
  {
    if |es| == 0 {
      assert es + [e] == [e];
    } else {
      assert (es + [e])[1..] == es[1..] + [e];
      SizeEntriesAppend(es[1..], e);
    }
  }

  lemma {:induction false} SizeEntriesPut(d: Dict<string, Json>, k: string, v: Json)
    ensures SizeEntries(Put(d, k, v)) <= SizeEntries(d) + 1 + Size(v)
  {
    if |d| > 0 && d[0].0 != k {
      SizeEntriesPut(d[1..], k, v);
      assert Put(d, k, v)[1..] == Put(d[1..], k, v);
    }
  }

  lemma {:induction false} SizeEntriesUpdate(d: Dict<string, Json>, r: Dict<string, Json>)
    ensures SizeEntries(Update(d, r)) <= SizeEntries(d) + SizeEntries(r)
    decreases |r|
  {
    if |r| > 0 {
      var init := r[..|r| - 1];
      var last := r[|r| - 1];
      var mid := Update(d, init);
      var a := SizeEntries(mid);
      var b := SizeEntries(init);
      var c := Size(last.1);
      SizeEntriesUpdate(d, init);
      assert a <= SizeEntries(d) + b;
      UpdateLast(d, r);
      SizeEntriesPut(mid, last.0, last.1);
      assert SizeEntries(Update(d, r)) <= a + 1 + c;
      SizeEntriesAppend(init, last);
      assert SizeEntries(r) == b + 1 + c by {
        DropLast(r);
      }
    }
  }

  lemma {:induction false} SizeEntriesRemove(d: Dict<string, Json>, k: string)
    requires Get(d, k).Some?
    ensures SizeEntries(Remove(d, k)) + 1 + Size(Get(d, k).value) == SizeEntries(d)
  {
    if d[0].0 != k {
      SizeEntriesRemove(d[1..], k);
      assert Remove(d, k)[1..] == Remove(d[1..], k);
    }
  }
}
