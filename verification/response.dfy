/**
 The per-request response mapping of the thread controller, and its default
 view (`view_default`), which reconciles the statuses recorded in the mapping
 into one HTTP status code and returns the body.

 The mapping is a PHP array: an ordered list of entries with distinct keys.
 Every action records its outcome under its own name as a nested record with
 a `status` field; a `status` key may also sit directly on the mapping (the
 "flat" shape).
 */
module Response {
  import opened Wrappers

  /** A value stored in the mapping.
      `Record` is a nested array; its `status` is that array's `status` field
      when the field is present and numeric, and None otherwise, and its
      `errors` is that array's `errors` text when the field is present.
      `Scalar` is any value that is not an array; `number` is its value when
      it is numeric. A scalar has no `status` field of its own. */
  datatype Value = Record(status: Option<int>, errors: Option<string>) | Scalar(number: Option<int>)

  datatype Entry = Entry(key: string, value: Value)

  type Payload = seq<Entry>

  const StatusKey: string := "status"
  const JsonContentType: string := "application/json"

  /** The invariant every PHP array keeps: no key occurs twice. */
  ghost predicate DistinctKeys(p: Payload) {
    forall i, j :: 0 <= i < j < |p| ==> p[i].key != p[j].key
  }

  /** `$p[$k]`: the value stored under key `k`, if any. */
  function Lookup(p: Payload, k: string): (r: Option<Value>)
    ensures r.None? <==> forall e :: e in p ==> e.key != k
    ensures r.Some? ==> Entry(k, r.value) in p
  {
    if |p| == 0 then None
    else if p[0].key == k then Some(p[0].value)
    else Lookup(p[1..], k)
  }

  /** In an array with distinct keys, an entry present in it is what Lookup finds. */
  lemma LookupFinds(p: Payload, k: string, v: Value)
    requires DistinctKeys(p)
    requires Entry(k, v) in p
    ensures Lookup(p, k) == Some(v)
  {
  }

  /** `$p[$k] = $v`: an existing key keeps its position and takes the new
      value; a new key is appended at the end. */
  function Respond(p: Payload, k: string, v: Value): (r: Payload)
    // an existing key keeps its position, and every other entry stays where it was
    ensures Lookup(p, k).Some? ==>
      |r| == |p| && forall i :: 0 <= i < |p| && p[i].key != k ==> r[i] == p[i]
    // a new key is appended at the end
    ensures Lookup(p, k).None? ==> r == p + [Entry(k, v)]
    ensures forall e :: e in r ==> e in p || e == Entry(k, v)
  {
    if |p| == 0 then [Entry(k, v)]
    else if p[0].key == k then [Entry(k, v)] + p[1..]
    else
      var tail := p[1..];
      assert p == [p[0]] + tail;
      [p[0]] + Respond(tail, k, v)
  }

  /** After storing `v` under `k`, reading `k` gives `v`, and every other
      key reads as before. */
  lemma {:induction false} RespondReads(p: Payload, k: string, v: Value)
    ensures Lookup(Respond(p, k, v), k) == Some(v)
    ensures forall k' :: k' != k ==> Lookup(Respond(p, k, v), k') == Lookup(p, k')
  {
    if |p| > 0 && p[0].key != k {
      var r := Respond(p, k, v);
      assert r[1..] == Respond(p[1..], k, v);
      RespondReads(p[1..], k, v);
    }
  }

  /** Dropping the first entry keeps the keys distinct. */
  lemma TailKeepsKeysDistinct(p: Payload)
    requires DistinctKeys(p) && |p| > 0
    ensures DistinctKeys(p[1..])
  {
  }

  /** Putting an entry in front of an array that lacks its key keeps the
      keys distinct. */
  lemma ConsKeepsKeysDistinct(x: Entry, s: Payload)
    requires DistinctKeys(s)
    requires forall e :: e in s ==> e.key != x.key
    ensures DistinctKeys([x] + s)
  {
  }

  /** Storing under a key keeps the keys of an array distinct. */
  lemma {:induction false} RespondKeepsKeysDistinct(p: Payload, k: string, v: Value)
    requires DistinctKeys(p)
    ensures DistinctKeys(Respond(p, k, v))
  {
    if |p| == 0 {
    } else {
      TailKeepsKeysDistinct(p);
      var tail := p[1..];
      assert forall e :: e in tail ==> e.key != p[0].key by {
        forall e | e in tail ensures e.key != p[0].key {
          var m :| 0 <= m < |tail| && tail[m] == e;
          assert p[m + 1] == e;
        }
      }
      if p[0].key == k {
        ConsKeepsKeysDistinct(Entry(k, v), tail);
      } else {
        RespondKeepsKeysDistinct(tail, k, v);
        ConsKeepsKeysDistinct(p[0], Respond(tail, k, v));
      }
    }
  }

  /** The status an entry contributes to the loop over the mapping's values:
      only a nested array with a present, numeric `status` contributes. */
  function NestedStatus(v: Value): Option<int> {
    if v.Record? then v.status else None
  }

  /** The mapping's own `status` field when it is present and numeric. */
  function FlatStatus(p: Payload): Option<int> {
    match Lookup(p, StatusKey)
    case Some(Scalar(n)) => n
    case _ => None
  }

  /** Every status that takes part in the maximum: each present, numeric
      nested status, and the present, numeric flat status. */
  ghost function Candidates(p: Payload): set<int> {
    (set e | e in p && NestedStatus(e.value).Some? :: NestedStatus(e.value).value)
    + (if FlatStatus(p).Some? then {FlatStatus(p).value} else {})
  }

  /** The reference meaning of the reconciled code: `h` is the maximum of 0
      and every candidate status. */
  ghost predicate IsHighest(p: Payload, h: int) {
    && h >= 0
    && (forall c :: c in Candidates(p) ==> c <= h)
    && (h == 0 || h in Candidates(p))
  }

  /** One step of the running maximum: a present status replaces `last` only
      when it is strictly greater. */
  function Raise(last: int, s: Option<int>): int {
    if s.Some? && s.value > last then s.value else last
  }

  /** The loop over the mapping's values, in order, starting from `last`. */
  function FoldNested(p: Payload, last: int): (r: int)
    ensures r >= last
    ensures forall e :: e in p && NestedStatus(e.value).Some? ==> NestedStatus(e.value).value <= r
    ensures r == last || exists e :: e in p && NestedStatus(e.value) == Some(r)
  {
    if |p| == 0 then last
    else
      var r := FoldNested(p[1..], Raise(last, NestedStatus(p[0].value)));
      assert forall e :: e in p ==> e == p[0] || e in p[1..];
      r
  }

  /** The highest status found: the loop over nested values from 0, then the
      flat status under the same strict-greater rule. */
  function Highest(p: Payload): (h: int)
    ensures IsHighest(p, h)
  {
    var nested := FoldNested(p, 0);
    Raise(nested, FlatStatus(p))
  }

  /** The body returned by the default view: the literal `[]` when the
      mapping is empty, otherwise the JSON encoding of the mapping (not
      modelled further than the mapping it encodes). */
  datatype Body = EmptyArray | Json(payload: Payload)

  /** What the default view hands back to the framework: the status code it
      sets (None keeps the framework's default), the content type it sets
      (None leaves it untouched) and the body. */
  datatype View = View(code: Option<int>, contentType: Option<string>, body: Body)

  /** `view_default`. */
  function ViewDefault(p: Payload): (r: View)
    ensures p == [] <==> r.body == EmptyArray
    ensures p == [] ==> r.code == None && r.contentType == None
    ensures p != [] ==> r.body == Json(p) && r.contentType == Some(JsonContentType)
    ensures r.code.Some? <==> exists c :: c in Candidates(p) && c > 0
    ensures r.code.Some? ==> r.code.value in Candidates(p)
    ensures r.code.Some? ==> forall c :: c in Candidates(p) ==> c <= r.code.value
  {
    if p == [] then View(None, None, EmptyArray)
    else
      var h := Highest(p);
      View(if h > 0 then Some(h) else None, Some(JsonContentType), Json(p))
  }

  /** The running maximum computes exactly the reference maximum: a code is
      the highest of the candidates (and 0) if and only if Highest returns it. */
  lemma HighestIsTheMaximum(p: Payload, h: int)
    ensures IsHighest(p, h) <==> h == Highest(p)
  {
  }

  /** The code the default view chooses depends only on the set of candidate
      statuses: neither the order of the entries nor which entry carries a
      status matters. */
  lemma CodeDependsOnlyOnCandidates(p: Payload, q: Payload)
    requires Candidates(p) == Candidates(q)
    ensures ViewDefault(p).code == ViewDefault(q).code
  {
  }

  /** Looking a key up in a concatenation searches the first part first. */
  lemma {:induction false} LookupAppend(a: Payload, b: Payload, k: string)
    ensures Lookup(a + b, k) == if Lookup(a, k).Some? then Lookup(a, k) else Lookup(b, k)
  {
    if |a| > 0 {
      assert (a + b)[1..] == a[1..] + b;
      LookupAppend(a[1..], b, k);
    } else {
      assert a + b == b;
    }
  }

  /** An entry that can never take part in the maximum: its value has no
      present, numeric nested status, and it is not a numeric flat status. */
  predicate Inert(e: Entry) {
    && NestedStatus(e.value).None?
    && !(e.key == StatusKey && e.value.Scalar? && e.value.number.Some?)
  }

  /** An entry whose value is not a numeric scalar under `status` does not
      change the flat status. */
  lemma {:induction false} InertEntryKeepsFlatStatus(p: Payload, e: Entry, q: Payload)
    requires DistinctKeys(p + [e] + q)
    requires Inert(e)
    ensures FlatStatus(p + [e] + q) == FlatStatus(p + q)
  {
    var with := p + [e] + q;
    assert with == p + ([e] + q);
    LookupAppend(p, [e] + q, StatusKey);
    LookupAppend([e], q, StatusKey);
    LookupAppend(p, q, StatusKey);
    if e.key == StatusKey {
      forall x | x in p ensures x.key != StatusKey {
        var i :| 0 <= i < |p| && p[i] == x;
        assert with[i] == x && with[|p|] == e;
      }
      forall x | x in q ensures x.key != StatusKey {
        var i :| 0 <= i < |q| && q[i] == x;
        assert with[|p| + 1 + i] == x && with[|p|] == e;
      }
    }
  }

  /** Adding or removing an entry whose status is absent or non-numeric
      does not change the code the default view sets. */
  lemma InertEntryIsIgnored(p: Payload, e: Entry, q: Payload)
    requires DistinctKeys(p + [e] + q)
    requires Inert(e)
    ensures ViewDefault(p + [e] + q).code == ViewDefault(p + q).code
  {
    var with := p + [e] + q;
    var without := p + q;
    InertEntryKeepsFlatStatus(p, e, q);
    assert forall x :: x in with <==> x in without || x == e;
    assert Candidates(with) == Candidates(without);
    CodeDependsOnlyOnCandidates(with, without);
  }

  /** Reordering the entries of an array does not change the code the
      default view sets. */
  lemma ReorderingKeepsCode(p: Payload, q: Payload)
    requires DistinctKeys(p) && DistinctKeys(q)
    requires multiset(p) == multiset(q)
    ensures ViewDefault(p).code == ViewDefault(q).code
  {
    assert forall x :: x in p <==> x in q by {
      forall x ensures x in p <==> x in q {
        assert x in p <==> x in multiset(p);
        assert x in q <==> x in multiset(q);
      }
    }
    assert Lookup(p, StatusKey) == Lookup(q, StatusKey) by {
      if Lookup(p, StatusKey).Some? {
        LookupFinds(q, StatusKey, Lookup(p, StatusKey).value);
      } else {
        assert forall x :: x in q ==> x.key != StatusKey;
      }
    }
    assert Candidates(p) == Candidates(q);
    CodeDependsOnlyOnCandidates(p, q);
  }
}
