/**
 Python dictionaries from text to text as insertion-ordered association lists. Assigning to a
 present key updates its value in place; assigning to a new key appends it.
 Iteration (`d.items()`) follows the list order.
 */
module OrderedDict {
  import opened Wrappers

  type Dict = seq<(string, string)>

  function Keys(d: Dict): set<string> {
    set i | 0 <= i < |d| :: d[i].0
  }

  /** No key occurs twice, as in every Python dict. */
  predicate Distinct(d: Dict) {
    forall i, j | 0 <= i < j < |d| :: d[i].0 != d[j].0
  }

  lemma KeysCons(d: Dict)
    requires |d| > 0
    ensures Keys(d) == {d[0].0} + Keys(d[1..])
  {
    forall k | k in Keys(d) ensures k in {d[0].0} + Keys(d[1..]) {
      var i :| 0 <= i < |d| && d[i].0 == k;
      if i > 0 {
        assert d[1..][i - 1].0 == k;
      }
    }
  }

  /** `d.get(k)`: the value stored under `k`, if any. */
  function Get(d: Dict, k: string): (r: Option<string>)
    ensures r.Some? <==> k in Keys(d)
  {
    if |d| == 0 then None
    else
      KeysCons(d);
      if d[0].0 == k then Some(d[0].1)
      else Get(d[1..], k)
  }

  /** The value `Get` finds is that of the first entry with the key. */
  lemma {:induction false} GetFirst(d: Dict, k: string)
    ensures Get(d, k).Some? ==>
      exists i | 0 <= i < |d| :: d[i] == (k, Get(d, k).value) && forall j | 0 <= j < i :: d[j].0 != k
  {
    if |d| > 0 && d[0].0 != k && Get(d, k).Some? {
      GetFirst(d[1..], k);
      var i :| 0 <= i < |d| - 1 && d[1..][i] == (k, Get(d, k).value) && forall j | 0 <= j < i :: d[1..][j].0 != k;
      assert d[i + 1] == d[1..][i];
      forall j | 0 <= j < i + 1 ensures d[j].0 != k {
        if j > 0 {
          assert d[j] == d[1..][j - 1];
        }
      }
    }
  }

  /** `d.get(k, default)`. */
  function GetOr(d: Dict, k: string, default: string): (v: string)
    ensures k !in Keys(d) ==> v == default
    ensures k in Keys(d) ==> Get(d, k) == Some(v)
  {
    match Get(d, k)
    case Some(v) => v
    case None => default
  }

  /** The keys, lookups and distinctness of an entry put in front of a dict. */
  lemma ConsEntry(e: (string, string), tail: Dict)
    ensures Keys([e] + tail) == {e.0} + Keys(tail)
    ensures forall k :: Get([e] + tail, k) == if k == e.0 then Some(e.1) else Get(tail, k)
    ensures Distinct([e] + tail) <==> Distinct(tail) && e.0 !in Keys(tail)
  {
    var r := [e] + tail;
    KeysCons(r);
    assert r[1..] == tail;
    if Distinct(tail) && e.0 !in Keys(tail) {
      forall j | 0 < j < |r| ensures r[0].0 != r[j].0 {
        assert r[j].0 in Keys(tail);
      }
    }
    if Distinct(r) {
      forall i, j | 0 <= i < j < |tail| ensures tail[i].0 != tail[j].0 {
        assert tail[i] == r[i + 1] && tail[j] == r[j + 1];
      }
    }
  }

  /** `d[k] = v`. */
  function Put(d: Dict, k: string, v: string): (r: Dict)
    ensures Keys(r) == Keys(d) + {k}
    ensures Get(r, k) == Some(v)
    ensures forall k' | k' != k :: Get(r, k') == Get(d, k')
    ensures Distinct(d) ==> Distinct(r)
    ensures k !in Keys(d) ==> r == d + [(k, v)]
  {
    if |d| == 0 then
      PutNew(d, k, v);
      [(k, v)]
    else if d[0].0 == k then
      PutFront(d, k, v);
      [(k, v)] + d[1..]
    else
      var tail := Put(d[1..], k, v);
      PutBehind(d, k, v, tail);
      [d[0]] + tail
  }

  /** `r` is `d` after `d[k] = v`. */
  ghost predicate Updated(d: Dict, k: string, v: string, r: Dict) {
    && Keys(r) == Keys(d) + {k}
    && Get(r, k) == Some(v)
    && (forall k' | k' != k :: Get(r, k') == Get(d, k'))
    && (Distinct(d) ==> Distinct(r))
    && (k !in Keys(d) ==> r == d + [(k, v)])
  }

  /** Updating a present key leaves every key in its place. */
  ghost predicate KeptOrder(d: Dict, k: string, r: Dict) {
    k in Keys(d) ==> |r| == |d| && forall i | 0 <= i < |d| :: r[i].0 == d[i].0
  }

  lemma PutNew(d: Dict, k: string, v: string)
    requires |d| == 0
    ensures Updated(d, k, v, [(k, v)])
  {
    ConsEntry((k, v), d);
    assert [(k, v)] + d == [(k, v)] == d + [(k, v)];
  }

  lemma PutFront(d: Dict, k: string, v: string)
    requires |d| > 0 && d[0].0 == k
    ensures Updated(d, k, v, [(k, v)] + d[1..])
  {
    ConsEntry(d[0], d[1..]);
    assert [d[0]] + d[1..] == d;
    ConsEntry((k, v), d[1..]);
  }

  lemma PutBehind(d: Dict, k: string, v: string, tail: Dict)
    requires |d| > 0 && d[0].0 != k
    requires Updated(d[1..], k, v, tail)
    ensures Updated(d, k, v, [d[0]] + tail)
  {
    ConsEntry(d[0], d[1..]);
    assert [d[0]] + d[1..] == d;
    ConsEntry(d[0], tail);
    if k !in Keys(d) {
      assert [d[0]] + (d[1..] + [(k, v)]) == d + [(k, v)];
    }
  }

  /** Assigning to a present key changes no key's place. */
  lemma {:induction false} PutKeepsOrder(d: Dict, k: string, v: string)
    ensures KeptOrder(d, k, Put(d, k, v))
  {
    if |d| > 0 && d[0].0 != k {
      PutKeepsOrder(d[1..], k, v);
      BehindOrder(d, k, Put(d[1..], k, v));
    }
  }

  lemma BehindOrder(d: Dict, k: string, tail: Dict)
    requires |d| > 0 && d[0].0 != k
    requires KeptOrder(d[1..], k, tail)
    ensures KeptOrder(d, k, [d[0]] + tail)
  {
    KeysCons(d);
    if k in Keys(d) {
      forall i | 0 <= i < |d| ensures ([d[0]] + tail)[i].0 == d[i].0 {
        if i > 0 {
          assert d[1..][i - 1] == d[i];
        }
      }
    }
  }

  /** The entries whose key is in `ks`, in their original order. */
  function Restrict(d: Dict, ks: set<string>): (r: Dict)
    ensures Keys(r) == Keys(d) * ks
    ensures forall k :: Get(r, k) == if k in ks then Get(d, k) else None
    ensures Distinct(d) ==> Distinct(r)
  {
    if |d| == 0 then []
    else
      ConsEntry(d[0], d[1..]);
      assert [d[0]] + d[1..] == d;
      var tail := Restrict(d[1..], ks);
      if d[0].0 in ks then
        ConsEntry(d[0], tail);
        [d[0]] + tail
      else
        tail
  }
}
