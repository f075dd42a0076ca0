/** Python dictionaries from `str` to `str`: entries kept in insertion order,
    each key at most once. Assigning to an existing key replaces its value in
    place; assigning to a new key appends it. */
module Dicts {
  import opened Wrappers
  import opened Seqs

  type Dict = seq<(string, string)>

  function Keys(d: Dict): seq<string> {
    seq(|d|, i requires 0 <= i < |d| => d[i].0)
  }

  function Values(d: Dict): seq<string> {
    seq(|d|, i requires 0 <= i < |d| => d[i].1)
  }

  predicate DistinctKeys(d: Dict) {
    Distinct(Keys(d))
  }

  /** `d.get(k)`. */
  function Get(d: Dict, k: string): (r: Option<string>)
    ensures r.None? <==> k !in Keys(d)
    ensures r.Some? ==> (k, r.value) in d
  {
    match IndexOf(Keys(d), k)
    case Some(i) => Some(d[i].1)
    case None => None
  }

  /** `d.get(k, default)`. */
  function GetOr(d: Dict, k: string, default: string): string {
    Get(d, k).GetOr(default)
  }

  lemma GetDistinct(d: Dict, i: nat)
    requires DistinctKeys(d) && i < |d|
    ensures Get(d, d[i].0) == Some(d[i].1)
  {
    IndexOfDistinct(Keys(d), i);
  }

  /** `d[k] = v`. */
  function Put(d: Dict, k: string, v: string): (r: Dict)
    ensures Keys(r) == if k in Keys(d) then Keys(d) else Keys(d) + [k]
    ensures Get(r, k) == Some(v)
    ensures forall k' :: k' != k ==> Get(r, k') == Get(d, k')
  {
    match IndexOf(Keys(d), k)
    case Some(i) =>
      var r := d[i := (k, v)];
      assert Keys(r) == Keys(d);
      r
    case None =>
      var r := d + [(k, v)];
      assert Keys(r) == Keys(d) + [k];
      forall k' {
        IndexOfAppend(Keys(d), k, k');
      }
      r
  }

  /** The keys left once entry `i` is removed. */
  lemma RemoveAtKeys(d: Dict, i: nat)
    requires i < |d|
    ensures Keys(d[..i] + d[i + 1..]) == Keys(d)[..i] + Keys(d)[i + 1..]
  {
  }

  /** Removing entry `i` keeps the keys distinct and drops its key. */
  lemma RemoveAtDistinct(d: Dict, i: nat)
    requires DistinctKeys(d) && i < |d|
    ensures DistinctKeys(d[..i] + d[i + 1..]) && d[i].0 !in Keys(d[..i] + d[i + 1..])
  {
    var ks := Keys(d);
    var rs := Keys(d[..i] + d[i + 1..]);
    RemoveAtKeys(d, i);
    forall a, b | 0 <= a < b < |rs|
      ensures rs[a] != rs[b]
    {
      var a' := if a < i then a else a + 1;
      var b' := if b < i then b else b + 1;
      assert rs[a] == ks[a'] && rs[b] == ks[b'];
    }
    forall a | 0 <= a < |rs|
      ensures rs[a] != ks[i]
    {
      var a' := if a < i then a else a + 1;
      assert rs[a] == ks[a'];
    }
  }

  /** Removing entry `i` leaves the value of every other key as it was. */
  lemma RemoveAtGet(d: Dict, i: nat, k': string)
    requires DistinctKeys(d) && i < |d| && k' != d[i].0
    ensures Get(d[..i] + d[i + 1..], k') == Get(d, k')
  {
    var r := d[..i] + d[i + 1..];
    var ks := Keys(d);
    RemoveAtKeys(d, i);
    if k' in ks {
      var j := IndexOf(ks, k').value;
      if j < i {
        assert Keys(r)[..j] == ks[..j];
        IndexOfUnique(Keys(r), k', j);
      } else {
        assert j != i;
        assert Keys(r)[..j - 1] == ks[..i] + ks[i + 1..j];
        IndexOfUnique(Keys(r), k', j - 1);
      }
    } else {
      assert k' !in Keys(r);
    }
  }

  /** `d.pop(k)`: the dictionary without `k`, or a KeyError when `k` is not a
      key. */
  function Pop(d: Dict, k: string): (r: Result<Dict, string>)
    requires DistinctKeys(d)
    ensures r.Failure? <==> k !in Keys(d)
    ensures r.Success? ==> DistinctKeys(r.value) && Get(r.value, k) == None
    ensures r.Success? ==> forall k' :: k' != k ==> Get(r.value, k') == Get(d, k')
  {
    match IndexOf(Keys(d), k)
    case None => Failure(k)
    case Some(i) =>
      RemoveAtDistinct(d, i);
      forall k' | k' != k
        ensures Get(d[..i] + d[i + 1..], k') == Get(d, k')
      {
        RemoveAtGet(d, i, k');
      }
      Success(d[..i] + d[i + 1..])
  }

  /** The dictionary built by assigning the pairs of `ps` in order, so a later
      pair for a key overwrites an earlier one. */
  function FromPairs(ps: seq<(string, string)>): (r: Dict)
    ensures DistinctKeys(r)
  {
    if |ps| == 0 then []
    else Put(FromPairs(ps[..|ps| - 1]), ps[|ps| - 1].0, ps[|ps| - 1].1)
  }

  /** `(k, v)` is the last pair in `ps` whose key is `k`. */
  predicate LastFor(ps: seq<(string, string)>, k: string, v: string) {
    exists i :: 0 <= i < |ps| && ps[i] == (k, v) && forall j :: i < j < |ps| ==> ps[j].0 != k
  }

  /** How appending one pair changes which pair is last for a key. */
  lemma LastForSnoc(init: seq<(string, string)>, last: (string, string), k: string, v: string)
    ensures LastFor(init + [last], k, v) <==>
      if last.0 == k then last.1 == v else LastFor(init, k, v)
  {
    var ps := init + [last];
    if last.0 == k {
      if LastFor(ps, k, v) {
        var i :| 0 <= i < |ps| && ps[i] == (k, v) && forall j :: i < j < |ps| ==> ps[j].0 != k;
        assert ps[|ps| - 1].0 == k;
        assert !(i < |ps| - 1);
      }
      if last.1 == v {
        assert ps[|ps| - 1] == (k, v);
      }
    } else {
      if LastFor(init, k, v) {
        var i :| 0 <= i < |init| && init[i] == (k, v) && forall j :: i < j < |init| ==> init[j].0 != k;
        assert ps[i] == (k, v);
      }
      if LastFor(ps, k, v) {
        var i :| 0 <= i < |ps| && ps[i] == (k, v) && forall j :: i < j < |ps| ==> ps[j].0 != k;
        assert ps[|ps| - 1] == last;
        assert i < |init| && init[i] == (k, v);
        assert forall j :: i < j < |init| ==> init[j] == ps[j];
      }
    }
  }

  /** The later pair wins: a key maps to the value of its last pair, and only
      keys that occur in `ps` are present. */
  lemma {:induction false} FromPairsLastWins(ps: seq<(string, string)>, k: string, v: string)
    ensures Get(FromPairs(ps), k) == Some(v) <==> LastFor(ps, k, v)
  {
    if |ps| > 0 {
      var init := ps[..|ps| - 1];
      var last := ps[|ps| - 1];
      assert ps == init + [last];
      FromPairsLastWins(init, k, v);
      LastForSnoc(init, last, k, v);
    }
  }

  /** Some pair in `ps` has key `k`. */
  predicate HasKey(ps: seq<(string, string)>, k: string) {
    exists i :: 0 <= i < |ps| && ps[i].0 == k
  }

  /** How appending one pair changes which keys occur. */
  lemma HasKeySnoc(init: seq<(string, string)>, last: (string, string), k: string)
    ensures HasKey(init + [last], k) <==> last.0 == k || HasKey(init, k)
  {
    var ps := init + [last];
    if HasKey(ps, k) && last.0 != k {
      var i :| 0 <= i < |ps| && ps[i].0 == k;
      assert i < |init| && init[i].0 == k;
    }
    if HasKey(init, k) {
      var i :| 0 <= i < |init| && init[i].0 == k;
      assert ps[i].0 == k;
    }
    if last.0 == k {
      assert ps[|ps| - 1].0 == k;
    }
  }

  /** The keys are exactly the keys that occur in the pairs. */
  lemma {:induction false} FromPairsKeys(ps: seq<(string, string)>, k: string)
    ensures k in Keys(FromPairs(ps)) <==> exists i :: 0 <= i < |ps| && ps[i].0 == k
  {
    if |ps| > 0 {
      var init := ps[..|ps| - 1];
      var last := ps[|ps| - 1];
      assert ps == init + [last];
      FromPairsKeys(init, k);
      HasKeySnoc(init, last, k);
    }
  }

  function Swap(d: Dict): seq<(string, string)> {
    seq(|d|, i requires 0 <= i < |d| => (d[i].1, d[i].0))
  }

  /** `{v: k for k, v in d.items()}`: values become keys, and when several
      keys share a value the one iterated last wins. */
  function Invert(d: Dict): (r: Dict)
    ensures DistinctKeys(r)
  {
    FromPairs(Swap(d))
  }

  /** A value maps back to the last key that carries it. */
  lemma InvertLastWins(d: Dict, v: string, k: string)
    ensures Get(Invert(d), v) == Some(k) <==>
      exists i :: 0 <= i < |d| && d[i] == (k, v) && forall j :: i < j < |d| ==> d[j].1 != v
  {
    var ps := Swap(d);
    FromPairsLastWins(ps, v, k);
    if LastFor(ps, v, k) {
      var i :| 0 <= i < |ps| && ps[i] == (v, k) && forall j :: i < j < |ps| ==> ps[j].0 != v;
      assert d[i] == (k, v);
      assert forall j :: i < j < |d| ==> d[j].1 != v by {
        forall j | i < j < |d| ensures d[j].1 != v { assert ps[j].0 == d[j].1; }
      }
    }
    if exists i :: 0 <= i < |d| && d[i] == (k, v) && forall j :: i < j < |d| ==> d[j].1 != v {
      var i :| 0 <= i < |d| && d[i] == (k, v) && forall j :: i < j < |d| ==> d[j].1 != v;
      assert ps[i] == (v, k);
      assert forall j :: i < j < |ps| ==> ps[j].0 != v by {
        forall j | i < j < |ps| ensures ps[j].0 != v { assert ps[j].0 == d[j].1; }
      }
    }
  }

  /** The keys of the inverse are exactly the values of the dictionary. */
  lemma InvertKeys(d: Dict, v: string)
    ensures v in Keys(Invert(d)) <==> v in Values(d)
  {
    var ps := Swap(d);
    FromPairsKeys(ps, v);
    if v in Values(d) {
      var i :| 0 <= i < |d| && Values(d)[i] == v;
      assert ps[i].0 == v;
    }
    if exists i :: 0 <= i < |ps| && ps[i].0 == v {
      var i :| 0 <= i < |ps| && ps[i].0 == v;
      assert Values(d)[i] == v;
    }
  }

  /** Looking a value up in the inverse and the key found in the dictionary
      gives the value back. */
  lemma InvertRoundTrip(d: Dict, v: string)
    requires DistinctKeys(d)
    requires v in Keys(Invert(d))
    ensures Get(d, Get(Invert(d), v).value) == Some(v)
  {
    var k := Get(Invert(d), v).value;
    InvertLastWins(d, v, k);
    var i :| 0 <= i < |d| && d[i] == (k, v) && forall j :: i < j < |d| ==> d[j].1 != v;
    GetDistinct(d, i);
  }
}
