/** Python's `dict[str, str]` as an association list in insertion order, and
    `dict.fromkeys` used as an order-keeping de-duplication. */
module Dicts {
  import opened Results

  datatype Item = Item(key: seq<char>, value: seq<char>)

  type Dict = seq<Item>

  function Keys(d: Dict): (r: seq<seq<char>>)
    ensures |r| == |d|
    ensures forall i :: 0 <= i < |d| ==> r[i] == d[i].key
  {
    if |d| == 0 then [] else Keys(d[..|d| - 1]) + [d[|d| - 1].key]
  }

  predicate HasKey(d: Dict, k: seq<char>) {
    exists i :: 0 <= i < |d| && d[i].key == k
  }

  /** No key occurs twice, which every dictionary built with `Put` keeps. */
  predicate DistinctKeys(d: Dict) {
    forall i, j :: 0 <= i < j < |d| ==> d[i].key != d[j].key
  }

  /** Where key `k` sits, if anywhere: its first entry. */
  function IndexOf(d: Dict, k: seq<char>): (r: Option<nat>)
    ensures r.None? <==> !HasKey(d, k)
    ensures r.Some? ==>
      && r.value < |d| && d[r.value].key == k
      && forall j :: 0 <= j < r.value ==> d[j].key != k
    decreases |d|
  {
    if |d| == 0 then None
    else if d[0].key == k then Some(0)
    else
      match IndexOf(d[1..], k)
      case None => None
      case Some(i) => Some(i + 1)
  }

  /** `d.get(k)`. */
  function Get(d: Dict, k: seq<char>): Option<seq<char>> {
    match IndexOf(d, k)
    case Some(i) => Some(d[i].value)
    case None => None
  }

  /** `d.get(k, default)`. */
  function GetOr(d: Dict, k: seq<char>, default: seq<char>): seq<char> {
    match Get(d, k)
    case Some(v) => v
    case None => default
  }

  /** `d[k] = v`: an existing key keeps its place, a new key goes last. */
  function Put(d: Dict, k: seq<char>, v: seq<char>): Dict {
    match IndexOf(d, k)
    case Some(i) => d[i := Item(k, v)]
    case None => d + [Item(k, v)]
  }

  // ---------------------------------------------------------------------------

  /** In a dictionary without repeated keys, `Get` finds the one entry of a key
      and reports a missing key as missing. */
  lemma {:induction false} GetSpec(d: Dict, k: seq<char>)
    requires DistinctKeys(d)
    ensures forall i :: 0 <= i < |d| && d[i].key == k ==> Get(d, k) == Some(d[i].value)
    ensures Get(d, k).None? <==> !HasKey(d, k)
  {
  }

  /** `d[k] = v` keeps the keys distinct, and then looking `k` up gives `v` while
      every other key is as it was. */
  lemma {:induction false} PutGet(d: Dict, k: seq<char>, v: seq<char>, other: seq<char>)
    requires DistinctKeys(d)
    ensures DistinctKeys(Put(d, k, v))
    ensures Get(Put(d, k, v), k) == Some(v)
    ensures other != k ==> Get(Put(d, k, v), other) == Get(d, other)
  {
    var r := Put(d, k, v);
    assert forall i :: 0 <= i < |d| ==> r[i].key == d[i].key;
    assert DistinctKeys(r);
    GetSpec(r, k);
    match IndexOf(d, k)
    case Some(i) => assert r[i] == Item(k, v);
    case None => assert r[|d|] == Item(k, v);
    if other != k {
      GetSpec(d, other);
      GetSpec(r, other);
      if HasKey(d, other) {
        var i :| 0 <= i < |d| && d[i].key == other;
        assert r[i] == d[i];
      } else {
        assert !HasKey(r, other);
      }
    }
  }

  /** The keys after `d[k] = v`: the same keys, plus `k` at the end if it is new. */
  lemma {:induction false} PutKeys(d: Dict, k: seq<char>, v: seq<char>)
    ensures Keys(Put(d, k, v)) == if HasKey(d, k) then Keys(d) else Keys(d) + [k]
  {
  }

  // ---------------------------------------------------------------------------

  predicate Distinct(s: seq<seq<char>>) {
    forall i, j :: 0 <= i < j < |s| ==> s[i] != s[j]
  }

  /** `list(dict.fromkeys(s))`: the first occurrence of each string, in order. */
  function Dedup(s: seq<seq<char>>): (r: seq<seq<char>>)
    ensures |r| <= |s|
  {
    if |s| == 0 then []
    else
      var d := Dedup(s[..|s| - 1]);
      if s[|s| - 1] in d then d else d + [s[|s| - 1]]
  }

  /** De-duplication keeps exactly the strings of the input, each once. */
  lemma {:induction false} DedupSpec(s: seq<seq<char>>)
    ensures Distinct(Dedup(s))
    ensures forall x :: x in Dedup(s) <==> x in s
    decreases |s|
  {
    if |s| > 0 {
      var init := s[..|s| - 1];
      DedupSpec(init);
      assert s == init + [s[|s| - 1]];
    }
  }

  /** A list without repeats comes back unchanged. */
  lemma {:induction false} DedupOfDistinct(s: seq<seq<char>>)
    requires Distinct(s)
    ensures Dedup(s) == s
    decreases |s|
  {
    if |s| > 0 {
      var init := s[..|s| - 1];
      DedupOfDistinct(init);
      assert s[|s| - 1] !in init;
      assert s == init + [s[|s| - 1]];
    }
  }

  /** Each string appears where it first appeared relative to the others: `Dedup`
      of a longer list extends `Dedup` of its prefix. */
  lemma {:induction false} DedupPrefix(s: seq<seq<char>>, k: nat)
    requires k <= |s|
    ensures Dedup(s[..k]) <= Dedup(s)
    decreases |s| - k
  {
    if k < |s| {
      DedupPrefix(s, k + 1);
      assert s[..k + 1][..k] == s[..k];
    } else {
      assert s[..k] == s;
    }
  }
}
