/**
  Python's `dict` with string keys, as the session data uses it: an
  insertion-ordered association list.  Assigning an existing key keeps its
  position, a new key goes to the end, and iteration (`items()`) follows that
  order.  `AsMap` forgets the order and gives the key-to-value map.
 */
module PyDict {
  import opened Wrappers

  /** JSON scalar values a session can hold (a redirect target is a `Str`). */
  datatype Value = Null | Bool(b: bool) | Int(i: int) | Str(s: string)

  /** One `{key, value}` pair: a dict entry, and an element of a store `data_items` list. */
  datatype Item = Item(key: string, value: Value)

  type Dict = seq<Item>

  /** No key occurs twice: every dict Python can build has this shape. */
  predicate Valid(d: Dict) {
    forall i, j :: 0 <= i < j < |d| ==> d[i].key != d[j].key
  }

  /** `k in d` */
  predicate HasKey(d: Dict, k: string) {
    exists i :: 0 <= i < |d| && d[i].key == k
  }

  ghost function KeySet(d: Dict): set<string> {
    set i | 0 <= i < |d| :: d[i].key
  }

  /** The position of the first entry with key `k`. */
  function Find(d: Dict, k: string): (r: Option<nat>)
    ensures r.Some? ==> r.value < |d| && d[r.value].key == k
    ensures r.Some? ==> forall j :: 0 <= j < r.value ==> d[j].key != k
    ensures r.None? <==> !HasKey(d, k)
  {
    if |d| == 0 then None
    else if d[0].key == k then Some(0)
    else
      match Find(d[1..], k)
      case Some(i) =>
        assert d[1..][i] == d[i + 1];
        Some(i + 1)
      case None =>
        assert forall j :: 1 <= j < |d| ==> d[j] == d[1..][j - 1];
        None
  }

  /** `d.get(k)`: the value stored under `k`, if any. */
  function Get(d: Dict, k: string): (r: Option<Value>)
    ensures r.Some? <==> HasKey(d, k)
    ensures Valid(d) ==> forall i :: 0 <= i < |d| && d[i].key == k ==> r == Some(d[i].value)
  {
    match Find(d, k)
    case Some(i) => Some(d[i].value)
    case None => None
  }

  /** The key-to-value map a valid dict stands for. */
  ghost function AsMap(d: Dict): (m: map<string, Value>)
    ensures m.Keys == KeySet(d)
    ensures forall k :: k in m ==> Get(d, k) == Some(m[k])
  {
    map k | k in KeySet(d) :: Get(d, k).value
  }

  /** Two dicts whose keys sit at the same positions find every key at the same place. */
  lemma FindSameKeys(d: Dict, e: Dict, k: string)
    requires |d| == |e|
    requires forall i :: 0 <= i < |d| ==> d[i].key == e[i].key
    ensures Find(d, k) == Find(e, k)
  {
    match Find(d, k)
    case Some(i) =>
      assert e[i].key == k;
    case None =>
  }

  /** Appending an entry for another key does not move `k`. */
  lemma FindAppendOther(d: Dict, x: Item, k: string)
    requires x.key != k
    ensures Find(d + [x], k) == Find(d, k)
  {
    var e := d + [x];
    assert forall j :: 0 <= j < |d| ==> e[j] == d[j];
    match Find(d, k)
    case Some(i) =>
      assert e[i].key == k;
    case None =>
  }

  /** `d[k] = v` */
  function Put(d: Dict, k: string, v: Value): (r: Dict)
    ensures Valid(d) ==> Valid(r)
    ensures Get(r, k) == Some(v)
    ensures forall k' :: k' != k ==> Get(r, k') == Get(d, k')
    ensures HasKey(d, k) ==> |r| == |d| && forall i :: 0 <= i < |d| && d[i].key != k ==> r[i] == d[i]
    ensures !HasKey(d, k) ==> r == d + [Item(k, v)]
  {
    match Find(d, k)
    case Some(i) =>
      var r := d[i := Item(k, v)];
      forall k' | k' != k
        ensures Get(r, k') == Get(d, k')
      {
        FindSameKeys(r, d, k');
      }
      assert r[i] == Item(k, v);
      r
    case None =>
      var r := d + [Item(k, v)];
      forall k' | k' != k
        ensures Get(r, k') == Get(d, k')
      {
        FindAppendOther(d, Item(k, v), k');
        assert forall j :: 0 <= j < |d| ==> r[j] == d[j];
      }
      assert r[|d|] == Item(k, v);
      r
  }

  /** The value of the last item carrying key `k`: the one a dict built from `items` keeps. */
  function LastFor(items: seq<Item>, k: string): (r: Option<Value>)
    ensures r.None? <==> forall i :: 0 <= i < |items| ==> items[i].key != k
    ensures forall i ::
      (0 <= i < |items| && items[i].key == k && forall j :: i < j < |items| ==> items[j].key != k)
      ==> r == Some(items[i].value)
  {
    if |items| == 0 then None
    else
      var n := |items| - 1;
      if items[n].key == k then Some(items[n].value)
      else
        assert forall j :: 0 <= j < n ==> items[..n][j] == items[j];
        LastFor(items[..n], k)
  }

  /** `d.update(items)`: assign each pair in order, so a later pair overrides an earlier one. */
  function Update(d: Dict, items: seq<Item>): (r: Dict)
    ensures Valid(d) ==> Valid(r)
    ensures forall k :: Get(r, k) == (if LastFor(items, k).Some? then LastFor(items, k) else Get(d, k))
    decreases |items|
  {
    if |items| == 0 then d
    else
      var last := items[|items| - 1];
      var prefix := items[..|items| - 1];
      var r := Put(Update(d, prefix), last.key, last.value);
      assert forall j :: 0 <= j < |prefix| ==> prefix[j] == items[j];
      r
  }

  /** `{item['key']: item['value'] for item in items}` */
  function FromItems(items: seq<Item>): (r: Dict)
    ensures Valid(r)
    ensures forall k :: Get(r, k) == LastFor(items, k)
  {
    Update([], items)
  }

  /** `d.clear()` followed by `d.update(e)`: the dict becomes a copy of `e`. */
  function Assign(d: Dict, e: Dict): (r: Dict)
    ensures Valid(r)
    ensures Valid(e) ==> r == e
    ensures forall k :: HasKey(r, k) <==> HasKey(e, k)
  {
    var r := Update([], e);
    assert forall k :: HasKey(r, k) <==> HasKey(e, k) by {
      forall k
        ensures HasKey(r, k) <==> HasKey(e, k)
      {
        assert Get(r, k) == LastFor(e, k);
      }
    }
    if Valid(e) then
      UpdateValidIsCopy(e);
      r
    else
      r
  }

  /** Building a dict from a duplicate-free item list gives back that list, order included. */
  lemma {:induction false} UpdateValidIsCopy(items: seq<Item>)
    requires Valid(items)
    ensures Update([], items) == items
  {
    if |items| > 0 {
      var prefix := items[..|items| - 1];
      var last := items[|items| - 1];
      assert forall i :: 0 <= i < |prefix| ==> prefix[i] == items[i];
      assert Valid(prefix);
      assert !HasKey(prefix, last.key);
      UpdateValidIsCopy(prefix);
      UpdateLast([], items);
      SplitLast(items);
    }
  }

  /** A non-empty list is its prefix followed by its last element. */
  lemma SplitLast<T>(s: seq<T>)
    requires |s| > 0
    ensures s[..|s| - 1] + [s[|s| - 1]] == s
  {
  }

  /** One step of `update`: the last pair is assigned after all the others. */
  lemma UpdateLast(d: Dict, items: seq<Item>)
    requires |items| > 0
    ensures Update(d, items) == Put(Update(d, items[..|items| - 1]), items[|items| - 1].key, items[|items| - 1].value)
  {
  }

  /** `d.pop(k)`: `d` without the entry for `k`, the others in their order. */
  function Remove(d: Dict, k: string): (r: Dict)
    ensures Valid(d) ==> Valid(r) && !HasKey(r, k)
    ensures Valid(d) ==> forall k' :: k' != k ==> Get(r, k') == Get(d, k')
    ensures HasKey(d, k) ==> |r| == |d| - 1
    ensures !HasKey(d, k) ==> r == d
  {
    match Find(d, k)
    case None => d
    case Some(i) =>
      var r := d[..i] + d[i + 1..];
      assert forall j :: 0 <= j < i ==> r[j] == d[j];
      assert forall j :: i <= j < |r| ==> r[j] == d[j + 1];
      if Valid(d) then
        RemoveAtLookup(d, i, r);
        r
      else
        r
  }

  /** What the entry removal in `Remove` does to every lookup. */
  lemma RemoveAtLookup(d: Dict, i: nat, r: Dict)
    requires Valid(d) && i < |d|
    requires |r| == |d| - 1
    requires forall j :: 0 <= j < i ==> r[j] == d[j]
    requires forall j :: i <= j < |r| ==> r[j] == d[j + 1]
    ensures Valid(r) && !HasKey(r, d[i].key)
    ensures forall k' :: k' != d[i].key ==> Get(r, k') == Get(d, k')
  {
    forall k' | k' != d[i].key
      ensures Get(r, k') == Get(d, k')
    {
      if HasKey(d, k') {
        var j :| 0 <= j < |d| && d[j].key == k';
        assert j != i;
        if j < i {
          assert r[j] == d[j];
        } else {
          assert r[j - 1] == d[j];
        }
      }
    }
  }

  /** `d.pop(k, default)`: the stored value (or `default`) and the dict without `k`. */
  function Pop(d: Dict, k: string, default: Value): (r: (Value, Dict))
    ensures r.0 == Get(d, k).GetOr(default)
    ensures Valid(d) ==> Valid(r.1) && !HasKey(r.1, k)
    ensures Valid(d) ==> forall k' :: k' != k ==> Get(r.1, k') == Get(d, k')
  {
    (Get(d, k).GetOr(default), Remove(d, k))
  }

  /** Two dicts that agree on every lookup except `k`, which the first lacks, differ by `k` as maps. */
  lemma AsMapWithout(r: Dict, d: Dict, k: string)
    requires !HasKey(r, k)
    requires forall k' :: k' != k ==> Get(r, k') == Get(d, k')
    ensures AsMap(r) == AsMap(d) - {k}
  {
    var m, want := AsMap(r), AsMap(d) - {k};
    forall k' | k' in m
      ensures k' in want && m[k'] == want[k']
    {
      assert Get(r, k') == Some(m[k']);
    }
    forall k' | k' in want
      ensures k' in m
    {
      assert Get(r, k') == Get(d, k') == Some(want[k']);
    }
    assert m.Keys == want.Keys;
  }

  /** Assigning a key and then popping it returns the assigned value and forgets the key. */
  lemma PutThenPop(d: Dict, k: string, v: Value, default: Value)
    requires Valid(d)
    ensures Pop(Put(d, k, v), k, default).0 == v
    ensures AsMap(Pop(Put(d, k, v), k, default).1) == AsMap(d) - {k}
  {
    var p := Put(d, k, v);
    var r := Remove(p, k);
    assert Pop(p, k, default).1 == r;
    assert forall k' :: k' != k ==> Get(r, k') == Get(p, k') == Get(d, k');
    AsMapWithout(r, d, k);
  }
}
