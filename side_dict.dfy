/** The sidebar map's dictionary: Python's insertion-ordered `dict`, whose
    assignment to a present key overwrites it in place and to a new key
    appends it. */
module SideDict {
  import opened Wrappers

  /** A sidebar value: a page file, or a nested map for a branch. */
  datatype SideValue = Link(file: string) | Nested(entries: seq<SideEntry>)

  datatype SideEntry = SideEntry(key: string, value: SideValue)

  type Dict = seq<SideEntry>

  function Keys(d: Dict): set<string> {
    set i | 0 <= i < |d| :: d[i].key
  }

  predicate DistinctKeys(d: Dict) {
    forall i, j :: 0 <= i < |d| && 0 <= j < |d| && d[i].key == d[j].key ==> i == j
  }

  /** The position of `k`, if present. */
  function Find(d: Dict, k: string): (r: Option<nat>)
    ensures r.Some? ==> r.value < |d| && d[r.value].key == k
    ensures r.None? <==> k !in Keys(d)
    decreases |d|
  {
    if d == [] then None
    else if d[0].key == k then Some(0)
    else
      KeysCons(d);
      match Find(d[1..], k)
      case Some(i) => Some(i + 1)
      case None => None
  }

  lemma KeysCons(d: Dict)
    requires d != []
    ensures Keys(d) == {d[0].key} + Keys(d[1..])
  {
    forall x | x in Keys(d) ensures x in {d[0].key} + Keys(d[1..]) {
      var i :| 0 <= i < |d| && d[i].key == x;
      if i > 0 { assert d[1..][i - 1].key == x; }
    }
  }

  lemma KeysSnoc(d: Dict)
    requires d != []
    ensures Keys(d) == Keys(d[..|d| - 1]) + {d[|d| - 1].key}
  {
    var n := |d| - 1;
    forall x | x in Keys(d) ensures x in Keys(d[..n]) + {d[n].key} {
      var i :| 0 <= i < |d| && d[i].key == x;
      if i < n { assert d[..n][i].key == x; }
    }
  }

  lemma KeysAppend(a: Dict, b: Dict)
    ensures Keys(a + b) == Keys(a) + Keys(b)
  {
    forall x | x in Keys(a + b) ensures x in Keys(a) + Keys(b) {
      var i :| 0 <= i < |a + b| && (a + b)[i].key == x;
      if i >= |a| { assert b[i - |a|].key == x; }
    }
    forall x | x in Keys(a) + Keys(b) ensures x in Keys(a + b) {
      if x in Keys(a) {
        var i :| 0 <= i < |a| && a[i].key == x;
        assert (a + b)[i].key == x;
      } else {
        var i :| 0 <= i < |b| && b[i].key == x;
        assert (a + b)[i + |a|].key == x;
      }
    }
  }

  /** `d.get(k)` */
  function Get(d: Dict, k: string): (r: Option<SideValue>)
    ensures r.Some? <==> k in Keys(d)
  {
    match Find(d, k)
    case Some(i) => Some(d[i].value)
    case None => None
  }

  /** `d[k] = v` */
  function Put(d: Dict, k: string, v: SideValue): (r: Dict)
    requires DistinctKeys(d)
    ensures DistinctKeys(r)
    ensures Keys(r) == Keys(d) + {k}
    ensures Get(r, k) == Some(v)
    ensures forall k' :: k' != k ==> Get(r, k') == Get(d, k')
    ensures k in Keys(d) ==> |r| == |d| && forall i :: 0 <= i < |d| ==> r[i].key == d[i].key
    ensures k !in Keys(d) ==> r == d + [SideEntry(k, v)]
  {
    match Find(d, k)
    case Some(i) => PutInPlace(d, i, v); d[i := SideEntry(k, v)]
    case None => PutAppends(d, k, v); d + [SideEntry(k, v)]
  }

  lemma PutInPlace(d: Dict, i: nat, v: SideValue)
    requires DistinctKeys(d) && i < |d|
    ensures var r := d[i := SideEntry(d[i].key, v)];
      && DistinctKeys(r) && Keys(r) == Keys(d) && Get(r, d[i].key) == Some(v)
      && forall k' :: k' != d[i].key ==> Get(r, k') == Get(d, k')
  {
    var k := d[i].key;
    var r := d[i := SideEntry(k, v)];
    assert forall j :: 0 <= j < |d| ==> r[j].key == d[j].key;
    assert Keys(r) == Keys(d) by {
      forall x | x in Keys(d) ensures x in Keys(r) {
        var j :| 0 <= j < |d| && d[j].key == x;
        assert r[j].key == x;
      }
    }
    GetAt(r, i);
    forall k' | k' != k ensures Get(r, k') == Get(d, k') {
      if k' in Keys(d) {
        var j :| 0 <= j < |d| && d[j].key == k';
        GetAt(d, j);
        GetAt(r, j);
      }
    }
  }

  lemma PutAppends(d: Dict, k: string, v: SideValue)
    requires DistinctKeys(d) && k !in Keys(d)
    ensures var r := d + [SideEntry(k, v)];
      && DistinctKeys(r) && Keys(r) == Keys(d) + {k} && Get(r, k) == Some(v)
      && forall k' :: k' != k ==> Get(r, k') == Get(d, k')
  {
    var r := d + [SideEntry(k, v)];
    assert r[..|r| - 1] == d;
    KeysSnoc(r);
    assert DistinctKeys(r) by {
      forall i, j | 0 <= i < |r| && 0 <= j < |r| && r[i].key == r[j].key ensures i == j {
        if i < |d| { assert r[i].key in Keys(d); }
        if j < |d| { assert r[j].key in Keys(d); }
      }
    }
    GetAt(r, |d|);
    forall k' | k' != k ensures Get(r, k') == Get(d, k') {
      if k' in Keys(d) {
        var j :| 0 <= j < |d| && d[j].key == k';
        GetAt(d, j);
        GetAt(r, j);
      }
    }
  }

  lemma GetAt(d: Dict, i: nat)
    requires DistinctKeys(d) && i < |d|
    ensures Get(d, d[i].key) == Some(d[i].value)
  {
  }

  /** Assign the entries one after another. */
  function PutAll(d: Dict, es: seq<SideEntry>): (r: Dict)
    requires DistinctKeys(d)
    ensures DistinctKeys(r)
    decreases |es|
  {
    if es == [] then d
    else Put(PutAll(d, es[..|es| - 1]), es[|es| - 1].key, es[|es| - 1].value)
  }

  lemma {:induction false} PutAllAppend(d: Dict, a: seq<SideEntry>, b: seq<SideEntry>)
    requires DistinctKeys(d)
    ensures PutAll(d, a + b) == PutAll(PutAll(d, a), b)
    decreases |b|
  {
    if b == [] {
      assert a + b == a;
    } else {
      var n := |b| - 1;
      assert (a + b)[..|a + b| - 1] == a + b[..n];
      PutAllAppend(d, a, b[..n]);
    }
  }

  /** The value the last entry with key `k` carries. */
  function LastFor(es: seq<SideEntry>, k: string): Option<SideValue>
    decreases |es|
  {
    if es == [] then None
    else if es[|es| - 1].key == k then Some(es[|es| - 1].value)
    else LastFor(es[..|es| - 1], k)
  }

  lemma {:induction false} LastForSome(es: seq<SideEntry>, k: string)
    ensures LastFor(es, k).Some? <==> exists i :: 0 <= i < |es| && es[i].key == k
    ensures LastFor(es, k).Some? ==>
      exists i :: 0 <= i < |es| && es[i] == SideEntry(k, LastFor(es, k).value) && forall j :: i < j < |es| ==> es[j].key != k
    decreases |es|
  {
    if es != [] {
      var n := |es| - 1;
      LastForSome(es[..n], k);
      if es[n].key != k {
        if LastFor(es, k).Some? {
          var i :| 0 <= i < n && es[..n][i] == SideEntry(k, LastFor(es, k).value)
            && forall j :: i < j < n ==> es[..n][j].key != k;
          assert es[i] == SideEntry(k, LastFor(es, k).value);
        }
        if exists i :: 0 <= i < |es| && es[i].key == k {
          var i :| 0 <= i < |es| && es[i].key == k;
          assert es[..n][i].key == k;
        }
      }
    }
  }

  /** Later assignments win: after assigning a list of entries, a key holds
      the value of the last entry that names it, and untouched keys keep
      what they had. */
  lemma {:induction false} PutAllGet(d: Dict, es: seq<SideEntry>, k: string)
    requires DistinctKeys(d)
    ensures Get(PutAll(d, es), k) == if LastFor(es, k).Some? then LastFor(es, k) else Get(d, k)
    decreases |es|
  {
    if es != [] {
      PutAllGet(d, es[..|es| - 1], k);
    }
  }

  lemma {:induction false} PutAllKeys(d: Dict, es: seq<SideEntry>)
    requires DistinctKeys(d)
    ensures Keys(PutAll(d, es)) == Keys(d) + Keys(es)
    decreases |es|
  {
    if es != [] {
      PutAllKeys(d, es[..|es| - 1]);
      KeysSnoc(es);
    }
  }
}
