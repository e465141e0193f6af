/**
  A model of a Python `dict`: an insertion-ordered list of entries whose keys
  are pairwise distinct. Assigning to a present key updates its value in place;
  assigning to a new key appends it, so iteration follows first insertion.
 */
module PyDict {

  import opened Wrappers

  datatype Entry<K, V> = Entry(key: K, value: V)

  ghost predicate DistinctKeys<K, V>(s: seq<Entry<K, V>>) {
    forall i, j :: 0 <= i < j < |s| ==> s[i].key != s[j].key
  }

  type Dict<K, V> = s: seq<Entry<K, V>> | DistinctKeys(s) witness []

  /** The keys of a dict, as a set. */
  ghost function Keys<K, V>(s: seq<Entry<K, V>>): set<K> {
    set i | 0 <= i < |s| :: s[i].key
  }

  /**
    Lookup that tells absence apart: `Some` of the value stored under `k` when
    `k` is a key, `None` when it is not. (A Python lookup with a default is
    `GetOr`; with dict values that may themselves be `None`, only `Get` keeps the
    two cases apart.)
   */
  function Get<K(==), V>(d: Dict<K, V>, k: K): (r: Option<V>)
    ensures r.None? <==> k !in Keys(d)
    ensures r.Some? ==> Entry(k, r.value) in d
  {
    if |d| == 0 then None
    else if d[0].key == k then Some(d[0].value)
    else
      var r := Get(d[1..], k);
      assert r.Some? ==> Entry(k, r.value) in d by {
        assert d == [d[0]] + d[1..];
      }
      assert Keys(d) == {d[0].key} + Keys(d[1..]) by {
        assert forall i :: 0 < i < |d| ==> d[i] == d[1..][i - 1];
      }
      r
  }

  /** In a dict, the entry stored under a key is the one `Get` finds. */
  lemma GetMember<K, V>(d: Dict<K, V>, k: K, v: V)
    ensures Get(d, k) == Some(v) <==> Entry(k, v) in d
  {
    if Entry(k, v) in d {
      var r := Get(d, k);
      var i :| 0 <= i < |d| && d[i] == Entry(k, v);
      var j :| 0 <= j < |d| && d[j] == Entry(k, r.value);
      assert i == j;
    }
  }

  /** The value stored under `k`, or `default` when `k` is not a key. */
  function GetOr<K(==), V>(d: Dict<K, V>, k: K, default: V): (r: V)
    ensures k !in Keys(d) ==> r == default
    ensures k in Keys(d) ==> Entry(k, r) in d
  {
    match Get(d, k)
    case Some(v) => v
    case None => default
  }

  /** The position of a present key. */
  function IndexOf<K(==), V>(d: Dict<K, V>, k: K): (i: nat)
    requires k in Keys(d)
    ensures i < |d| && d[i].key == k
  {
    if d[0].key == k then 0
    else
      assert k in Keys(d[1..]) by {
        var j :| 0 <= j < |d| && d[j].key == k;
        assert d[1..][j - 1].key == k;
      }
      1 + IndexOf(d[1..], k)
  }

  /** Assignment under a key: a new key is appended, a present key keeps its place. */
  function Put<K(==), V>(d: Dict<K, V>, k: K, v: V): (r: Dict<K, V>)
    ensures Keys(r) == Keys(d) + {k}
    ensures Entry(k, v) in r
    ensures k !in Keys(d) ==> r == d + [Entry(k, v)]
    ensures k in Keys(d) ==> |r| == |d|
    ensures k in Keys(d) ==> r == d[IndexOf(d, k) := Entry(k, v)]
  {
    if Get(d, k).Some? then
      var i := IndexOf(d, k);
      var r := d[i := Entry(k, v)];
      assert Keys(r) == Keys(d) by {
        assert forall j :: 0 <= j < |d| ==> r[j].key == d[j].key;
      }
      r
    else
      var r := d + [Entry(k, v)];
      assert Keys(r) == Keys(d) + {k} by {
        assert forall j :: 0 <= j < |d| ==> r[j] == d[j];
        assert r[|d|].key == k;
      }
      r
  }

  /** After assigning `v` under `k`, `k` reads `v` and every other key reads as before. */
  lemma PutGet<K, V>(d: Dict<K, V>, k: K, v: V, k': K)
    ensures Get(Put(d, k, v), k') == if k' == k then Some(v) else Get(d, k')
  {
    var r := Put(d, k, v);
    GetMember(r, k, v);
    if k' != k {
      if Get(r, k').Some? {
        var w := Get(r, k').value;
        GetMember(d, k', w);
        var j :| 0 <= j < |r| && r[j] == Entry(k', w);
        if Get(d, k).Some? {
          assert r == d[IndexOf(d, k) := Entry(k, v)];
          assert d[j] == r[j];
        } else {
          assert j < |d| && d[j] == r[j];
        }
      } else {
        assert k' !in Keys(d);
      }
    }
  }

  /**
    The conversion loop shared by saving and loading: every entry, in order, is
    assigned under its converted key; an entry whose key `f` rejects is skipped.
   */
  function Rekey<K, K2(==), V>(d: seq<Entry<K, V>>, f: K -> Option<K2>): Dict<K2, V>
    decreases |d|
  {
    if |d| == 0 then []
    else
      var n := |d| - 1;
      match f(d[n].key)
      case None => Rekey(d[..n], f)
      case Some(k2) => Put(Rekey(d[..n], f), k2, d[n].value)
  }

  /** The converted keys are exactly the images of the keys `f` accepts. */
  lemma {:induction false} RekeyKeys<K, K2, V>(d: seq<Entry<K, V>>, f: K -> Option<K2>, k2: K2)
    ensures k2 in Keys(Rekey(d, f)) <==> exists i :: 0 <= i < |d| && f(d[i].key) == Some(k2)
    decreases |d|
  {
    if |d| > 0 {
      var n := |d| - 1;
      RekeyKeys(d[..n], f, k2);
      if exists i :: 0 <= i < |d| && f(d[i].key) == Some(k2) {
        var i :| 0 <= i < |d| && f(d[i].key) == Some(k2);
        if i < n {
          assert d[..n][i] == d[i];
        }
      }
      if exists i :: 0 <= i < n && f(d[..n][i].key) == Some(k2) {
        var i :| 0 <= i < n && f(d[..n][i].key) == Some(k2);
        assert d[..n][i] == d[i];
      }
    }
  }

  /** A converted key holds the value of the last entry whose key converts to it. */
  lemma {:induction false} RekeyLastWins<K, K2, V>(d: seq<Entry<K, V>>, f: K -> Option<K2>, i: int)
    requires 0 <= i < |d| && f(d[i].key).Some?
    requires forall j :: i < j < |d| ==> f(d[j].key) != f(d[i].key)
    ensures Get(Rekey(d, f), f(d[i].key).value) == Some(d[i].value)
    decreases |d|
  {
    var n := |d| - 1;
    var k2 := f(d[i].key).value;
    if i < n {
      assert d[..n][i] == d[i];
      RekeyLastWins(d[..n], f, i);
      match f(d[n].key)
      case None =>
      case Some(k) => PutGet(Rekey(d[..n], f), k, d[n].value, k2);
    } else {
      PutGet(Rekey(d[..n], f), k2, d[n].value, k2);
    }
  }

  /**
    When `f` accepts every key and sends distinct entries to distinct keys,
    conversion keeps every entry in place with its key converted.
   */
  lemma {:induction false} RekeyInjective<K, K2, V>(d: seq<Entry<K, V>>, f: K -> Option<K2>)
    requires forall i :: 0 <= i < |d| ==> f(d[i].key).Some?
    requires forall i, j :: 0 <= i < j < |d| ==> f(d[i].key) != f(d[j].key)
    ensures |Rekey(d, f)| == |d|
    ensures forall i :: 0 <= i < |d| ==> Rekey(d, f)[i] == Entry(f(d[i].key).value, d[i].value)
    decreases |d|
  {
    if |d| > 0 {
      var n := |d| - 1;
      var front := d[..n];
      RekeyInjective(front, f);
      RekeyAppendsFresh(d, f);
    }
  }

  /** One step of `RekeyInjective`: the last key is new, so its entry is appended. */
  lemma RekeyAppendsFresh<K, K2, V>(d: seq<Entry<K, V>>, f: K -> Option<K2>)
    requires |d| > 0
    requires forall i :: 0 <= i < |d| ==> f(d[i].key).Some?
    requires forall i, j :: 0 <= i < j < |d| ==> f(d[i].key) != f(d[j].key)
    requires var front := d[..|d| - 1];
      && |Rekey(front, f)| == |front|
      && forall i :: 0 <= i < |front| ==> Rekey(front, f)[i] == Entry(f(front[i].key).value, front[i].value)
    ensures |Rekey(d, f)| == |d|
    ensures forall i :: 0 <= i < |d| ==> Rekey(d, f)[i] == Entry(f(d[i].key).value, d[i].value)
  {
    var n := |d| - 1;
    var front := d[..n];
    var prev := Rekey(front, f);
    var k2 := f(d[n].key).value;
    assert k2 !in Keys(prev) by {
      forall i | 0 <= i < n ensures prev[i].key != k2 {
        assert front[i] == d[i];
        assert f(d[i].key) != f(d[n].key);
      }
    }
    var r := Rekey(d, f);
    assert r == prev + [Entry(k2, d[n].value)];
    forall i | 0 <= i < |d| ensures r[i] == Entry(f(d[i].key).value, d[i].value) {
      if i < n {
        assert r[i] == prev[i];
        assert front[i] == d[i];
      }
    }
  }

}
