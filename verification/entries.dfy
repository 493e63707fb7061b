/** The driver's in-memory store: a Python `dict[str, str]`, which remembers the order in which
    keys were first inserted. It is modelled as a sequence of entries in that order; `ToMap`
    forgets the order and gives the plain key/value view. */
module Entries {
  import opened Wrappers

  /** One `key=value` pair of the store. */
  datatype Entry = Entry(key: string, value: string)

  /** The store's entries in insertion order. */
  type Table = seq<Entry>

  /** The keys present in `t`. */
  function Keys(t: Table): set<string> {
    set i | 0 <= i < |t| :: t[i].key
  }

  /** No key occurs twice (always the case for a dict). */
  predicate UniqueKeys(t: Table) {
    forall i, j :: 0 <= i < j < |t| ==> t[i].key != t[j].key
  }

  /** `d.get(k, None)`: the value of the first entry with key `k`. */
  function Get(t: Table, k: string): (r: Option<string>)
    ensures r.Some? <==> k in Keys(t)
    ensures r.Some? ==> Entry(k, r.value) in t
    ensures forall i :: 0 <= i < |t| && t[i].key == k && UniqueKeys(t) ==> r == Some(t[i].value)
  {
    if |t| == 0 then None
    else if t[0].key == k then Some(t[0].value)
    else
      assert Keys(t) == {t[0].key} + Keys(t[1..]);
      Get(t[1..], k)
  }

  /** `d[k] = v`: an existing key keeps its position and gets the new value; a new key is
      appended at the end. */
  function Set(t: Table, k: string, v: string): (r: Table)
    ensures Keys(r) == Keys(t) + {k}
    ensures k in Keys(t) ==> |r| == |t|
    ensures k in Keys(t) ==> forall i :: 0 <= i < |t| ==> r[i] == (if t[i].key == k then Entry(k, v) else t[i])
    ensures k !in Keys(t) ==> r == t + [Entry(k, v)]
  {
    if k in Keys(t) then
      var r := seq(|t|, i requires 0 <= i < |t| => if t[i].key == k then Entry(k, v) else t[i]);
      assert forall i :: 0 <= i < |t| ==> r[i].key == t[i].key;
      r
    else
      var r := t + [Entry(k, v)];
      assert Keys(r) == Keys(t) + {k} by {
        assert forall i :: 0 <= i < |t| ==> r[i] == t[i];
        assert r[|t|].key == k;
      }
      r
  }

  /** `d.pop(k, None)`: every entry with key `k` is dropped and the others keep their order. */
  function Remove(t: Table, k: string): (r: Table)
    ensures Keys(r) == Keys(t) - {k}
    ensures forall e :: e in r <==> e in t && e.key != k
    ensures k !in Keys(t) ==> r == t
    ensures |r| <= |t|
    ensures UniqueKeys(t) ==> forall i :: 0 <= i < |t| && t[i].key == k ==> r == t[..i] + t[i + 1..]
  {
    if |t| == 0 then []
    else
      assert Keys(t) == {t[0].key} + Keys(t[1..]);
      var rest := Remove(t[1..], k);
      if t[0].key == k then
        assert UniqueKeys(t) ==> k !in Keys(t[1..]) && rest == t[1..];
        rest
      else
        var r := [t[0]] + rest;
        KeysCons(t[0], rest);
        assert t == [t[0]] + t[1..];
        RemoveConsOrder(t, k, rest);
        r
  }

  /** Keeping the first entry in front of the tail's removal result keeps the entries in their
      original order around the one entry removed. */
  lemma RemoveConsOrder(t: Table, k: string, rest: Table)
    requires |t| > 0 && t[0].key != k
    requires UniqueKeys(t[1..]) ==> forall i :: 0 <= i < |t[1..]| && t[1..][i].key == k ==> rest == t[1..][..i] + t[1..][i + 1..]
    ensures UniqueKeys(t) ==> forall i :: 0 <= i < |t| && t[i].key == k ==> [t[0]] + rest == t[..i] + t[i + 1..]
  {
    if UniqueKeys(t) {
      assert UniqueKeys(t[1..]);
      forall i | 0 <= i < |t| && t[i].key == k
        ensures [t[0]] + rest == t[..i] + t[i + 1..]
      {
        assert t[1..][i - 1].key == k;
        assert t[..i] == [t[0]] + t[1..][..i - 1];
        assert t[i + 1..] == t[1..][i..];
      }
    }
  }

  /** The keys of a table with one more entry in front. */
  lemma KeysCons(e: Entry, t: Table)
    ensures Keys([e] + t) == {e.key} + Keys(t)
  {
    var r := [e] + t;
    forall x | x in Keys(r)
      ensures x in {e.key} + Keys(t)
    {
      var i :| 0 <= i < |r| && r[i].key == x;
      if i > 0 {
        assert r[i] == t[i - 1];
      }
    }
    forall x | x in Keys(t)
      ensures x in Keys(r)
    {
      var i :| 0 <= i < |t| && t[i].key == x;
      assert r[i + 1] == t[i];
    }
    assert r[0] == e;
  }

  /** The order-free key/value view of the store. */
  function ToMap(t: Table): (m: map<string, string>)
    ensures m.Keys == Keys(t)
    ensures forall k :: k in m ==> Get(t, k) == Some(m[k])
  {
    map k | k in Keys(t) :: Get(t, k).value
  }

  /** Setting a key preserves the uniqueness of keys. */
  lemma SetUnique(t: Table, k: string, v: string)
    requires UniqueKeys(t)
    ensures UniqueKeys(Set(t, k, v))
  {
    var r := Set(t, k, v);
    if k !in Keys(t) {
      forall i, j | 0 <= i < j < |r|
        ensures r[i].key != r[j].key
      {
        if j == |t| {
          assert r[i] == t[i];
          assert t[i].key in Keys(t);
        }
      }
    }
  }

  /** Removing a key preserves the uniqueness of keys. */
  lemma {:induction false} RemoveUnique(t: Table, k: string)
    requires UniqueKeys(t)
    ensures UniqueKeys(Remove(t, k))
  {
    if |t| > 0 {
      assert UniqueKeys(t[1..]);
      RemoveUnique(t[1..], k);
      var rest := Remove(t[1..], k);
      if t[0].key != k {
        var r := [t[0]] + rest;
        forall j | 0 < j < |r|
          ensures r[0].key != r[j].key
        {
          assert r[j] in rest;
          assert r[j] in t[1..];
          var m :| 0 <= m < |t[1..]| && t[1..][m] == r[j];
          assert t[m + 1] == r[j];
        }
        forall i, j | 0 <= i < j < |r|
          ensures r[i].key != r[j].key
        {
          if i > 0 {
            assert r[i] == rest[i - 1] && r[j] == rest[j - 1];
          }
        }
      }
    }
  }

  /** After `d[k] = v`, `d.get(k)` is `v` and every other key reads as before. */
  lemma GetSet(t: Table, k: string, v: string, other: string)
    ensures Get(Set(t, k, v), k) == Some(v)
    ensures other != k ==> Get(Set(t, k, v), other) == Get(t, other)
  {
    GetSetSame(t, k, v);
    if other != k {
      GetSetOther(t, k, v, other);
    }
  }

  /** The key just set reads as its new value. */
  lemma {:induction false} GetSetSame(t: Table, k: string, v: string)
    ensures Get(Set(t, k, v), k) == Some(v)
  {
    var r := Set(t, k, v);
    if k in Keys(t) {
      FirstWithKey(r, k);
    } else {
      GetAppend(t, Entry(k, v), k);
    }
  }

  /** Setting one key leaves every other key's reading alone. */
  lemma {:induction false} GetSetOther(t: Table, k: string, v: string, other: string)
    requires other != k
    ensures Get(Set(t, k, v), other) == Get(t, other)
  {
    if k in Keys(t) {
      GetPointwise(t, Set(t, k, v), other);
    } else {
      GetAppend(t, Entry(k, v), other);
    }
  }

  /** The first entry with key `k` is the one `Get` reads. */
  lemma {:induction false} FirstWithKey(t: Table, k: string)
    requires k in Keys(t)
    ensures exists i :: 0 <= i < |t| && t[i].key == k && Get(t, k) == Some(t[i].value)
  {
    if t[0].key != k {
      assert Keys(t) == {t[0].key} + Keys(t[1..]);
      FirstWithKey(t[1..], k);
      var i :| 0 <= i < |t[1..]| && t[1..][i].key == k && Get(t[1..], k) == Some(t[1..][i].value);
      assert t[i + 1] == t[1..][i];
    } else {
      assert t[0].key == k;
    }
  }

  /** Two tables that agree on every entry carrying key `k`, and on where those entries are,
      read the same for `k`. */
  lemma {:induction false} GetPointwise(t: Table, u: Table, k: string)
    requires |t| == |u|
    requires forall i :: 0 <= i < |t| ==> t[i].key == u[i].key
    requires forall i :: 0 <= i < |t| && t[i].key == k ==> t[i] == u[i]
    ensures Get(t, k) == Get(u, k)
  {
    if |t| > 0 && t[0].key != k {
      GetPointwise(t[1..], u[1..], k);
    }
  }

  /** Appending an entry changes the reading only of a key that was absent. */
  lemma {:induction false} GetAppend(t: Table, e: Entry, k: string)
    ensures Get(t + [e], k) == if k in Keys(t) then Get(t, k) else if e.key == k then Some(e.value) else None
  {
    if |t| == 0 {
      assert [e][1..] == [];
    } else {
      assert (t + [e])[1..] == t[1..] + [e];
      assert Keys(t) == {t[0].key} + Keys(t[1..]);
      GetAppend(t[1..], e, k);
    }
  }

  /** After `d.pop(k)`, `d.get(k)` is absent and every other key reads as before. */
  lemma {:induction false} GetRemove(t: Table, k: string, other: string)
    ensures Get(Remove(t, k), k) == None
    ensures other != k ==> Get(Remove(t, k), other) == Get(t, other)
  {
    if |t| > 0 {
      GetRemove(t[1..], k, other);
    }
  }

  /** The map view of `d[k] = v` is the map view of `d` updated at `k`. */
  lemma SetMap(t: Table, k: string, v: string)
    ensures ToMap(Set(t, k, v)) == ToMap(t)[k := v]
  {
    var a := ToMap(Set(t, k, v));
    var b := ToMap(t)[k := v];
    forall x | x in a
      ensures a[x] == b[x]
    {
      GetSet(t, k, v, x);
    }
  }

  /** The map view of `d.pop(k)` is the map view of `d` without `k`. */
  lemma RemoveMap(t: Table, k: string)
    ensures ToMap(Remove(t, k)) == ToMap(t) - {k}
  {
    var a := ToMap(Remove(t, k));
    var b := ToMap(t) - {k};
    forall x | x in a
      ensures a[x] == b[x]
    {
      GetRemove(t, k, x);
    }
  }
}
