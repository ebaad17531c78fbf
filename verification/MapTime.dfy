/**
 The map with expiring entries of libs/map_time.h and its index by time.  The clock is a
 parameter of every operation that reads it.
 */
module MapTime {
  import opened Wrappers

  datatype Timed<V> = Timed(val: V, until: int)

  datatype Entry<K> = Entry(time: int, key: K)

  predicate Sorted<K>(ts: seq<Entry<K>>) {
    forall i, j :: 0 <= i < j < |ts| ==> ts[i].time <= ts[j].time
  }

  /** Every entry of the map can be found in the index under its own time. */
  ghost predicate Indexed<K(!new), V>(m: map<K, Timed<V>>, ts: seq<Entry<K>>) {
    forall k :: k in m ==> Entry(m[k].until, k) in ts
  }

  /** What `get` answers at a time. */
  function Lookup<K, V>(m: map<K, Timed<V>>, k: K, now: int): Option<V> {
    if k in m && m[k].until >= now then Some(m[k].val) else None
  }

  /** The entries a full sweep at a time would keep. */
  ghost function Live<K(!new), V>(m: map<K, Timed<V>>, now: int): map<K, Timed<V>> {
    map k | k in m && m[k].until >= now :: m[k]
  }

  /** Dropping what has expired changes no later answer. */
  lemma LiveAnswers<K(!new), V>(m: map<K, Timed<V>>, n: int, k: K, later: int)
    requires later >= n
    ensures Lookup(Live(m, n), k, later) == Lookup(m, k, later)
  {
  }

  /** A value inserted to live for a time is found exactly up to its end. */
  lemma FoundUntil<K(!new), V>(m: map<K, Timed<V>>, k: K, v: V, ttl: int, now: int, later: int)
    ensures Lookup(m[k := Timed(v, now + ttl)], k, later) == if later <= now + ttl then Some(v) else None
  {
  }

  /** A multimap keeps equal times in the order they came. */
  function Inserted<K(!new)>(ts: seq<Entry<K>>, e: Entry<K>): (r: seq<Entry<K>>)
    ensures forall x :: x in r <==> x in ts || x == e
  {
    if ts == [] || ts[|ts| - 1].time <= e.time then ts + [e]
    else
      var n := |ts| - 1;
      assert ts == ts[..n] + [ts[n]];
      Inserted(ts[..n], e) + [ts[n]]
  }

  lemma {:induction false} InsertedSorted<K(!new)>(ts: seq<Entry<K>>, e: Entry<K>)
    requires Sorted(ts)
    ensures Sorted(Inserted(ts, e))
  {
    var n := |ts| - 1;
    if ts != [] && ts[n].time > e.time {
      InsertedSorted(ts[..n], e);
      var r := Inserted(ts[..n], e);
      forall i | 0 <= i < |r| ensures r[i].time <= ts[n].time {
        assert r[i] in r;
      }
    }
  }

  class TimedMap<K(==,!new), V> {
    var contents: map<K, Timed<V>>
    var times: seq<Entry<K>>

    constructor ()
      ensures Valid() && contents == map[] && times == []
    {
      contents, times := map[], [];
    }

    ghost predicate Valid()
      reads this
    {
      Sorted(times) && Indexed(contents, times)
    }

    /** `insert`: the newest value wins; the old index entry stays behind. */
    method Insert(key: K, v: V, ttl: int, now: int)
      requires Valid()
      modifies this
      ensures Valid() && contents == old(contents)[key := Timed(v, now + ttl)]
      ensures times == Inserted(old(times), Entry(now + ttl, key))
    {
      InsertedSorted(times, Entry(now + ttl, key));
      contents := contents[key := Timed(v, now + ttl)];
      times := Inserted(times, Entry(now + ttl, key));
    }

    method Erase(key: K)
      requires Valid()
      modifies this`contents
      ensures Valid() && contents == old(contents) - {key}
    {
      contents := contents - {key};
    }

    method Get(key: K, now: int) returns (r: Option<V>)
      ensures r == Lookup(contents, key, now)
    {
      r := None;
      if key in contents {
        if contents[key].until >= now {
          r := Some(contents[key].val);
        }
      }
    }

    method RemoveIf(key: K, pred: V -> bool)
      requires Valid()
      modifies this`contents
      ensures Valid()
      ensures contents == if key in old(contents) && pred(old(contents)[key].val) then old(contents) - {key} else old(contents)
    {
      if key in contents {
        if pred(contents[key].val) {
          contents := contents - {key};
        }
      }
    }

    /** The insertion step of `deserialize`: a key that is there keeps its value, the index grows all the same. */
    method InsertItem(key: K, item: Timed<V>)
      requires Valid()
      modifies this
      ensures Valid() && contents == if key in old(contents) then old(contents) else old(contents)[key := item]
      ensures times == Inserted(old(times), Entry(item.until, key))
    {
      InsertedSorted(times, Entry(item.until, key));
      if key !in contents {
        contents := contents[key := item];
      }
      times := Inserted(times, Entry(item.until, key));
    }

    /** `clear_ttl`: the sweep of the expired prefix of the index is a sweep of the whole map. */
    method ClearTtl(n: int)
      requires Valid()
      modifies this
      ensures Valid() && contents == Live(old(contents), n)
      ensures forall e :: e in times <==> e in old(times) && e.time >= n
      ensures forall k, later :: later >= n ==> Lookup(contents, k, later) == Lookup(old(contents), k, later)
    {
      hide Sweep, Live, Indexed, Lookup;
      ghost var m := contents;
      SweepNone(m, n);
      assert times[..0] == [];
      var i := 0;
      while i < |times| && times[i].time < n
        invariant 0 <= i <= |times| && times == old(times)
        invariant forall j :: 0 <= j < i ==> times[j].time < n
        invariant contents == Sweep(m, times[..i], n)
      {
        var k := times[i].key;
        if k in contents && contents[k].until < n {
          contents := contents - {k};
        }
        SweepStep(m, times, i, n);
        i := i + 1;
      }
      SweepIsFull(m, times, i, n);
      forall k, later | later >= n ensures Lookup(contents, k, later) == Lookup(m, k, later) {
        LiveAnswers(m, n, k, later);
      }
      times := times[i..];
    }
  }

  /** What the loop leaves after some index entries. */
  ghost function Sweep<K(!new), V>(m: map<K, Timed<V>>, ts: seq<Entry<K>>, n: int): map<K, Timed<V>> {
    if ts == [] then m
    else
      var s, k := Sweep(m, ts[..|ts| - 1], n), ts[|ts| - 1].key;
      if k in s && s[k].until < n then s - {k} else s
  }

  lemma SweepNone<K(!new), V>(m: map<K, Timed<V>>, n: int)
    ensures Sweep(m, [], n) == m
  {
  }

  lemma SweepStep<K(!new), V>(m: map<K, Timed<V>>, ts: seq<Entry<K>>, i: nat, n: int)
    requires i < |ts|
    ensures var s, k := Sweep(m, ts[..i], n), ts[i].key;
      Sweep(m, ts[..i + 1], n) == if k in s && s[k].until < n then s - {k} else s
  {
    assert ts[..i + 1][..i] == ts[..i];
  }

  /** Some index entry for the key has been looked at. */
  ghost predicate Swept<K(!new)>(ts: seq<Entry<K>>, k: K) {
    exists j :: 0 <= j < |ts| && ts[j].key == k
  }

  lemma {:induction false} SweepIs<K(!new), V>(m: map<K, Timed<V>>, ts: seq<Entry<K>>, n: int, k: K)
    ensures k in Sweep(m, ts, n) <==> k in m && (m[k].until >= n || !Swept(ts, k))
    ensures k in Sweep(m, ts, n) ==> Sweep(m, ts, n)[k] == m[k]
  {
    if ts != [] {
      var i := |ts| - 1;
      SweepIs(m, ts[..i], n, k);
      SweptSnoc(ts, k);
    }
  }

  lemma SweptSnoc<K(!new)>(ts: seq<Entry<K>>, k: K)
    requires ts != []
    ensures Swept(ts, k) <==> Swept(ts[..|ts| - 1], k) || ts[|ts| - 1].key == k
  {
    if Swept(ts, k) && ts[|ts| - 1].key != k {
      var j :| 0 <= j < |ts| && ts[j].key == k;
      assert ts[..|ts| - 1][j].key == k;
    }
  }

  /** The index finds every expired key before the first entry that is still due. */
  lemma SweepIsFull<K(!new), V>(m: map<K, Timed<V>>, ts: seq<Entry<K>>, i: nat, n: int)
    requires Sorted(ts) && Indexed(m, ts) && i <= |ts|
    requires forall j :: 0 <= j < i ==> ts[j].time < n
    requires i == |ts| || ts[i].time >= n
    ensures Sweep(m, ts[..i], n) == Live(m, n) && Indexed(Live(m, n), ts[i..])
    ensures forall e :: e in ts[i..] <==> e in ts && e.time >= n
  {
    hide Sweep;
    forall k | k in m && m[k].until < n ensures Swept(ts[..i], k) {
      var j :| 0 <= j < |ts| && ts[j] == Entry(m[k].until, k);
      assert ts[..i][j].key == k;
    }
    forall k ensures k in Sweep(m, ts[..i], n) <==> k in Live(m, n)
             ensures k in Live(m, n) ==> Sweep(m, ts[..i], n)[k] == m[k] {
      SweepIs(m, ts[..i], n, k);
    }
    Rest(ts, i, n);
  }

  lemma Rest<K(!new)>(ts: seq<Entry<K>>, i: nat, n: int)
    requires Sorted(ts) && i <= |ts|
    requires forall j :: 0 <= j < i ==> ts[j].time < n
    requires i == |ts| || ts[i].time >= n
    ensures forall e :: e in ts[i..] <==> e in ts && e.time >= n
  {
    forall e | e in ts && e.time >= n ensures e in ts[i..] {
      var j :| 0 <= j < |ts| && ts[j] == e;
      assert ts[i..][j - i] == e;
    }
    forall e | e in ts[i..] ensures e in ts && e.time >= n {
      var j :| 0 <= j < |ts[i..]| && ts[i..][j] == e;
      assert ts[i + j] == e;
    }
  }
}
