/** Removing the oldest entries of a map, as the historic table and the GeoIP cache do. */
module Eviction {
  import opened Sums

  datatype Entry<K> = Entry(key: K, time: int)

  function KeysOf<K>(entries: seq<Entry<K>>): set<K> {
    set e | e in entries :: e.key
  }

  /** `entries` lists every key of `times` once, with its time. */
  ghost predicate Lists<K>(entries: seq<Entry<K>>, times: map<K, int>) {
    && KeysOf(entries) == times.Keys && |entries| == |times|
    && forall e | e in entries :: e.key in times && times[e.key] == e.time
  }

  /** The first `n` are no younger than the rest. */
  ghost predicate OldestFirst<K>(entries: seq<Entry<K>>, n: nat) {
    forall i, j | 0 <= i < n <= j < |entries| :: entries[i].time <= entries[j].time
  }

  /** `kept` is `all` less exactly `n` entries, none of them younger than a survivor. */
  ghost predicate EvictsOldest<K(!new), V(!new)>(all: map<K, V>, times: map<K, int>, kept: map<K, V>, n: nat)
    requires times.Keys == all.Keys
  {
    && n <= |all| && |kept| == |all| - n
    && (forall k | k in kept :: k in all && kept[k] == all[k])
    && (forall k, k' | k in all && k !in kept && k' in kept :: times[k] <= times[k'])
  }

  lemma SameSize<K, V, W>(a: map<K, V>, b: map<K, W>)
    requires a.Keys == b.Keys
    ensures |a| == |b|
  {
    assert |a| == |a.Keys| && |b| == |b.Keys|;
  }

  // ---------------------------------------------------------------- ordering

  /** A stable sort by time. */
  function SortByTime<K>(s: seq<Entry<K>>): seq<Entry<K>> {
    if s == [] then [] else InsertByTime(SortByTime(s[..|s| - 1]), s[|s| - 1])
  }

  function InsertByTime<K>(s: seq<Entry<K>>, e: Entry<K>): seq<Entry<K>> {
    if s != [] && s[|s| - 1].time > e.time then InsertByTime(s[..|s| - 1], e) + [s[|s| - 1]] else s + [e]
  }

  ghost predicate SortedByTime<K>(s: seq<Entry<K>>) {
    forall i, j | 0 <= i < j < |s| :: s[i].time <= s[j].time
  }

  lemma {:induction false} InsertBound<K>(s: seq<Entry<K>>, e: Entry<K>, bound: int)
    requires e.time <= bound && forall i | 0 <= i < |s| :: s[i].time <= bound
    ensures forall i | 0 <= i < |InsertByTime(s, e)| :: InsertByTime(s, e)[i].time <= bound
  {
    if s == [] {
    } else if s[|s| - 1].time > e.time {
      InsertBound(s[..|s| - 1], e, bound);
    }
  }

  lemma {:induction false} InsertByTimeSpec<K>(s: seq<Entry<K>>, e: Entry<K>)
    requires SortedByTime(s)
    ensures var r := InsertByTime(s, e);
      && SortedByTime(r) && |r| == |s| + 1
      && (forall x :: x in r <==> x == e || x in s)
  {
    if s == [] {
    } else if s[|s| - 1].time > e.time {
      var front := s[..|s| - 1];
      InsertByTimeSpec(front, e);
      InsertBound(front, e, s[|s| - 1].time);
      assert s == front + [s[|s| - 1]];
    }
  }

  lemma {:induction false} SortSpec<K>(s: seq<Entry<K>>)
    ensures var r := SortByTime(s);
      && SortedByTime(r) && |r| == |s|
      && (forall x :: x in r <==> x in s)
  {
    if s == [] {
    } else {
      SortSpec(s[..|s| - 1]);
      InsertByTimeSpec(SortByTime(s[..|s| - 1]), s[|s| - 1]);
      assert s == s[..|s| - 1] + [s[|s| - 1]];
    }
  }

  lemma SortLists<K>(s: seq<Entry<K>>, times: map<K, int>, n: nat)
    requires Lists(s, times)
    ensures Lists(SortByTime(s), times) && OldestFirst(SortByTime(s), n)
  {
    SortSpec(s);
    assert KeysOf(SortByTime(s)) == KeysOf(s);
  }

  // ---------------------------------------------------------------- collecting and removing

  lemma AppendKey<K>(entries: seq<Entry<K>>, e: Entry<K>)
    ensures KeysOf(entries + [e]) == KeysOf(entries) + {e.key}
  {
    assert e in entries + [e];
    forall x | x in entries ensures x in entries + [e] {}
  }

  /** `entries` lists what of `times` is no longer pending. */
  ghost predicate Listed<K>(entries: seq<Entry<K>>, times: map<K, int>, pending: map<K, int>) {
    && pending.Keys <= times.Keys && (forall k | k in pending :: pending[k] == times[k])
    && KeysOf(entries) == times.Keys - pending.Keys && |entries| + |pending| == |times|
    && forall e | e in entries :: e.key in times && times[e.key] == e.time
  }

  lemma ListOne<K>(entries: seq<Entry<K>>, times: map<K, int>, pending: map<K, int>, k: K)
    requires Listed(entries, times, pending) && k in pending
    ensures Listed(entries + [Entry(k, pending[k])], times, pending - {k})
  {
    SmallerMap(pending, k);
    AppendKey(entries, Entry(k, pending[k]));
    assert times.Keys - (pending - {k}).Keys == times.Keys - pending.Keys + {k};
  }

  /** Lists a map in some order. */
  method Collect<K(==)>(times: map<K, int>) returns (entries: seq<Entry<K>>)
    ensures Lists(entries, times)
  {
    hide KeysOf;
    entries := [];
    assert KeysOf(entries) == {} by { NoKeys<K>(); }
    var pending := times;
    while |pending| > 0
      invariant Listed(entries, times, pending)
      decreases |pending|
    {
      var k :| k in pending;
      SmallerMap(pending, k);
      ListOne(entries, times, pending, k);
      entries := entries + [Entry(k, pending[k])];
      pending := pending - {k};
    }
    assert pending == map[];
  }

  lemma NoKeys<K>()
    ensures KeysOf<K>([]) == {}
  {
  }

  lemma {:induction false} FewKeys<K>(entries: seq<Entry<K>>)
    ensures |KeysOf(entries)| <= |entries|
  {
    if entries == [] {
      assert KeysOf(entries) == {};
    } else {
      var last := entries[|entries| - 1];
      FewKeys(entries[..|entries| - 1]);
      assert entries == entries[..|entries| - 1] + [last];
      assert KeysOf(entries) == KeysOf(entries[..|entries| - 1]) + {last.key};
    }
  }

  lemma KeysSplit<K>(entries: seq<Entry<K>>, n: nat)
    requires n <= |entries|
    ensures KeysOf(entries) == KeysOf(entries[..n]) + KeysOf(entries[n..])
  {
    assert entries == entries[..n] + entries[n..];
  }

  /** When no key repeats, the first `n` entries have `n` keys. */
  lemma DistinctPrefix<K>(entries: seq<Entry<K>>, n: nat)
    requires |KeysOf(entries)| == |entries| && n <= |entries|
    ensures |KeysOf(entries[..n])| == n
  {
    var a, b := KeysOf(entries[..n]), KeysOf(entries[n..]);
    KeysSplit(entries, n);
    FewKeys(entries[..n]);
    FewKeys(entries[n..]);
    assert |a + b| <= |a| + |b| by {
      assert a + b == a + (b - a);
      assert b == (b - a) + (b * a);
    }
  }

  /** Removes the first `n` listed keys. */
  method RemoveFirst<K(==), V>(all: map<K, V>, order: seq<Entry<K>>, n: nat) returns (kept: map<K, V>)
    requires n <= |order|
    ensures kept == all - KeysOf(order[..n])
  {
    kept := all;
    for i := 0 to n
      invariant kept == all - KeysOf(order[..i])
    {
      kept := kept - {order[i].key};
      assert order[..i + 1] == order[..i] + [order[i]];
      assert KeysOf(order[..i + 1]) == KeysOf(order[..i]) + {order[i].key};
    }
  }

  lemma RemovedAreOldest<K>(times: map<K, int>, order: seq<Entry<K>>, n: nat, k: K, k': K)
    requires Lists(order, times) && OldestFirst(order, n) && n <= |order|
    requires k in KeysOf(order[..n]) && k' in times && k' !in KeysOf(order[..n])
    ensures k in times && times[k] <= times[k']
  {
    KeysSplit(order, n);
    var e :| e in order[..n] && e.key == k;
    var e' :| e' in order[n..] && e'.key == k';
    var i :| 0 <= i < n && order[i] == e;
    var j :| n <= j < |order| && order[j] == e';
    assert order[i] in order && order[j] in order;
  }

  lemma RemovedCount<K, V>(all: map<K, V>, order: seq<Entry<K>>, n: nat)
    requires KeysOf(order) == all.Keys && |order| == |all| && n <= |order|
    ensures |all - KeysOf(order[..n])| == |all| - n
  {
    var gone := KeysOf(order[..n]);
    var kept := all - gone;
    DistinctPrefix(order, n);
    KeysSplit(order, n);
    assert kept.Keys == all.Keys - gone;
    assert |kept| == |kept.Keys| && |all| == |all.Keys|;
    assert all.Keys == (all.Keys - gone) + gone;
  }

  lemma RemovingOldest<K(!new), V(!new)>(all: map<K, V>, times: map<K, int>, order: seq<Entry<K>>, n: nat)
    requires times.Keys == all.Keys && Lists(order, times) && OldestFirst(order, n) && n <= |order|
    ensures EvictsOldest(all, times, all - KeysOf(order[..n]), n)
  {
    var kept := all - KeysOf(order[..n]);
    assert |times| == |times.Keys| && |all| == |all.Keys|;
    RemovedCount(all, order, n);
    forall k, k' | k in all && k !in kept && k' in kept ensures times[k] <= times[k'] {
      RemovedAreOldest(times, order, n, k, k');
    }
  }
}
