/** The archive of closed connections: its string keys, and what becomes of an entry over any
    sequence of cleanup passes. */
module Archive {
  import opened Connections
  import opened ConnectionTable
  import opened Eviction

  const MAX_HISTORIC_CONNECTIONS: nat := 5_000

  datatype Historic = Historic(connection: Connection, closedAt: int)

  /** What one pass takes out of the live table, and when. */
  datatype Pass = Pass(gone: map<Key, Connection>, now: int)

  // ---------------------------------------------------------------- keys

  /** Nanoseconds since the epoch, which is the clock's zero; an earlier time counts as zero. */
  function Nanos(createdAt: int): nat {
    if createdAt < 0 then 0 else createdAt
  }

  function Digit(n: nat): char
    requires n < 10
  {
    "0123456789"[n]
  }

  function Digits(n: nat): string {
    if n < 10 then [Digit(n)] else Digits(n / 10) + [Digit(n % 10)]
  }

  /** The table key, a colon, and the time of creation in digits. */
  function ArchiveKey(key: Key, createdAt: int): string {
    key + ":" + Digits(Nanos(createdAt))
  }

  lemma {:induction false} NoColon(n: nat)
    ensures ':' !in Digits(n)
  {
    if n < 10 {
    } else {
      NoColon(n / 10);
    }
  }

  /** The number a string of digits is read as. */
  function ReadDigits(s: string): int {
    if s == [] then 0 else 10 * ReadDigits(s[..|s| - 1]) + (s[|s| - 1] as int - '0' as int)
  }

  lemma {:induction false} DigitsReadBack(n: nat)
    ensures ReadDigits(Digits(n)) == n
  {
    if n < 10 {
      assert [Digit(n)][..0] == [];
    } else {
      DigitsReadBack(n / 10);
      assert Digits(n)[..|Digits(n)| - 1] == Digits(n / 10);
    }
  }

  lemma DigitsTellApart(m: nat, n: nat)
    requires Digits(m) == Digits(n)
    ensures m == n
  {
    DigitsReadBack(m);
    DigitsReadBack(n);
  }

  lemma NoLaterColon(s: string, a: string, x: string, i: nat)
    requires s == a + ":" + x && ':' !in x && i < |s| && s[i] == ':'
    ensures i <= |a|
  {
    assert forall j | 0 <= j < |x| :: s[|a| + 1 + j] == x[j] && x[j] in x;
    assert forall j | |a| < j < |s| :: s[j] == x[j - |a| - 1];
  }

  lemma LastColon(a: string, x: string, b: string, y: string)
    requires a + ":" + x == b + ":" + y && ':' !in x && ':' !in y
    ensures a == b && x == y
  {
    var s := a + ":" + x;
    NoLaterColon(s, a, x, |b|);
    NoLaterColon(s, b, y, |a|);
    assert s[..|a|] == a && s[..|b|] == b && s[|a| + 1..] == x && s[|b| + 1..] == y;
  }

  /** Two connections share an archive key exactly when they share the table key and the time of
      creation, though a table key has colons of its own. */
  lemma KeyTellsApart(k: Key, t: int, k': Key, t': int)
    ensures ArchiveKey(k, t) == ArchiveKey(k', t') <==> k == k' && Nanos(t) == Nanos(t')
  {
    if ArchiveKey(k, t) == ArchiveKey(k', t') {
      NoColon(Nanos(t));
      NoColon(Nanos(t'));
      LastColon(k, Digits(Nanos(t)), k', Digits(Nanos(t')));
      DigitsTellApart(Nanos(t), Nanos(t'));
    }
  }

  // ---------------------------------------------------------------- one pass

  lemma KeysDiffer(gone: map<Key, Connection>)
    ensures forall j, k | j in gone && k in gone && j != k ::
              ArchiveKey(j, gone[j].createdAt) != ArchiveKey(k, gone[k].createdAt)
  {
    forall j, k | j in gone && k in gone && j != k
      ensures ArchiveKey(j, gone[j].createdAt) != ArchiveKey(k, gone[k].createdAt)
    {
      KeyTellsApart(j, gone[j].createdAt, k, gone[k].createdAt);
    }
  }

  /** The entries a pass at `now` archives. */
  function ArchiveOf(gone: map<Key, Connection>, now: int): map<string, Historic> {
    KeysDiffer(gone);
    map k | k in gone :: ArchiveKey(k, gone[k].createdAt) := Historic(gone[k], now)
  }

  /** Everything that goes is found under its own key. */
  lemma ArchiveAt(gone: map<Key, Connection>, now: int, k: Key)
    requires k in gone
    ensures var a := ArchiveKey(k, gone[k].createdAt);
      a in ArchiveOf(gone, now) && ArchiveOf(gone, now)[a] == Historic(gone[k], now)
  {
    hide ArchiveKey;
    KeysDiffer(gone);
  }

  function ClosedTimes(h: map<string, Historic>): map<string, int> {
    map k | k in h :: h[k].closedAt
  }

  /** `kept` is `all`, or `all` less its oldest-closed entries, down to the limit. */
  ghost predicate Enforced(all: map<string, Historic>, kept: map<string, Historic>) {
    EvictsOldest(all, ClosedTimes(all), kept,
                 if |all| > MAX_HISTORIC_CONNECTIONS then |all| - MAX_HISTORIC_CONNECTIONS else 0)
  }

  lemma ArchiveOne(done: map<Key, Connection>, k: Key, c: Connection, now: int)
    requires k !in done
    ensures ArchiveOf(done[k := c], now) == ArchiveOf(done, now)[ArchiveKey(k, c.createdAt) := Historic(c, now)]
  {
    hide ArchiveKey;
    KeysDiffer(done[k := c]);
    var after, before := ArchiveOf(done[k := c], now), ArchiveOf(done, now);
    assert done[k := c][k] == c && forall j | j in done :: done[k := c][j] == done[j];
    assert forall a :: a in after <==> a == ArchiveKey(k, c.createdAt) || a in before;
  }

  // ---------------------------------------------------------------- sequences of passes

  /** The archives before, between and after the passes. */
  ghost predicate ArchiveRun(hs: seq<map<string, Historic>>, passes: seq<Pass>) {
    && |hs| == |passes| + 1 && hs[0] == map[]
    && forall i | 0 <= i < |passes| :: PassStep(hs[i], passes[i], hs[i + 1])
  }

  ghost predicate PassStep(before: map<string, Historic>, p: Pass, after: map<string, Historic>) {
    Enforced(before + ArchiveOf(p.gone, p.now), after)
  }

  predicate Archives(p: Pass, a: string, e: Historic) {
    a in ArchiveOf(p.gone, p.now) && ArchiveOf(p.gone, p.now)[a] == e
  }

  predicate Has(h: map<string, Historic>, a: string, e: Historic) {
    a in h && h[a] == e
  }

  /** A pass puts another entry where there is one. */
  ghost predicate Overwrites(h: map<string, Historic>, p: Pass) {
    exists a, e :: a in h && Archives(p, a, e) && h[a] != e
  }

  /** Pass `p` dropped entry `e` as one of the oldest-closed, the archive being full. */
  ghost predicate Evicts(before: map<string, Historic>, p: Pass, after: map<string, Historic>, a: string, e: Historic) {
    && Has(before + ArchiveOf(p.gone, p.now), a, e) && a !in after
    && |after| == MAX_HISTORIC_CONNECTIONS < |before + ArchiveOf(p.gone, p.now)|
    && forall b | b in after :: e.closedAt <= after[b].closedAt
  }

  /** An entry of pass `i` is, before pass `j`, still there or was dropped as oldest-closed. */
  ghost predicate Safe(hs: seq<map<string, Historic>>, passes: seq<Pass>, i: nat, j: nat, a: string, e: Historic)
    requires ArchiveRun(hs, passes) && i < j <= |passes|
  {
    Has(hs[j], a, e) || exists m | i <= m < j :: Evicts(hs[m], passes[m], hs[m + 1], a, e)
  }

  lemma StepKeepsOrEvicts(before: map<string, Historic>, p: Pass, after: map<string, Historic>, a: string, e: Historic)
    requires PassStep(before, p, after) && Has(before + ArchiveOf(p.gone, p.now), a, e)
    ensures Has(after, a, e) || Evicts(before, p, after, a, e)
  {
    hide ArchiveOf;
    var all := before + ArchiveOf(p.gone, p.now);
    if a !in after {
      assert |all| > MAX_HISTORIC_CONNECTIONS by {
        if |all| <= MAX_HISTORIC_CONNECTIONS {
          SameWhenNoneGo(all, after);
        }
      }
      assert forall b | b in after :: ClosedTimes(all)[a] <= ClosedTimes(all)[b];
    }
  }

  lemma SameWhenNoneGo<K, V>(all: map<K, V>, kept: map<K, V>)
    requires |kept| == |all| && forall k | k in kept :: k in all
    ensures kept.Keys == all.Keys
  {
    assert |kept.Keys| == |kept| && |all.Keys| == |all|;
    assert all.Keys == kept.Keys + (all.Keys - kept.Keys);
  }

  lemma StepAddsNothingElse(before: map<string, Historic>, p: Pass, after: map<string, Historic>, a: string)
    requires PassStep(before, p, after) && a in after
    ensures Archives(p, a, after[a]) || Has(before, a, after[a])
  {
    hide ArchiveOf;
  }

  /** Without an overwrite, every entry ever archived is still there or was dropped as oldest. */
  lemma {:induction false} EntryIsSafe(hs: seq<map<string, Historic>>, passes: seq<Pass>, i: nat, j: nat, a: string,
                                       e: Historic)
    requires ArchiveRun(hs, passes) && i < j <= |passes| && Archives(passes[i], a, e)
    requires forall m | 0 <= m < |passes| :: !Overwrites(hs[m], passes[m])
    ensures Safe(hs, passes, i, j, a, e)
    decreases j
  {
    hide PassStep, Overwrites, Evicts, ArchiveOf;
    if i + 1 == j {
      assert PassStep(hs[i], passes[i], hs[j]);
      StepKeepsOrEvicts(hs[i], passes[i], hs[j], a, e);
    } else {
      EntryIsSafe(hs, passes, i, j - 1, a, e);
      if Has(hs[j - 1], a, e) {
        assert PassStep(hs[j - 1], passes[j - 1], hs[j]) && !Overwrites(hs[j - 1], passes[j - 1]);
        NotOverwritten(hs[j - 1], passes[j - 1], a, e);
        StepKeepsOrEvicts(hs[j - 1], passes[j - 1], hs[j], a, e);
      }
    }
  }

  lemma NotOverwritten(h: map<string, Historic>, p: Pass, a: string, e: Historic)
    requires Has(h, a, e) && !Overwrites(h, p)
    ensures Has(h + ArchiveOf(p.gone, p.now), a, e)
  {
    hide ArchiveOf;
    if a in ArchiveOf(p.gone, p.now) {
      assert Archives(p, a, ArchiveOf(p.gone, p.now)[a]);
    }
  }

  /** Every entry comes from some pass and has been there ever since. */
  lemma {:induction false} Provenance(hs: seq<map<string, Historic>>, passes: seq<Pass>, m: nat, a: string)
    returns (i: nat)
    requires ArchiveRun(hs, passes) && m <= |passes| && a in hs[m]
    ensures i < m && Archives(passes[i], a, hs[m][a])
    ensures forall l | i < l <= m :: Has(hs[l], a, hs[m][a])
    decreases m
  {
    hide PassStep, ArchiveOf, Archives;
    assert m > 0 && PassStep(hs[m - 1], passes[m - 1], hs[m]);
    StepAddsNothingElse(hs[m - 1], passes[m - 1], hs[m], a);
    if Archives(passes[m - 1], a, hs[m][a]) {
      i := m - 1;
    } else {
      i := Provenance(hs, passes, m - 1, a);
    }
  }

  /** An overwritten entry is neither there nor ever dropped as oldest. */
  lemma OverwriteLoses(hs: seq<map<string, Historic>>, passes: seq<Pass>, m: nat)
    returns (i: nat, a: string, e: Historic)
    requires ArchiveRun(hs, passes) && m < |passes| && Overwrites(hs[m], passes[m])
    ensures i < m + 1 && Archives(passes[i], a, e) && !Safe(hs, passes, i, m + 1, a, e)
  {
    hide ArchiveOf;
    var x;
    a, x :| a in hs[m] && Archives(passes[m], a, x) && hs[m][a] != x;
    e := hs[m][a];
    i := Provenance(hs, passes, m, a);
    assert PassStep(hs[m], passes[m], hs[m + 1]);
    forall l | i <= l < m + 1 ensures !Evicts(hs[l], passes[l], hs[l + 1], a, e) {
      if l < m {
        assert Has(hs[l + 1], a, e);
      }
    }
  }

  ghost predicate NothingIsLost(hs: seq<map<string, Historic>>, passes: seq<Pass>)
    requires ArchiveRun(hs, passes)
  {
    forall i: nat, j: nat, a, e | i < j <= |passes| && Archives(passes[i], a, e) :: Safe(hs, passes, i, j, a, e)
  }

  /** Over every sequence of passes: all that was ever archived stays until it is dropped as one of
      the oldest-closed, if and only if no pass puts another entry where there is one. */
  lemma NothingIsLostIff(hs: seq<map<string, Historic>>, passes: seq<Pass>)
    requires ArchiveRun(hs, passes)
    ensures NothingIsLost(hs, passes) <==> forall m | 0 <= m < |passes| :: !Overwrites(hs[m], passes[m])
  {
    hide ArchiveRun, Overwrites, Archives, Safe;
    RunLength(hs, passes);
    if forall m | 0 <= m < |passes| :: !Overwrites(hs[m], passes[m]) {
      forall i: nat, j: nat, a, e | i < j <= |passes| && Archives(passes[i], a, e)
        ensures Safe(hs, passes, i, j, a, e)
      {
        EntryIsSafe(hs, passes, i, j, a, e);
      }
    } else {
      var m: nat :| m < |passes| && Overwrites(hs[m], passes[m]);
      var i, a, e := OverwriteLoses(hs, passes, m);
      assert !Safe(hs, passes, i, m + 1, a, e);
    }
  }

  lemma RunLength(hs: seq<map<string, Historic>>, passes: seq<Pass>)
    requires ArchiveRun(hs, passes)
    ensures |hs| == |passes| + 1
  {
  }

  /** `k` was closed in both passes, with one and the same time of creation. */
  predicate Reuses(p: Pass, q: Pass, k: Key) {
    k in p.gone && k in q.gone && Nanos(p.gone[k].createdAt) == Nanos(q.gone[k].createdAt)
  }

  lemma ArchivesWhat(p: Pass, a: string, e: Historic) returns (k: Key)
    requires Archives(p, a, e)
    ensures k in p.gone && a == ArchiveKey(k, p.gone[k].createdAt) && e == Historic(p.gone[k], p.now)
  {
    k :| k in p.gone && a == ArchiveKey(k, p.gone[k].createdAt);
    ArchiveAt(p.gone, p.now, k);
  }

  /** And that takes a table key closed twice with one and the same time of creation: connections
      of one 4-tuple created at different times never displace each other. */
  lemma OverwriteIsReuse(hs: seq<map<string, Historic>>, passes: seq<Pass>, m: nat)
    requires ArchiveRun(hs, passes) && m < |passes|
    ensures Overwrites(hs[m], passes[m])
       <==> exists i, k | 0 <= i < m && Reuses(passes[i], passes[m], k) ::
              && Historic(passes[i].gone[k], passes[i].now) != Historic(passes[m].gone[k], passes[m].now)
              && Has(hs[m], ArchiveKey(k, passes[i].gone[k].createdAt), Historic(passes[i].gone[k], passes[i].now))
  {
    hide ArchiveRun, ArchiveKey;
    RunLength(hs, passes);
    if Overwrites(hs[m], passes[m]) {
      var a, x :| a in hs[m] && Archives(passes[m], a, x) && hs[m][a] != x;
      var i := Provenance(hs, passes, m, a);
      var k := ArchivesWhat(passes[i], a, hs[m][a]);
      var l := ArchivesWhat(passes[m], a, x);
      KeyTellsApart(k, passes[i].gone[k].createdAt, l, passes[m].gone[l].createdAt);
      assert Reuses(passes[i], passes[m], k);
    }
    if i, k :| 0 <= i < m && Reuses(passes[i], passes[m], k)
               && Historic(passes[i].gone[k], passes[i].now) != Historic(passes[m].gone[k], passes[m].now)
               && Has(hs[m], ArchiveKey(k, passes[i].gone[k].createdAt), Historic(passes[i].gone[k], passes[i].now))
    {
      KeyTellsApart(k, passes[i].gone[k].createdAt, k, passes[m].gone[k].createdAt);
      ArchiveAt(passes[m].gone, passes[m].now, k);
      var c := passes[m].gone[k];
      assert Archives(passes[m], ArchiveKey(k, c.createdAt), Historic(c, passes[m].now));
    }
  }

  /** The promise of the archive's keys: when no table key is closed twice with one time of
      creation, nothing is lost. */
  lemma DistinctTimesLoseNothing(hs: seq<map<string, Historic>>, passes: seq<Pass>)
    requires ArchiveRun(hs, passes)
    requires forall i, j, k | 0 <= i < j < |passes| :: !Reuses(passes[i], passes[j], k)
    ensures NothingIsLost(hs, passes)
  {
    hide ArchiveRun, NothingIsLost, Overwrites, Has;
    RunLength(hs, passes);
    forall m | 0 <= m < |passes| ensures !Overwrites(hs[m], passes[m]) {
      OverwriteIsReuse(hs, passes, m);
    }
    NothingIsLostIff(hs, passes);
  }

  /** The archive has room for all the pass brings. */
  predicate HasRoom(h: map<string, Historic>, p: Pass) {
    |h + ArchiveOf(p.gone, p.now)| <= MAX_HISTORIC_CONNECTIONS
  }

  lemma NoEvictionWithRoom(hs: seq<map<string, Historic>>, passes: seq<Pass>, i: nat, j: nat, a: string, e: Historic)
    requires ArchiveRun(hs, passes) && i < j <= |passes| && Safe(hs, passes, i, j, a, e)
    requires forall m | 0 <= m < |passes| :: HasRoom(hs[m], passes[m])
    ensures Has(hs[j], a, e)
  {
    hide ArchiveRun, ArchiveOf;
    RunLength(hs, passes);
  }

  /** While the archive has room, and no two passes are at one time, distinct creation times are
      also necessary. */
  lemma RoomyArchiveLosesNothingIff(hs: seq<map<string, Historic>>, passes: seq<Pass>)
    requires ArchiveRun(hs, passes)
    requires forall m | 0 <= m < |passes| :: HasRoom(hs[m], passes[m])
    requires forall i, j | 0 <= i < j < |passes| :: passes[i].now != passes[j].now
    ensures NothingIsLost(hs, passes) <==> forall i, j, k | 0 <= i < j < |passes| :: !Reuses(passes[i], passes[j], k)
  {
    hide ArchiveRun, Overwrites, Has, Safe, ArchiveOf, ArchiveKey;
    RunLength(hs, passes);
    if forall i, j, k | 0 <= i < j < |passes| :: !Reuses(passes[i], passes[j], k) {
      DistinctTimesLoseNothing(hs, passes);
    } else {
      var i: nat, j: nat, k :| i < j < |passes| && Reuses(passes[i], passes[j], k);
      var a, e := ArchiveKey(k, passes[i].gone[k].createdAt), Historic(passes[i].gone[k], passes[i].now);
      ArchiveAt(passes[i].gone, passes[i].now, k);
      assert Archives(passes[i], a, e);
      if NothingIsLost(hs, passes) {
        assert Safe(hs, passes, i, j, a, e);
        NoEvictionWithRoom(hs, passes, i, j, a, e);
        OverwriteIsReuse(hs, passes, j);
        NothingIsLostIff(hs, passes);
      }
    }
  }

  /** A pass at `now`, later than every earlier close, evicts nothing it has just archived while
      an older entry remains. */
  lemma NewestStay(before: map<string, Historic>, p: Pass, after: map<string, Historic>, older: string, newer: string)
    requires PassStep(before, p, after)
    requires forall h | h in before :: before[h].closedAt < p.now
    requires newer in ArchiveOf(p.gone, p.now) && newer !in after
    requires older in before && older !in ArchiveOf(p.gone, p.now)
    ensures older !in after
  {
    var all := before + ArchiveOf(p.gone, p.now);
    assert ClosedTimes(all)[newer] == p.now && ClosedTimes(all)[older] < p.now;
  }
}
