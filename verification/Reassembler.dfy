/** QUIC CRYPTO-frame reassembly (RFC 9000, sections 2.2 and 19.6).

    The `BTreeMap<u64, Vec<u8>>` of the source is a sequence of fragments in ascending
    offset order. `Buffer` is the value of a reassembler; the class below updates one in
    place and its methods are proved against the functions on `Buffer`. */
module Reassembler {
  import opened Bytes
  import opened TlsTypes

  datatype Fragment = Fragment(offset: nat, data: Octets) {
    function End(): nat {
      offset + |data|
    }
  }

  datatype Buffer = Buffer(fragments: seq<Fragment>, contiguous: nat, size: nat, limit: nat,
                           cached: Option<TlsInfo>)

  const MAX_BUFFER_SIZE := 64 * 1024

  function Empty(limit: nat): Buffer {
    Buffer([], 0, 0, limit, None)
  }

  // ---------------------------------------------------------------- specification functions

  predicate Clashes(f: Fragment, offset: nat, end: nat) {
    || (offset == f.offset && end == f.End())
    || (offset < f.End() && end > f.offset)
  }

  predicate AnyClash(fs: seq<Fragment>, offset: nat, end: nat) {
    exists f :: f in fs && Clashes(f, offset, end)
  }

  /** `BTreeMap::insert`: keeps ascending order, replaces the value of an equal key. */
  function Insert(fs: seq<Fragment>, f: Fragment): seq<Fragment> {
    if fs == [] || f.offset < fs[0].offset then [f] + fs
    else if f.offset == fs[0].offset then [f] + fs[1..]
    else [fs[0]] + Insert(fs[1..], f)
  }

  /** The value the offset reaches when `fs` is walked in order from `c`. */
  function Advance(fs: seq<Fragment>, c: nat): nat {
    if fs == [] || fs[0].offset > c then c
    else Advance(fs[1..], if fs[0].End() > c then fs[0].End() else c)
  }

  datatype Outcome = Outcome(buffer: Buffer, accepted: bool)

  /** `add_fragment`: `accepted` is false for the error result. */
  function Add(b: Buffer, offset: nat, data: Octets): Outcome {
    if b.size + |data| > b.limit then Outcome(b, false)
    else if AnyClash(b.fragments, offset, offset + |data|) then Outcome(b, true)
    else
      var fs := Insert(b.fragments, Fragment(offset, data));
      Outcome(b.(fragments := fs, size := b.size + |data|, contiguous := Advance(fs, b.contiguous)), true)
  }

  function Extend(acc: Octets, f: Fragment): Octets {
    if f.offset <= |acc| < f.End() then acc + f.data[|acc| - f.offset..] else acc
  }

  function Gather(fs: seq<Fragment>, acc: Octets, goal: nat): Octets {
    if fs == [] then acc
    else
      var acc' := Extend(acc, fs[0]);
      if |acc'| >= goal then acc' else Gather(fs[1..], acc', goal)
  }

  /** `get_contiguous_data`. */
  function Contiguous(b: Buffer): Option<Octets> {
    if b.contiguous == 0 then None
    else
      var r := Gather(b.fragments, [], b.contiguous);
      if r == [] then None else Some(r)
  }

  function Deliver(b: Buffer, ds: seq<Fragment>): Buffer {
    if ds == [] then b
    else
      var last := ds[|ds| - 1];
      Add(Deliver(b, ds[..|ds| - 1]), last.offset, last.data).buffer
  }

  // ---------------------------------------------------------------- meaning

  ghost predicate HoldsAt(fs: seq<Fragment>, p: nat, b: Byte) {
    exists f :: f in fs && f.offset <= p < f.End() && f.data[p - f.offset] == b
  }

  ghost predicate Covers(fs: seq<Fragment>, p: nat) {
    exists f :: f in fs && f.offset <= p < f.End()
  }

  ghost predicate Ordered(fs: seq<Fragment>) {
    forall i, j | 0 <= i < j < |fs| :: fs[i].offset < fs[j].offset && fs[i].End() <= fs[j].offset
  }

  function Total(fs: seq<Fragment>): nat {
    if fs == [] then 0 else |fs[0].data| + Total(fs[1..])
  }

  ghost predicate LeastUncovered(fs: seq<Fragment>, c: nat) {
    !Covers(fs, c) && forall p: nat | p < c :: Covers(fs, p)
  }

  /** The representation invariant. */
  ghost predicate Inv(b: Buffer) {
    && Ordered(b.fragments)
    && b.size == Total(b.fragments) <= b.limit
    && LeastUncovered(b.fragments, b.contiguous)
  }

  ghost predicate NoEmpty(fs: seq<Fragment>) {
    forall f :: f in fs ==> f.data != []
  }

  // ---------------------------------------------------------------- insertion

  lemma {:induction false} InsertMembers(fs: seq<Fragment>, g: Fragment)
    requires Ordered(fs)
    ensures forall f :: f in Insert(fs, g) <==> f == g || (f in fs && f.offset != g.offset)
  {
    if fs == [] || g.offset < fs[0].offset {
    } else if g.offset == fs[0].offset {
      assert fs == [fs[0]] + fs[1..];
    } else {
      assert fs == [fs[0]] + fs[1..];
      InsertMembers(fs[1..], g);
    }
  }

  /** `f` ends before every fragment of `fs` starts. */
  ghost predicate Before(f: Fragment, fs: seq<Fragment>) {
    forall g :: g in fs ==> f.offset < g.offset && f.End() <= g.offset
  }

  lemma OrderedTail(fs: seq<Fragment>)
    requires fs != [] && Ordered(fs)
    ensures Ordered(fs[1..]) && Before(fs[0], fs[1..])
  {
  }

  lemma OrderedCons(f: Fragment, fs: seq<Fragment>)
    requires Ordered(fs) && Before(f, fs)
    ensures Ordered([f] + fs)
  {
    forall i, j | 0 <= i < j < |[f] + fs|
      ensures ([f] + fs)[i].offset < ([f] + fs)[j].offset && ([f] + fs)[i].End() <= ([f] + fs)[j].offset
    {
      assert ([f] + fs)[j] == fs[j - 1] && fs[j - 1] in fs;
    }
  }

  lemma {:induction false} InsertOrdered(fs: seq<Fragment>, g: Fragment)
    requires Ordered(fs) && !AnyClash(fs, g.offset, g.End())
    ensures Ordered(Insert(fs, g))
  {
    hide Ordered;
    if fs == [] {
      OrderedCons(g, fs);
    } else {
      OrderedTail(fs);
      assert !Clashes(fs[0], g.offset, g.End());
      assert forall f :: f in fs[1..] ==> f in fs && !Clashes(f, g.offset, g.End());
      if g.offset < fs[0].offset {
        assert fs == [fs[0]] + fs[1..];
        OrderedCons(g, fs);
      } else if g.offset == fs[0].offset {
        OrderedCons(g, fs[1..]);
      } else {
        InsertOrdered(fs[1..], g);
        InsertMembers(fs[1..], g);
        OrderedCons(fs[0], Insert(fs[1..], g));
      }
    }
  }

  /** Inserting at a fresh offset adds the length. */
  lemma {:induction false} FreshTotal(fs: seq<Fragment>, g: Fragment)
    requires forall f :: f in fs ==> f.offset != g.offset
    ensures Total(Insert(fs, g)) == Total(fs) + |g.data|
  {
    if fs == [] || g.offset < fs[0].offset {
      assert ([g] + fs)[1..] == fs;
    } else {
      assert fs[0] in fs && forall f :: f in fs[1..] ==> f in fs;
      FreshTotal(fs[1..], g);
      assert ([fs[0]] + Insert(fs[1..], g))[1..] == Insert(fs[1..], g);
    }
  }

  /** Replacing swaps one length for another. */
  lemma {:induction false} ReplaceTotal(fs: seq<Fragment>, g: Fragment, f: Fragment)
    requires Ordered(fs) && f in fs && f.offset == g.offset
    ensures Total(Insert(fs, g)) == Total(fs) - |f.data| + |g.data|
  {
    hide Ordered;
    OrderedTail(fs);
    assert f == fs[0] || f in fs[1..];
    if f == fs[0] {
      assert ([g] + fs[1..])[1..] == fs[1..];
    } else {
      ReplaceTotal(fs[1..], g, f);
      assert ([fs[0]] + Insert(fs[1..], g))[1..] == Insert(fs[1..], g);
    }
  }

  /** Non-overlapping fragments inside [lo, hi) hold at most hi - lo bytes. */
  lemma {:induction false} TotalWithin(fs: seq<Fragment>, lo: nat, hi: nat)
    requires Ordered(fs) && lo <= hi
    requires forall f :: f in fs ==> lo <= f.offset && f.End() <= hi
    ensures Total(fs) <= hi - lo
  {
    if fs == [] {
    } else {
      assert fs[0] in fs;
      forall f | f in fs[1..] ensures fs[0].End() <= f.offset {
        var i :| 0 <= i < |fs[1..]| && fs[1..][i] == f;
        assert fs[i + 1] == f;
      }
      TotalWithin(fs[1..], fs[0].End(), hi);
    }
  }

  // ---------------------------------------------------------------- the contiguous offset

  lemma {:induction false} AdvanceIsLeastUncovered(all: seq<Fragment>, k: nat, c: nat)
    requires Ordered(all) && k <= |all|
    requires forall p: nat | p < c :: Covers(all, p)
    requires forall i | 0 <= i < k :: all[i].End() <= c
    ensures LeastUncovered(all, Advance(all[k..], c))
    decreases |all| - k
  {
    if k == |all| {
    } else if all[k].offset > c {
      forall f | f in all ensures !(f.offset <= c < f.End()) {
        var i :| 0 <= i < |all| && all[i] == f;
      }
    } else {
      var c' := if all[k].End() > c then all[k].End() else c;
      forall p: nat | p < c' ensures Covers(all, p) {
        if p >= c {
          assert all[k] in all;
        }
      }
      assert all[k..][1..] == all[k + 1..];
      AdvanceIsLeastUncovered(all, k + 1, c');
    }
  }

  lemma LeastUncoveredMonotone(fs: seq<Fragment>, c: nat, gs: seq<Fragment>, d: nat)
    requires LeastUncovered(fs, c) && LeastUncovered(gs, d)
    requires forall p: nat :: Covers(fs, p) ==> Covers(gs, p)
    ensures c <= d
  {
    assert !Covers(fs, d);
  }

  // ---------------------------------------------------------------- add_fragment

  /** Adding keeps the invariant in every case but one, which callers have to avoid: an empty
      fragment at the offset of a stored non-empty one passes both overlap tests and replaces the
      stored bytes. (The frame parser adds non-empty data only, and merging adds what is stored.) */
  lemma AddKeepsInvariantIff(b: Buffer, offset: nat, data: Octets)
    requires Inv(b)
    ensures Inv(Add(b, offset, data).buffer)
       <==> !(data == [] && exists f :: f in b.fragments && f.offset == offset && f.data != [])
  {
    var fs := b.fragments;
    var g := Fragment(offset, data);
    var end := offset + |data|;
    if b.size + |data| > b.limit {
    } else if AnyClash(fs, offset, end) {
    } else if exists f :: f in fs && f.offset == offset {
      var f :| f in fs && f.offset == offset;
      assert !Clashes(f, offset, end);
      ReplaceTotal(fs, g, f);
      InsertOrdered(fs, g);
      if data != [] {
        AcceptKeeps(b, g);
      }
    } else {
      AcceptKeeps(b, g);
    }
  }

  lemma EmptyFragmentReplaces()
    ensures var b := Deliver(Empty(10), [Fragment(0, [1])]);
      && Inv(b) && Contiguous(b) == Some([1])
      && !Inv(Add(b, 0, []).buffer) && Contiguous(Add(b, 0, []).buffer) == None
  {
    var f := Fragment(0, [1]);
    var b := Deliver(Empty(10), [f]);
    assert [f][..0] == [] && Deliver(Empty(10), []) == Empty(10);
    assert Insert([], f) == [f] && [f][1..] == [] && Advance([f], 0) == Advance([], 1) == 1;
    assert b == Add(Empty(10), 0, [1]).buffer == Buffer([f], 1, 1, 10, None);
    EmptyIsInv(10);
    AddMeaning(Empty(10), f);
    assert f in b.fragments;
    AddKeepsInvariantIff(b, 0, []);
    OneByteThenNone();
  }

  lemma OneByteThenNone()
    ensures Contiguous(Buffer([Fragment(0, [1])], 1, 1, 10, None)) == Some([1])
    ensures var g := Add(Buffer([Fragment(0, [1])], 1, 1, 10, None), 0, []).buffer;
      g.fragments == [Fragment(0, [])] && Contiguous(g) == None
  {
    var f, g := Fragment(0, [1]), Fragment(0, []);
    assert Extend([], f) == [1];
    assert !Clashes(f, 0, 0);
    assert Insert([f], g) == [g] && [g][1..] == [] && Advance([g], 1) == 1;
    assert Extend([], g) == [] && Gather([], [], 1) == [] && Gather([g], [], 1) == [];
  }

  /** No byte is stored at the offset of `g`. */
  ghost predicate OffsetFree(fs: seq<Fragment>, g: Fragment) {
    forall f :: f in fs && f.offset == g.offset ==> f.data == []
  }

  lemma AcceptTotal(fs: seq<Fragment>, g: Fragment)
    requires Ordered(fs) && OffsetFree(fs, g)
    ensures Total(Insert(fs, g)) == Total(fs) + |g.data|
  {
    hide Total, Insert, Ordered;
    if f :| f in fs && f.offset == g.offset {
      ReplaceTotal(fs, g, f);
    } else {
      FreshTotal(fs, g);
    }
  }

  lemma AcceptCovers(fs: seq<Fragment>, g: Fragment, p: nat)
    requires Ordered(fs) && OffsetFree(fs, g) && Covers(fs, p)
    ensures Covers(Insert(fs, g), p)
  {
    hide Insert, Ordered;
    InsertMembers(fs, g);
    var f :| f in fs && f.offset <= p < f.End();
    assert f in Insert(fs, g);
  }

  lemma AcceptKeeps(b: Buffer, g: Fragment)
    requires Inv(b) && !AnyClash(b.fragments, g.offset, g.End()) && b.size + |g.data| <= b.limit
    requires g.data != [] || forall f :: f in b.fragments ==> f.offset != g.offset
    ensures Inv(Add(b, g.offset, g.data).buffer)
  {
    hide Insert, Ordered, Total, Advance, Covers;
    var gs := Insert(b.fragments, g);
    InsertOrdered(b.fragments, g);
    forall f | f in b.fragments && f.offset == g.offset ensures f.data == [] {
      assert !Clashes(f, g.offset, g.End());
    }
    AcceptTotal(b.fragments, g);
    forall p: nat | p < b.contiguous ensures Covers(gs, p) {
      AcceptCovers(b.fragments, g, p);
    }
    assert gs[0..] == gs;
    AdvanceIsLeastUncovered(gs, 0, b.contiguous);
  }

  /** Some position of `g` is covered already. */
  ghost predicate Taken(fs: seq<Fragment>, g: Fragment) {
    exists p: nat :: g.offset <= p < g.End() && Covers(fs, p)
  }

  lemma ClashIsTaken(fs: seq<Fragment>, g: Fragment)
    requires NoEmpty(fs) && g.data != []
    ensures AnyClash(fs, g.offset, g.End()) <==> Taken(fs, g)
  {
    if AnyClash(fs, g.offset, g.End()) {
      var f :| f in fs && Clashes(f, g.offset, g.End());
      var p := if f.offset <= g.offset then g.offset else f.offset;
      assert f.offset <= p < f.End() && g.offset <= p < g.End();
      assert Covers(fs, p);
    }
    if Taken(fs, g) {
      var p: nat :| g.offset <= p < g.End() && Covers(fs, p);
      var f :| f in fs && f.offset <= p < f.End();
      assert Clashes(f, g.offset, g.End());
    }
  }

  lemma AcceptedMembers(fs: seq<Fragment>, g: Fragment)
    requires Ordered(fs) && !AnyClash(fs, g.offset, g.End()) && NoEmpty(fs) && g.data != []
    ensures forall f :: f in Insert(fs, g) <==> f == g || f in fs
  {
    hide Insert, Ordered;
    InsertMembers(fs, g);
    forall f | f in fs ensures f.offset != g.offset {
      assert !Clashes(f, g.offset, g.End());
    }
  }

  lemma MoreCovers(fs: seq<Fragment>, gs: seq<Fragment>)
    requires forall f :: f in fs ==> f in gs
    ensures forall p: nat :: Covers(fs, p) ==> Covers(gs, p)
  {
  }

  /** What adding does to the bytes held: a fragment is turned away only when it does not fit or
      when one of its positions is taken, and then nothing changes; otherwise exactly it is new. */
  lemma AddMeaning(b: Buffer, g: Fragment)
    requires Inv(b) && NoEmpty(b.fragments) && g.data != []
    ensures var o := Add(b, g.offset, g.data);
      && Inv(o.buffer) && NoEmpty(o.buffer.fragments) && o.buffer.limit == b.limit
      && (o.accepted <==> b.size + |g.data| <= b.limit)
      && (if !o.accepted || Taken(b.fragments, g) then o.buffer == b
          else forall f :: f in o.buffer.fragments <==> f == g || f in b.fragments)
      && b.contiguous <= o.buffer.contiguous
  {
    hide Insert, Ordered, Total, Advance, AnyClash, Taken, LeastUncovered;
    ClashIsTaken(b.fragments, g);
    if b.size + |g.data| <= b.limit && !Taken(b.fragments, g) {
      var o := Add(b, g.offset, g.data).buffer;
      AcceptKeeps(b, g);
      AcceptedMembers(b.fragments, g);
      MoreCovers(b.fragments, o.fragments);
      LeastUncoveredMonotone(b.fragments, b.contiguous, o.fragments, o.contiguous);
    }
  }

  // ---------------------------------------------------------------- get_contiguous_data

  ghost predicate HeldPrefix(all: seq<Fragment>, acc: Octets) {
    forall p: nat | p < |acc| :: HoldsAt(all, p, acc[p])
  }

  lemma ExtendHolds(all: seq<Fragment>, f: Fragment, acc: Octets)
    requires HeldPrefix(all, acc) && f in all
    ensures HeldPrefix(all, Extend(acc, f))
  {
    var acc' := Extend(acc, f);
    forall p: nat | p < |acc'| ensures HoldsAt(all, p, acc'[p]) {
      if p >= |acc| {
        assert f.data[p - f.offset] == acc'[p];
      } else {
        assert acc'[p] == acc[p];
      }
    }
  }

  /** Walking in order, the next fragment always starts at or before the bytes gathered. */
  lemma NextIsReached(all: seq<Fragment>, k: nat, n: nat, goal: nat)
    requires Ordered(all) && LeastUncovered(all, goal) && k <= |all| && n < goal
    requires forall i | 0 <= i < k :: all[i].End() <= n
    ensures k < |all| && all[k].offset <= n && all[k].End() <= goal
  {
    assert Covers(all, n);
    var f :| f in all && f.offset <= n < f.End();
    var j :| 0 <= j < |all| && all[j] == f;
    assert k <= j && all[k].offset <= all[j].offset;
    assert all[k] in all && !Covers(all, goal);
  }

  lemma {:induction false} GatherHolds(all: seq<Fragment>, k: nat, acc: Octets, goal: nat)
    requires Ordered(all) && LeastUncovered(all, goal) && k <= |all|
    requires |acc| < goal
    requires forall i | 0 <= i < k :: all[i].End() <= |acc|
    requires HeldPrefix(all, acc)
    ensures var r := Gather(all[k..], acc, goal); |r| == goal && HeldPrefix(all, r)
    decreases |all| - k
  {
    NextIsReached(all, k, |acc|, goal);
    var acc' := Extend(acc, all[k]);
    ExtendHolds(all, all[k], acc);
    assert all[k..][1..] == all[k + 1..];
    if |acc'| < goal {
      GatherHolds(all, k + 1, acc', goal);
    }
  }

  lemma GatherStep(fs: seq<Fragment>, i: nat, acc: Octets, goal: nat)
    requires i < |fs|
    ensures var next := Extend(acc, fs[i]);
      Gather(fs[i..], acc, goal) == if |next| >= goal then next else Gather(fs[i + 1..], next, goal)
  {
    hide Extend;
    assert fs[i..][1..] == fs[i + 1..];
  }

  lemma GatherNothing(acc: Octets, goal: nat)
    ensures Gather([], acc, goal) == acc
  {
  }

  /** `get_contiguous_data` is None exactly when position 0 is missing, and otherwise it is
      the whole run of held bytes from 0 to the first missing position. */
  lemma ContiguousMeaning(b: Buffer)
    requires Inv(b)
    ensures Contiguous(b) == None <==> b.contiguous == 0
    ensures b.contiguous == 0 <==> !Covers(b.fragments, 0)
    ensures Contiguous(b).Some? ==>
      && |Contiguous(b).value| == b.contiguous
      && !Covers(b.fragments, b.contiguous)
      && forall p: nat | p < b.contiguous :: HoldsAt(b.fragments, p, Contiguous(b).value[p])
  {
    if b.contiguous > 0 {
      assert Covers(b.fragments, 0);
      assert b.fragments[0..] == b.fragments;
      GatherHolds(b.fragments, 0, [], b.contiguous);
    }
  }

  // ---------------------------------------------------------------- any delivery from one stream

  /** `f` is a non-empty piece of the stream `t`. */
  ghost predicate CutFrom(f: Fragment, t: Octets) {
    f.data != [] && f.End() <= |t| && f.data == t[f.offset..f.End()]
  }

  lemma {:induction false} DeliveryKeeps(b: Buffer, ds: seq<Fragment>, t: Octets)
    requires Inv(b) && forall f :: f in b.fragments ==> CutFrom(f, t)
    requires forall f :: f in ds ==> CutFrom(f, t)
    ensures var r := Deliver(b, ds);
      Inv(r) && r.limit == b.limit && forall f :: f in r.fragments ==> CutFrom(f, t)
  {
    if ds == [] {
    } else {
      var front := ds[..|ds| - 1];
      var g := ds[|ds| - 1];
      assert g in ds;
      forall f | f in front ensures f in ds {}
      DeliveryKeeps(b, front, t);
      AddMeaning(Deliver(b, front), g);
    }
  }

  /** Safety over every delivery: fragments cut from one stream, in any order, repeated,
      overlapping or refused, leave a well-formed buffer whose prefix is the stream's own. */
  lemma AnyDeliveryIsSound(limit: nat, t: Octets, ds: seq<Fragment>)
    requires forall f :: f in ds ==> CutFrom(f, t)
    ensures var r := Deliver(Empty(limit), ds);
      && Inv(r) && r.size <= limit && r.contiguous <= |t|
      && Contiguous(r) == (if r.contiguous == 0 then None else Some(t[..r.contiguous]))
  {
    EmptyIsInv(limit);
    DeliveryKeeps(Empty(limit), ds, t);
    PrefixIsStream(Deliver(Empty(limit), ds), t);
  }

  lemma HeldIsStream(fs: seq<Fragment>, t: Octets, p: nat, x: Byte)
    requires (forall f :: f in fs ==> CutFrom(f, t)) && HoldsAt(fs, p, x)
    ensures p < |t| && t[p] == x
  {
    var f :| f in fs && f.offset <= p < f.End() && f.data[p - f.offset] == x;
    assert CutFrom(f, t);
  }

  lemma PrefixIsStream(r: Buffer, t: Octets)
    requires Inv(r) && forall f :: f in r.fragments ==> CutFrom(f, t)
    ensures r.contiguous <= |t|
    ensures Contiguous(r) == (if r.contiguous == 0 then None else Some(t[..r.contiguous]))
  {
    ContiguousMeaning(r);
    if r.contiguous > 0 {
      var v := Contiguous(r).value;
      HeldIsStream(r.fragments, t, r.contiguous - 1, v[r.contiguous - 1]);
      forall p: nat | p < r.contiguous ensures v[p] == t[p] {
        HeldIsStream(r.fragments, t, p, v[p]);
      }
      assert v == t[..r.contiguous];
    }
  }

  lemma EmptyIsInv(limit: nat)
    ensures Inv(Empty(limit))
  {
    assert !Covers(Empty(limit).fragments, 0);
  }

  // ---------------------------------------------------------------- order independence

  /** 0 = cuts[0] < cuts[1] < ... < cuts[last] = n. */
  ghost predicate IsCut(cuts: seq<nat>, n: nat) {
    && |cuts| > 0 && cuts[0] == 0 && cuts[|cuts| - 1] == n
    && forall i, j | 0 <= i < j < |cuts| :: cuts[i] < cuts[j]
  }

  ghost function Chunk(t: Octets, cuts: seq<nat>, i: nat): Fragment
    requires |cuts| > 0 && IsCut(cuts, cuts[|cuts| - 1]) && cuts[|cuts| - 1] <= |t|
    requires i < |cuts| - 1
  {
    assert cuts[i] < cuts[i + 1];
    assert i + 1 < |cuts| - 1 ==> cuts[i + 1] < cuts[|cuts| - 1];
    Fragment(cuts[i], t[cuts[i]..cuts[i + 1]])
  }

  ghost predicate Deliveries(ds: seq<Fragment>, t: Octets, cuts: seq<nat>, n: nat)
    requires IsCut(cuts, n) && n <= |t|
  {
    forall f :: f in ds ==> exists i: nat | i < |cuts| - 1 :: f == Chunk(t, cuts, i)
  }

  /** Chunks of one cut are equal or apart. */
  ghost predicate Compatible(fs: seq<Fragment>, gs: seq<Fragment>) {
    forall f, g | f in fs && g in gs :: f == g || f.End() <= g.offset || g.End() <= f.offset
  }

  lemma ChunkIsCut(t: Octets, cuts: seq<nat>, n: nat, i: nat)
    requires IsCut(cuts, n) && n <= |t| && i < |cuts| - 1
    ensures CutFrom(Chunk(t, cuts, i), t) && Chunk(t, cuts, i).End() <= n
  {
    assert cuts[i] < cuts[i + 1] && (i + 1 < |cuts| - 1 ==> cuts[i + 1] < cuts[|cuts| - 1]);
  }

  lemma ChunksApart(t: Octets, cuts: seq<nat>, n: nat, i: nat, j: nat)
    requires IsCut(cuts, n) && n <= |t| && i < j < |cuts| - 1
    ensures Chunk(t, cuts, i).End() <= Chunk(t, cuts, j).offset
  {
    ChunkIsCut(t, cuts, n, i);
    assert cuts[i + 1] <= cuts[j];
  }

  lemma ChunksAreCompatible(ds: seq<Fragment>, t: Octets, cuts: seq<nat>, n: nat)
    requires IsCut(cuts, n) && n <= |t| && Deliveries(ds, t, cuts, n)
    ensures Compatible(ds, ds) && NoEmpty(ds)
    ensures forall f :: f in ds ==> CutFrom(f, t) && f.End() <= n
  {
    forall f | f in ds ensures CutFrom(f, t) && f.End() <= n {
      var i: nat :| i < |cuts| - 1 && f == Chunk(t, cuts, i);
      ChunkIsCut(t, cuts, n, i);
    }
    forall f, g | f in ds && g in ds ensures f == g || f.End() <= g.offset || g.End() <= f.offset {
      var i: nat :| i < |cuts| - 1 && f == Chunk(t, cuts, i);
      var j: nat :| j < |cuts| - 1 && g == Chunk(t, cuts, j);
      if i < j {
        ChunksApart(t, cuts, n, i, j);
      } else if j < i {
        ChunksApart(t, cuts, n, j, i);
      }
    }
  }

  /** The bytes of the distinct fragments of `ds` that `fs` does not hold yet. */
  ghost function Missing(fs: seq<Fragment>, ds: seq<Fragment>): nat {
    if ds == [] then 0
    else
      var last := ds[|ds| - 1];
      var front := ds[..|ds| - 1];
      Missing(fs, front) + if last in fs || last in front then 0 else |last.data|
  }

  /** Compatible deliveries whose union fits are all kept: the result holds exactly the union. */
  lemma {:induction false} UnionIsHeld(b: Buffer, ds: seq<Fragment>)
    requires Inv(b) && NoEmpty(b.fragments) && NoEmpty(ds)
    requires Compatible(b.fragments, ds) && Compatible(ds, ds)
    requires b.size + Missing(b.fragments, ds) <= b.limit
    ensures var r := Deliver(b, ds);
      && Inv(r) && NoEmpty(r.fragments) && r.limit == b.limit
      && r.size == b.size + Missing(b.fragments, ds)
      && forall f :: f in r.fragments <==> f in b.fragments || f in ds
  {
    if ds == [] {
    } else {
      var front := ds[..|ds| - 1];
      var g := ds[|ds| - 1];
      assert ds == front + [g] && g in ds;
      forall f | f in front ensures f in ds {}
      UnionIsHeld(b, front);
      var m := Deliver(b, front);
      forall f | f in m.fragments ensures f == g || f.End() <= g.offset || g.End() <= f.offset {
        assert f in b.fragments || f in front;
      }
      UnionStep(m, g);
    }
  }

  lemma UnionStep(m: Buffer, g: Fragment)
    requires Inv(m) && NoEmpty(m.fragments) && g.data != []
    requires forall f :: f in m.fragments ==> f == g || f.End() <= g.offset || g.End() <= f.offset
    requires g in m.fragments || m.size + |g.data| <= m.limit
    ensures var r := Add(m, g.offset, g.data).buffer;
      && Inv(r) && NoEmpty(r.fragments) && r.limit == m.limit
      && r.size == m.size + (if g in m.fragments then 0 else |g.data|)
      && forall f :: f in r.fragments <==> f in m.fragments || f == g
  {
    hide Add, Inv;
    AddMeaning(m, g);
    if g in m.fragments {
      assert Covers(m.fragments, g.offset);
      assert Taken(m.fragments, g);
    } else {
      assert !Taken(m.fragments, g);
    }
    AddSize(m, g);
  }

  lemma AddSize(m: Buffer, g: Fragment)
    requires Inv(m) && NoEmpty(m.fragments) && g.data != []
    ensures var o := Add(m, g.offset, g.data);
      o.buffer.size == m.size + if o.accepted && !Taken(m.fragments, g) then |g.data| else 0
  {
    hide Insert, Ordered, Total, Advance, AnyClash, Taken;
    ClashIsTaken(m.fragments, g);
  }

  /** Compatible fragments below n never hold more than n bytes together. */
  lemma {:induction false} UnionFits(b: Buffer, ds: seq<Fragment>, n: nat)
    requires Inv(b) && NoEmpty(b.fragments) && NoEmpty(ds)
    requires Compatible(b.fragments, ds) && Compatible(ds, ds)
    requires (forall f :: f in b.fragments ==> f.End() <= n) && forall f :: f in ds ==> f.End() <= n
    ensures b.size + Missing(b.fragments, ds) <= n
  {
    hide Ordered, LeastUncovered, Total, Missing, Compatible, NoEmpty;
    var big := b.(limit := b.limit + b.size + Missing(b.fragments, ds));
    UnionIsHeld(big, ds);
    TotalWithin(Deliver(big, ds).fragments, 0, n);
  }

  /** A buffer that holds every chunk of the first n bytes yields exactly those. */
  lemma WholeIsThere(r: Buffer, t: Octets, cuts: seq<nat>, n: nat)
    requires IsCut(cuts, n) && n <= |t| && Inv(r) && Deliveries(r.fragments, t, cuts, n)
    requires forall i: nat | i < |cuts| - 1 :: Chunk(t, cuts, i) in r.fragments
    ensures r.contiguous == n && Contiguous(r) == (if n == 0 then None else Some(t[..n]))
  {
    ChunksAreCompatible(r.fragments, t, cuts, n);
    PrefixIsStream(r, t);
    assert !Covers(r.fragments, n);
    forall p: nat | p < n ensures Covers(r.fragments, p) {
      var i := ChunkOf(cuts, n, p);
      assert Chunk(t, cuts, i) in r.fragments;
    }
    LeastUncoveredMonotone(r.fragments, r.contiguous, r.fragments, n);
    LeastUncoveredMonotone(r.fragments, n, r.fragments, r.contiguous);
  }

  /** Order independence: however the chunks of the first n bytes arrive, once each has
      arrived at least once the reassembler yields exactly those bytes. */
  lemma OrderIndependence(limit: nat, t: Octets, cuts: seq<nat>, n: nat, ds: seq<Fragment>)
    requires IsCut(cuts, n) && n <= |t| && n <= limit
    requires Deliveries(ds, t, cuts, n)
    requires forall i: nat | i < |cuts| - 1 :: Chunk(t, cuts, i) in ds
    ensures var r := Deliver(Empty(limit), ds);
      r.contiguous == n && Contiguous(r) == (if n == 0 then None else Some(t[..n]))
  {
    hide Deliver, Contiguous, Ordered, LeastUncovered, Total, Missing, Compatible;
    ChunksAreCompatible(ds, t, cuts, n);
    EmptyIsInv(limit);
    NothingIsCompatible(ds);
    UnionFits(Empty(limit), ds, n);
    UnionIsHeld(Empty(limit), ds);
    WholeIsThere(Deliver(Empty(limit), ds), t, cuts, n);
  }

  lemma NothingIsCompatible(ds: seq<Fragment>)
    ensures Compatible([], ds)
  {
  }

  lemma {:induction false} ChunkOf(cuts: seq<nat>, n: nat, p: nat) returns (i: nat)
    requires IsCut(cuts, n) && p < n
    ensures i < |cuts| - 1 && cuts[i] <= p < cuts[i + 1]
  {
    i := 0;
    while cuts[i + 1] <= p
      invariant i < |cuts| - 1 && cuts[i] <= p
      decreases |cuts| - i
    {
      i := i + 1;
    }
  }

  // ---------------------------------------------------------------- merging two reassemblers

  /** Folding another reassembler's fragments in (`merge_quic_info`) keeps the invariant,
      never changes or loses a byte held, and never shortens the prefix. */
  lemma {:induction false} MergeKeeps(b: Buffer, gs: seq<Fragment>)
    requires Inv(b) && NoEmpty(b.fragments) && NoEmpty(gs)
    ensures var r := Deliver(b, gs);
      && Inv(r) && NoEmpty(r.fragments) && r.limit == b.limit
      && (forall f :: f in b.fragments ==> f in r.fragments)
      && (forall f :: f in r.fragments ==> f in b.fragments || f in gs)
      && (forall p: nat, x: Byte :: HoldsAt(b.fragments, p, x) ==> HoldsAt(r.fragments, p, x))
      && b.contiguous <= r.contiguous
  {
    if gs == [] {
    } else {
      var front := gs[..|gs| - 1];
      var g := gs[|gs| - 1];
      assert g in gs;
      forall f | f in front ensures f in gs {}
      MergeKeeps(b, front);
      AddMeaning(Deliver(b, front), g);
    }
  }

  /** When the two hold chunks of one cut and the union fits, the merge holds exactly the
      union, and its prefix is at least as long as either one's. */
  lemma MergeIsUnion(a: Buffer, b: Buffer)
    requires Inv(a) && NoEmpty(a.fragments) && Inv(b) && NoEmpty(b.fragments)
    requires Compatible(a.fragments, b.fragments)
    requires a.size + Missing(a.fragments, b.fragments) <= a.limit
    ensures var r := Deliver(a, b.fragments);
      && Inv(r)
      && (forall f :: f in r.fragments <==> f in a.fragments || f in b.fragments)
      && a.contiguous <= r.contiguous && b.contiguous <= r.contiguous
  {
    forall f, g | f in b.fragments && g in b.fragments
      ensures f == g || f.End() <= g.offset || g.End() <= f.offset
    {
      var i :| 0 <= i < |b.fragments| && b.fragments[i] == f;
      var j :| 0 <= j < |b.fragments| && b.fragments[j] == g;
    }
    UnionIsHeld(a, b.fragments);
    var r := Deliver(a, b.fragments);
    LeastUncoveredMonotone(a.fragments, a.contiguous, r.fragments, r.contiguous);
    LeastUncoveredMonotone(b.fragments, b.contiguous, r.fragments, r.contiguous);
  }

  /** A buffer that holds nothing but chunks of the first n bytes, and has room for them all. */
  ghost predicate HoldsChunks(b: Buffer, t: Octets, cuts: seq<nat>, n: nat)
    requires IsCut(cuts, n) && n <= |t|
  {
    Inv(b) && n <= b.limit && Deliveries(b.fragments, t, cuts, n)
  }

  /** Merging two such buffers loses no chunk. */
  lemma ChunksMerge(a: Buffer, b: Buffer, t: Octets, cuts: seq<nat>, n: nat)
    requires IsCut(cuts, n) && n <= |t| && HoldsChunks(a, t, cuts, n) && HoldsChunks(b, t, cuts, n)
    ensures var r := Deliver(a, b.fragments);
      && HoldsChunks(r, t, cuts, n)
      && forall f :: f in r.fragments <==> f in a.fragments || f in b.fragments
  {
    hide Deliver, Ordered, LeastUncovered, Total, Missing;
    ChunksAreCompatible(a.fragments + b.fragments, t, cuts, n);
    assert forall f :: f in a.fragments || f in b.fragments ==> f in a.fragments + b.fragments;
    UnionFits(a, b.fragments, n);
    UnionIsHeld(a, b.fragments);
  }

  // ---------------------------------------------------------------- the object

  /** `CryptoFrameReassembler`, updated in place. */
  class CryptoFrameReassembler {
    var fragments: seq<Fragment>
    var contiguousOffset: nat
    var hasCompleteTlsInfo: bool
    var cachedTlsInfo: Option<TlsInfo>
    var maxBufferSize: nat
    var currentBufferSize: nat

    ghost function State(): Buffer
      reads this
    {
      Buffer(fragments, contiguousOffset, currentBufferSize, maxBufferSize,
             if hasCompleteTlsInfo then cachedTlsInfo else None)
    }

    constructor ()
      ensures State() == Empty(MAX_BUFFER_SIZE) && Inv(State())
    {
      fragments, contiguousOffset, hasCompleteTlsInfo := [], 0, false;
      cachedTlsInfo, maxBufferSize, currentBufferSize := None, MAX_BUFFER_SIZE, 0;
      new;
      EmptyIsInv(MAX_BUFFER_SIZE);
    }

    /** `Clone::clone`. */
    constructor Clone(b: Buffer)
      ensures State() == b
    {
      fragments, contiguousOffset, hasCompleteTlsInfo := b.fragments, b.contiguous, b.cached.Some?;
      cachedTlsInfo, maxBufferSize, currentBufferSize := b.cached, b.limit, b.size;
    }

    method AddFragment(offset: nat, data: Octets) returns (ok: bool)
      modifies this
      ensures var o := Add(old(State()), offset, data); State() == o.buffer && ok == o.accepted
    {
      if currentBufferSize + |data| > maxBufferSize {
        return false;
      }
      var dataEnd := offset + |data|;
      for i := 0 to |fragments|
        modifies {}
        invariant forall j | 0 <= j < i :: !Clashes(fragments[j], offset, dataEnd)
      {
        var fragEnd := fragments[i].offset + |fragments[i].data|;
        if offset == fragments[i].offset && dataEnd == fragEnd {
          assert fragments[i] in fragments && Clashes(fragments[i], offset, dataEnd);
          return true;
        }
        if offset < fragEnd && dataEnd > fragments[i].offset {
          assert fragments[i] in fragments && Clashes(fragments[i], offset, dataEnd);
          return true;
        }
      }
      assert !AnyClash(fragments, offset, dataEnd);
      currentBufferSize := currentBufferSize + |data|;
      fragments := Insert(fragments, Fragment(offset, data));
      UpdateContiguousOffset();
      return true;
    }

    method UpdateContiguousOffset()
      modifies this`contiguousOffset
      ensures contiguousOffset == Advance(fragments, old(contiguousOffset))
    {
      var current: nat := contiguousOffset;
      var i := 0;
      assert fragments[0..] == fragments;
      while i < |fragments|
        invariant 0 <= i <= |fragments|
        invariant Advance(fragments[i..], current) == Advance(fragments, contiguousOffset)
      {
        assert fragments[i..][1..] == fragments[i + 1..];
        if fragments[i].offset <= current {
          var fragmentEnd := fragments[i].offset + |fragments[i].data|;
          if fragmentEnd > current {
            current := fragmentEnd;
          }
        } else {
          break;
        }
        i := i + 1;
      }
      contiguousOffset := current;
    }

    method GetContiguousData() returns (r: Option<Octets>)
      ensures r == Contiguous(State())
    {
      hide Gather;
      if contiguousOffset == 0 {
        return None;
      }
      var result: Octets := [];
      var currentOffset := 0;
      var i := 0;
      assert fragments[0..] == fragments;
      while i < |fragments|
        invariant 0 <= i <= |fragments| && currentOffset == |result|
        invariant Gather(fragments[i..], result, contiguousOffset) == Gather(fragments, [], contiguousOffset)
      {
        var f := fragments[i];
        GatherStep(fragments, i, result, contiguousOffset);
        ghost var was := result;
        if f.offset <= currentOffset {
          var skip := currentOffset - f.offset;
          if skip < |f.data| {
            result := result + f.data[skip..];
            currentOffset := f.offset + |f.data|;
          }
        }
        assert result == Extend(was, f);
        if currentOffset >= contiguousOffset {
          return if result == [] then None else Some(result);
        }
        i := i + 1;
      }
      assert fragments[i..] == [];
      GatherNothing(result, contiguousOffset);
      r := if result == [] then None else Some(result);
    }

    method SetCompleteTlsInfo(tls: TlsInfo)
      modifies this
      ensures State() == old(State()).(cached := Some(tls))
    {
      hasCompleteTlsInfo, cachedTlsInfo := true, Some(tls);
    }

    method GetCachedTlsInfo() returns (r: Option<TlsInfo>)
      ensures r == State().cached
    {
      r := if hasCompleteTlsInfo then cachedTlsInfo else None;
    }
  }
}
