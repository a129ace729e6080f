/** GeoIP lookups behind a cache with a time to live and a size limit. */
module GeoIp {
  import opened Bytes
  import opened Clock
  import opened Eviction

  datatype Ip = V4(a: Byte, b: Byte, c: Byte, d: Byte) | V6(segments: seq<nat>)

  /** Location and operator data of an address; `DEFAULT_INFO` has none. */
  datatype GeoIpInfo = GeoIpInfo(countryCode: Option<Octets>, countryName: Option<Octets>, asn: Option<nat>,
                                 asOrg: Option<Octets>, postalCode: Option<Octets>, city: Option<Octets>)

  const DEFAULT_INFO := GeoIpInfo(None, None, None, None, None, None)

  datatype Cached = Cached(info: GeoIpInfo, cachedAt: int)

  /** `is_private_or_local`. */
  predicate IsPrivateOrLocal(ip: Ip) {
    match ip
    case V4(a, b, c, d) =>
      || a == 10 || (a == 172 && 16 <= b < 32) || (a == 192 && b == 168)      // private
      || a == 127                                                            // loopback
      || (a == 169 && b == 254)                                              // link-local
      || (a == 255 && b == 255 && c == 255 && d == 255)                      // broadcast
      || (a == 192 && b == 0 && c == 2) || (a == 198 && b == 51 && c == 100)
      || (a == 203 && b == 0 && c == 113)                                    // documentation
      || (a == 0 && b == 0 && c == 0 && d == 0)                              // unspecified
      || (a == 100 && 64 <= b < 128)                                         // carrier-grade NAT
    case V6(s) =>
      || s == [0, 0, 0, 0, 0, 0, 0, 1] || s == [0, 0, 0, 0, 0, 0, 0, 0]
      || (s != [] && 0xfe80 <= s[0] < 0xfec0)                                // link-local
      || (s != [] && 0xfc00 <= s[0] < 0xfe00)                                // unique local
  }

  /** An IPv4 address as a number, and the block of addresses that share its first `bits` bits. */
  function Number(a: Byte, b: Byte, c: Byte, d: Byte): nat {
    0x100_0000 * a + 0x1_0000 * b + 0x100 * c + d
  }

  predicate InBlock(n: nat, base: nat, size: nat)
    requires size > 0
  {
    n / size == base / size
  }

  /** The blocks of RFC 1918, 1122, 3927, 919, 5737 and 6598 that a location lookup skips. */
  predicate InSpecialBlock(n: nat) {
    || InBlock(n, 0x0a00_0000, 0x100_0000)   // 10.0.0.0/8
    || InBlock(n, 0xac10_0000, 0x10_0000)    // 172.16.0.0/12
    || InBlock(n, 0xc0a8_0000, 0x1_0000)     // 192.168.0.0/16
    || InBlock(n, 0x7f00_0000, 0x100_0000)   // 127.0.0.0/8
    || InBlock(n, 0xa9fe_0000, 0x1_0000)     // 169.254.0.0/16
    || InBlock(n, 0xffff_ffff, 1)            // 255.255.255.255
    || InBlock(n, 0xc000_0200, 0x100)        // 192.0.2.0/24
    || InBlock(n, 0xc633_6400, 0x100)        // 198.51.100.0/24
    || InBlock(n, 0xcb00_7100, 0x100)        // 203.0.113.0/24
    || InBlock(n, 0, 1)                      // 0.0.0.0
    || InBlock(n, 0x6440_0000, 0x40_0000)    // 100.64.0.0/10
  }

  lemma BlockOfOne(a: Byte, b: Byte, c: Byte, d: Byte)
    ensures Number(a, b, c, d) / 0x100_0000 == a
    ensures Number(a, b, c, d) / 0x1_0000 == 0x100 * a + b
    ensures Number(a, b, c, d) / 0x100 == 0x1_0000 * a + 0x100 * b + c
    ensures Number(a, b, c, d) / 0x10_0000 == 0x10 * a + b / 0x10
    ensures Number(a, b, c, d) / 0x40_0000 == 4 * a + b / 0x40
  {
    assert b == 0x10 * (b / 0x10) + b % 0x10;
    assert b == 0x40 * (b / 0x40) + b % 0x40;
  }

  /** The test on single bytes accepts exactly those blocks. */
  lemma SpecialBlocksExactly(a: Byte, b: Byte, c: Byte, d: Byte)
    ensures IsPrivateOrLocal(V4(a, b, c, d)) <==> InSpecialBlock(Number(a, b, c, d))
  {
    BlockOfOne(a, b, c, d);
  }

  /** An IPv6 address as a number. */
  function Number6(s: seq<nat>): nat
    requires |s| == 8
  {
    0x1_0000_0000_0000_0000_0000_0000_0000 * s[0] + 0x1_0000_0000_0000_0000_0000_0000 * s[1]
    + 0x1_0000_0000_0000_0000_0000 * s[2] + 0x1_0000_0000_0000_0000 * s[3] + 0x1_0000_0000_0000 * s[4]
    + 0x1_0000_0000 * s[5] + 0x1_0000 * s[6] + s[7]
  }

  /** The blocks of RFC 4291 and 4193 that a location lookup skips. */
  predicate InSpecialBlock6(n: nat) {
    || n == 1 || n == 0                                                                              // ::1, ::
    || InBlock(n, 0xfe80_0000_0000_0000_0000_0000_0000_0000, 0x40_0000_0000_0000_0000_0000_0000_0000)   // fe80::/10
    || InBlock(n, 0xfc00_0000_0000_0000_0000_0000_0000_0000, 0x200_0000_0000_0000_0000_0000_0000_0000)  // fc00::/7
  }

  lemma FirstSegment(s: seq<nat>)
    requires |s| == 8 && forall i | 0 <= i < 8 :: s[i] < 0x1_0000
    ensures Number6(s) / 0x1_0000_0000_0000_0000_0000_0000_0000 == s[0]
    ensures Number6(s) / 0x40_0000_0000_0000_0000_0000_0000_0000 == s[0] / 0x40
    ensures Number6(s) / 0x200_0000_0000_0000_0000_0000_0000_0000 == s[0] / 0x200
  {
    assert s[0] == 0x40 * (s[0] / 0x40) + s[0] % 0x40;
    assert s[0] == 0x200 * (s[0] / 0x200) + s[0] % 0x200;
  }

  /** The test on whole segments accepts exactly those blocks. */
  lemma SpecialBlocksExactly6(s: seq<nat>)
    requires |s| == 8 && forall i | 0 <= i < 8 :: s[i] < 0x1_0000
    ensures IsPrivateOrLocal(V6(s)) <==> InSpecialBlock6(Number6(s))
  {
    FirstSegment(s);
    assert s == [s[0], s[1], s[2], s[3], s[4], s[5], s[6], s[7]];
  }

  function CachedTimes(m: map<Ip, Cached>): map<Ip, int> {
    map ip | ip in m :: m[ip].cachedAt
  }

  function Target(maxSize: nat): nat {
    3 * maxSize / 4
  }

  class GeoIpResolver {
    /** The database lookup (`do_lookup`), a fixed function of the address. */
    const db: Ip -> GeoIpInfo
    const ttl: nat
    const maxSize: nat
    var cache: map<Ip, Cached>

    /** Every cached answer is the database's, and the cache is within its limit. */
    ghost predicate Valid()
      reads this
    {
      && |cache| <= maxSize
      && forall ip | ip in cache :: cache[ip].info == db(ip)
    }

    /** The answer of a resolver without a cache. */
    function Uncached(ip: Ip): GeoIpInfo {
      if IsPrivateOrLocal(ip) then DEFAULT_INFO else db(ip)
    }

    constructor (db: Ip -> GeoIpInfo, ttl: nat, maxSize: nat)
      ensures Valid() && this.db == db && this.ttl == ttl && this.maxSize == maxSize && cache == map[]
    {
      this.db, this.ttl, this.maxSize, cache := db, ttl, maxSize, map[];
    }

    /** `lookup`: always the uncached answer, and the cache stays true and within its limit.
        A hit leaves the cache alone; a miss caches the answer as of now, unless that overflows
        the limit, when the oldest entries go until exactly three quarters of it are left. */
    method Lookup(ip: Ip, now: int) returns (info: GeoIpInfo)
      requires Valid()
      modifies this
      ensures Valid() && info == Uncached(ip)
      ensures var hit := IsPrivateOrLocal(ip)
                         || (ip in old(cache) && Since(now, old(cache)[ip].cachedAt) < ttl);
        var grown := old(cache)[ip := Cached(db(ip), now)];
        if hit then cache == old(cache)
        else if |grown| <= maxSize then cache == grown
        else |cache| == 3 * maxSize / 4
             && EvictsOldest(grown, CachedTimes(grown), cache, |grown| - 3 * maxSize / 4)
    {
      if IsPrivateOrLocal(ip) {
        return DEFAULT_INFO;
      }
      if ip in cache && Since(now, cache[ip].cachedAt) < ttl {
        return cache[ip].info;
      }
      info := db(ip);
      cache := cache[ip := Cached(info, now)];
      if |cache| > maxSize {
        EvictOldestEntries();
      }
    }

    /** `evict_oldest_entries`; the selection may order the entries on either side of the cut
        in any way. */
    method EvictOldestEntries()
      requires |cache| > maxSize
      modifies this
      ensures |cache| == Target(maxSize)
      ensures EvictsOldest(old(cache), CachedTimes(old(cache)), cache, |old(cache)| - Target(maxSize))
    {
      var times := CachedTimes(cache);
      var entries := Collect(times);
      SameSize(cache, times);
      var toRemove := |cache| - Target(maxSize);
      var order := SelectNth(entries, times, toRemove);
      RemovingOldest(cache, times, order, toRemove);
      cache := RemoveFirst(cache, order, toRemove);
    }
  }

  /** `select_nth_unstable_by_key(n - 1)`: some rearrangement with the n oldest in front. */
  method SelectNth(entries: seq<Entry<Ip>>, ghost times: map<Ip, int>, n: nat) returns (order: seq<Entry<Ip>>)
    requires Lists(entries, times)
    ensures Lists(order, times) && OldestFirst(order, n)
  {
    order := SortByTime(entries);
    SortLists(entries, times, n);
  }

  datatype Query = Query(ip: Ip, at: int)

  /** Transparency over a whole history of lookups and clock readings: every answer is the
      uncached one, and the cache ends within its limit. */
  method LookupAll(r: GeoIpResolver, history: seq<Query>) returns (answers: seq<GeoIpInfo>)
    requires r.Valid()
    modifies r
    ensures r.Valid() && |answers| == |history|
    ensures forall i | 0 <= i < |history| :: answers[i] == r.Uncached(history[i].ip)
  {
    answers := [];
    for i := 0 to |history|
      invariant r.Valid() && |answers| == i
      invariant forall j | 0 <= j < i :: answers[j] == r.Uncached(history[j].ip)
    {
      var info := r.Lookup(history[i].ip, history[i].at);
      answers := answers + [info];
    }
  }
}
