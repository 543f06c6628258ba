/**
 * `VilleCritique::getWindCoeffs` from villecritique.cpp: the 360-bucket
 * azimuth histogram of the emitters within 100 km of a city, built on a
 * cache miss from the emitter store and memoised per city under a key made
 * of its coordinates to six decimals.
 *
 * The great-circle distance and the initial bearing (`haversine`,
 * `calculateAzimuth`) are floating-point trigonometry; they enter the model
 * as the two functions of a `Geodesy` value, about which nothing is assumed.
 */
module WindCoeffs {
  import opened CppArith
  import Weather

  /** Emitters up to this distance, inclusive, are counted. */
  const RadiusKm: real := 100.0

  /** A latitude/longitude pair in decimal degrees. */
  datatype Coordinate = Coordinate(lat: real, lon: real)

  /** Great-circle distance in km and initial bearing in degrees, from the first point to the second. */
  datatype Geodesy = Geodesy(distanceKm: (Coordinate, Coordinate) -> real,
                             azimuthDeg: (Coordinate, Coordinate) -> real)

  /** What the emitter store gives on a cache miss. */
  datatype StoreReply =
    | OpenFailed                      // the database cannot be opened
    | QueryFailed                     // the query does not execute
    | Rows(emitters: seq<Coordinate>) // the positions of the emitters, in query order

  /** The cache key: both coordinates scaled to millionths of a degree and rounded. */
  type Key = (int, int)

  function CacheKey(c: Coordinate): (k: Key)
    ensures c.lat * 1000000.0 - 0.5 <= k.0 as real <= c.lat * 1000000.0 + 0.5
    ensures c.lon * 1000000.0 - 0.5 <= k.1 as real <= c.lon * 1000000.0 + 0.5
  {
    (RoundHalfAway(c.lat * 1000000.0), RoundHalfAway(c.lon * 1000000.0))
  }

  /** An emitter is near enough to be binned. */
  predicate InRange(geo: Geodesy, city: Coordinate, e: Coordinate) {
    geo.distanceKm(city, e) <= RadiusKm
  }

  /** The rounded bearing from the city to the emitter: the bucket it is counted in, if in [0, 360). */
  function Bucket(geo: Geodesy, city: Coordinate, e: Coordinate): int {
    RoundHalfAway(geo.azimuthDeg(city, e))
  }

  /** An emitter adds one to a bucket: in range, with a bucket in [0, 360). */
  predicate Contributes(geo: Geodesy, city: Coordinate, e: Coordinate) {
    InRange(geo, city, e) && 0 <= Bucket(geo, city, e) < Weather.Buckets
  }

  function Zeros(): (h: seq<nat>)
    ensures |h| == Weather.Buckets && forall i :: 0 <= i < Weather.Buckets ==> h[i] == 0
  {
    seq(Weather.Buckets, _ => 0)
  }

  /** The histogram the binning loop leaves behind after the given emitters, in order. */
  function Binned(geo: Geodesy, city: Coordinate, emitters: seq<Coordinate>): (h: seq<nat>)
    ensures |h| == Weather.Buckets
  {
    if emitters == [] then Zeros()
    else
      var h := Binned(geo, city, emitters[..|emitters| - 1]);
      var e := emitters[|emitters| - 1];
      if Contributes(geo, city, e) then h[Bucket(geo, city, e) := h[Bucket(geo, city, e)] + 1] else h
  }

  /** The number of emitters counted in bucket `i`. */
  function Tally(geo: Geodesy, city: Coordinate, emitters: seq<Coordinate>, i: int): nat
  {
    if emitters == [] then 0
    else
      (if Contributes(geo, city, emitters[0]) && Bucket(geo, city, emitters[0]) == i then 1 else 0)
      + Tally(geo, city, emitters[1..], i)
  }

  /** The number of emitters counted at all. */
  function Contributing(geo: Geodesy, city: Coordinate, emitters: seq<Coordinate>): nat
  {
    if emitters == [] then 0
    else (if Contributes(geo, city, emitters[0]) then 1 else 0) + Contributing(geo, city, emitters[1..])
  }

  /** The number of emitters a histogram holds: the sum of its buckets. */
  function Total(h: seq<nat>): nat
  {
    if h == [] then 0 else h[0] + Total(h[1..])
  }

  lemma {:induction false} TallySnoc(geo: Geodesy, city: Coordinate, emitters: seq<Coordinate>, e: Coordinate, i: int)
    ensures Tally(geo, city, emitters + [e], i)
         == Tally(geo, city, emitters, i) + (if Contributes(geo, city, e) && Bucket(geo, city, e) == i then 1 else 0)
  {
    if emitters == [] {
      assert [e][1..] == [];
    } else {
      assert (emitters + [e])[1..] == emitters[1..] + [e];
      TallySnoc(geo, city, emitters[1..], e, i);
    }
  }

  lemma {:induction false} ContributingSnoc(geo: Geodesy, city: Coordinate, emitters: seq<Coordinate>, e: Coordinate)
    ensures Contributing(geo, city, emitters + [e])
         == Contributing(geo, city, emitters) + (if Contributes(geo, city, e) then 1 else 0)
  {
    if emitters == [] {
      assert [e][1..] == [];
    } else {
      assert (emitters + [e])[1..] == emitters[1..] + [e];
      ContributingSnoc(geo, city, emitters[1..], e);
    }
  }

  /** Bucket `i` holds the number of emitters within 100 km whose rounded bearing is `i`. */
  lemma {:induction false} BinnedCounts(geo: Geodesy, city: Coordinate, emitters: seq<Coordinate>, i: int)
    requires 0 <= i < Weather.Buckets
    ensures Binned(geo, city, emitters)[i] == Tally(geo, city, emitters, i)
  {
    if emitters != [] {
      var front, e := emitters[..|emitters| - 1], emitters[|emitters| - 1];
      assert front + [e] == emitters;
      BinnedCounts(geo, city, front, i);
      TallySnoc(geo, city, front, e, i);
    }
  }

  lemma {:induction false} TotalIncrement(h: seq<nat>, b: int)
    requires 0 <= b < |h|
    ensures Total(h[b := h[b] + 1]) == Total(h) + 1
  {
    if b > 0 {
      assert h[b := h[b] + 1][1..] == h[1..][b - 1 := h[b] + 1];
      TotalIncrement(h[1..], b - 1);
    } else {
      assert h[b := h[b] + 1][1..] == h[1..];
    }
  }

  lemma {:induction false} TotalZeros(n: nat)
    ensures Total(seq(n, _ => 0)) == 0
  {
    if n > 0 {
      assert seq(n, _ => 0)[1..] == seq(n - 1, _ => 0);
      TotalZeros(n - 1);
    }
  }

  /**
   * The histogram holds exactly the emitters that are within 100 km and
   * whose rounded bearing lies in [0, 360); an emitter within range whose
   * bearing rounds to 360 is in no bucket.
   */
  lemma {:induction false} BinnedSum(geo: Geodesy, city: Coordinate, emitters: seq<Coordinate>)
    ensures Total(Binned(geo, city, emitters)) == Contributing(geo, city, emitters)
  {
    if emitters == [] {
      TotalZeros(Weather.Buckets);
    } else {
      var front, e := emitters[..|emitters| - 1], emitters[|emitters| - 1];
      assert front + [e] == emitters;
      BinnedSum(geo, city, front);
      ContributingSnoc(geo, city, front, e);
      if Contributes(geo, city, e) {
        TotalIncrement(Binned(geo, city, front), Bucket(geo, city, e));
      }
    }
  }

  /** An emitter at exactly 100 km is counted, in the bucket of its rounded bearing. */
  lemma BoundaryCounted(geo: Geodesy, city: Coordinate, emitters: seq<Coordinate>, e: Coordinate)
    requires geo.distanceKm(city, e) == 100.0
    requires 0 <= Bucket(geo, city, e) < Weather.Buckets
    ensures var b := Bucket(geo, city, e);
      Binned(geo, city, emitters + [e])[b] == Binned(geo, city, emitters)[b] + 1
  {
    assert (emitters + [e])[..|emitters|] == emitters;
  }

  /** An emitter whose bearing rounds to 360 changes nothing, however near it is. */
  lemma BearingOf360Dropped(geo: Geodesy, city: Coordinate, emitters: seq<Coordinate>, e: Coordinate)
    requires Bucket(geo, city, e) == 360
    ensures Binned(geo, city, emitters + [e]) == Binned(geo, city, emitters)
  {
    assert (emitters + [e])[..|emitters|] == emitters;
  }

  /**
   * The static state of `getWindCoeffs`: the cache `cacheCity` and the
   * scratch array `table_char` in which each miss is computed.
   */
  class WindCoeffCache {
    var cacheCity: map<Key, seq<nat>>
    var tableChar: array<nat>
    /** How many times the emitter store has been asked for, successfully or not. */
    ghost var storeAccesses: nat

    ghost predicate Valid()
      reads this
    {
      && tableChar.Length == Weather.Buckets
      && forall k :: k in cacheCity ==> |cacheCity[k]| == Weather.Buckets
    }

    /** Program start: an empty cache and a zero-initialised scratch array. */
    constructor ()
      ensures Valid() && fresh(tableChar)
      ensures cacheCity == map[] && tableChar[..] == Zeros() && storeAccesses == 0
    {
      cacheCity := map[];
      tableChar := new nat[Weather.Buckets](_ => 0);
      storeAccesses := 0;
    }

    /**
     * `getWindCoeffs`: the cached histogram on a hit, with no store access;
     * on a miss, the histogram of the store's emitters, which becomes the
     * (only) new cache entry; on a store failure, the scratch array as it
     * stands, with nothing cached.
     */
    method GetWindCoeffs(city: Coordinate, geo: Geodesy, store: StoreReply) returns (coeffs: seq<nat>)
      requires Valid()
      modifies this, tableChar
      ensures Valid() && tableChar == old(tableChar)
      ensures |coeffs| == Weather.Buckets
      ensures forall k :: k in old(cacheCity) ==> k in cacheCity && cacheCity[k] == old(cacheCity)[k]
      ensures CacheKey(city) in old(cacheCity) ==>
        && coeffs == old(cacheCity)[CacheKey(city)]
        && cacheCity == old(cacheCity)
        && tableChar[..] == old(tableChar[..])
        && storeAccesses == old(storeAccesses)
      ensures CacheKey(city) !in old(cacheCity) && store.Rows? ==>
        && coeffs == Binned(geo, city, store.emitters)
        && cacheCity == old(cacheCity)[CacheKey(city) := coeffs]
        && tableChar[..] == coeffs
        && storeAccesses == old(storeAccesses) + 1
      ensures CacheKey(city) !in old(cacheCity) && !store.Rows? ==>
        && coeffs == old(tableChar[..])
        && cacheCity == old(cacheCity)
        && tableChar[..] == old(tableChar[..])
        && storeAccesses == old(storeAccesses) + 1
    {
      var key := CacheKey(city);
      if key in cacheCity {
        return cacheCity[key];
      }

      storeAccesses := storeAccesses + 1;
      if !store.Rows? {
        return tableChar[..];
      }

      forall i | 0 <= i < Weather.Buckets {
        tableChar[i] := 0;
      }
      var emitters := store.emitters;
      var n := 0;
      while n < |emitters|
        invariant 0 <= n <= |emitters|
        invariant tableChar == old(tableChar) && cacheCity == old(cacheCity)
        invariant storeAccesses == old(storeAccesses) + 1
        invariant tableChar[..] == Binned(geo, city, emitters[..n])
      {
        assert emitters[..n + 1][..n] == emitters[..n];
        var e := emitters[n];
        var distance := geo.distanceKm(city, e);
        if distance <= RadiusKm {
          var azimuth := RoundHalfAway(geo.azimuthDeg(city, e));
          if 0 <= azimuth < Weather.Buckets {
            tableChar[azimuth] := tableChar[azimuth] + 1;
          }
        }
        n := n + 1;
      }
      assert emitters[..n] == emitters;

      cacheCity := cacheCity[key := tableChar[..]];
      coeffs := cacheCity[key];
    }
  }

  /**
   * Two calls for the same city: once the first has filled the cache (a hit,
   * or a miss the store answered), the second returns the same histogram and
   * does not touch the store.
   */
  method LookupTwice(cache: WindCoeffCache, city: Coordinate, geo: Geodesy, first: StoreReply, second: StoreReply)
    returns (a: seq<nat>, b: seq<nat>)
    requires cache.Valid()
    requires CacheKey(city) in cache.cacheCity || first.Rows?
    modifies cache, cache.tableChar
    ensures a == b
    ensures cache.storeAccesses <= old(cache.storeAccesses) + 1
  {
    a := cache.GetWindCoeffs(city, geo, first);
    ghost var accesses := cache.storeAccesses;
    b := cache.GetWindCoeffs(city, geo, second);
    assert cache.storeAccesses == accesses;
  }
}
