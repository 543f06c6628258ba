/**
 * `Weather::calculerDistance` and `Weather::toString` from weather.h: the
 * circular search from a wind bearing to the nearest populated one-degree
 * sector of a 360-bucket histogram, and the bracketed text form of such a
 * histogram.
 */
module Weather {
  import opened CppArith
  import opened Text
  import opened Wrappers

  /** Number of one-degree sectors. */
  const Buckets := 360

  /** `INT_MAX` of a 32-bit `int`: the distance reported when a scan finds nothing. */
  const IntMax: int := 2147483647

  /**
   * The start index of the search for a wind bearing: one degree is taken off
   * (the bearings are 1-based), the result is rounded and reduced with C++'s
   * truncating `%`, so bearings just below 0.5 give a negative index.
   */
  function StartIndex(windDirection: real): (s: int)
    ensures -Buckets < s < Buckets
    ensures 0.5 < windDirection ==> 0 <= s
    ensures -358.5 < windDirection <= 0.5 ==> s < 0
  {
    Rem(RoundHalfAway(windDirection - 1.0), Buckets)
  }

  /** The bucket `d` steps from `s`, clockwise or counter-clockwise, wrapping at 360. */
  function Index(s: int, d: int, clockwise: bool): (k: int)
    requires 0 <= s < Buckets && 0 <= d <= Buckets
    ensures 0 <= k < Buckets
  {
    if clockwise then (if s + d < Buckets then s + d else s + d - Buckets)
    else (if d <= s then s - d else s - d + Buckets)
  }

  /** The wrap-around is reduction modulo 360. */
  lemma IndexIsModular(s: int, d: int)
    requires 0 <= s < Buckets && 0 <= d <= Buckets
    ensures Index(s, d, true) == (s + d) % Buckets
    ensures Index(s, d, false) == (s - d) % Buckets
  {
    if s + d >= Buckets {
      assert s + d == Buckets * 1 + Index(s, d, true);
    }
    if d > s {
      assert s - d == Buckets * -1 + Index(s, d, false);
    }
  }

  /**
   * The scan of one of the two loops, from step `d` on: the first step at
   * which the bucket is non-zero, or `IntMax` when a full lap finds none.
   */
  function Scan(t: seq<int>, s: int, clockwise: bool, d: nat): (r: int)
    requires |t| == Buckets && 0 <= s < Buckets && d <= Buckets
    ensures r == IntMax || d <= r < Buckets
    ensures r != IntMax ==> t[Index(s, r, clockwise)] != 0
    ensures forall j :: d <= j < Buckets && j < r ==> t[Index(s, j, clockwise)] == 0
    decreases Buckets - d
  {
    if d == Buckets then IntMax
    else if t[Index(s, d, clockwise)] != 0 then d
    else Scan(t, s, clockwise, d + 1)
  }

  /** Number of steps from `s` to the nearest non-zero bucket in one direction. */
  function Distance(t: seq<int>, s: int, clockwise: bool): int
    requires |t| == Buckets && 0 <= s < Buckets
  {
    Scan(t, s, clockwise, 0)
  }

  /** The sign and tie rule: clockwise is positive, counter-clockwise negative, a tie 0. */
  function SignedOffset(forward: int, backward: int): int
  {
    if forward < backward then forward
    else if backward < forward then -backward
    else 0
  }

  /** `d` steps one way and `360 - d` steps the other way reach the same bucket. */
  lemma Mirror(s: int, d: int)
    requires 0 <= s < Buckets && 0 <= d <= Buckets
    ensures Index(s, Buckets - d, false) == Index(s, d, true)
    ensures Index(s, Buckets - d, true) == Index(s, d, false)
  {
  }

  /** Both scans see the same buckets: whichever finds one, the other finds one within the lap. */
  lemma ScansMeet(t: seq<int>, s: int)
    requires |t| == Buckets && 0 <= s < Buckets
    ensures var f, b := Distance(t, s, true), Distance(t, s, false);
      && (f == 0 <==> t[s] != 0) && (b == 0 <==> t[s] != 0)
      && (f == IntMax <==> b == IntMax)
      && (0 < f < Buckets ==> b <= Buckets - f)
      && (0 < b < Buckets ==> f <= Buckets - b)
  {
    var f, b := Distance(t, s, true), Distance(t, s, false);
    assert Index(s, 0, true) == s && Index(s, 0, false) == s;
    if 0 < f < Buckets {
      Mirror(s, f);
    }
    if 0 < b < Buckets {
      Mirror(s, b);
    }
  }

  /** The offset never exceeds half a turn: a 180/180 tie gives 0. */
  lemma OffsetBounds(t: seq<int>, s: int)
    requires |t| == Buckets && 0 <= s < Buckets
    ensures -179 <= SignedOffset(Distance(t, s, true), Distance(t, s, false)) <= 179
  {
    ScansMeet(t, s);
  }

  /**
   * What a non-zero offset means: a positive offset r is the nearest non-zero
   * bucket clockwise, with nothing non-zero counter-clockwise up to r steps;
   * a negative offset is the mirror image.
   */
  lemma OffsetIsNearest(t: seq<int>, s: int)
    requires |t| == Buckets && 0 <= s < Buckets
    ensures var r := SignedOffset(Distance(t, s, true), Distance(t, s, false));
      && (r > 0 ==> t[Index(s, r, true)] != 0
                    && forall j :: 0 <= j <= r ==> t[Index(s, j, false)] == 0 && (j < r ==> t[Index(s, j, true)] == 0))
      && (r < 0 ==> t[Index(s, -r, false)] != 0
                    && forall j :: 0 <= j <= -r ==> t[Index(s, j, true)] == 0 && (j < -r ==> t[Index(s, j, false)] == 0))
  {
    ScansMeet(t, s);
  }

  /**
   * What an offset of 0 means: the start bucket is non-zero, the histogram is
   * empty, or the nearest non-zero buckets on both sides are equally far.
   */
  lemma ZeroOffsetIsTie(t: seq<int>, s: int)
    requires |t| == Buckets && 0 <= s < Buckets
    requires SignedOffset(Distance(t, s, true), Distance(t, s, false)) == 0
    ensures || t[s] != 0
            || (forall k :: 0 <= k < Buckets ==> t[k] == 0)
            || exists d :: TieAt(t, s, d)
  {
    ScansMeet(t, s);
    var f := Distance(t, s, true);
    if f == IntMax {
      forall k | 0 <= k < Buckets
        ensures t[k] == 0
      {
        Reach(s, k);
      }
    } else if f != 0 {
      assert TieAt(t, s, f);
    }
  }

  ghost predicate TieAt(t: seq<int>, s: int, d: int)
    requires |t| == Buckets && 0 <= s < Buckets
  {
    0 < d <= 180 && t[Index(s, d, true)] != 0 && t[Index(s, d, false)] != 0
    && forall j :: 0 <= j < d ==> t[Index(s, j, true)] == 0 && t[Index(s, j, false)] == 0
  }

  /** Every bucket is some number of clockwise steps from the start. */
  lemma Reach(s: int, k: int)
    requires 0 <= s < Buckets && 0 <= k < Buckets
    ensures var d := if s <= k then k - s else k - s + Buckets;
      0 <= d < Buckets && Index(s, d, true) == k
  {
  }

  /** A non-zero start bucket stops both scans at once: the offset is 0. */
  lemma StartBucketNonZero(t: seq<int>, s: int)
    requires |t| == Buckets && 0 <= s < Buckets
    requires t[s] != 0
    ensures Distance(t, s, true) == 0 && Distance(t, s, false) == 0
    ensures SignedOffset(Distance(t, s, true), Distance(t, s, false)) == 0
  {
    assert Index(s, 0, true) == s && Index(s, 0, false) == s;
  }

  /** On an empty histogram both scans run a full lap, report `IntMax`, and the tie gives 0. */
  lemma AllZero(t: seq<int>, s: int)
    requires |t| == Buckets && 0 <= s < Buckets
    requires forall k :: 0 <= k < Buckets ==> t[k] == 0
    ensures Distance(t, s, true) == IntMax && Distance(t, s, false) == IntMax
    ensures SignedOffset(Distance(t, s, true), Distance(t, s, false)) == 0
  {
  }

  /** A scan stops at the first non-zero bucket it meets. */
  lemma ScanFinds(t: seq<int>, s: int, clockwise: bool, r: int)
    requires |t| == Buckets && 0 <= s < Buckets && 0 <= r < Buckets
    requires t[Index(s, r, clockwise)] != 0
    requires forall j :: 0 <= j < r ==> t[Index(s, j, clockwise)] == 0
    ensures Distance(t, s, clockwise) == r
  {
  }

  /** Only the r-th step of a scan from s reaches bucket k, r < 360. */
  lemma OnlyStep(s: int, k: int, r: int, clockwise: bool)
    requires 0 <= s < Buckets && 0 <= k < Buckets && 0 <= r < Buckets
    requires Index(s, r, clockwise) == k
    ensures forall j :: 0 <= j < Buckets && j != r ==> Index(s, j, clockwise) != k
  {
  }

  /** With one populated sector k, a scan stops at the step that reaches k. */
  lemma SingleSectorScan(t: seq<int>, s: int, k: int, r: int, clockwise: bool)
    requires |t| == Buckets && 0 <= s < Buckets && 0 <= k < Buckets && 0 <= r < Buckets
    requires t[k] != 0 && forall i :: 0 <= i < Buckets && i != k ==> t[i] == 0
    requires Index(s, r, clockwise) == k
    ensures Distance(t, s, clockwise) == r
  {
    OnlyStep(s, k, r, clockwise);
    ScanFinds(t, s, clockwise, r);
  }

  /**
   * A histogram with a single populated sector k: the clockwise distance is
   * (k - s) mod 360, the counter-clockwise one (s - k) mod 360.
   */
  lemma SingleSector(t: seq<int>, s: int, k: int)
    requires |t| == Buckets && 0 <= s < Buckets && 0 <= k < Buckets
    requires t[k] != 0 && forall i :: 0 <= i < Buckets && i != k ==> t[i] == 0
    ensures Distance(t, s, true) == (k - s) % Buckets
    ensures Distance(t, s, false) == (s - k) % Buckets
  {
    var f := if s <= k then k - s else k - s + Buckets;
    var b := if k <= s then s - k else s - k + Buckets;
    IndexIsModular(s, f);
    IndexIsModular(s, b);
    assert f == (k - s) % Buckets by {
      assert k - s == Buckets * (if s <= k then 0 else -1) + f;
    }
    assert b == (s - k) % Buckets by {
      assert s - k == Buckets * (if k <= s then 0 else -1) + b;
    }
    SingleSectorScan(t, s, k, f, true);
    SingleSectorScan(t, s, k, b, false);
  }

  /**
   * One populated sector at index 10: from start index 5 the offset is +5
   * (5 clockwise against 355), from start index 15 it is -5.
   */
  lemma SingleSectorSigns(t: seq<int>)
    requires |t| == Buckets && t[10] != 0 && forall i :: 0 <= i < Buckets && i != 10 ==> t[i] == 0
    ensures SignedOffset(Distance(t, 5, true), Distance(t, 5, false)) == 5
    ensures SignedOffset(Distance(t, 15, true), Distance(t, 15, false)) == -5
  {
    SingleSector(t, 5, 10);
    SingleSector(t, 15, 10);
  }

  /** A scan moves past a zero bucket and stops at a non-zero one. */
  lemma ScanStep(t: seq<int>, s: int, clockwise: bool, d: nat)
    requires |t| == Buckets && 0 <= s < Buckets && d < Buckets
    ensures t[Index(s, d, clockwise)] != 0 ==> Scan(t, s, clockwise, d) == d
    ensures t[Index(s, d, clockwise)] == 0 ==> Scan(t, s, clockwise, d) == Scan(t, s, clockwise, d + 1)
    ensures d + 1 == Buckets ==> Scan(t, s, clockwise, d + 1) == IntMax
  {
  }

  /** One more step of a scan, as the loops compute it, and the lap test. */
  lemma Step(s: int, d: int)
    requires 0 <= s < Buckets && 0 <= d < Buckets
    ensures (Index(s, d, true) + 1) % Buckets == Index(s, d + 1, true)
    ensures (Index(s, d, false) - 1 + Buckets) % Buckets == Index(s, d + 1, false)
    ensures Index(s, d + 1, true) == s <==> d + 1 == Buckets
    ensures Index(s, d + 1, false) == s <==> d + 1 == Buckets
  {
    if s + d + 1 < Buckets {
      assert Index(s, d + 1, true) == s + d + 1;
    } else {
      assert Index(s, d + 1, true) == s + d + 1 - Buckets;
    }
    if s - d - 1 >= 0 {
      assert Index(s, d + 1, false) == s - d - 1;
    } else {
      assert Index(s, d + 1, false) == s - d - 1 + Buckets;
    }
  }

  /** The first loop of `calculerDistance`: step clockwise until a non-zero bucket or a full lap. */
  method ClockwiseDistance(tableau: array<int>, startIndex: int) returns (distanceForward: int)
    requires tableau.Length == Buckets && 0 <= startIndex < Buckets
    ensures distanceForward == Distance(tableau[..], startIndex, true)
  {
    ghost var t := tableau[..];
    var indexForward := startIndex;
    distanceForward := 0;
    while true
      invariant 0 <= distanceForward < Buckets
      invariant indexForward == Index(startIndex, distanceForward, true)
      invariant Distance(t, startIndex, true) == Scan(t, startIndex, true, distanceForward)
      decreases Buckets - distanceForward
    {
      ScanStep(t, startIndex, true, distanceForward);
      if tableau[indexForward] != 0 {
        return;
      }
      Step(startIndex, distanceForward);
      indexForward := (indexForward + 1) % Buckets;
      distanceForward := distanceForward + 1;
      if indexForward == startIndex {
        distanceForward := IntMax;
        return;
      }
    }
  }

  /** The second loop of `calculerDistance`: the same scan counter-clockwise. */
  method CounterClockwiseDistance(tableau: array<int>, startIndex: int) returns (distanceBackward: int)
    requires tableau.Length == Buckets && 0 <= startIndex < Buckets
    ensures distanceBackward == Distance(tableau[..], startIndex, false)
  {
    ghost var t := tableau[..];
    var indexBackward := startIndex;
    distanceBackward := 0;
    while true
      invariant 0 <= distanceBackward < Buckets
      invariant indexBackward == Index(startIndex, distanceBackward, false)
      invariant Distance(t, startIndex, false) == Scan(t, startIndex, false, distanceBackward)
      decreases Buckets - distanceBackward
    {
      ScanStep(t, startIndex, false, distanceBackward);
      if tableau[indexBackward] != 0 {
        return;
      }
      Step(startIndex, distanceBackward);
      indexBackward := (indexBackward - 1 + Buckets) % Buckets;
      distanceBackward := distanceBackward + 1;
      if indexBackward == startIndex {
        distanceBackward := IntMax;
        return;
      }
    }
  }

  /**
   * `calculerDistance`: the signed number of degrees from the wind bearing to
   * the nearest populated sector. `tableau` is read only.
   */
  method CalculerDistance(tableau: array<int>, windDirection: real) returns (offset: int)
    requires tableau.Length == Buckets
    requires 0 <= StartIndex(windDirection)
    ensures offset == SignedOffset(Distance(tableau[..], StartIndex(windDirection), true),
                                   Distance(tableau[..], StartIndex(windDirection), false))
    ensures -179 <= offset <= 179
  {
    var startIndex := StartIndex(windDirection);
    var distanceForward := ClockwiseDistance(tableau, startIndex);
    var distanceBackward := CounterClockwiseDistance(tableau, startIndex);
    if distanceForward < distanceBackward {
      offset := distanceForward;
    } else if distanceBackward < distanceForward {
      offset := -distanceBackward;
    } else {
      offset := 0;
    }
    OffsetBounds(tableau[..], startIndex);
  }

  /** The histogram hard-coded in main.cpp. */
  const MainTable: seq<int> :=
    (
      [0, 0, 0, 0, 0, 0, 0, 0, 1, 0, 0, 0, 0, 0, 0, 0, 0, 0, 0, 0, 0, 0, 3, 0, 0, 0, 0, 0, 0, 0] +
      [0, 0, 1, 0, 2, 0, 0, 1, 0, 0, 0, 0, 0, 0, 0, 0, 0, 0, 0, 0, 1, 0, 2, 1, 2, 0, 0, 0, 0, 0] +
      [0, 0, 1, 0, 0, 0, 0, 0, 0, 0, 0, 0, 0, 0, 0, 0, 0, 0, 2, 0, 0, 0, 0, 0, 0, 1, 0, 0, 0, 0] +
      [0, 0, 0, 0, 0, 0, 0, 0, 0, 0, 0, 0, 0, 0, 0, 0, 2, 0, 0, 0, 0, 0, 0, 0, 0, 0, 0, 0, 0, 0]
    ) +
    (
      [0, 0, 0, 0, 0, 0, 0, 0, 1, 0, 1, 0, 0, 0, 0, 0, 0, 0, 0, 1, 0, 0, 0, 0, 0, 0, 0, 0, 0, 0] +
      [2, 0, 0, 0, 0, 0, 2, 0, 0, 0, 0, 0, 0, 0, 0, 0, 0, 0, 0, 0, 0, 0, 0, 0, 0, 0, 2, 0, 0, 0] +
      [2, 0, 0, 0, 0, 1, 0, 0, 0, 0, 0, 0, 0, 0, 0, 0, 0, 0, 0, 1, 0, 0, 0, 0, 0, 0, 0, 0, 0, 2] +
      [2, 1, 0, 0, 0, 0, 1, 0, 0, 0, 0, 0, 0, 0, 0, 0, 0, 0, 0, 0, 0, 2, 0, 0, 0, 0, 2, 2, 2, 0]
    ) +
    (
      [2, 0, 0, 0, 0, 1, 0, 0, 0, 0, 0, 0, 0, 0, 0, 0, 0, 0, 0, 2, 0, 0, 0, 0, 0, 0, 2, 0, 0, 0] +
      [2, 0, 0, 0, 0, 0, 0, 0, 1, 0, 0, 0, 0, 0, 0, 0, 0, 0, 0, 0, 0, 0, 0, 0, 0, 0, 0, 0, 0, 0] +
      [0, 0, 2, 0, 0, 0, 0, 0, 0, 0, 0, 0, 0, 0, 2, 0, 0, 0, 0, 0, 0, 0, 1, 0, 0, 0, 0, 0, 0, 0] +
      [0, 0, 0, 0, 2, 2, 0, 0, 0, 0, 0, 0, 0, 1, 0, 0, 0, 0, 0, 0, 0, 0, 0, 0, 0, 0, 0, 0, 0, 1]
    )

  /** The first call of main.cpp, with bearing 0.0, starts at index -1: outside the array. */
  lemma MainZeroBearingOutOfBounds()
    ensures StartIndex(0.0) == -1
  {
  }

  lemma MainTableLength()
    ensures |MainTable| == Buckets
  {
  }

  /** Bearing 6.0 starts the search at index 5. */
  lemma MainSixStart()
    ensures StartIndex(6.0) == 5
  {
  }

  /** Over the main.cpp histogram from index 5 the clockwise scan stops at index 8. */
  lemma MainForwardScan()
    ensures Distance(MainTable, 5, true) == 3
  {
    var t := MainTable;
    assert |t| == Buckets;
    assert t[5] == 0 && t[6] == 0 && t[7] == 0 && t[8] == 1;
    assert Scan(t, 5, true, 3) == 3;
    assert Scan(t, 5, true, 2) == 3;
    assert Scan(t, 5, true, 1) == 3;
  }

  /** Over the main.cpp histogram from index 5 the counter-clockwise scan stops at index 359. */
  lemma MainBackwardScan()
    ensures Distance(MainTable, 5, false) == 6
  {
    var t := MainTable;
    assert |t| == Buckets;
    assert t[5] == 0 && t[4] == 0 && t[3] == 0 && t[2] == 0 && t[1] == 0 && t[0] == 0 && t[359] == 1;
    assert Scan(t, 5, false, 6) == 6;
    assert Scan(t, 5, false, 5) == 6;
    assert Scan(t, 5, false, 4) == 6;
    assert Scan(t, 5, false, 3) == 6;
    assert Scan(t, 5, false, 2) == 6;
    assert Scan(t, 5, false, 1) == 6;
  }

  /**
   * The second call of main.cpp, with bearing 6.0: start index 5, nearest
   * non-zero bucket 3 steps clockwise (index 8) and 6 counter-clockwise (index 359).
   */
  method MainSixDegrees() returns (dist: int)
    ensures dist == 3
  {
    MainTableLength();
    var x := new int[Buckets];
    forall k | 0 <= k < Buckets {
      x[k] := MainTable[k];
    }
    assert x[..] == MainTable;
    MainSixStart();
    MainForwardScan();
    MainBackwardScan();
    dist := CalculerDistance(x, 6.0);
  }

  /** The items of a histogram in decimal, joined by commas. */
  function RenderItems(t: seq<int>): string
    requires |t| >= 1
  {
    if |t| == 1 then IntToDecimal(t[0])
    else RenderItems(t[..|t| - 1]) + "," + IntToDecimal(t[|t| - 1])
  }

  /** The text form of a histogram: its items between square brackets. */
  function Render(t: seq<int>): (s: string)
    requires |t| >= 1
    ensures |s| >= 2 && s[0] == '[' && s[|s| - 1] == ']'
  {
    "[" + RenderItems(t) + "]"
  }

  /** Reads comma-separated decimals back. */
  function ParseItems(parts: seq<string>): (v: seq<int>)
    ensures |v| == |parts|
  {
    if parts == [] then [] else ParseItems(parts[..|parts| - 1]) + [ParseDecimal(parts[|parts| - 1])]
  }

  /** The inverse of `Render`: a bracketed comma-separated list of decimals. */
  function Unrender(s: string): Option<seq<int>>
  {
    if |s| >= 2 && s[0] == '[' && s[|s| - 1] == ']' then Some(ParseItems(Split(s[1..|s| - 1], ','))) else None
  }

  lemma DecimalHasNoComma(n: int)
    ensures ',' !in IntToDecimal(n)
  {
    var s := IntToDecimal(n);
    forall k | 0 <= k < |s|
      ensures s[k] != ','
    {
      assert IsDigit(s[k]) || s[k] == '-';
    }
  }

  lemma ParseItemsSnoc(parts: seq<string>, x: string)
    ensures ParseItems(parts + [x]) == ParseItems(parts) + [ParseDecimal(x)]
  {
    assert (parts + [x])[..|parts|] == parts;
  }

  lemma FrontAndLast<T>(t: seq<T>)
    requires |t| >= 1
    ensures t[..|t| - 1] + [t[|t| - 1]] == t
  {
  }

  lemma {:induction false} RenderItemsRoundTrip(t: seq<int>)
    requires |t| >= 1
    ensures ParseItems(Split(RenderItems(t), ',')) == t
  {
    var x := IntToDecimal(t[|t| - 1]);
    DecimalHasNoComma(t[|t| - 1]);
    DecimalRoundTrip(t[|t| - 1]);
    if |t| == 1 {
      SplitWhole(x, ',');
      assert ParseItems([x]) == [ParseDecimal(x)];
    } else {
      var front := t[..|t| - 1];
      var r := RenderItems(front);
      var parts := Split(r, ',');
      assert RenderItems(t) == r + [','] + x;
      SplitSnoc(r, x, ',');
      assert Split(RenderItems(t), ',') == parts + [x];
      ParseItemsSnoc(parts, x);
      RenderItemsRoundTrip(front);
      assert ParseItems(parts) == front;
      FrontAndLast(t);
    }
  }

  /** Reading the text form back gives the histogram again. */
  lemma RenderRoundTrip(t: seq<int>)
    requires |t| >= 1
    ensures Unrender(Render(t)) == Some(t)
  {
    var s := Render(t);
    assert s[1..|s| - 1] == RenderItems(t);
    RenderItemsRoundTrip(t);
  }

  /** The text form has exactly one comma between consecutive items and no other. */
  lemma {:induction false} RenderCommas(t: seq<int>)
    requires |t| >= 1
    ensures Count(Render(t), ',') == |t| - 1
  {
    RenderItemsCommas(t);
    CountAppend("[" + RenderItems(t), "]", ',');
    CountAppend("[", RenderItems(t), ',');
  }

  lemma {:induction false} RenderItemsCommas(t: seq<int>)
    requires |t| >= 1
    ensures Count(RenderItems(t), ',') == |t| - 1
  {
    var x := IntToDecimal(t[|t| - 1]);
    DecimalHasNoComma(t[|t| - 1]);
    CountAbsent(x, ',');
    if |t| > 1 {
      RenderItemsCommas(t[..|t| - 1]);
      CountAppend(RenderItems(t[..|t| - 1]) + ",", x, ',');
      CountAppend(RenderItems(t[..|t| - 1]), ",", ',');
    }
  }

  /** The text `toString` has built after the first `i` buckets. */
  function Prefix(t: seq<int>, i: nat): string
    requires 0 < i <= |t|
  {
    "[" + RenderItems(t[..i]) + (if i < |t| then "," else "")
  }

  lemma PrefixStep(t: seq<int>, i: nat)
    requires 0 < i < |t|
    ensures Prefix(t, i + 1) == Prefix(t, i) + IntToDecimal(t[i]) + (if i + 1 < |t| then "," else "")
  {
    assert t[..i + 1][..i] == t[..i];
  }

  /**
   * `toString`: "[", the 360 bucket values in index order separated by
   * commas, "]".
   */
  method ToString(tableChar: array<int>) returns (result: string)
    requires tableChar.Length == Buckets
    ensures result == Render(tableChar[..])
    ensures Count(result, ',') == Buckets - 1
    ensures Unrender(result) == Some(tableChar[..])
  {
    ghost var t := tableChar[..];
    result := "[";
    for i := 0 to Buckets
      invariant i == 0 ==> result == "["
      invariant 0 < i ==> result == Prefix(t, i)
    {
      if i == 0 {
        assert t[..1] == [t[0]];
      } else {
        PrefixStep(t, i);
      }
      result := result + IntToDecimal(tableChar[i]);
      if i < Buckets - 1 {
        result := result + ",";
      }
    }
    result := result + "]";
    assert t[..Buckets] == t;
    RenderCommas(t);
    RenderRoundTrip(t);
  }
}
