/**
 * The record filter and the hourly statistics of `WeatherRetriever`
 * (weatherretriever.cpp): reading the death-record CSV, dropping every
 * record whose date is a Sunday, a French holiday or missing, and the
 * windowed min / max / mean over an hourly JSON series.
 *
 * The file arrives as its lines; `QString::toInt` and `QString::toDouble`
 * are taken as given conversions about which nothing is assumed.
 */
module Retriever {
  import opened Text
  import opened Calendar
  import opened Wrappers

  /** `QString::toInt` and `QString::toDouble`. */
  datatype Conversions = Conversions(toInt: string -> int, toDouble: string -> real)

  datatype DeathRecord = DeathRecord(sexe: int, delta: int, dateDeces: QDate, latitude: real, longitude: real)

  /** The death-record file: either it cannot be opened, or it is read as lines. */
  datatype CsvFile = Unreadable | Readable(lines: seq<string>)

  /** The `YYYYMMDD` field: read as year, month and day only when it has exactly 8 characters. */
  function ParseDate(field: string, conv: Conversions): QDate {
    if |field| == 8 then MakeDate(conv.toInt(field[..4]), conv.toInt(field[4..6]), conv.toInt(field[6..]))
    else NullDate
  }

  /** A data line as a record: none for an empty line or one with fewer than five comma-separated fields. */
  function ParseLine(line: string, conv: Conversions): Option<DeathRecord> {
    if line == "" then None
    else
      var parts := Split(line, ',');
      if |parts| < 5 then None
      else Some(DeathRecord(conv.toInt(parts[0]), conv.toInt(parts[1]), ParseDate(parts[2], conv),
                            conv.toDouble(parts[3]), conv.toDouble(parts[4])))
  }

  /** What one data line adds to the records: its record, unless it has none or its date is excluded. */
  function Kept(line: string, conv: Conversions): seq<DeathRecord> {
    match ParseLine(line, conv)
    case None => []
    case Some(r) => if IsExcludedDate(r.dateDeces) then [] else [r]
  }

  /** What each element yields, concatenated in order. */
  function Gather<A, B>(xs: seq<A>, f: A -> seq<B>): seq<B> {
    if xs == [] then [] else Gather(xs[..|xs| - 1], f) + f(xs[|xs| - 1])
  }

  /** The records kept from a run of data lines, in file order. */
  function Admitted(lines: seq<string>, conv: Conversions): seq<DeathRecord> {
    Gather(lines, line => Kept(line, conv))
  }

  /** The lines after the header (an empty file has neither). */
  function DataLines(lines: seq<string>): seq<string> {
    if lines == [] then [] else lines[1..]
  }

  class WeatherRetriever {
    var deathRecords: seq<DeathRecord>

    constructor ()
      ensures deathRecords == []
    {
      deathRecords := [];
    }

    /**
     * `loadDeathRecords`: fails, changing nothing, when the file cannot be
     * opened; otherwise skips the header and appends the admitted records of
     * the remaining lines, in order.
     */
    method LoadDeathRecords(file: CsvFile, conv: Conversions) returns (ok: bool)
      modifies this
      ensures ok <==> file.Readable?
      ensures !ok ==> deathRecords == old(deathRecords)
      ensures ok ==> deathRecords == old(deathRecords) + Admitted(DataLines(file.lines), conv)
    {
      if file.Unreadable? {
        return false;
      }
      var lines := file.lines;
      var i := if |lines| > 0 then 1 else 0;
      ghost var start := i;
      while i < |lines|
        invariant start <= i <= |lines|
        invariant deathRecords == old(deathRecords) + Admitted(lines[start..i], conv)
      {
        AdmittedSnoc(lines, start, i + 1, conv);
        AppendAssociates(old(deathRecords), Admitted(lines[start..i], conv), Kept(lines[i], conv));
        ReadDataLine(lines[i], conv);
        i := i + 1;
      }
      assert lines[start..i] == DataLines(lines);
      return true;
    }

    /** The body of the read loop: one data line, appended when it yields an admitted record. */
    method ReadDataLine(line: string, conv: Conversions)
      modifies this
      ensures deathRecords == old(deathRecords) + Kept(line, conv)
    {
      if line == "" {
        return;
      }
      var parts := Split(line, ',');
      if |parts| < 5 {
        return;
      }
      var dateDeces := NullDate;
      var dateStr := parts[2];
      if |dateStr| == 8 {
        dateDeces := MakeDate(conv.toInt(dateStr[..4]), conv.toInt(dateStr[4..6]), conv.toInt(dateStr[6..]));
      }
      var record := DeathRecord(conv.toInt(parts[0]), conv.toInt(parts[1]), dateDeces,
                                conv.toDouble(parts[3]), conv.toDouble(parts[4]));
      assert ParseLine(line, conv) == Some(record);
      KeptRecord(line, conv, record);
      if !IsExcludedDate(record.dateDeces) {
        deathRecords := deathRecords + [record];
      }
    }
  }

  lemma AppendAssociates<T>(a: seq<T>, b: seq<T>, c: seq<T>)
    ensures a + (b + c) == (a + b) + c
  {
  }

  lemma KeptRecord(line: string, conv: Conversions, record: DeathRecord)
    requires ParseLine(line, conv) == Some(record)
    ensures Kept(line, conv) == if IsExcludedDate(record.dateDeces) then [] else [record]
  {
  }

  lemma GatherSnoc<A, B>(xs: seq<A>, lo: int, hi: int, f: A -> seq<B>)
    requires 0 <= lo < hi <= |xs|
    ensures Gather(xs[lo..hi], f) == Gather(xs[lo..hi - 1], f) + f(xs[hi - 1])
  {
    assert xs[lo..hi][..hi - 1 - lo] == xs[lo..hi - 1];
  }

  lemma AdmittedSnoc(lines: seq<string>, lo: int, hi: int, conv: Conversions)
    requires 0 <= lo < hi <= |lines|
    ensures Admitted(lines[lo..hi], conv) == Admitted(lines[lo..hi - 1], conv) + Kept(lines[hi - 1], conv)
  {
    GatherSnoc(lines, lo, hi, line => Kept(line, conv));
  }

  lemma {:induction false} GatherAppend<A, B>(a: seq<A>, b: seq<A>, f: A -> seq<B>)
    ensures Gather(a + b, f) == Gather(a, f) + Gather(b, f)
    decreases |b|
  {
    if b == [] {
      assert a + b == a;
    } else {
      var b' := b[..|b| - 1];
      assert (a + b)[..|a + b| - 1] == a + b';
      GatherAppend(a, b', f);
    }
  }

  /** Reading two runs of lines one after the other keeps the records of both, in order. */
  lemma AdmittedAppend(a: seq<string>, b: seq<string>, conv: Conversions)
    ensures Admitted(a + b, conv) == Admitted(a, conv) + Admitted(b, conv)
  {
    GatherAppend(a, b, line => Kept(line, conv));
  }

  lemma {:induction false} GatherMembers<A, B>(xs: seq<A>, f: A -> seq<B>, y: B)
    ensures y in Gather(xs, f) <==> exists k :: 0 <= k < |xs| && y in f(xs[k])
  {
    if xs != [] {
      var front := xs[..|xs| - 1];
      GatherMembers(front, f, y);
      if exists k :: 0 <= k < |xs| && y in f(xs[k]) {
        var k :| 0 <= k < |xs| && y in f(xs[k]);
        if k < |xs| - 1 {
          assert front[k] == xs[k];
        }
      }
    }
  }

  /**
   * A record is admitted exactly when some data line parses to it and its
   * date is not excluded.
   */
  lemma AdmittedMembers(lines: seq<string>, conv: Conversions, r: DeathRecord)
    ensures r in Admitted(lines, conv) <==>
      exists k :: 0 <= k < |lines| && ParseLine(lines[k], conv) == Some(r) && !IsExcludedDate(r.dateDeces)
  {
    var f := line => Kept(line, conv);
    GatherMembers(lines, f, r);
    if r in Admitted(lines, conv) {
      var k :| 0 <= k < |lines| && r in f(lines[k]);
      KeptMembers(lines[k], conv, r);
    }
    if exists k :: 0 <= k < |lines| && ParseLine(lines[k], conv) == Some(r) && !IsExcludedDate(r.dateDeces) {
      var k :| 0 <= k < |lines| && ParseLine(lines[k], conv) == Some(r) && !IsExcludedDate(r.dateDeces);
      KeptMembers(lines[k], conv, r);
      assert r in f(lines[k]);
    }
  }

  lemma KeptMembers(line: string, conv: Conversions, r: DeathRecord)
    ensures r in Kept(line, conv) <==> ParseLine(line, conv) == Some(r) && !IsExcludedDate(r.dateDeces)
  {
  }

  /**
   * Every admitted record carries a real date (so its date field had eight
   * characters and named an existing day) that is neither a Sunday nor a
   * holiday of its year.
   */
  lemma AdmittedDates(lines: seq<string>, conv: Conversions, r: DeathRecord)
    requires r in Admitted(lines, conv)
    ensures r.dateDeces.Ymd? && DayOfWeek(r.dateDeces) != 7 && !IsHoliday(r.dateDeces)
  {
    AdmittedMembers(lines, conv, r);
    ExcludedDates(r.dateDeces);
  }

  /** A line with fewer than four commas (the empty line included) yields no record. */
  lemma ShortLineSkipped(line: string, conv: Conversions)
    requires Count(line, ',') < 4
    ensures ParseLine(line, conv) == None && Kept(line, conv) == []
  {
    SplitLength(line, ',');
  }

  /** An eight-character date field is read as four digits of year, two of month, two of day. */
  lemma DateFields(yyyy: string, mm: string, dd: string, conv: Conversions)
    requires |yyyy| == 4 && |mm| == 2 && |dd| == 2
    ensures ParseDate(yyyy + mm + dd, conv) == MakeDate(conv.toInt(yyyy), conv.toInt(mm), conv.toInt(dd))
  {
    var field := yyyy + mm + dd;
    assert field[..4] == yyyy && field[4..6] == mm && field[6..] == dd;
  }

  /**
   * The line format the reader expects, `sexe,delta,datedeces,latitude,longitude`:
   * five comma-free fields joined by commas give the record of those fields.
   */
  lemma FiveFields(f0: string, f1: string, f2: string, f3: string, f4: string, conv: Conversions)
    requires ',' !in f0 && ',' !in f1 && ',' !in f2 && ',' !in f3 && ',' !in f4
    ensures ParseLine(f0 + "," + f1 + "," + f2 + "," + f3 + "," + f4, conv)
      == Some(DeathRecord(conv.toInt(f0), conv.toInt(f1), ParseDate(f2, conv), conv.toDouble(f3), conv.toDouble(f4)))
  {
    var l1, l2, l3 := f0 + "," + f1, f0 + "," + f1 + "," + f2, f0 + "," + f1 + "," + f2 + "," + f3;
    var line := l3 + "," + f4;
    SplitWhole(f0, ',');
    SplitSnoc(f0, f1, ',');
    SplitSnoc(l1, f2, ',');
    SplitSnoc(l2, f3, ',');
    SplitSnoc(l3, f4, ',');
    assert Split(line, ',') == [f0, f1, f2, f3, f4];
    assert line != "" by {
      assert |line| >= 4;
    }
  }

  /** A date field that is not eight characters long leaves the date null, and the line is dropped. */
  lemma BadDateDropped(line: string, conv: Conversions)
    requires var parts := Split(line, ','); |parts| >= 5 && |parts[2]| != 8
    ensures Kept(line, conv) == []
  {
    ExcludedDates(NullDate);
  }

  /** A value of the hourly JSON array. */
  datatype JsonValue = Null | Undefined | Number(n: real) | NonNumeric

  /** `QJsonArray::operator[]`: an index outside the array reads as undefined. */
  function At(data: seq<JsonValue>, i: int): (v: JsonValue)
    ensures !(0 <= i < |data|) ==> v == Undefined
  {
    if 0 <= i < |data| then data[i] else Undefined
  }

  /** `QJsonValue::toDouble`: 0 for anything that is not a number. */
  function ToDouble(v: JsonValue): real {
    if v.Number? then v.n else 0.0
  }

  /** The values the statistics take in over indices [lo, hi): every non-null entry, in index order. */
  function Counted(data: seq<JsonValue>, lo: int, hi: int): seq<real>
    decreases hi - lo
  {
    if hi <= lo then []
    else Counted(data, lo, hi - 1) + (if At(data, hi - 1).Null? then [] else [ToDouble(At(data, hi - 1))])
  }

  /**
   * The running state of `calculateStats` once it has taken in the values
   * `vs`: their count and sum, whether none has been seen yet, and their
   * least and greatest value (both 0 before the first).
   */
  ghost predicate StatsState(vs: seq<real>, sum: real, count: int, firstValue: bool, min: real, max: real) {
    && count == |vs| && sum == Sum(vs)
    && (firstValue <==> vs == [])
    && (vs == [] ==> min == 0.0 && max == 0.0)
    && (vs != [] ==> min in vs && max in vs)
    && Bounded(vs, min, max)
  }

  /** The body of the loop of `calculateStats` for a non-null entry: one more value taken in. */
  method Take(value: real, ghost vs: seq<real>, sum: real, count: int, firstValue: bool, min: real, max: real)
    returns (sum': real, count': int, firstValue': bool, min': real, max': real)
    requires StatsState(vs, sum, count, firstValue, min, max)
    ensures StatsState(vs + [value], sum', count', firstValue', min', max')
  {
    sum' := sum + value;
    count' := count + 1;
    min', max', firstValue' := min, max, firstValue;
    if firstValue {
      min' := value;
      max' := value;
      firstValue' := false;
      assert vs + [value] == [value];
    } else {
      if value < min' {
        min' := value;
      }
      if value > max' {
        max' := value;
      }
    }
    ghost var lo, hi := if firstValue then value else min, if firstValue then value else max;
    BoundsExtend(vs, value, lo, hi, min', max');
    InSnoc(vs, value, min');
    InSnoc(vs, value, max');
    SumSnoc(vs, value);
  }

  /** One pass of the loop of `calculateStats`: entry `i` is taken in unless it is null. */
  method ReadEntry(data: seq<JsonValue>, lo: int, i: int, sum: real, count: int, firstValue: bool, min: real, max: real)
    returns (sum': real, count': int, firstValue': bool, min': real, max': real)
    requires lo <= i
    requires StatsState(Counted(data, lo, i), sum, count, firstValue, min, max)
    ensures StatsState(Counted(data, lo, i + 1), sum', count', firstValue', min', max')
  {
    CountedStep(data, lo, i);
    sum', count', firstValue', min', max' := sum, count, firstValue, min, max;
    var val := At(data, i);
    if !val.Null? {
      var value := ToDouble(val);
      sum', count', firstValue', min', max' := Take(value, Counted(data, lo, i), sum, count, firstValue, min, max);
      StatsNext(data, lo, i, sum', count', firstValue', min', max');
    }
  }

  lemma StatsNext(data: seq<JsonValue>, lo: int, i: int, sum: real, count: int, firstValue: bool, min: real, max: real)
    requires lo <= i && !At(data, i).Null?
    requires StatsState(Counted(data, lo, i) + [ToDouble(At(data, i))], sum, count, firstValue, min, max)
    ensures StatsState(Counted(data, lo, i + 1), sum, count, firstValue, min, max)
  {
    CountedStep(data, lo, i);
  }

  /** Every value of `vs` lies in [lo, hi]. */
  predicate Bounded(vs: seq<real>, lo: real, hi: real) {
    forall v :: v in vs ==> lo <= v <= hi
  }

  lemma BoundsExtend(vs: seq<real>, value: real, lo: real, hi: real, lo': real, hi': real)
    requires Bounded(vs, lo, hi)
    requires lo' <= lo && hi <= hi' && lo' <= value <= hi'
    ensures Bounded(vs + [value], lo', hi')
  {
    SnocMembers(vs, value);
  }

  lemma InSnoc(vs: seq<real>, value: real, x: real)
    requires x in vs || x == value
    ensures x in vs + [value]
  {
  }

  lemma SumSnoc(vs: seq<real>, value: real)
    ensures Sum(vs + [value]) == Sum(vs) + value
  {
    assert (vs + [value])[..|vs|] == vs;
  }

  lemma SnocMembers(vs: seq<real>, value: real)
    ensures forall v :: v in vs + [value] <==> v in vs || v == value
  {
  }

  function Sum(vs: seq<real>): real {
    if vs == [] then 0.0 else Sum(vs[..|vs| - 1]) + vs[|vs| - 1]
  }

  /** The counted values are exactly the non-null entries of the window, read as doubles. */
  lemma {:induction false} CountedMembers(data: seq<JsonValue>, lo: int, hi: int, v: real)
    ensures v in Counted(data, lo, hi) <==>
      exists i :: lo <= i < hi && !At(data, i).Null? && ToDouble(At(data, i)) == v
    decreases hi - lo
  {
    if hi > lo {
      var j := hi - 1;
      CountedMembers(data, lo, j, v);
      CountedStep(data, lo, j);
      if !At(data, j).Null? && ToDouble(At(data, j)) == v {
        assert v in Counted(data, lo, hi);
        assert lo <= j < hi && !At(data, j).Null? && ToDouble(At(data, j)) == v;
      } else {
        assert v in Counted(data, lo, hi) <==> v in Counted(data, lo, j);
      }
    }
  }

  lemma CountedStep(data: seq<JsonValue>, lo: int, i: int)
    requires lo <= i
    ensures At(data, i).Null? ==> Counted(data, lo, i + 1) == Counted(data, lo, i)
    ensures !At(data, i).Null? ==> Counted(data, lo, i + 1) == Counted(data, lo, i) + [ToDouble(At(data, i))]
  {
    assert Counted(data, lo, i) + [] == Counted(data, lo, i);
  }

  /** Indices before 0 read as undefined, which is not null, so each counts as a 0. */
  lemma NegativeStartCountsZero(data: seq<JsonValue>, lo: int, hi: int)
    requires lo < 0 && lo < hi
    ensures 0.0 in Counted(data, lo, hi)
  {
    CountedMembers(data, lo, hi, 0.0);
    assert !At(data, lo).Null? && ToDouble(At(data, lo)) == 0.0;
  }

  /**
   * `calculateStats`: over the non-null entries of [startHour, min(endHour,
   * size)), min and max are the least and greatest value and mean is their
   * average; with no such entry all three are 0.
   */
  method CalculateStats(data: seq<JsonValue>, startHour: int, endHour: int) returns (mean: real, min: real, max: real)
    ensures var vs := Counted(data, startHour, if endHour < |data| then endHour else |data|);
      vs == [] ==> mean == 0.0 && min == 0.0 && max == 0.0
    ensures var vs := Counted(data, startHour, if endHour < |data| then endHour else |data|);
      vs != [] ==> min in vs && max in vs && forall v :: v in vs ==> min <= v <= max
    ensures var vs := Counted(data, startHour, if endHour < |data| then endHour else |data|);
      vs != [] ==> mean == Sum(vs) / |vs| as real
  {
    mean, min, max := 0.0, 0.0, 0.0;
    var sum := 0.0;
    var count := 0;
    var firstValue := true;

    var actualEnd := if endHour < |data| then endHour else |data|;
    var i := startHour;
    while i < actualEnd
      invariant startHour <= i && (i <= actualEnd || i == startHour)
      invariant StatsState(Counted(data, startHour, i), sum, count, firstValue, min, max)
      invariant mean == 0.0
      decreases actualEnd - i
    {
      sum, count, firstValue, min, max := ReadEntry(data, startHour, i, sum, count, firstValue, min, max);
      i := i + 1;
    }

    assert Counted(data, startHour, i) == Counted(data, startHour, actualEnd) by {
      if i != actualEnd {
        assert Counted(data, startHour, actualEnd) == [] == Counted(data, startHour, i);
      }
    }
    if count > 0 {
      mean := sum / count as real;
    }
  }
}
