# MinageINSEE core in Dafny

MinageINSEE matches French death records against nearby industrial emitters and the wind of the day. This project models and proves properties of three parts of its sequential core:

- **Sector search and histogram text** (`Weather.dfy`, from weather.h).
  - `calculerDistance` turns a wind bearing into a start index. It then scans a 360-bucket azimuth histogram clockwise and counter-clockwise for the nearest populated one-degree sector.
  - The result is signed: positive clockwise, negative counter-clockwise, 0 on a tie. A tie includes two fruitless full laps, each reported as `INT_MAX`.
  - `toString` prints the histogram as `[c0,c1,...,c359]`.
- **Azimuth histogram cache** (`WindCoeffs.dfy`, from villecritique.cpp).
  - `getWindCoeffs` keeps a static map from a city's coordinate key to its histogram, plus a static scratch array.
  - On a miss it zero-fills the scratch array, bins every emitter within 100 km by its rounded bearing, and caches the result.
  - On a store failure it returns the scratch array as it stands and caches nothing.
- **Calendar, record filter and hourly statistics** (`Calendar.dfy`, `Retriever.dfy`, from weatherretriever.cpp).
  - Easter by the anonymous Gregorian computus, and the eleven French public holidays of a year.
  - The Sunday/holiday exclusion, and the line filter of the death-record CSV reader.
  - The windowed min/max/mean over an hourly JSON series.

Shared pieces:

- `CppArith.dfy` writes out C++'s truncating `/` and `%` and `std::round`.
- `Text.dfy` covers `QString::number`, its inverse, and `QString::split` with empty parts kept.
- `Wrappers.dfy` holds an `Option` type.

Dates follow Qt's `QDate`:

- the proleptic Gregorian calendar with no year 0;
- one null date for every invalid triple, which has year 0 and day of week 0 and which `addDays` keeps null.

Three behaviours of the code are worth stating outright, since the model keeps each of them as written:

- **Store failure.** When the database cannot be opened or queried, the code returns the static scratch array, not a fresh zero array (villecritique.cpp:32, 43, 51). That array holds the last successfully computed histogram, or all zeros if no miss has succeeded yet.
- **Start index.** The start index comes from C++'s truncating `%` (weather.h:31), so a bearing in (-358.5, 0.5] gives a negative index, and the scan then reads outside the array. The call at main.cpp:29 with bearing 0.0 is such a case. `CalculerDistance` therefore requires a non-negative start index, and `MainZeroBearingOutOfBounds` shows that main.cpp:29 breaks this requirement.
- **Bearing of 360.** An emitter whose bearing rounds to 360 is dropped, not counted in bucket 0 (villecritique.cpp:65). The histogram's total is therefore the number of in-range emitters with a bucket in [0, 360), not all in-range emitters.

## Model

| member | source | states |
|---|---|---|
| CppArith.Quot | weatherretriever.cpp:186-196 | C++ integer division: the quotient truncated toward zero, bracketing the dividend from below for non-negative and from above for negative dividends |
| CppArith.Rem | weatherretriever.cpp:185-198 | C++ `%`: the remainder has the dividend's sign, is smaller than the divisor in magnitude, and `a == b * (a / b) + a % b` |
| CppArith.NonNegativeAgrees | weatherretriever.cpp:185-198 | on non-negative operands C++ and Euclidean division and remainder coincide |
| CppArith.RoundHalfAway | weather.h:31 | `std::round`: the result is within one half of the argument, halfway cases going away from zero |
| Text.IntToDecimal | weather.h:79 | `QString::number(int)`: at least one character, digits only apart from a leading minus, present exactly for negative values |
| Text.DecimalRoundTrip | weather.h:79 | the decimal text of an int reads back as that int |
| Text.Split | weatherretriever.cpp:136 | `split(',')` yields at least one part and no part contains the separator |
| Text.SplitLength | weatherretriever.cpp:136-137 | a line with k commas splits into exactly k + 1 parts, empty parts included |
| Text.SplitSnoc | weatherretriever.cpp:136 | appending a comma and a comma-free field appends exactly that field to the parts |
| Weather.StartIndex | weather.h:30-31 | the start index lies in (-360, 360); it is non-negative for bearings above 0.5 and negative for bearings in (-358.5, 0.5] |
| Weather.IndexIsModular | weather.h:42 | the wrapped clockwise step is (s + d) mod 360 and the counter-clockwise one (s - d) mod 360 |
| Weather.Scan | weather.h:38-61 | a scan returns INT_MAX or the first step at which the bucket is non-zero, with every earlier bucket zero |
| Weather.ClockwiseDistance | weather.h:38-48 | the first loop ends with the clockwise distance: the least d with a non-zero bucket at (s + d) mod 360, or INT_MAX after a full lap |
| Weather.CounterClockwiseDistance | weather.h:51-61 | the second loop ends with the counter-clockwise distance, the mirror image at (s - d) mod 360 |
| Weather.CalculerDistance | weather.h:29-71 | the result follows the sign and tie rule on the two distances and lies in [-179, 179] |
| Weather.ScansMeet | weather.h:38-61 | both scans stop at once on a non-zero start bucket and both lap fruitlessly or neither does; a clockwise hit at d bounds the counter-clockwise distance by 360 - d and vice versa |
| Weather.OffsetBounds | weather.h:64-70 | the signed offset never exceeds 179 in magnitude, so a 180/180 tie gives 0 |
| Weather.OffsetIsNearest | weather.h:38-70 | a positive offset r hits a non-zero bucket r steps clockwise with every bucket within r steps counter-clockwise zero; a negative offset is the mirror image |
| Weather.ZeroOffsetIsTie | weather.h:64-70 | an offset of 0 means a non-zero start bucket, an all-zero histogram, or equally distant nearest buckets on both sides |
| Weather.StartBucketNonZero | weather.h:38-69 | a non-zero start bucket gives both distances 0 and the result 0 |
| Weather.AllZero | weather.h:44-69 | on an all-zero histogram both scans report INT_MAX and the result is 0 |
| Weather.SingleSector | weather.h:38-61 | with one populated sector k, the distances from s are (k - s) mod 360 clockwise and (s - k) mod 360 counter-clockwise |
| Weather.SingleSectorSigns | weather.h:64-70 | one populated sector at 10 gives +5 from start index 5 and -5 from start index 15 |
| Weather.MainZeroBearingOutOfBounds | main.cpp:29 | bearing 0.0 gives start index -1, so that call reads outside the array |
| Weather.MainSixStart | main.cpp:30 | bearing 6.0 gives start index 5 |
| Weather.MainForwardScan | main.cpp:25-30 | over the main.cpp histogram from index 5 the clockwise scan stops after 3 steps |
| Weather.MainBackwardScan | main.cpp:25-30 | over the same histogram the counter-clockwise scan stops after 6 steps |
| Weather.MainSixDegrees | main.cpp:25-30 | the second call of main.cpp returns +3 |
| Weather.Render | weather.h:75-86 | the text form starts with `[` and ends with `]` |
| Weather.RenderItemsRoundTrip | weather.h:78-83 | splitting the comma-joined items and reading each back gives the bucket values in index order |
| Weather.RenderRoundTrip | weather.h:75-86 | the bracketed text reads back as exactly the histogram |
| Weather.RenderCommas | weather.h:78-83 | the text of n buckets holds exactly n - 1 commas |
| Weather.ToString | weather.h:75-86 | `toString` builds the bracketed text of the 360 buckets, with 359 commas, which reads back as the array |
| WindCoeffs.CacheKey | villecritique.cpp:26 | the key is each coordinate in millionths of a degree, to within half a unit |
| WindCoeffs.BinnedCounts | villecritique.cpp:55-69 | after the binning loop, bucket i counts the emitters within 100 km whose rounded bearing is i |
| WindCoeffs.BinnedSum | villecritique.cpp:63-67 | the histogram's total is the number of emitters within 100 km whose rounded bearing lies in [0, 360) |
| WindCoeffs.BoundaryCounted | villecritique.cpp:63 | an emitter at exactly 100 km is counted in the bucket of its bearing |
| WindCoeffs.BearingOf360Dropped | villecritique.cpp:64-67 | an emitter whose bearing rounds to 360 changes no bucket |
| WindCoeffs.WindCoeffCache.constructor | villecritique.cpp:25-32 | the cache starts empty and the scratch array all zero |
| WindCoeffs.WindCoeffCache.GetWindCoeffs | villecritique.cpp:23-76 | a hit returns the cached histogram with no store access; a successful miss returns the binned histogram, caches it under the key and leaves every other entry alone; a failure returns the scratch array unchanged and caches nothing |
| WindCoeffs.LookupTwice | villecritique.cpp:26-75 | once a city is cached or its first miss succeeds, a second call returns the same histogram, and the two calls together reach the store at most once |
| Calendar.MakeDate | weatherretriever.cpp:149 | `QDate(y, m, d)` is that day exactly when the triple is a valid date, and the null date otherwise |
| Calendar.DayOfWeek | weatherretriever.cpp:174 | the day of the week is in 1..7 for a valid day and 0 only for the null date |
| Calendar.NextDayNumber | weatherretriever.cpp:219-221 | the next day has the next day number, across month, year and the missing year 0 |
| Calendar.NextDayOfWeek | weatherretriever.cpp:174 | the day of the week advances by one each day, Sunday wrapping to Monday |
| Calendar.EpochIsThursday | weatherretriever.cpp:174 | the day numbering gives Thursday for 1 January 1970 |
| Calendar.AddDays | weatherretriever.cpp:219-221 | `addDays(n)` keeps the null date null and moves a valid day exactly n day numbers on |
| Calendar.DayOfYearOrder | weatherretriever.cpp:219-221 | within a year, day-of-year order is calendar (month, day) order, both ways |
| Calendar.CalculateEaster | weatherretriever.cpp:182-201 | from year 1 on the computus yields a valid Sunday between 22 March and 25 April of that year |
| Calendar.EasterRanges | weatherretriever.cpp:185-195 | from year 1 on a is in [0, 18], h in [0, 29] and l in [0, 6] |
| Calendar.EasterTail | weatherretriever.cpp:196-200 | from year 1 on m is 0 or 1 and month/day name a valid date from 22 March to 25 April |
| Calendar.EasterSunday | weatherretriever.cpp:185-200 | from year 1 on the date the computus builds is a Sunday |
| Calendar.ComputusSunday | weatherretriever.cpp:185-195 | with the weekday correction l, day 22 + h + l - 7m of March (running on into April) is a Sunday |
| Calendar.Easter2024 | weatherretriever.cpp:182-201 | Easter 2024 is Sunday 31 March |
| Calendar.Easter2025 | weatherretriever.cpp:182-201 | Easter 2025 is Sunday 20 April |
| Calendar.HolidaysAround | weatherretriever.cpp:205-223 | the holiday list has exactly 11 entries |
| Calendar.GetHolidaysForYear | weatherretriever.cpp:203-224 | the successive appends build the list of the 8 fixed holidays followed by Easter + 1, + 39 and + 50 |
| Calendar.FixedDates | weatherretriever.cpp:208-215 | outside year 0 the first eight entries are 1 Jan, 1 May, 8 May, 14 Jul, 15 Aug, 1 Nov, 11 Nov, 25 Dec of that year |
| Calendar.MovableFeasts | weatherretriever.cpp:218-221 | Easter Monday falls in 23 Mar..26 Apr, Ascension in 30 Apr..3 Jun, Whit Monday in 11 May..14 Jun, in Easter's year |
| Calendar.HolidaysOfYear | weatherretriever.cpp:203-224 | from year 1 on the list holds the fixed dates in order, then the three movable feasts within their windows, all in that year |
| Calendar.NullAround | weatherretriever.cpp:166-168 | the list for year 0 contains the null date |
| Calendar.MemberAround | weatherretriever.cpp:164-169 | a valid day is in its year's list exactly when it is a fixed holiday or Easter + 1, + 39 or + 50 |
| Calendar.ExcludedDates | weatherretriever.cpp:171-180 | a date is excluded exactly when it is null, a Sunday, a fixed holiday or a movable feast of its year |
| Retriever.WeatherRetriever.constructor | weatherretriever.cpp:5-11 | a new retriever holds no death records |
| Retriever.WeatherRetriever.LoadDeathRecords | weatherretriever.cpp:120-162 | an unreadable file gives false and changes nothing; otherwise the header is skipped and the admitted records of the remaining lines are appended in file order |
| Retriever.WeatherRetriever.ReadDataLine | weatherretriever.cpp:132-158 | one data line appends the records kept from it, and nothing else changes |
| Retriever.AdmittedAppend | weatherretriever.cpp:131-159 | the records of two runs of lines are those of the first followed by those of the second |
| Retriever.AdmittedMembers | weatherretriever.cpp:155-158 | a record is loaded exactly when some data line parses to it and its date is not excluded |
| Retriever.KeptMembers | weatherretriever.cpp:133-158 | one line contributes a record exactly when it parses to it and its date is not excluded |
| Retriever.AdmittedDates | weatherretriever.cpp:144-158 | every loaded record has a real date that is neither a Sunday nor a holiday of its year |
| Retriever.ShortLineSkipped | weatherretriever.cpp:133-137 | a line with fewer than four commas, the empty line included, gives no record |
| Retriever.BadDateDropped | weatherretriever.cpp:144-158 | a date field not eight characters long leaves the date null, and the line is dropped |
| Retriever.DateFields | weatherretriever.cpp:144-149 | an eight-character field is read as a 4-character year, then a 2-character month, then a 2-character day |
| Retriever.FiveFields | weatherretriever.cpp:135-153 | five comma-free fields joined by commas parse to the record of those fields |
| Retriever.At | weatherretriever.cpp:366 | an index outside the array reads as undefined, not null |
| Retriever.CountedMembers | weatherretriever.cpp:364-368 | the values taken in are exactly the non-null entries of [startHour, min(endHour, size)), read as doubles |
| Retriever.NegativeStartCountsZero | weatherretriever.cpp:365-368 | a window starting before index 0 takes in the value 0, read from an undefined entry |
| Retriever.ReadEntry | weatherretriever.cpp:365-380 | one pass of the loop takes entry i in exactly when it is not null, keeping count, sum, min and max faithful to the values taken in so far |
| Retriever.Take | weatherretriever.cpp:367-380 | one non-null entry keeps count, sum, and min/max as members and bounds of the values taken in |
| Retriever.CalculateStats | weatherretriever.cpp:355-386 | with no value taken in, mean, min and max are 0; otherwise min and max are values taken in that bound all of them, and mean is their sum over their count |

## Left out

- Floating point.
  - Doubles are modelled as reals, so NaN, infinities and rounding do not arise.
  - `CalculateStats` computes its mean exactly. The code's double sum and division can round, and nothing here relates the mean to min and max.
- `haversine` and `calculateAzimuth` (villecritique.cpp:80-106) are trigonometry. They enter as the two functions of a `Geodesy` value, about which nothing is assumed.
- WindCoeffs.CacheKey: keeps only the rounding to six decimals. It does not model `QString::arg(x, 0, 'f', 6)`, so two keys that would print alike at the limits of double precision are not identified.
- WindCoeffs.WindCoeffCache.GetWindCoeffs: has these limits.
  - Buckets are unbounded naturals. The code's buckets are `char`, which overflow past 127 emitters in one sector.
  - The raw `char*` the code hands out into the cache or the scratch array is not modelled. The method returns the histogram's contents instead, so later writes through that `char*` are out of scope.
  - Opening the SQLite database and running its query are modelled only as the `StoreReply` input (failure to open, failed query, or the rows).
- The wind cache and the record reader are single-threaded.
- `QString::toInt` and `QString::toDouble` enter as the functions of a `Conversions` value.
- File reading is not modelled:
  - `QFile` and `QTextStream` become a file that is either unreadable or a sequence of lines;
  - a line holding a carriage return is not treated specially.
- Calendar.AddDays: takes non-negative counts only, since the code only adds 1, 39 and 50 days. It counts days from 1 January 1970, not Qt's Julian day number; the two differ by a constant.
- `Weather::iterateDead` (weather.h:87 on) and the rest of the `WeatherRetriever` class are not part of this model. That covers network requests, timers, JSON response parsing, SQLite output and the CSV output file.
- main.cpp's Qt event loop is not modelled. Its two `calculerDistance` calls appear only as the example lemmas.
- `isHoliday` and `isExcludedDate` are predicates over dates (`Calendar.IsHoliday`, `Calendar.IsExcludedDate`), described by the lemmas `MemberAround` and `ExcludedDates`.
