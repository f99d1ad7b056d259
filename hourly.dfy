/**
  The per-hour table behind the histogram: for each hour 0 to 23, how many
  records were seen at the Elm Avenue junction and how many at the Hanley
  Highway junction. Junctions are recognised by substring, not by their
  full names, and a record counts for at most one of the two.
*/
module Hourly {
  import opened Wrappers
  import opened IntParse
  import opened Records
  import Statistics

  const ElmAvenue := "Elm Avenue"
  const HanleyHighway := "Hanley Highway"

  /** One hour's entry, `{"Elm Avenue": elmAvenue, "Hanley Highway": hanleyHighway}`. */
  datatype Tally = Tally(elmAvenue: nat, hanleyHighway: nat)

  /** `sub` occurs in `s` starting at position `i`. */
  predicate OccursAt(s: string, sub: string, i: int) {
    0 <= i <= |s| - |sub| && s[i..i + |sub|] == sub
  }

  /** Python's `sub in s` on strings. */
  predicate Contains(s: string, sub: string) {
    exists i :: 0 <= i <= |s| - |sub| && OccursAt(s, sub, i)
  }

  /** Python's `range(n)`, as a set. */
  function Range(n: nat): (hours: set<int>)
    ensures forall h :: h in hours <==> 0 <= h < n
  {
    if n == 0 then {} else Range(n - 1) + {n - 1}
  }

  /** The `if`: the junction name mentions Elm Avenue. */
  predicate CountsForElm(r: Record) {
    Contains(Junction(r), ElmAvenue)
  }

  /** The `elif`: the junction name mentions Hanley Highway and not Elm Avenue. */
  predicate CountsForHanley(r: Record) {
    !Contains(Junction(r), ElmAvenue) && Contains(Junction(r), HanleyHighway)
  }

  predicate CountsForEither(r: Record) {
    Contains(Junction(r), ElmAvenue) || Contains(Junction(r), HanleyHighway)
  }

  /** `int(record[2][:2])`. */
  function Hour(r: Record): Option<int> {
    ParseInt(HourKey(r))
  }

  /**
    What the loop demands of a record: its hour key reads as an integer, and
    when one of the junction counters is to be incremented, that integer is
    a key of the table.
  */
  predicate HasUsableHour(r: Record) {
    Hour(r).Some? && (CountsForEither(r) ==> 0 <= Hour(r).value < 24)
  }

  function ElmCountedAt(h: int): Record -> bool {
    (r: Record) => CountsForElm(r) && Hour(r) == Some(h)
  }

  function HanleyCountedAt(h: int): Record -> bool {
    (r: Record) => CountsForHanley(r) && Hour(r) == Some(h)
  }

  /** The table the loop builds: every hour 0 to 23, with each junction's record count at that hour. */
  function HourlyTable(data: seq<Record>): map<int, Tally> {
    map h | h in Range(24) :: Tally(Count(data, ElmCountedAt(h)), Count(data, HanleyCountedAt(h)))
  }

  method ProcessHourlyData(data: seq<Record>) returns (hourly: map<int, Tally>)
    requires forall i :: 0 <= i < |data| ==> HasUsableHour(data[i])
    ensures hourly.Keys == Range(24)
    ensures hourly == HourlyTable(data)
  {
    hourly := map h | h in Range(24) :: Tally(0, 0);
    HourlyTableOfNoRecords();
    assert data[..0] == [];
    for i := 0 to |data|
      invariant hourly == HourlyTable(data[..i])
    {
      var record := data[i];
      var hour := Hour(record).value;
      var junction := Junction(record);
      ghost var before := hourly;
      HourIsKey(data[..i], record);
      if Contains(junction, ElmAvenue) {
        hourly := hourly[hour := hourly[hour].(elmAvenue := hourly[hour].elmAvenue + 1)];
      } else if Contains(junction, HanleyHighway) {
        hourly := hourly[hour := hourly[hour].(hanleyHighway := hourly[hour].hanleyHighway + 1)];
      }
      TableStep(data[..i], record, hour, before, hourly);
      PrefixStep(data, i);
    }
    assert data[..|data|] == data;
  }

  lemma PrefixStep(data: seq<Record>, i: nat)
    requires i < |data|
    ensures data[..i + 1] == data[..i] + [data[i]]
  {
  }

  /** A record that is counted has an hour that is a key of the table. */
  lemma HourIsKey(data: seq<Record>, r: Record)
    requires HasUsableHour(r)
    ensures Contains(Junction(r), ElmAvenue) || Contains(Junction(r), HanleyHighway) ==> Hour(r).value in HourlyTable(data)
  {
  }

  /** The loop body's effect on the table is that of reading one more record. */
  lemma TableStep(prefix: seq<Record>, r: Record, hour: int, before: map<int, Tally>, after: map<int, Tally>)
    requires HasUsableHour(r) && hour == Hour(r).value
    requires before == HourlyTable(prefix)
    requires Contains(Junction(r), ElmAvenue) ==>
      hour in before && after == before[hour := before[hour].(elmAvenue := before[hour].elmAvenue + 1)]
    requires !Contains(Junction(r), ElmAvenue) && Contains(Junction(r), HanleyHighway) ==>
      hour in before && after == before[hour := before[hour].(hanleyHighway := before[hour].hanleyHighway + 1)]
    requires !CountsForEither(r) ==> after == before
    ensures after == HourlyTable(prefix + [r])
  {
    HourlyTableKeys(prefix);
    if Contains(Junction(r), ElmAvenue) {
      ElmStep(r, hour, before, after);
    } else if Contains(Junction(r), HanleyHighway) {
      HanleyStep(r, hour, before, after);
    } else {
      UncountedStep(r, before);
    }
    TableOfBumps(prefix, r, before, after);
  }

  /** Reading a record that counts for Elm Avenue bumps the Elm Avenue count of its own hour only. */
  lemma ElmStep(r: Record, hour: int, before: map<int, Tally>, after: map<int, Tally>)
    requires CountsForElm(r) && Hour(r) == Some(hour) && before.Keys == Range(24) && hour in before
    requires after == before[hour := before[hour].(elmAvenue := before[hour].elmAvenue + 1)]
    ensures after.Keys == Range(24)
    ensures forall h | h in Range(24) :: h in before && after[h] == Bump(before[h], r, h)
  {
    forall h | h in Range(24)
      ensures h in before && after[h] == Bump(before[h], r, h)
    {
      assert ElmCountedAt(h)(r) == (h == hour);
      assert !HanleyCountedAt(h)(r);
    }
  }

  /** Reading a record that counts for Hanley Highway bumps the Hanley Highway count of its own hour only. */
  lemma HanleyStep(r: Record, hour: int, before: map<int, Tally>, after: map<int, Tally>)
    requires CountsForHanley(r) && Hour(r) == Some(hour) && before.Keys == Range(24) && hour in before
    requires after == before[hour := before[hour].(hanleyHighway := before[hour].hanleyHighway + 1)]
    ensures after.Keys == Range(24)
    ensures forall h | h in Range(24) :: h in before && after[h] == Bump(before[h], r, h)
  {
    forall h | h in Range(24)
      ensures h in before && after[h] == Bump(before[h], r, h)
    {
      assert !ElmCountedAt(h)(r);
      assert HanleyCountedAt(h)(r) == (h == hour);
    }
  }

  /** Reading a record that counts for neither junction leaves every hour as it was. */
  lemma UncountedStep(r: Record, before: map<int, Tally>)
    requires !CountsForEither(r) && before.Keys == Range(24)
    ensures forall h | h in Range(24) :: h in before && before[h] == Bump(before[h], r, h)
  {
  }

  /** Hour `h`'s entry after reading `r`: one more for the junction `r` counts for, if its hour is `h`. */
  function Bump(t: Tally, r: Record, h: int): Tally {
    Tally(t.elmAvenue + (if ElmCountedAt(h)(r) then 1 else 0),
          t.hanleyHighway + (if HanleyCountedAt(h)(r) then 1 else 0))
  }

  /** A table whose every hour is the bumped entry of the table for `data` is the table for `data + [r]`. */
  lemma TableOfBumps(data: seq<Record>, r: Record, before: map<int, Tally>, after: map<int, Tally>)
    requires before == HourlyTable(data) && after.Keys == Range(24)
    requires forall h | h in Range(24) :: h in before && after[h] == Bump(before[h], r, h)
    ensures after == HourlyTable(data + [r])
  {
    var next := HourlyTable(data + [r]);
    HourlyTableKeys(data + [r]);
    forall h | h in Range(24)
      ensures after[h] == next[h]
    {
      HourlyTableAppend(data, r, h);
    }
  }

  lemma HourlyTableKeys(data: seq<Record>)
    ensures HourlyTable(data).Keys == Range(24)
  {
  }

  /** One more record increments hour `h` for the junction it counts for, if its hour is `h`. */
  lemma HourlyTableAppend(data: seq<Record>, r: Record, h: int)
    requires h in Range(24)
    ensures h in HourlyTable(data) && h in HourlyTable(data + [r])
    ensures var before, after := HourlyTable(data)[h], HourlyTable(data + [r])[h];
      && after.elmAvenue == before.elmAvenue + (if CountsForElm(r) && Hour(r) == Some(h) then 1 else 0)
      && after.hanleyHighway == before.hanleyHighway + (if CountsForHanley(r) && Hour(r) == Some(h) then 1 else 0)
  {
    CountAppend(data, r, ElmCountedAt(h));
    CountAppend(data, r, HanleyCountedAt(h));
  }

  /** Before any record is seen, every hour 0 to 23 holds zero for both junctions. */
  lemma HourlyTableOfNoRecords()
    ensures HourlyTable([]) == map h | h in Range(24) :: Tally(0, 0)
  {
  }

  /** The sum of both junctions' counts over the hours below `n`. */
  function TallySum(table: map<int, Tally>, n: nat): nat
    requires forall h :: 0 <= h < n ==> h in table
  {
    if n == 0 then 0
    else TallySum(table, n - 1) + table[n - 1].elmAvenue + table[n - 1].hanleyHighway
  }

  lemma {:induction false} TallySumOfNoRecords(n: nat)
    requires n <= 24
    ensures TallySum(HourlyTable([]), n) == 0
  {
    if n > 0 {
      TallySumOfNoRecords(n - 1);
    }
  }

  /** One more record adds one to the hours below `n` exactly when it is counted at one of them. */
  lemma {:induction false} TallySumAppend(data: seq<Record>, r: Record, n: nat)
    requires n <= 24
    ensures TallySum(HourlyTable(data + [r]), n)
         == TallySum(HourlyTable(data), n) + if CountsForEither(r) && Hour(r).Some? && 0 <= Hour(r).value < n then 1 else 0
  {
    if n > 0 {
      TallySumAppend(data, r, n - 1);
      HourlyTableAppend(data, r, n - 1);
    }
  }

  /** Summed over the day, the table counts each record whose junction mentions either name exactly once. */
  lemma {:induction false} HourlyGrandTotal(data: seq<Record>)
    requires forall i :: 0 <= i < |data| ==> HasUsableHour(data[i])
    ensures TallySum(HourlyTable(data), 24) == Count(data, CountsForEither)
  {
    if data == [] {
      TallySumOfNoRecords(24);
    } else {
      var n := |data| - 1;
      var prefix := data[..n];
      assert data == prefix + [data[n]];
      HourlyGrandTotal(prefix);
      TallySumAppend(prefix, data[n], 24);
      CountAppend(prefix, data[n], CountsForEither);
    }
  }

  /** A single record increments at most one counter in the whole table. */
  lemma AtMostOneIncrementPerRecord(r: Record)
    requires HasUsableHour(r)
    ensures TallySum(HourlyTable([r]), 24) <= 1
  {
    HourlyGrandTotal([r]);
  }

  /** A name containing both junction names counts for Elm Avenue only. */
  lemma ElmTakesPrecedence(r: Record, h: int)
    requires Contains(Junction(r), ElmAvenue) && Contains(Junction(r), HanleyHighway)
    ensures ElmCountedAt(h)(r) == (Hour(r) == Some(h))
    ensures !HanleyCountedAt(h)(r)
  {
  }

  lemma ContainsFirstChar(s: string, sub: string)
    requires |sub| > 0 && Contains(s, sub)
    ensures sub[0] in s
  {
    var i :| 0 <= i <= |s| - |sub| && OccursAt(s, sub, i);
    assert s[i] == s[i..i + |sub|][0];
  }

  /**
    Matching is by substring: every record whose junction is exactly one of
    the two surveyed junctions is counted for its own junction.
  */
  lemma SurveyedJunctionsAreMatched(data: seq<Record>)
    ensures Statistics.TotalVehiclesAtJunction(data, Statistics.ElmJunction) <= Count(data, CountsForElm)
    ensures Statistics.TotalVehiclesAtJunction(data, Statistics.HanleyJunction) <= Count(data, CountsForHanley)
  {
    assert OccursAt(Statistics.ElmJunction, ElmAvenue, 0);
    assert OccursAt(Statistics.HanleyJunction, HanleyHighway, 0);
    if Contains(Statistics.HanleyJunction, ElmAvenue) {
      ContainsFirstChar(Statistics.HanleyJunction, ElmAvenue);
      assert false;
    }
    CountMonotonic(data, Statistics.AtJunction(Statistics.ElmJunction), CountsForElm);
    CountMonotonic(data, Statistics.AtJunction(Statistics.HanleyJunction), CountsForHanley);
  }

  /** A junction name that only contains "Elm Avenue" still counts, though it is not the surveyed name. */
  lemma SubstringNotEquality(r: Record)
    requires Junction(r) == "Elm Avenue North"
    ensures CountsForElm(r) && Junction(r) != Statistics.ElmJunction
  {
    assert OccursAt(Junction(r), ElmAvenue, 0);
  }

  /** "08:15:00" falls in hour 8 and "23:59:59" in hour 23. */
  lemma HourExamples(r: Record, q: Record)
    requires TimeOfDay(r) == "08:15:00" && TimeOfDay(q) == "23:59:59"
    ensures Hour(r) == Some(8) && Hour(q) == Some(23)
  {
    assert HourKey(r) == "08" && HourKey(q) == "23";
    StripKeepsTrimmed("08");
    StripKeepsTrimmed("23");
    WithoutUnderscoresOfDigits("08");
    WithoutUnderscoresOfDigits("23");
    assert DigitsValue("08") == 8 by {
      assert "08"[..1] == "0";
    }
    assert DigitsValue("23") == 23 by {
      assert "23"[..1] == "2";
    }
  }
}
