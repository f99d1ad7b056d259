/**
  The day's summary statistics: plain counts, the two percentages, the
  average number of bikes per hour, the over-speed-limit count, the busiest
  hour at Hanley Highway/Westway and the number of hours with rain.
*/
module Statistics {
  import opened IntParse
  import opened Records
  import opened Rounding

  const ElmJunction := "Elm Avenue/Rabbit Road"
  const HanleyJunction := "Hanley Highway/Westway"

  predicate IsTruck(r: Record) { VehicleType(r) == "Truck" }
  predicate IsBike(r: Record) { VehicleType(r) == "Bike" }
  predicate IsMotorbike(r: Record) { VehicleType(r) == "Motorbike" }
  predicate IsScooter(r: Record) { VehicleType(r) == "Scooter" }
  predicate IsElectric(r: Record) { ElectricHybrid(r) == "TRUE" }
  predicate IsRain(r: Record) { Weather(r) == "Rain" }

  predicate IsTwoWheeled(r: Record) {
    VehicleType(r) in ["Bike", "Motorbike", "Scooter"]
  }

  predicate IsBusNorthAtElm(r: Record) {
    Junction(r) == ElmJunction && DirectionIn(r) == "N" && VehicleType(r) == "Bus"
  }

  /** Entered and left in the same direction: no turn. */
  predicate GoesStraight(r: Record) {
    DirectionIn(r) == DirectionOut(r)
  }

  predicate IsScooterAtElm(r: Record) {
    Junction(r) == ElmJunction && VehicleType(r) == "Scooter"
  }

  function AtJunction(name: string): Record -> bool {
    (r: Record) => Junction(r) == name
  }

  /** Both speed fields read as integers and the observed speed is above the limit. */
  predicate IsOverSpeedLimit(r: Record) {
    var limit, speed := ParseInt(SpeedLimit(r)), ParseInt(Speed(r));
    limit.Some? && speed.Some? && speed.value > limit.value
  }

  predicate SpeedsParse(r: Record) {
    ParseInt(SpeedLimit(r)).Some? && ParseInt(Speed(r)).Some?
  }

  /** `len(data)`: every filtered count of the day is at most this. */
  function TotalVehicles(data: seq<Record>): (n: nat)
    ensures forall p: Record -> bool :: Count(data, p) <= n
  {
    |data|
  }

  function TotalTrucks(data: seq<Record>): (n: nat)
    ensures n <= TotalVehicles(data)
  {
    Count(data, IsTruck)
  }

  function TotalElectricVehicles(data: seq<Record>): (n: nat)
    ensures n <= TotalVehicles(data)
  {
    Count(data, IsElectric)
  }

  function TotalTwoWheeled(data: seq<Record>): (n: nat)
    ensures n == Count(data, IsBike) + Count(data, IsMotorbike) + Count(data, IsScooter)
  {
    CountDisjointUnion(data, IsBike, IsMotorbike);
    CountDisjointUnion(data, Or(IsBike, IsMotorbike), IsScooter);
    CountSameFilter(data, IsTwoWheeled, Or(Or(IsBike, IsMotorbike), IsScooter));
    Count(data, IsTwoWheeled)
  }

  function TotalBusesNorth(data: seq<Record>): (n: nat)
    ensures n <= TotalVehiclesAtJunction(data, ElmJunction)
  {
    CountMonotonic(data, IsBusNorthAtElm, AtJunction(ElmJunction));
    Count(data, IsBusNorthAtElm)
  }

  function TotalNoTurns(data: seq<Record>): (n: nat)
    ensures n <= TotalVehicles(data)
  {
    Count(data, GoesStraight)
  }

  function TotalVehiclesAtJunction(data: seq<Record>, junction: string): (n: nat)
    ensures n <= TotalVehicles(data)
  {
    Count(data, AtJunction(junction))
  }

  /**
    Rows whose two direction fields are both empty are counted as not
    turning, although the function's doc comment says they are skipped.
  */
  lemma {:induction false} NoTurnsCountsBlankDirections(data: seq<Record>)
    ensures Count(data, BlankDirections) <= TotalNoTurns(data)
  {
    CountMonotonic(data, BlankDirections, GoesStraight);
  }

  predicate BlankDirections(r: Record) {
    DirectionIn(r) == "" && DirectionOut(r) == ""
  }

  /** `round(trucks / total * 100)`; the source divides by zero on an empty day. */
  function PercentageTrucks(data: seq<Record>): (r: nat)
    requires TotalVehicles(data) > 0
    ensures r <= 100
    ensures 2 * |data| * r - |data| <= 200 * TotalTrucks(data) <= 2 * |data| * r + |data|
  {
    Percentage(TotalTrucks(data), TotalVehicles(data))
  }

  /** `Counter(row[2][:2] for row in data if row[8] == 'Bike')`. */
  function BikeHours(data: seq<Record>): multiset<string> {
    HourCounter(Filter(data, IsBike))
  }

  /**
    The bikes counted per hour, summed and divided by 24 whatever the number
    of hours that have data: the result is within a half of bikes / 24.
  */
  function AvgBikesPerHour(data: seq<Record>): (r: nat)
    ensures 48 * r - 24 <= 2 * Count(data, IsBike) <= 48 * r + 24
    ensures 2 * Count(data, IsBike) == 48 * r - 24 || 2 * Count(data, IsBike) == 48 * r + 24 ==> r % 2 == 0
  {
    HourCounterTotal(data, IsBike);
    RoundHalfEven(|BikeHours(data)|, 24)
  }

  /** The number of records whose speed fields both parse and whose speed exceeds the limit. */
  method TotalOverSpeedLimit(data: seq<Record>) returns (count: nat)
    ensures count == Count(data, IsOverSpeedLimit)
    ensures count <= |data|
  {
    count := 0;
    for i := 0 to |data|
      invariant count == Count(data[..i], IsOverSpeedLimit)
    {
      var row := data[i];
      assert data[..i + 1] == data[..i] + [row];
      CountAppend(data[..i], row, IsOverSpeedLimit);
      var speedLimit := ParseInt(SpeedLimit(row));
      if speedLimit.Some? {
        var vehicleSpeed := ParseInt(Speed(row));
        if vehicleSpeed.Some? && vehicleSpeed.value > speedLimit.value {
          count := count + 1;
        }
      }
    }
    assert data[..|data|] == data;
  }

  /** Rows whose speed fields do not both parse are never counted as over the limit. */
  lemma {:induction false} OverSpeedNeedsParsedSpeeds(data: seq<Record>)
    ensures Count(data, IsOverSpeedLimit) <= Count(data, SpeedsParse)
  {
    CountMonotonic(data, IsOverSpeedLimit, SpeedsParse);
  }

  /** `round(scooters_elm / elm_total * 100)`; the source divides by zero when Elm Avenue/Rabbit Road has no rows. */
  function PercentageScootersElm(data: seq<Record>): (r: nat)
    requires TotalVehiclesAtJunction(data, ElmJunction) > 0
    ensures r <= 100
    ensures var elm := TotalVehiclesAtJunction(data, ElmJunction);
      2 * elm * r - elm <= 200 * Count(data, IsScooterAtElm) <= 2 * elm * r + elm
  {
    CountMonotonic(data, IsScooterAtElm, AtJunction(ElmJunction));
    Percentage(Count(data, IsScooterAtElm), TotalVehiclesAtJunction(data, ElmJunction))
  }

  /** The records of Hanley Highway/Westway whose hour key is `k`. */
  function HanleyAt(k: string): Record -> bool {
    AtHour(AtJunction(HanleyJunction), k)
  }

  /** The peak hourly count at a junction and the hour keys that reach it. */
  datatype Peak = Peak(traffic: nat, hours: set<string>)

  /** `max(counter[k] for k in keys)`, and 0 for no keys. */
  function MaxCount(counter: multiset<string>, keys: seq<string>): (m: nat)
    ensures forall i :: 0 <= i < |keys| ==> counter[keys[i]] <= m
    ensures |keys| > 0 ==> exists i :: 0 <= i < |keys| && counter[keys[i]] == m
  {
    if keys == [] then 0
    else
      var rest := MaxCount(counter, keys[..|keys| - 1]);
      var last := counter[keys[|keys| - 1]];
      if rest < last then last else rest
  }

  /** Every Hanley Highway/Westway hour key whose count equals the peak reads as an integer. */
  predicate PeakHoursParse(data: seq<Record>) {
    var hanley := Filter(data, AtJunction(HanleyJunction));
    var counter := HourCounter(hanley);
    var peak := MaxCount(counter, HourKeys(hanley));
    forall k | k in counter && counter[k] == peak :: ParseInt(k).Some?
  }

  /**
    The busiest hour at Hanley Highway/Westway: the largest number of its
    records that share an hour key, and every hour key with that many.
    `max` of no counts fails in the source, and so does `int(hour)` on a
    peak hour key that is not a numeral, hence the requirements.
  */
  function BusiestHourHanley(data: seq<Record>): (busiest: Peak)
    requires TotalVehiclesAtJunction(data, HanleyJunction) > 0 && PeakHoursParse(data)
    ensures busiest.traffic <= TotalVehiclesAtJunction(data, HanleyJunction)
    ensures forall k | k in busiest.hours :: ParseInt(k).Some? && exists r :: r in data && HanleyAt(k)(r)
  {
    var hanley := Filter(data, AtJunction(HanleyJunction));
    var counter := HourCounter(hanley);
    var keys := HourKeys(hanley);
    var peak := MaxCount(counter, keys);
    var i :| 0 <= i < |keys| && counter[keys[i]] == peak;
    HourCounterCounts(data, AtJunction(HanleyJunction), keys[i]);
    CountMonotonic(data, HanleyAt(keys[i]), AtJunction(HanleyJunction));
    HanleyKeysOccur(data);
    Peak(peak, set k | k in counter && counter[k] == peak)
  }

  /** Every key of the Hanley Highway/Westway Counter is the hour of one of its records. */
  lemma HanleyKeysOccur(data: seq<Record>)
    ensures forall k | k in HourCounter(Filter(data, AtJunction(HanleyJunction))) :: exists r :: r in data && HanleyAt(k)(r)
  {
    var hanley := Filter(data, AtJunction(HanleyJunction));
    HourCounterKeys(hanley);
    forall k | k in HourCounter(hanley)
      ensures exists r :: r in data && HanleyAt(k)(r)
    {
      var r :| r in hanley && HourKey(r) == k;
      assert HanleyAt(k)(r);
    }
  }

  /**
    The peak is at least every hour's count at Hanley Highway/Westway, and
    the hours returned are exactly those whose count equals it, ties
    included; there is at least one.
  */
  lemma BusiestHourHanleyCorrect(data: seq<Record>)
    requires TotalVehiclesAtJunction(data, HanleyJunction) > 0 && PeakHoursParse(data)
    ensures BusiestHourHanley(data).traffic > 0 && BusiestHourHanley(data).hours != {}
    ensures forall k :: Count(data, HanleyAt(k)) <= BusiestHourHanley(data).traffic
    ensures forall k :: k in BusiestHourHanley(data).hours <==> Count(data, HanleyAt(k)) == BusiestHourHanley(data).traffic
  {
    var hanley := Filter(data, AtJunction(HanleyJunction));
    var keys := HourKeys(hanley);
    var counter := HourCounter(hanley);
    var peak := MaxCount(counter, keys);
    var p := BusiestHourHanley(data);
    assert p == Peak(peak, set k | k in counter && counter[k] == peak);
    HanleyCounterCounts(data);
    assert |keys| == TotalVehiclesAtJunction(data, HanleyJunction);
    PeakIsReached(counter, keys, peak);
    var busiest :| busiest in counter && counter[busiest] == peak;
    assert busiest in p.hours;
  }

  lemma HanleyCounterCounts(data: seq<Record>)
    ensures forall k :: HourCounter(Filter(data, AtJunction(HanleyJunction)))[k] == Count(data, HanleyAt(k))
  {
    forall k {
      HourCounterCounts(data, AtJunction(HanleyJunction), k);
    }
  }

  /** The largest multiplicity over the keys bounds every key's count and, given keys, is reached by one. */
  lemma PeakIsReached(counter: multiset<string>, keys: seq<string>, peak: nat)
    requires counter == multiset(keys)
    requires forall i :: 0 <= i < |keys| ==> counter[keys[i]] <= peak
    requires |keys| > 0 ==> exists i :: 0 <= i < |keys| && counter[keys[i]] == peak
    ensures forall k :: counter[k] <= peak
    ensures |keys| > 0 ==> peak > 0 && exists k :: k in counter && counter[k] == peak
  {
    forall k
      ensures counter[k] <= peak
    {
      if k in counter {
        var i :| 0 <= i < |keys| && keys[i] == k;
      }
    }
    if |keys| > 0 {
      var i :| 0 <= i < |keys| && counter[keys[i]] == peak;
      assert keys[i] in counter;
    }
  }

  /** `set(row[2][:2] for row in data if row[7] == 'Rain')`. */
  function RainHours(data: seq<Record>): (hours: set<string>)
    ensures forall k :: k in hours <==> exists r :: r in data && IsRain(r) && HourKey(r) == k
  {
    var rain := Filter(data, IsRain);
    var keys := HourKeys(rain);
    forall k | k in keys
      ensures exists r :: r in data && IsRain(r) && HourKey(r) == k
    {
      var i :| 0 <= i < |keys| && keys[i] == k;
      assert rain[i] in rain;
    }
    forall k | exists r :: r in data && IsRain(r) && HourKey(r) == k
      ensures k in keys
    {
      var r :| r in data && IsRain(r) && HourKey(r) == k;
      var i :| 0 <= i < |rain| && rain[i] == r;
      assert keys[i] == k;
    }
    set k | k in keys
  }

  /** The number of distinct hour keys with rain: no more than the rain records, and none exactly when there are none. */
  function TotalRainHours(data: seq<Record>): (n: nat)
    ensures n <= Count(data, IsRain)
    ensures n == 0 <==> Count(data, IsRain) == 0
  {
    DistinctKeysBound(HourKeys(Filter(data, IsRain)));
    |RainHours(data)|
  }

  /** A sequence has at most as many distinct elements as positions, and none only when empty. */
  lemma {:induction false} DistinctKeysBound(keys: seq<string>)
    ensures |set k | k in keys| <= |keys|
    ensures |set k | k in keys| == 0 <==> keys == []
  {
    if keys != [] {
      var n := |keys| - 1;
      DistinctKeysBound(keys[..n]);
      assert (set k | k in keys) == (set k | k in keys[..n]) + {keys[n]} by {
        assert keys == keys[..n] + [keys[n]];
      }
      assert keys[n] in (set k | k in keys);
    }
  }

  /** A three-record day: two trucks, two records that do not turn, one record whose speed limit is not a number. */
  function ExampleDay(): seq<Record> {
    [["JunctionA", "", "08:15:00", "N", "N", "30", "35", "Rain", "Truck", "FALSE"],
     ["JunctionA", "", "08:40:00", "N", "S", "30", "20", "Dry", "Bike", "FALSE"],
     ["JunctionB", "", "09:05:00", "E", "E", "abc", "40", "Dry", "Truck", "TRUE"]]
  }

  lemma ExampleDayCounts()
    ensures TotalTrucks(ExampleDay()) == 2
    ensures TotalNoTurns(ExampleDay()) == 2
    ensures PercentageTrucks(ExampleDay()) == 67
  {
    var data := ExampleDay();
    CountThree(data, IsTruck);
    CountThree(data, GoesStraight);
  }

  /** A limit of "30" with a speed of "35" is over the limit. */
  lemma ThirtyFiveInThirtyIsOver(r: Record)
    requires SpeedLimit(r) == "30" && Speed(r) == "35"
    ensures IsOverSpeedLimit(r)
  {
    ParseIntRoundTrip(30);
    ParseIntRoundTrip(35);
    assert IntToString(30) == "30" && IntToString(35) == "35";
  }

  /** A limit of "abc" does not parse, so the record is skipped whatever its speed. */
  lemma NonNumericLimitIsSkipped(r: Record)
    requires SpeedLimit(r) == "abc"
    ensures !IsOverSpeedLimit(r)
  {
    ParseIntRejectsForeignChar("abc", 0);
  }

  lemma CountThree(data: seq<Record>, p: Record -> bool)
    requires |data| == 3
    ensures Count(data, p) == (if p(data[0]) then 1 else 0) + (if p(data[1]) then 1 else 0) + (if p(data[2]) then 1 else 0)
  {
    assert data == [] + [data[0]] + [data[1]] + [data[2]];
    CountAppend([], data[0], p);
    CountAppend([data[0]], data[1], p);
    CountAppend([data[0], data[1]], data[2], p);
  }
}
