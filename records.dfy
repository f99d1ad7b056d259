/**
  The loaded day of survey data. Each record is one line of the survey file,
  a row of strings read by fixed position; every statistic reduces the whole
  day with a filtered count, so the counting itself is defined here once.
*/
module Records {

  /** One row of the survey file. The statistics read fields 0 to 9 by position. */
  type Record = r: seq<string> | |r| >= 10 witness ["", "", "", "", "", "", "", "", "", ""]

  function Junction(r: Record): string { r[0] }
  function TimeOfDay(r: Record): string { r[2] }
  function DirectionIn(r: Record): string { r[3] }
  function DirectionOut(r: Record): string { r[4] }
  function SpeedLimit(r: Record): string { r[5] }
  function Speed(r: Record): string { r[6] }
  function Weather(r: Record): string { r[7] }
  function VehicleType(r: Record): string { r[8] }
  function ElectricHybrid(r: Record): string { r[9] }

  /** `row[2][:2]`: the first two characters of the time of day, or all of it when it is shorter. */
  function HourKey(r: Record): (k: string)
    ensures k <= TimeOfDay(r)
    ensures |k| == if |TimeOfDay(r)| < 2 then |TimeOfDay(r)| else 2
  {
    if |TimeOfDay(r)| <= 2 then TimeOfDay(r) else TimeOfDay(r)[..2]
  }

  /** `sum(1 for row in data if p(row))`: the number of records that satisfy `p`. */
  function Count(data: seq<Record>, p: Record -> bool): (n: nat)
    ensures n <= |data|
  {
    if data == [] then 0
    else Count(data[..|data| - 1], p) + (if p(data[|data| - 1]) then 1 else 0)
  }

  function Not(p: Record -> bool): Record -> bool {
    (r: Record) => !p(r)
  }

  function Or(p: Record -> bool, q: Record -> bool): Record -> bool {
    (r: Record) => p(r) || q(r)
  }

  lemma CountAppend(data: seq<Record>, r: Record, p: Record -> bool)
    ensures Count(data + [r], p) == Count(data, p) + if p(r) then 1 else 0
  {
    assert (data + [r])[..|data|] == data;
  }

  /** The count is the number of positions that hold a matching record. */
  lemma {:induction false} CountIsIndexCount(data: seq<Record>, p: Record -> bool)
    ensures Count(data, p) == |set i | 0 <= i < |data| && p(data[i])|
  {
    if data != [] {
      var n := |data| - 1;
      var prefix := data[..n];
      CountIsIndexCount(prefix, p);
      var before := set i | 0 <= i < n && p(prefix[i]);
      var all := set i | 0 <= i < |data| && p(data[i]);
      if p(data[n]) {
        assert all == before + {n};
      } else {
        assert all == before;
      }
    }
  }

  /** A weaker filter never counts fewer records. */
  lemma {:induction false} CountMonotonic(data: seq<Record>, p: Record -> bool, q: Record -> bool)
    requires forall i :: 0 <= i < |data| && p(data[i]) ==> q(data[i])
    ensures Count(data, p) <= Count(data, q)
  {
    if data != [] {
      CountMonotonic(data[..|data| - 1], p, q);
    }
  }

  /** Two filters that agree on every record count the same. */
  lemma {:induction false} CountSameFilter(data: seq<Record>, p: Record -> bool, q: Record -> bool)
    requires forall i :: 0 <= i < |data| ==> p(data[i]) == q(data[i])
    ensures Count(data, p) == Count(data, q)
  {
    CountMonotonic(data, p, q);
    CountMonotonic(data, q, p);
  }

  /** Every record either satisfies a filter or does not: the two counts make up the whole day. */
  lemma {:induction false} CountComplement(data: seq<Record>, p: Record -> bool)
    ensures Count(data, p) + Count(data, Not(p)) == |data|
  {
    if data != [] {
      CountComplement(data[..|data| - 1], p);
    }
  }

  /** Counting records that satisfy one of two exclusive filters adds their counts. */
  lemma {:induction false} CountDisjointUnion(data: seq<Record>, p: Record -> bool, q: Record -> bool)
    requires forall i :: 0 <= i < |data| ==> !(p(data[i]) && q(data[i]))
    ensures Count(data, Or(p, q)) == Count(data, p) + Count(data, q)
  {
    if data != [] {
      CountDisjointUnion(data[..|data| - 1], p, q);
    }
  }

  /** No record counted exactly when no record matches. */
  lemma {:induction false} CountZero(data: seq<Record>, p: Record -> bool)
    ensures Count(data, p) == 0 <==> forall i :: 0 <= i < |data| ==> !p(data[i])
  {
    if data != [] {
      CountZero(data[..|data| - 1], p);
    }
  }

  /** `[row for row in data if p(row)]`, in the order of the day. */
  function Filter(data: seq<Record>, p: Record -> bool): (rows: seq<Record>)
    ensures |rows| == Count(data, p)
    ensures forall r :: r in rows <==> r in data && p(r)
    ensures multiset(rows) <= multiset(data)
  {
    if data == [] then []
    else
      var n := |data| - 1;
      assert data == data[..n] + [data[n]];
      Filter(data[..n], p) + if p(data[n]) then [data[n]] else []
  }

  /** Filtering keeps the records' order: filtering two runs one after the other is filtering each in turn. */
  lemma {:induction false} FilterConcat(a: seq<Record>, b: seq<Record>, p: Record -> bool)
    ensures Filter(a + b, p) == Filter(a, p) + Filter(b, p)
  {
    if b == [] {
      assert a + b == a;
    } else {
      var n := |b| - 1;
      var x := b[n];
      var last := if p(x) then [x] else [];
      assert b == b[..n] + [x];
      assert a + b == (a + b[..n]) + [x];
      FilterSnoc(a + b[..n], x, p);
      FilterConcat(a, b[..n], p);
      FilterSnoc(b[..n], x, p);
      AppendAfterConcat(Filter(a + b, p), Filter(a + b[..n], p), Filter(a, p), Filter(b, p), Filter(b[..n], p), last);
    }
  }

  lemma AppendAfterConcat(whole: seq<Record>, init: seq<Record>, left: seq<Record>, right: seq<Record>, rightInit: seq<Record>, last: seq<Record>)
    requires whole == init + last && init == left + rightInit && right == rightInit + last
    ensures whole == left + right
  {
  }

  /** Filtering a day with one more record adds that record at the end when it matches. */
  lemma FilterSnoc(s: seq<Record>, x: Record, p: Record -> bool)
    ensures Filter(s + [x], p) == Filter(s, p) + if p(x) then [x] else []
  {
    assert (s + [x])[..|s|] == s;
  }

  /** The hour keys of `rows`, one per row, in order. */
  function HourKeys(rows: seq<Record>): seq<string> {
    seq(|rows|, i requires 0 <= i < |rows| => HourKey(rows[i]))
  }

  /** `Counter(row[2][:2] for row in rows)`: how many rows fall under each hour key. */
  function HourCounter(rows: seq<Record>): (counter: multiset<string>)
    ensures |counter| == |rows|
  {
    multiset(HourKeys(rows))
  }

  /** A key occurs in the Counter exactly when some row has that hour key. */
  lemma HourCounterKeys(rows: seq<Record>)
    ensures forall k :: k in HourCounter(rows) <==> exists r :: r in rows && HourKey(r) == k
  {
    var keys := HourKeys(rows);
    forall k | k in keys
      ensures exists r :: r in rows && HourKey(r) == k
    {
      var i :| 0 <= i < |keys| && keys[i] == k;
      assert rows[i] in rows;
    }
    forall k | exists r :: r in rows && HourKey(r) == k
      ensures k in keys
    {
      var r :| r in rows && HourKey(r) == k;
      var i :| 0 <= i < |rows| && rows[i] == r;
      assert keys[i] == k;
    }
    assert forall k :: k in multiset(keys) <==> k in keys;
  }

  /** The records that satisfy `p` and whose hour key is `k`. */
  function AtHour(p: Record -> bool, k: string): Record -> bool {
    (r: Record) => p(r) && HourKey(r) == k
  }

  lemma HourKeysAppend(rows: seq<Record>, more: seq<Record>)
    ensures HourKeys(rows + more) == HourKeys(rows) + HourKeys(more)
  {
  }

  /** The Counter over the filtered rows holds, for each hour key, the count of matching records at that hour. */
  lemma {:induction false} HourCounterCounts(data: seq<Record>, p: Record -> bool, k: string)
    ensures HourCounter(Filter(data, p))[k] == Count(data, AtHour(p, k))
  {
    if data != [] {
      var n := |data| - 1;
      var last := if p(data[n]) then [data[n]] else [];
      HourCounterCounts(data[..n], p, k);
      HourKeysAppend(Filter(data[..n], p), last);
    }
  }

  /** The Counter's values add up to the number of filtered rows. */
  lemma HourCounterTotal(data: seq<Record>, p: Record -> bool)
    ensures |HourCounter(Filter(data, p))| == Count(data, p)
  {
  }
}
