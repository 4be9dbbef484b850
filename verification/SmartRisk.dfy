/** Failure-rate buckets, the verdict on an attribute, and a disk's overall status. */
module SmartRisk {
  import opened Wrappers
  import opened Model

  /** Rates are in thousandths a year. */
  datatype Bucket = Bucket(low: int, high: int, rate: int)

  const MAX_RAW: int := 0x4000_0000_0000_0000 - 1

  /** The threshold table, by attribute ID. */
  function LookupThreshold(id: int): Option<seq<Bucket>> {
    match id
    case 5 => Some([Bucket(0, 0, 25), Bucket(1, 4, 27), Bucket(4, 16, 75), Bucket(16, 70, 236),
                      Bucket(70, MAX_RAW, 500)])
    case 10 => Some([Bucket(0, 0, 25), Bucket(1, 3, 150), Bucket(3, MAX_RAW, 350)])
    case 187 => Some([Bucket(0, 0, 15), Bucket(1, 10, 50), Bucket(10, 50, 150), Bucket(50, MAX_RAW, 400)])
    case 188 => Some([Bucket(0, 0, 15), Bucket(1, 100, 30), Bucket(100, 1000, 80), Bucket(1000, MAX_RAW, 200)])
    case 196 => Some([Bucket(0, 0, 25), Bucket(1, 5, 50), Bucket(5, MAX_RAW, 250)])
    case 197 => Some([Bucket(0, 0, 25), Bucket(1, 5, 100), Bucket(5, MAX_RAW, 350)])
    case 198 => Some([Bucket(0, 0, 25), Bucket(1, 5, 100), Bucket(5, MAX_RAW, 350)])
    case 1 => Some([Bucket(0, 0, 20), Bucket(1, 1000, 30), Bucket(1000, 100000, 80), Bucket(100000, MAX_RAW, 150)])
    case 9 => Some([Bucket(0, 10000, 20), Bucket(10000, 20000, 25), Bucket(20000, 40000, 30),
                      Bucket(40000, MAX_RAW, 60)])
    case 194 => Some([Bucket(0, 35, 20), Bucket(35, 45, 25), Bucket(45, 55, 50), Bucket(55, MAX_RAW, 120)])
    case 199 => Some([Bucket(0, 0, 25), Bucket(1, 100, 30), Bucket(100, MAX_RAW, 100)])
    case 200 => Some([Bucket(0, 0, 20), Bucket(1, 100, 50), Bucket(100, MAX_RAW, 150)])
    case _ => None
  }

  predicate IsCritical(id: int) {
    id in {5, 10, 187, 188, 196, 197, 198}
  }

  predicate Within(b: Bucket, raw: int) {
    b.low <= raw <= b.high
  }

  predicate IsFirstMatch(buckets: seq<Bucket>, raw: int, i: int) {
    0 <= i < |buckets| && Within(buckets[i], raw) && forall j :: 0 <= j < i ==> !Within(buckets[j], raw)
  }

  /** The first bucket that has the value, both bounds included. */
  function FindBucket(buckets: seq<Bucket>, raw: int): (b: Option<Bucket>)
    ensures b.Some? ==> exists i :: IsFirstMatch(buckets, raw, i) && buckets[i] == b.value
    ensures b.None? ==> forall i :: 0 <= i < |buckets| ==> !Within(buckets[i], raw)
  {
    if buckets == [] then None
    else if Within(buckets[0], raw) then
      assert IsFirstMatch(buckets, raw, 0);
      Some(buckets[0])
    else
      var b := FindBucket(buckets[1..], raw);
      assert b.Some? ==> exists i :: IsFirstMatch(buckets, raw, i) && buckets[i] == b.value by {
        if b.Some? {
          var k :| IsFirstMatch(buckets[1..], raw, k) && buckets[1..][k] == b.value;
          assert IsFirstMatch(buckets, raw, k + 1);
        }
      }
      b
  }

  // ---- Monotone rates ----------------------------------------------------------

  /** Bounds and rates ascend, and no value between the ends is left out. */
  ghost predicate Ascending(buckets: seq<Bucket>) {
    && buckets != []
    && (forall i :: 0 <= i < |buckets| ==> buckets[i].low <= buckets[i].high)
    && (forall i :: 0 < i < |buckets| ==>
          && buckets[i].low <= buckets[i - 1].high + 1
          && buckets[i - 1].high <= buckets[i].high
          && buckets[i - 1].rate <= buckets[i].rate)
  }

  predicate Spans(buckets: seq<Bucket>, raw: int)
    requires buckets != []
  {
    buckets[0].low <= raw <= buckets[|buckets| - 1].high
  }

  lemma {:induction false} FirstRateIsLeast(buckets: seq<Bucket>, i: nat)
    requires Ascending(buckets) && i < |buckets|
    ensures buckets[0].rate <= buckets[i].rate
  {
    if i > 0 {
      FirstRateIsLeast(buckets, i - 1);
    }
  }

  lemma TailAscends(buckets: seq<Bucket>, raw: int)
    requires Ascending(buckets) && buckets[0].high < raw <= buckets[|buckets| - 1].high
    ensures |buckets| > 1 && Ascending(buckets[1..]) && Spans(buckets[1..], raw)
  {
    var t := buckets[1..];
    assert forall i :: 0 <= i < |t| ==> t[i] == buckets[i + 1];
    assert forall i :: 0 < i < |t| ==> t[i - 1] == buckets[i];
  }

  /** Every value of the spanned range has a bucket. */
  lemma {:induction false} BucketExists(buckets: seq<Bucket>, raw: int)
    requires Ascending(buckets) && Spans(buckets, raw)
    ensures FindBucket(buckets, raw).Some?
  {
    if raw > buckets[0].high {
      hide Ascending;
      TailAscends(buckets, raw);
      BucketExists(buckets[1..], raw);
    }
  }

  /** A greater value never has a smaller rate. */
  lemma {:induction false} RateIsMonotone(buckets: seq<Bucket>, r: int, s: int)
    requires Ascending(buckets) && r <= s && Spans(buckets, r) && Spans(buckets, s)
    ensures FindBucket(buckets, r).Some? && FindBucket(buckets, s).Some?
    ensures FindBucket(buckets, r).value.rate <= FindBucket(buckets, s).value.rate
  {
    assert buckets != [];
    hide Ascending;
    BucketExists(buckets, r);
    BucketExists(buckets, s);
    if r <= buckets[0].high {
      var b := FindBucket(buckets, s).value;
      var i :| 0 <= i < |buckets| && buckets[i] == b;
      FirstRateIsLeast(buckets, i);
    } else {
      TailAscends(buckets, r);
      TailAscends(buckets, s);
      RateIsMonotone(buckets[1..], r, s);
    }
  }

  lemma {:induction false} FirstHighIsLeast(buckets: seq<Bucket>, i: nat)
    requires Ascending(buckets) && i < |buckets|
    ensures buckets[0].high <= buckets[i].high
  {
    if i > 0 {
      FirstHighIsLeast(buckets, i - 1);
    }
  }

  /** Between two buckets the value decides on which side its rate is. */
  lemma {:induction false} RateIsCut(buckets: seq<Bucket>, k: int, raw: int)
    requires Ascending(buckets) && Spans(buckets, raw) && 0 < k < |buckets|
    ensures var b := FindBucket(buckets, raw);
            && b.Some?
            && (raw <= buckets[k - 1].high ==> b.value.rate <= buckets[k - 1].rate)
            && (raw > buckets[k - 1].high ==> b.value.rate >= buckets[k].rate)
  {
    assert buckets != [];
    hide Ascending;
    BucketExists(buckets, raw);
    if raw <= buckets[0].high {
      FirstRateIsLeast(buckets, k - 1);
      FirstHighIsLeast(buckets, k - 1);
    } else {
      TailAscends(buckets, raw);
      if k > 1 {
        RateIsCut(buckets[1..], k - 1, raw);
      } else {
        BucketExists(buckets[1..], raw);
        var b := FindBucket(buckets[1..], raw).value;
        var i :| 0 <= i < |buckets[1..]| && buckets[1..][i] == b;
        FirstRateIsLeast(buckets[1..], i);
      }
    }
  }

  ghost predicate FullRange(t: seq<Bucket>) {
    Ascending(t) && t[0].low == 0 && t[|t| - 1].high == MAX_RAW
  }

  lemma FullRangeOf3(a: Bucket, b: Bucket, c: Bucket)
    requires a.low == 0 && c.high == MAX_RAW && a.low <= a.high && b.low <= b.high && c.low <= c.high
    requires b.low <= a.high + 1 && a.high <= b.high && a.rate <= b.rate
    requires c.low <= b.high + 1 && b.high <= c.high && b.rate <= c.rate
    ensures FullRange([a, b, c])
  {
  }

  lemma FullRangeOf4(a: Bucket, b: Bucket, c: Bucket, d: Bucket)
    requires a.low == 0 && d.high == MAX_RAW && a.low <= a.high && b.low <= b.high && c.low <= c.high && d.low <= d.high
    requires b.low <= a.high + 1 && a.high <= b.high && a.rate <= b.rate
    requires c.low <= b.high + 1 && b.high <= c.high && b.rate <= c.rate
    requires d.low <= c.high + 1 && c.high <= d.high && c.rate <= d.rate
    ensures FullRange([a, b, c, d])
  {
  }

  lemma Table5Ascends()
    ensures FullRange(LookupThreshold(5).value)
  {
  }

  /** Every entry of the table is such a list, from 0 to the same upper end. */
  lemma TableAscends(id: int)
    requires LookupThreshold(id).Some?
    ensures FullRange(LookupThreshold(id).value)
  {
    hide FullRange;
    var t := LookupThreshold(id).value;
    if id == 5 {
      Table5Ascends();
    } else if |t| == 3 {
      FullRangeOf3(t[0], t[1], t[2]);
      assert t == [t[0], t[1], t[2]];
    } else {
      FullRangeOf4(t[0], t[1], t[2], t[3]);
      assert t == [t[0], t[1], t[2], t[3]];
    }
  }

  // ---- The verdict on an attribute ------------------------------------------------

  predicate ManufacturerFails(a: Attribute) {
    a.threshold > 0 && a.value > 0 && a.value <= a.threshold
  }

  /** `EvaluateAttribute`: the attribute with its status and rate written. The protocol is not looked at. */
  function Judge(a: Attribute): Attribute {
    if ManufacturerFails(a) then a.(status := FAILED_SMART)
    else
      var t := LookupThreshold(a.id);
      if t.None? then a.(status := PASSED)
      else
        var bucket := FindBucket(t.value, a.raw);
        if bucket.None? then a.(status := if IsCritical(a.id) then WARN_SCRUTINY else PASSED)
        else
          var rate := bucket.value.rate;
          var status :=
            if IsCritical(a.id) then (if rate >= 100 then FAILED_SCRUTINY else PASSED)
            else if rate >= 200 then FAILED_SCRUTINY
            else if rate >= 100 then WARN_SCRUTINY
            else PASSED;
          a.(status := status, failureRate := Some(rate))
  }

  /** Passed, then a warning, then a failure of either kind. */
  function Severity(s: Status): nat {
    if s == PASSED then 0 else if s == WARN_SCRUTINY then 1 else 2
  }

  /** The verdict comes from the ID, the readings and the raw value alone, so judging again changes nothing. */
  lemma JudgeIsStable(a: Attribute, status: Status, rate: Option<int>)
    ensures Judge(a.(status := status, failureRate := rate)).status == Judge(a).status
    ensures Judge(Judge(a)) == Judge(a)
    ensures Judge(a).(status := a.status, failureRate := a.failureRate) == a
  {
  }

  function RateOf(id: int, raw: int): int {
    var t := LookupThreshold(id);
    if t.None? then -1
    else
      var b := FindBucket(t.value, raw);
      if b.None? then -1 else b.value.rate
  }

  lemma TableRateIsMonotone(id: int, r: int, s: int)
    requires LookupThreshold(id).Some? && 0 <= r <= s <= MAX_RAW
    ensures 0 <= RateOf(id, r) <= RateOf(id, s)
    ensures FindBucket(LookupThreshold(id).value, r).Some? && FindBucket(LookupThreshold(id).value, s).Some?
  {
    TableAscends(id);
    RateIsMonotone(LookupThreshold(id).value, r, s);
    RatesArePositive(id);
  }

  lemma RatesArePositive(id: int)
    requires LookupThreshold(id).Some?
    ensures forall b :: b in LookupThreshold(id).value ==> b.rate > 0
  {
  }

  /** The severity of an attribute never drops as its raw value grows over 0 to 2^62 - 1. */
  lemma SeverityIsMonotone(a: Attribute, r: int, s: int)
    requires 0 <= r <= s <= MAX_RAW
    ensures Severity(Judge(a.(raw := r)).status) <= Severity(Judge(a.(raw := s)).status)
  {
    hide LookupThreshold, FindBucket;
    if LookupThreshold(a.id).Some? {
      TableRateIsMonotone(a.id, r, s);
    }
  }

  /** The IDs of the attributes that are judged by their raw value, critical or not. */
  const CRITICAL_IDS: set<int> := {5, 10, 187, 188, 196, 197, 198}
  const OTHER_IDS: set<int> := {1, 9, 194, 199, 200}

  lemma TableIds(id: int)
    ensures LookupThreshold(id).Some? <==> id in CRITICAL_IDS || id in OTHER_IDS
    ensures IsCritical(id) <==> id in CRITICAL_IDS
  {
  }

  /** The greatest raw value that passes, by attribute ID. */
  function Limit(id: int): int {
    match id
    case 5 => 16
    case 10 => 0
    case 187 => 10
    case 188 => 1000
    case 196 => 5
    case 197 => 0
    case 198 => 0
    case 1 => 100000
    case 194 => 55
    case 199 => 100
    case 200 => 100
    case _ => MAX_RAW
  }

  /** The first bucket with a rate of a tenth or more is number k. */
  ghost predicate CutAt(t: seq<Bucket>, k: nat, limit: int) {
    0 < k < |t| && t[k - 1].high == limit && t[k - 1].rate < 100 <= t[k].rate
  }

  /** The table's entries change sides at the limit, and hours stay on one side. */
  lemma LimitIsCut(id: int) returns (k: nat)
    requires LookupThreshold(id).Some? && id != 9
    ensures CutAt(LookupThreshold(id).value, k, Limit(id))
  {
    k := if id in {10, 197, 198} then 1 else if id in {187, 196, 199, 200} then 2 else 3;
  }

  lemma MildRates(id: int)
    requires LookupThreshold(id).Some? && !IsCritical(id)
    ensures forall b :: b in LookupThreshold(id).value ==> b.rate < if id == 9 then 100 else 200
  {
  }

  lemma LimitCuts(id: int, raw: int)
    requires LookupThreshold(id).Some? && 0 <= raw <= MAX_RAW
    ensures var b := FindBucket(LookupThreshold(id).value, raw);
            && b.Some?
            && (raw <= Limit(id) <==> b.value.rate < 100)
            && (b.value.rate >= 200 ==> IsCritical(id))
  {
    hide FullRange, LookupThreshold, FindBucket;
    var t := LookupThreshold(id).value;
    TableAscends(id);
    FullRangeSpans(t, raw);
    BucketExists(t, raw);
    if !IsCritical(id) {
      MildRates(id);
    }
    if id != 9 {
      hide Limit;
      var k := LimitIsCut(id);
      RateIsCut(t, k, raw);
    }
  }

  lemma FullRangeSpans(t: seq<Bucket>, raw: int)
    requires FullRange(t) && 0 <= raw <= MAX_RAW
    ensures Ascending(t) && Spans(t, raw)
  {
  }

  lemma BoundsOf(id: int)
    requires LookupThreshold(id).Some?
    ensures forall b :: b in LookupThreshold(id).value ==> 0 <= b.low && b.high <= MAX_RAW
  {
  }

  lemma NoBucketOutside(id: int, raw: int)
    requires LookupThreshold(id).Some? && !(0 <= raw <= MAX_RAW)
    ensures FindBucket(LookupThreshold(id).value, raw) == None
  {
    hide LookupThreshold;
    BoundsOf(id);
  }

  /**
   The verdict by raw value, for every attribute. No attribute that is not critical is ever
   failed on its rate, and hours never are; outside the buckets critical ones only warn.
   */
  lemma VerdictByLimit(a: Attribute)
    ensures Judge(a).status
            == if a.threshold > 0 && 0 < a.value <= a.threshold then 1
               else if a.id in CRITICAL_IDS then
                 (if a.raw < 0 || a.raw > MAX_RAW then 2 else if a.raw <= Limit(a.id) then 0 else 4)
               else if a.id in OTHER_IDS && Limit(a.id) < a.raw <= MAX_RAW then 2
               else 0
    ensures MAX_RAW == 4611686018427387903
  {
    hide FindBucket, LookupThreshold, Limit, IsCritical;
    TableIds(a.id);
    if LookupThreshold(a.id).Some? {
      LimitInRange(a.id);
      if 0 <= a.raw <= MAX_RAW {
        LimitCuts(a.id, a.raw);
      } else {
        NoBucketOutside(a.id, a.raw);
      }
    }
  }

  lemma LimitInRange(id: int)
    ensures 0 <= Limit(id) <= MAX_RAW
  {
  }

  /**
   Between any two raw values the severity drops exactly on entering the buckets of a
   critical attribute, or on leaving those above the limit.
   */
  lemma SeverityDropsExactly(a: Attribute, r: int, s: int)
    requires r <= s
    ensures Severity(Judge(a.(raw := r)).status) > Severity(Judge(a.(raw := s)).status)
            <==> && !(a.threshold > 0 && 0 < a.value <= a.threshold)
                 && ((a.id in CRITICAL_IDS && r < 0 <= s <= Limit(a.id))
                     || ((a.id in CRITICAL_IDS || a.id in OTHER_IDS) && Limit(a.id) < r <= MAX_RAW < s))
  {
    hide Judge, Limit;
    VerdictByLimit(a.(raw := r));
    VerdictByLimit(a.(raw := s));
    LimitInRange(a.id);
  }

  // ---- The rate written -------------------------------------------------------------

  /** Raw values up to `upto`, above those of the step before, have this rate. */
  datatype Step = Step(upto: int, rate: int)

  /** The rates by ID, in thousandths a year; an ID without steps has none. */
  function Steps(id: int): seq<Step> {
    match id
    case 1 => [Step(0, 20), Step(1000, 30), Step(100000, 80), Step(MAX_RAW, 150)]
    case 5 => [Step(0, 25), Step(4, 27), Step(16, 75), Step(70, 236), Step(MAX_RAW, 500)]
    case 9 => [Step(10000, 20), Step(20000, 25), Step(40000, 30), Step(MAX_RAW, 60)]
    case 10 => [Step(0, 25), Step(3, 150), Step(MAX_RAW, 350)]
    case 187 => [Step(0, 15), Step(10, 50), Step(50, 150), Step(MAX_RAW, 400)]
    case 188 => [Step(0, 15), Step(100, 30), Step(1000, 80), Step(MAX_RAW, 200)]
    case 194 => [Step(35, 20), Step(45, 25), Step(55, 50), Step(MAX_RAW, 120)]
    case 196 => [Step(0, 25), Step(5, 50), Step(MAX_RAW, 250)]
    case 197 => [Step(0, 25), Step(5, 100), Step(MAX_RAW, 350)]
    case 198 => [Step(0, 25), Step(5, 100), Step(MAX_RAW, 350)]
    case 199 => [Step(0, 25), Step(100, 30), Step(MAX_RAW, 100)]
    case 200 => [Step(0, 20), Step(100, 50), Step(MAX_RAW, 150)]
    case _ => []
  }

  /** The value is on step number k. */
  predicate OnStep(steps: seq<Step>, raw: int, k: int) {
    0 <= k < |steps| && 0 <= raw <= steps[k].upto && (k > 0 ==> raw > steps[k - 1].upto)
  }

  ghost predicate Matches(t: seq<Bucket>, steps: seq<Step>) {
    |t| == |steps| && forall k :: 0 <= k < |t| ==> t[k].high == steps[k].upto && t[k].rate == steps[k].rate
  }

  lemma Matches3(t: seq<Bucket>, s: seq<Step>)
    requires |t| == 3 == |s| && t[0].high == s[0].upto && t[1].high == s[1].upto && t[2].high == s[2].upto
    requires t[0].rate == s[0].rate && t[1].rate == s[1].rate && t[2].rate == s[2].rate
    ensures Matches(t, s)
  {
  }

  lemma Matches4(t: seq<Bucket>, s: seq<Step>)
    requires |t| == 4 == |s| && t[0].high == s[0].upto && t[1].high == s[1].upto
    requires t[2].high == s[2].upto && t[3].high == s[3].upto
    requires t[0].rate == s[0].rate && t[1].rate == s[1].rate && t[2].rate == s[2].rate && t[3].rate == s[3].rate
    ensures Matches(t, s)
  {
  }

  lemma Table5Matches()
    ensures Matches(LookupThreshold(5).value, Steps(5))
  {
  }

  lemma TableMatches(id: int)
    requires LookupThreshold(id).Some?
    ensures Matches(LookupThreshold(id).value, Steps(id))
  {
    hide Matches;
    var t, s := LookupThreshold(id).value, Steps(id);
    if id == 5 {
      Table5Matches();
    } else if |t| == 3 {
      Matches3(t, s);
    } else {
      Matches4(t, s);
    }
  }

  lemma NoSteps(id: int)
    ensures Steps(id) == [] <==> LookupThreshold(id).None?
  {
  }

  /** Although the buckets' bounds overlap, first match finds the step the value is on. */
  lemma {:induction false} StepIsFound(t: seq<Bucket>, raw: int, k: int)
    requires Ascending(t) && 0 <= k < |t| && t[0].low <= raw <= t[k].high && (k > 0 ==> raw > t[k - 1].high)
    ensures FindBucket(t, raw) == Some(t[k])
  {
    if k > 0 {
      FirstHighIsLeast(t, k - 1);
      LastHighIsGreatest(t, k);
      TailAscends(t, raw);
      hide Ascending;
      StepIsFound(t[1..], raw, k - 1);
    }
  }

  lemma {:induction false} LastHighIsGreatest(t: seq<Bucket>, k: nat)
    requires Ascending(t) && k < |t|
    ensures t[k].high <= t[|t| - 1].high
    decreases |t| - k
  {
    if k + 1 < |t| {
      LastHighIsGreatest(t, k + 1);
    }
  }

  /** The rate of the step is written, and the rate is left alone off the steps and on a manufacturer's failure. */
  lemma RateWritten(a: Attribute, k: int)
    ensures !(a.threshold > 0 && 0 < a.value <= a.threshold) && OnStep(Steps(a.id), a.raw, k) ==>
              Judge(a).failureRate == Some(Steps(a.id)[k].rate)
    ensures (a.threshold > 0 && 0 < a.value <= a.threshold) || Steps(a.id) == [] || a.raw < 0 || a.raw > MAX_RAW ==>
              Judge(a).failureRate == a.failureRate
  {
    hide LookupThreshold, FindBucket, Steps;
    NoSteps(a.id);
    if LookupThreshold(a.id).Some? {
      var t := LookupThreshold(a.id).value;
      TableMatches(a.id);
      TableAscends(a.id);
      if a.raw < 0 || a.raw > MAX_RAW {
        NoBucketOutside(a.id, a.raw);
      } else if OnStep(Steps(a.id), a.raw, k) {
        StepIsFound(t, a.raw, k);
      }
    }
  }

  /** Every value from 0 to 2^62 - 1 is on a step, when the ID has any. */
  lemma StepExists(id: int, raw: int) returns (k: nat)
    requires Steps(id) != [] && 0 <= raw <= MAX_RAW
    ensures OnStep(Steps(id), raw, k)
  {
    k := 0;
    var steps := Steps(id);
    assert steps[|steps| - 1].upto == MAX_RAW;
    while raw > steps[k].upto
      invariant k < |steps| && (k > 0 ==> raw > steps[k - 1].upto)
      decreases |steps| - k
    {
      k := k + 1;
    }
  }

  // ---- The status of a disk ---------------------------------------------------------

  function OrAll(statuses: seq<Status>): Status {
    if statuses == [] then PASSED else OrAll(statuses[..|statuses| - 1]) | statuses[|statuses| - 1]
  }

  function JudgeAll(attrs: seq<Attribute>): seq<Attribute> {
    seq(|attrs|, i requires 0 <= i < |attrs| => Judge(attrs[i]))
  }

  function Statuses(attrs: seq<Attribute>): seq<Status> {
    seq(|attrs|, i requires 0 <= i < |attrs| => attrs[i].status)
  }

  predicate IsBit(m: Status) {
    m == 1 || m == 2 || m == 4 || m == 8 || m == 16 || m == 32 || m == 64 || m == 128
  }

  lemma OrBit(x: Status, y: Status, m: Status)
    requires IsBit(m)
    ensures (x | y) & m != 0 <==> x & m != 0 || y & m != 0
  {
  }

  /** A bit of the whole is set exactly when some part has it. */
  lemma {:induction false} OrAllBits(statuses: seq<Status>, m: Status)
    requires IsBit(m)
    ensures OrAll(statuses) & m != 0 <==> exists i :: 0 <= i < |statuses| && statuses[i] & m != 0
  {
    if statuses != [] {
      var n := |statuses| - 1;
      OrAllBits(statuses[..n], m);
      OrBit(OrAll(statuses[..n]), statuses[n], m);
    }
  }

  lemma SameBits(x: Status, y: Status)
    requires forall m :: IsBit(m) ==> (x & m != 0 <==> y & m != 0)
    ensures x == y
  {
    assert IsBit(1) && IsBit(2) && IsBit(4) && IsBit(8) && IsBit(16) && IsBit(32) && IsBit(64) && IsBit(128);
  }

  /** The order of the attributes does not show in the disk's status. */
  lemma StatusIgnoresOrder(a: seq<Status>, b: seq<Status>)
    requires forall s :: s in a <==> s in b
    ensures OrAll(a) == OrAll(b)
  {
    forall m | IsBit(m) ensures OrAll(a) & m != 0 <==> OrAll(b) & m != 0 {
      OrAllBits(a, m);
      OrAllBits(b, m);
      if i :| 0 <= i < |a| && a[i] & m != 0 {
        assert a[i] in b;
      }
      if i :| 0 <= i < |b| && b[i] & m != 0 {
        assert b[i] in a;
      }
    }
    SameBits(OrAll(a), OrAll(b));
  }
}
