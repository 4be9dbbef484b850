/** Collecting a disk's SMART data: the passthrough fallbacks, the evaluation and the scalar readings. */
module SmartCollect {
  import opened Wrappers
  import opened Decimal
  import opened Text
  import opened Model
  import opened SmartText
  import opened SmartRisk

  /** The `type` parameter of a SMART request. */
  datatype Kind = Plain | Sat | Scsi

  /** How many kinds are left to fall back to. */
  function Rank(kind: Kind): nat {
    match kind case Plain => 2 case Sat => 1 case Scsi => 0
  }

  /** A failed request may carry an HTTP status. A row of the attribute table may not decode. */
  datatype Answer =
    | Failed(code: Option<int>)
    | Garbled
    | Answered(health: string, wearout: Option<int>, rows: seq<Option<Attribute>>, text: string)

  /** What a server answers after the requests made so far for a disk, the current one last. */
  type Server = seq<Kind> -> Answer

  // ---- One answer --------------------------------------------------------------

  /** The rows of a table, unless one of them does not decode. */
  function Decoded(rows: seq<Option<Attribute>>): Option<seq<Attribute>> {
    if rows == [] then Some([])
    else
      var head, last := Decoded(rows[..|rows| - 1]), rows[|rows| - 1];
      if head.Some? && last.Some? then Some(head.value + [last.value]) else None
  }

  lemma {:induction false} DecodedExactly(rows: seq<Option<Attribute>>)
    ensures Decoded(rows).Some? <==> forall i :: 0 <= i < |rows| ==> rows[i].Some?
    ensures Decoded(rows).Some? ==> |Decoded(rows).value| == |rows|
                                    && forall i :: 0 <= i < |rows| ==> rows[i] == Some(Decoded(rows).value[i])
  {
    if rows != [] {
      DecodedExactly(rows[..|rows| - 1]);
    }
  }

  datatype Decision = Take(attrs: seq<Attribute>) | Retry(kind: Kind)

  /** Attributes that do not parse are dropped without a retry. */
  function Decide(protocol: Protocol, kind: Kind, a: Answer): (r: Decision)
    requires a.Answered?
    ensures r.Retry? <==> protocol == Ata && kind != Scsi && |a.rows| == 0
    ensures r.Retry? ==> Rank(r.kind) == Rank(kind) - 1
  {
    if protocol == Nvme && a.text != "" then
      var r := NvmeResult(a.text);
      Take(if r.Ok? then r.value else [])
    else if |a.rows| > 0 then
      var r := Decoded(a.rows);
      Take(if r.Some? then r.value else [])
    else if kind == Scsi && a.text != "" then Take(ScsiAttributes(a.text))
    else if protocol == Ata && kind == Plain then Retry(Sat)
    else if protocol == Ata && kind == Sat then Retry(Scsi)
    else Take([])
  }

  // ---- Scalars -------------------------------------------------------------------

  /** The int64 a subtraction leaves when it overflows upwards. */
  function Wrapped(n: int): int {
    if n > MAX_INT64 then n - 0x1_0000_0000_0000_0000 else n
  }

  function Scalar(d: Disk, a: Attribute): Disk {
    if d.protocol == Nvme then
      if a.id == 2 then d.(temperature := Some(a.raw))
      else if a.id == 8 then d.(powerOnHours := Some(a.raw))
      else if a.id == 5 && d.wearout.None? then d.(wearout := Some(Wrapped(100 - a.raw)))
      else d
    else if a.id == 194 || a.id == SCSI_TEMPERATURE then d.(temperature := Some(a.raw))
    else if a.id == 190 && d.temperature.None? then d.(temperature := Some(a.raw))
    else if a.id == 9 || a.id == SCSI_POWER_ON_HOURS then d.(powerOnHours := Some(a.raw))
    else d
  }

  function Scalars(d: Disk, attrs: seq<Attribute>): (e: Disk)
    ensures e == d.(temperature := e.temperature, powerOnHours := e.powerOnHours, wearout := e.wearout)
  {
    if attrs == [] then d else Scalar(Scalars(d, attrs[..|attrs| - 1]), attrs[|attrs| - 1])
  }

  /** The last attribute with one of the IDs. */
  ghost predicate LastOf(attrs: seq<Attribute>, ids: set<int>, i: int) {
    && 0 <= i < |attrs| && attrs[i].id in ids
    && forall j :: i < j < |attrs| ==> attrs[j].id !in ids
  }

  ghost predicate FirstOf(attrs: seq<Attribute>, ids: set<int>, i: int) {
    && 0 <= i < |attrs| && attrs[i].id in ids
    && forall j :: 0 <= j < i ==> attrs[j].id !in ids
  }

  ghost predicate Lacks(attrs: seq<Attribute>, ids: set<int>) {
    forall j :: 0 <= j < |attrs| ==> attrs[j].id !in ids
  }

  /** The last reading with one of the IDs, or else what there was before. */
  ghost predicate IsLastReading(r: Option<int>, attrs: seq<Attribute>, ids: set<int>, before: Option<int>) {
    && (forall i :: LastOf(attrs, ids, i) ==> r == Some(attrs[i].raw))
    && (Lacks(attrs, ids) ==> r == before)
  }

  lemma LastReadingStep(r: Option<int>, attrs: seq<Attribute>, ids: set<int>, before: Option<int>)
    requires attrs != []
    requires attrs[|attrs| - 1].id !in ids ==> IsLastReading(r, attrs[..|attrs| - 1], ids, before)
    requires attrs[|attrs| - 1].id in ids ==> r == Some(attrs[|attrs| - 1].raw)
    ensures IsLastReading(r, attrs, ids, before)
  {
    var n := |attrs| - 1;
    forall i | LastOf(attrs, ids, i) ensures r == Some(attrs[i].raw) {
      if i < n {
        assert attrs[n].id !in ids;
        assert LastOf(attrs[..n], ids, i);
      }
    }
    if Lacks(attrs, ids) {
      assert Lacks(attrs[..n], ids);
    }
  }

  function HoursIds(protocol: Protocol): set<int> {
    if protocol == Nvme then {8} else {9, 301}
  }

  /** The hours are those of the last attribute that has them. */
  lemma {:induction false} HoursChoice(d: Disk, attrs: seq<Attribute>)
    ensures IsLastReading(Scalars(d, attrs).powerOnHours, attrs, HoursIds(d.protocol), d.powerOnHours)
  {
    if attrs != [] {
      HoursChoice(d, attrs[..|attrs| - 1]);
      LastReadingStep(Scalars(d, attrs).powerOnHours, attrs, HoursIds(d.protocol), d.powerOnHours);
    }
  }

  lemma {:induction false} NvmeTemperature(d: Disk, attrs: seq<Attribute>)
    requires d.protocol == Nvme
    ensures IsLastReading(Scalars(d, attrs).temperature, attrs, {2}, d.temperature)
  {
    if attrs != [] {
      NvmeTemperature(d, attrs[..|attrs| - 1]);
      LastReadingStep(Scalars(d, attrs).temperature, attrs, {2}, d.temperature);
    }
  }

  lemma {:induction false} LastExists(attrs: seq<Attribute>, ids: set<int>) returns (i: nat)
    requires !Lacks(attrs, ids)
    ensures LastOf(attrs, ids, i)
  {
    i := |attrs| - 1;
    if attrs[i].id !in ids {
      i := LastExists(attrs[..|attrs| - 1], ids);
      assert attrs[..|attrs| - 1][i] == attrs[i];
    }
  }

  lemma {:induction false} FirstExists(attrs: seq<Attribute>, ids: set<int>) returns (i: nat)
    requires !Lacks(attrs, ids)
    ensures FirstOf(attrs, ids, i)
  {
    if attrs[0].id in ids {
      i := 0;
    } else {
      var k := FirstExists(attrs[1..], ids);
      i := k + 1;
    }
  }

  /** What is left of 100 percent, in 64 bits. */
  function LeftOf(used: int): int {
    if used >= -9223372036854775707 then 100 - used else 100 - used - 18446744073709551616
  }

  /** Wear known before stands; otherwise the first percentage used counts. */
  ghost predicate IsWear(r: Option<int>, attrs: seq<Attribute>, before: Option<int>) {
    && (before.Some? || Lacks(attrs, {5}) ==> r == before)
    && (before.None? ==> forall i :: FirstOf(attrs, {5}, i) ==> r == Some(LeftOf(attrs[i].raw)))
  }

  lemma WearStep(w: Option<int>, r: Option<int>, attrs: seq<Attribute>, before: Option<int>)
    requires attrs != [] && IsWear(w, attrs[..|attrs| - 1], before)
    requires r == if attrs[|attrs| - 1].id == 5 && w.None? then Some(Wrapped(100 - attrs[|attrs| - 1].raw)) else w
    ensures IsWear(r, attrs, before)
  {
    var n := |attrs| - 1;
    var init := attrs[..n];
    assert Lacks(attrs, {5}) ==> Lacks(init, {5}) && attrs[n].id !in {5};
    forall i | before.None? && FirstOf(attrs, {5}, i) ensures r == Some(LeftOf(attrs[i].raw)) {
      if i < n {
        assert FirstOf(init, {5}, i);
      } else {
        assert Lacks(init, {5});
      }
    }
  }

  lemma {:induction false} WearoutChoice(d: Disk, attrs: seq<Attribute>)
    ensures if d.protocol == Nvme then IsWear(Scalars(d, attrs).wearout, attrs, d.wearout)
            else Scalars(d, attrs).wearout == d.wearout
  {
    hide Wrapped, IsWear;
    if attrs == [] {
      NoWear(d.wearout);
    } else {
      WearoutChoice(d, attrs[..|attrs| - 1]);
      if d.protocol == Nvme {
        WearStep(Scalars(d, attrs[..|attrs| - 1]).wearout, Scalars(d, attrs).wearout, attrs, d.wearout);
      }
    }
  }

  lemma NoWear(before: Option<int>)
    ensures IsWear(before, [], before)
  {
  }

  /** Without 194 and 300 the first 190 counts, and with one of them no 190 does, wherever it stands. */
  ghost predicate IsChosenTemperature(r: Option<int>, attrs: seq<Attribute>) {
    && (forall i :: LastOf(attrs, {194, 300}, i) ==> r == Some(attrs[i].raw))
    && (Lacks(attrs, {194, 300}) ==>
          && (forall i :: FirstOf(attrs, {190}, i) ==> r == Some(attrs[i].raw))
          && (Lacks(attrs, {190}) ==> r == None))
  }

  /** The rule leaves nothing open. */
  lemma ChosenTemperatureIsUnique(r: Option<int>, s: Option<int>, attrs: seq<Attribute>)
    requires IsChosenTemperature(r, attrs) && IsChosenTemperature(s, attrs)
    ensures r == s
  {
    if !Lacks(attrs, {194, 300}) {
      var i := LastExists(attrs, {194, 300});
    } else if !Lacks(attrs, {190}) {
      var i := FirstExists(attrs, {190});
    }
  }

  lemma ChosenTemperatureStep(t: Option<int>, r: Option<int>, attrs: seq<Attribute>)
    requires attrs != [] && IsChosenTemperature(t, attrs[..|attrs| - 1])
    requires var id := attrs[|attrs| - 1].id;
             r == if id in {194, 300} || (id == 190 && t.None?) then Some(attrs[|attrs| - 1].raw) else t
    ensures IsChosenTemperature(r, attrs)
  {
    var n := |attrs| - 1;
    var init := attrs[..n];
    forall i | LastOf(attrs, {194, 300}, i) ensures r == Some(attrs[i].raw) {
      if i < n {
        assert attrs[n].id !in {194, 300};
        assert LastOf(init, {194, 300}, i);
      }
    }
    if Lacks(attrs, {194, 300}) {
      assert Lacks(init, {194, 300}) && attrs[n].id !in {194, 300};
      forall i | FirstOf(attrs, {190}, i) ensures r == Some(attrs[i].raw) {
        if i < n {
          assert FirstOf(init, {190}, i);
        } else {
          assert Lacks(init, {190});
        }
      }
      if Lacks(attrs, {190}) {
        assert Lacks(init, {190}) && attrs[n].id !in {190};
      }
    }
  }

  lemma {:induction false} TemperatureChoice(d: Disk, attrs: seq<Attribute>)
    requires d.protocol != Nvme && d.temperature.None?
    ensures IsChosenTemperature(Scalars(d, attrs).temperature, attrs)
  {
    hide IsChosenTemperature;
    if attrs == [] {
      NoTemperature();
    } else {
      TemperatureChoice(d, attrs[..|attrs| - 1]);
      ChosenTemperatureStep(Scalars(d, attrs[..|attrs| - 1]).temperature, Scalars(d, attrs).temperature, attrs);
    }
  }

  lemma NoTemperature()
    ensures IsChosenTemperature(None, [])
  {
  }

  // ---- The cascade ---------------------------------------------------------------

  /** The disk as it is left, the requests made for it, and whether the last one was an error. */
  datatype Outcome = Outcome(disk: Disk, asked: seq<Kind>, failed: bool)

  /** The disk with the attributes evaluated, its status and its scalar readings. */
  function Finished(d: Disk, attrs: seq<Attribute>): Disk {
    var judged := JudgeAll(attrs);
    Scalars(d.(attributes := judged, status := OrAll(Statuses(judged))), judged)
  }

  /** The health and wear of an answer. */
  function Noted(d: Disk, a: Answer): Disk
    requires a.Answered?
  {
    d.(health := a.health, wearout := if a.wearout.Some? then a.wearout else d.wearout)
  }

  /** `collectSMARTWithType`, after the requests made already. */
  function Cascade(d: Disk, server: Server, asked: seq<Kind>, kind: Kind): Outcome
    decreases Rank(kind)
  {
    var now := asked + [kind];
    var a := server(now);
    match a
    case Failed(code) =>
      if code == Some(400) && kind == Sat then Cascade(d, server, now, Scsi)
      else Outcome(d, now, !(code == Some(400) && kind == Scsi))
    case Garbled => Outcome(d, now, true)
    case Answered(_, _, _, _) =>
      match Decide(d.protocol, kind, a)
      case Retry(next) => Cascade(Noted(d, a), server, now, next)
      case Take(attrs) => Outcome(Finished(Noted(d, a), attrs), now, false)
  }

  predicate Rejected(a: Answer) {
    a == Failed(Some(400))
  }

  /** An answer without an attribute table. */
  predicate Bare(a: Answer) {
    a.Answered? && |a.rows| == 0
  }

  lemma AskedFromScsi(d: Disk, server: Server, asked: seq<Kind>)
    ensures Cascade(d, server, asked, Scsi).asked == asked + [Scsi]
  {
    hide Finished;
  }

  lemma AskedFromSat(d: Disk, server: Server, asked: seq<Kind>)
    ensures var now := asked + [Sat];
            Cascade(d, server, asked, Sat).asked
            == if Rejected(server(now)) || (d.protocol == Ata && Bare(server(now))) then now + [Scsi] else now
  {
    hide Finished;
    var now := asked + [Sat];
    AskedFromScsi(d, server, now);
    if server(now).Answered? {
      AskedFromScsi(Noted(d, server(now)), server, now);
    }
  }

  /** At most three requests, of ever lower passthroughs, and exactly when each of the later ones is made. */
  lemma RequestsInOrder(d: Disk, server: Server)
    ensures var asked := Cascade(d, server, [], Plain).asked;
            && asked in [[Plain], [Plain, Sat], [Plain, Sat, Scsi]]
            && (|asked| >= 2 <==> d.protocol == Ata && Bare(server([Plain])))
            && (|asked| == 3 <==> |asked| >= 2 && (Rejected(server([Plain, Sat])) || Bare(server([Plain, Sat]))))
  {
    hide Finished;
    assert [] + [Plain] == [Plain] && [Plain] + [Sat] == [Plain, Sat] && [Plain, Sat] + [Scsi] == [Plain, Sat, Scsi];
    if server([Plain]).Answered? {
      AskedFromSat(Noted(d, server([Plain])), server, [Plain]);
    }
  }

  /** The outcome is an error exactly when the last request went unanswered, a rejected `scsi` request excepted. */
  lemma {:induction false} FailsExactly(d: Disk, server: Server, asked: seq<Kind>, kind: Kind)
    ensures var o := Cascade(d, server, asked, kind);
            && |o.asked| > 0
            && (o.failed <==>
                  !server(o.asked).Answered? && !(Rejected(server(o.asked)) && o.asked[|o.asked| - 1] == Scsi))
    decreases Rank(kind)
  {
    hide Finished, Decide;
    var now := asked + [kind];
    var a := server(now);
    if a.Answered? {
      var r := Decide(d.protocol, kind, a);
      if r.Retry? {
        FailsExactly(Noted(d, a), server, now, r.kind);
      }
    } else if Rejected(a) && kind == Sat {
      FailsExactly(d, server, now, Scsi);
    }
  }

  lemma JudgedStays(attrs: seq<Attribute>)
    ensures JudgeAll(JudgeAll(attrs)) == JudgeAll(attrs)
  {
    forall i | 0 <= i < |attrs| ensures JudgeAll(JudgeAll(attrs))[i] == JudgeAll(attrs)[i] {
      JudgeIsStable(attrs[i], PASSED, None);
    }
  }

  /** Evaluated attributes, and their statuses summed up. */
  ghost predicate HasVerdict(d: Disk) {
    d.attributes == JudgeAll(d.attributes) && d.status == OrAll(Statuses(d.attributes))
  }

  /** Attributes are written only together with the status, by the last answer; no answer, and both are as they were. */
  lemma {:induction false} CascadeVerdict(d: Disk, server: Server, asked: seq<Kind>, kind: Kind)
    ensures var o := Cascade(d, server, asked, kind);
            if server(o.asked).Answered? then HasVerdict(o.disk)
            else o.disk.attributes == d.attributes && o.disk.status == d.status && o.disk.temperature == d.temperature
    decreases Rank(kind)
  {
    hide Decide, Scalars, JudgeAll, OrAll, Statuses;
    var now := asked + [kind];
    var a := server(now);
    if a.Answered? {
      var r := Decide(d.protocol, kind, a);
      if r.Retry? {
        CascadeVerdict(Noted(d, a), server, now, r.kind);
      } else {
        JudgedStays(r.attrs);
      }
    } else if Rejected(a) && kind == Sat {
      CascadeVerdict(d, server, now, Scsi);
    }
  }

  /** What identifies a disk and how it is reached are kept. */
  lemma {:induction false} CascadeKeeps(d: Disk, server: Server, asked: seq<Kind>, kind: Kind)
    ensures var e := Cascade(d, server, asked, kind).disk;
            e.instance == d.instance && e.wwn == d.wwn && e.devPath == d.devPath && e.protocol == d.protocol
    decreases Rank(kind)
  {
    hide Decide, Scalars, JudgeAll, OrAll, Statuses;
    var now := asked + [kind];
    var a := server(now);
    if a.Answered? {
      var r := Decide(d.protocol, kind, a);
      if r.Retry? {
        CascadeKeeps(Noted(d, a), server, now, r.kind);
      }
    } else if Rejected(a) && kind == Sat {
      CascadeKeeps(d, server, now, Scsi);
    }
  }

  lemma {:induction false} CascadeTemperature(d: Disk, server: Server, asked: seq<Kind>, kind: Kind)
    requires d.protocol != Nvme && d.temperature == None && d.attributes == []
    ensures var e := Cascade(d, server, asked, kind).disk; IsChosenTemperature(e.temperature, e.attributes)
    decreases Rank(kind)
  {
    hide Decide, Scalars, JudgeAll, OrAll, Statuses, IsChosenTemperature;
    var now := asked + [kind];
    var a := server(now);
    NoTemperature();
    if a.Answered? {
      var r := Decide(d.protocol, kind, a);
      if r.Retry? {
        CascadeTemperature(Noted(d, a), server, now, r.kind);
      } else {
        var judged := JudgeAll(r.attrs);
        TemperatureChoice(Noted(d, a).(attributes := judged, status := OrAll(Statuses(judged))), judged);
      }
    } else if Rejected(a) && kind == Sat {
      CascadeTemperature(d, server, now, Scsi);
    }
  }

  /** The table is read by ID whatever the protocol, so an NVMe drive fails on wear as an ATA drive on sectors. */
  lemma NvmeWearIsJudgedAsSectors(used: int)
    ensures FieldId("percentage used") == Some(5)
    ensures Judge(Parsed(5, used)).status
            == if used < 0 || used > MAX_RAW then WARN_SCRUTINY else if used <= 16 then PASSED else FAILED_SCRUTINY
  {
    VerdictByLimit(Parsed(5, used));
  }

  // ---- A listed disk ----------------------------------------------------------------

  datatype Listed = Listed(devPath: string, wwn: string, serial: string)

  function Normalized(s: string): string {
    if TrimSpace(s) in ["", "unknown", "none", "-"] then "" else s
  }

  function Identity(l: Listed): string {
    if Normalized(l.wwn) != "" then l.wwn else if Normalized(l.serial) != "" then l.serial else l.devPath
  }

  /** A disk before its first request. */
  function Blank(instance: string, l: Listed): Disk {
    var protocol := if HasPrefix(l.devPath, "/dev/nvme") then Nvme else Ata;
    Disk(instance, Identity(l), l.devPath, protocol, "", PASSED, None, None, None, [])
  }

  function Collected(instance: string, l: Listed, server: Server): Disk {
    var o := Cascade(Blank(instance, l), server, [], Plain);
    if o.failed then o.disk.(status := INTERNAL_ERROR) else o.disk
  }

  lemma JudgedBits(a: Attribute)
    ensures Judge(a).status & INTERNAL_ERROR == 0
  {
    hide FindBucket, LookupThreshold;
  }

  lemma VerdictIsNotAnError(d: Disk)
    requires HasVerdict(d)
    ensures d.status != INTERNAL_ERROR
  {
    hide Judge;
    OrAllBits(Statuses(d.attributes), INTERNAL_ERROR);
    forall i | 0 <= i < |d.attributes| ensures d.attributes[i].status & INTERNAL_ERROR == 0 {
      assert d.attributes[i] == Judge(d.attributes[i]);
      JudgedBits(d.attributes[i]);
    }
  }

  /**
   A disk ends with status 16 and no attributes when its last request failed, and otherwise
   with the verdict of its attributes.
   */
  lemma CollectedVerdict(instance: string, l: Listed, server: Server)
    ensures var d, failed := Collected(instance, l, server), Cascade(Blank(instance, l), server, [], Plain).failed;
            && (failed <==> d.status == 16)
            && (failed ==> d.attributes == [])
            && (!failed ==> HasVerdict(d))
            && d.instance == instance && d.wwn == Identity(l) && d.devPath == l.devPath
  {
    hide Cascade, Judge;
    var b := Blank(instance, l);
    CascadeVerdict(b, server, [], Plain);
    CascadeKeeps(b, server, [], Plain);
    FailsExactly(b, server, [], Plain);
    var o := Cascade(b, server, [], Plain);
    if !o.failed {
      VerdictIsNotAnError(o.disk);
    }
  }

  /** The temperature of a disk that is not NVMe follows from its attributes. */
  lemma CollectedTemperature(instance: string, l: Listed, server: Server)
    requires !HasPrefix(l.devPath, "/dev/nvme")
    ensures var d := Collected(instance, l, server); IsChosenTemperature(d.temperature, d.attributes)
  {
    hide Cascade, IsChosenTemperature;
    CascadeTemperature(Blank(instance, l), server, [], Plain);
  }

  // ---- In place -----------------------------------------------------------------------

  /** Writes an attribute's status, and its failure rate when a bucket has one. */
  method EvaluateAttribute(attrs: array<Attribute>, i: nat) returns (s: Status)
    requires i < attrs.Length
    modifies attrs
    ensures attrs[..] == old(attrs[..])[i := Judge(old(attrs[i]))]
    ensures s == attrs[i].status
  {
    hide LookupThreshold, FindBucket;
    var attr := attrs[i];
    if attr.threshold > 0 && attr.value > 0 && attr.value <= attr.threshold {
      attrs[i] := attrs[i].(status := FAILED_SMART);
      return FAILED_SMART;
    }
    var thresh := LookupThreshold(attr.id);
    if thresh.None? {
      attrs[i] := attrs[i].(status := PASSED);
      return PASSED;
    }
    var bucket := FindBucket(thresh.value, attr.raw);
    var critical := IsCritical(attr.id);
    s := PASSED;
    if bucket.Some? {
      var rate := bucket.value.rate;
      attrs[i] := attrs[i].(failureRate := Some(rate));
      if critical {
        if rate >= 100 {
          s := FAILED_SCRUTINY;
        }
      } else if rate >= 200 {
        s := FAILED_SCRUTINY;
      } else if rate >= 100 {
        s := WARN_SCRUTINY;
      }
    } else if critical {
      s := WARN_SCRUTINY;
    }
    attrs[i] := attrs[i].(status := s);
  }

  /** Judges every element, and returns the statuses summed up. */
  method EvaluateAll(attrs: array<Attribute>) returns (status: Status)
    modifies attrs
    ensures attrs[..] == JudgeAll(old(attrs[..])) && status == OrAll(Statuses(attrs[..]))
  {
    hide Judge;
    status := PASSED;
    var i := 0;
    while i < attrs.Length
      invariant 0 <= i <= attrs.Length
      invariant attrs[..i] == JudgeAll(old(attrs[..])[..i]) && attrs[i..] == old(attrs[..])[i..]
      invariant status == OrAll(Statuses(attrs[..i]))
    {
      ghost var before := attrs[..i];
      assert attrs[i] == attrs[i..][0] == old(attrs[..])[i];
      var s := EvaluateAttribute(attrs, i);
      status := status | s;
      assert attrs[..i] == before;
      assert attrs[..i + 1] == before + [attrs[i]];
      assert Statuses(attrs[..i + 1])[..i] == Statuses(before);
      i := i + 1;
    }
    assert attrs[..i] == attrs[..] && old(attrs[..])[..i] == old(attrs[..]);
  }

  /** A disk while it is collected. */
  class Drive {
    const instance: string
    const wwn: string
    const devPath: string
    const protocol: Protocol
    var health: string
    var status: Status
    var temperature: Option<int>
    var powerOnHours: Option<int>
    var wearout: Option<int>
    var attributes: array?<Attribute>

    constructor (instance: string, l: Listed)
      ensures View() == Blank(instance, l) && attributes == null
    {
      this.instance, wwn, devPath := instance, Identity(l), l.devPath;
      protocol := if HasPrefix(l.devPath, "/dev/nvme") then Nvme else Ata;
      health, status := "", PASSED;
      temperature, powerOnHours, wearout, attributes := None, None, None, null;
    }

    ghost function View(): Disk
      reads this, attributes
    {
      Disk(instance, wwn, devPath, protocol, health, status, temperature, powerOnHours, wearout,
           if attributes == null then [] else attributes[..])
    }

    /** `EvaluateDisk` */
    method Evaluate()
      modifies this`status, attributes
      ensures var was := old(View());
              View() == was.(attributes := JudgeAll(was.attributes),
                             status := OrAll(Statuses(JudgeAll(was.attributes))))
    {
      if attributes == null {
        status := PASSED;
      } else {
        status := EvaluateAll(attributes);
      }
    }

    /** The loop that reads the scalars off the attributes. */
    method Extract()
      modifies this`temperature, this`powerOnHours, this`wearout
      ensures View() == Scalars(old(View()), old(View()).attributes)
    {
      ghost var was := View();
      if attributes == null {
        return;
      }
      var i := 0;
      while i < attributes.Length
        invariant 0 <= i <= attributes.Length && View() == Scalars(was, was.attributes[..i])
      {
        assert was.attributes[..i + 1][..i] == was.attributes[..i];
        var a := attributes[i];
        if protocol == Nvme {
          if a.id == 2 {
            temperature := Some(a.raw);
          } else if a.id == 8 {
            powerOnHours := Some(a.raw);
          } else if a.id == 5 {
            if wearout.None? {
              wearout := Some(Wrapped(100 - a.raw));
            }
          }
        } else {
          if a.id == 194 {
            temperature := Some(a.raw);
          } else if a.id == 190 {
            if temperature.None? {
              temperature := Some(a.raw);
            }
          } else if a.id == 9 {
            powerOnHours := Some(a.raw);
          } else if a.id == SCSI_TEMPERATURE {
            temperature := Some(a.raw);
          } else if a.id == SCSI_POWER_ON_HOURS {
            powerOnHours := Some(a.raw);
          }
        }
        i := i + 1;
      }
      assert was.attributes[..i] == was.attributes;
    }

    /** Sets the attributes, evaluates them and reads the scalars. */
    method Finish(attrs: seq<Attribute>)
      modifies this
      ensures View() == Finished(old(View()), attrs)
      ensures attributes == null || fresh(attributes)
    {
      hide JudgeAll, Scalars, OrAll, Statuses;
      attributes := null;
      if |attrs| > 0 {
        attributes := new Attribute[|attrs|](i requires 0 <= i < |attrs| => attrs[i]);
        assert attributes[..] == attrs;
      }
      assert View() == old(View()).(attributes := attrs);
      Evaluate();
      Extract();
    }

    /** `collectSMARTWithType`; the requests for the disk made so far are what the server has seen. */
    method CollectSmart(server: Server, asked: seq<Kind>, kind: Kind) returns (now: seq<Kind>, failed: bool)
      modifies this
      ensures var o := Cascade(old(View()), server, asked, kind);
              View() == o.disk && now == o.asked && failed == o.failed
      ensures attributes == old(attributes) || attributes == null || fresh(attributes)
      decreases Rank(kind)
    {
      hide Finished;
      now, failed := asked + [kind], false;
      var a := server(now);
      if a.Failed? {
        if a.code == Some(400) {
          if kind == Sat {
            now, failed := CollectSmart(server, now, Scsi);
            return;
          } else if kind == Scsi {
            return;
          }
        }
        failed := true;
      } else if a.Garbled? {
        failed := true;
      } else {
        health := a.health;
        if a.wearout.Some? {
          wearout := a.wearout;
        }
        assert View() == Noted(old(View()), a);
        now, failed := Use(server, now, kind, a);
      }
    }

    /** Takes the attributes of an answer, or falls back. */
    method Use(server: Server, asked: seq<Kind>, kind: Kind, a: Answer) returns (now: seq<Kind>, failed: bool)
      requires a.Answered?
      modifies this
      ensures match Decide(protocol, kind, a)
              case Take(attrs) => View() == Finished(old(View()), attrs) && now == asked && !failed
              case Retry(next) =>
                var o := Cascade(old(View()), server, asked, next);
                View() == o.disk && now == o.asked && failed == o.failed
      ensures attributes == old(attributes) || attributes == null || fresh(attributes)
      decreases Rank(kind), 0
    {
      hide Finished, Cascade;
      now, failed := asked, false;
      var attrs: seq<Attribute> := [];
      if protocol == Nvme && a.text != "" {
        var r := ParseNvmeText(a.text);
        if r.Ok? {
          attrs := r.value;
        }
      } else if |a.rows| > 0 {
        var r := ParseRows(a.rows);
        if r.Some? {
          attrs := r.value;
        }
      } else if kind == Scsi && a.text != "" {
        attrs := ParseScsiText(a.text);
      } else if protocol == Ata && kind == Plain {
        now, failed := CollectSmart(server, asked, Sat);
        return;
      } else if protocol == Ata && kind == Sat {
        now, failed := CollectSmart(server, asked, Scsi);
        return;
      }
      Finish(attrs);
    }
  }

  method ParseRows(rows: seq<Option<Attribute>>) returns (r: Option<seq<Attribute>>)
    ensures r == Decoded(rows)
  {
    var attrs: seq<Attribute> := [];
    for i := 0 to |rows|
      invariant Decoded(rows[..i]) == Some(attrs)
    {
      assert rows[..i + 1][..i] == rows[..i];
      if rows[i].None? {
        DecodedExactly(rows);
        return None;
      }
      attrs := attrs + [rows[i].value];
    }
    assert rows[..|rows|] == rows;
    return Some(attrs);
  }

  /** What the loop of `collectDisks` makes of the listed disks. */
  function CollectedAll(instance: string, listed: seq<Listed>, servers: seq<Server>): seq<Disk>
    requires |servers| == |listed|
  {
    if listed == [] then []
    else
      var n := |listed| - 1;
      CollectedAll(instance, listed[..n], servers[..n])
      + if Identity(listed[n]) == "" then [] else [Collected(instance, listed[n], servers[n])]
  }

  /** A published disk is a listed one that can be told apart, and every such one is published. */
  lemma {:induction false} PublishedExactly(instance: string, listed: seq<Listed>, servers: seq<Server>, d: Disk)
    requires |servers| == |listed|
    ensures d in CollectedAll(instance, listed, servers)
            <==> exists i ::
                   0 <= i < |listed| && Identity(listed[i]) != "" && d == Collected(instance, listed[i], servers[i])
  {
    hide Collected, Identity;
    if listed != [] {
      var n := |listed| - 1;
      PublishedExactly(instance, listed[..n], servers[..n], d);
      forall i | 0 <= i < n ensures listed[..n][i] == listed[i] && servers[..n][i] == servers[i] {
      }
    }
  }

  method CollectDisk(instance: string, l: Listed, server: Server) returns (drive: Drive)
    ensures fresh(drive) && drive.View() == Collected(instance, l, server)
    ensures drive.attributes == null || fresh(drive.attributes)
  {
    hide Cascade, Blank;
    drive := new Drive(instance, l);
    var asked, failed := drive.CollectSmart(server, [], Plain);
    if failed {
      drive.status := INTERNAL_ERROR;
    }
  }

  method CollectDisks(instance: string, listed: seq<Listed>, servers: seq<Server>) returns (drives: seq<Drive>)
    requires |servers| == |listed|
    ensures |drives| == |CollectedAll(instance, listed, servers)|
    ensures forall k :: 0 <= k < |drives| ==>
              fresh(drives[k]) && drives[k].View() == CollectedAll(instance, listed, servers)[k]
  {
    hide Collected, Identity;
    drives := [];
    for i := 0 to |listed|
      invariant |drives| == |CollectedAll(instance, listed[..i], servers[..i])|
      invariant forall k :: 0 <= k < |drives| ==>
                  fresh(drives[k]) && drives[k].View() == CollectedAll(instance, listed[..i], servers[..i])[k]
    {
      assert listed[..i + 1][..i] == listed[..i] && servers[..i + 1][..i] == servers[..i];
      if Identity(listed[i]) != "" {
        var drive := CollectDisk(instance, listed[i], servers[i]);
        drives := drives + [drive];
      }
    }
    assert listed[..|listed|] == listed && servers[..|servers|] == servers;
  }
}
