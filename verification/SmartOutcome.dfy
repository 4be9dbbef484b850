/** What a collected disk ends up with, in terms of the server's answers and the listing alone. */
module SmartOutcome {
  import opened Wrappers
  import opened Decimal
  import opened Text
  import opened Model
  import opened SmartText
  import opened SmartRisk
  import opened SmartCollect

  /** The health of the last usable answer. */
  function HealthAfter(server: Server, asked: seq<Kind>): string {
    if asked == [] then ""
    else if server(asked).Answered? then server(asked).health
    else HealthAfter(server, asked[..|asked| - 1])
  }

  /** The last wear given. */
  function WearAfter(server: Server, asked: seq<Kind>): Option<int> {
    if asked == [] then None
    else if server(asked).Answered? && server(asked).wearout.Some? then server(asked).wearout
    else WearAfter(server, asked[..|asked| - 1])
  }

  /** The attributes an answer to a request of the kind gives. */
  ghost predicate Gives(protocol: Protocol, kind: Kind, a: Answer, attrs: seq<Attribute>)
    requires a.Answered?
  {
    if protocol == Nvme && a.text != "" then attrs == NvmeAttributes(a.text)
    else if |a.rows| > 0 then
      if forall i :: 0 <= i < |a.rows| ==> a.rows[i].Some? then
        |attrs| == |a.rows| && forall i :: 0 <= i < |a.rows| ==> a.rows[i] == Some(attrs[i])
      else attrs == []
    else if kind == Scsi && a.text != "" then attrs == ScsiAttributes(a.text)
    else attrs == []
  }

  lemma TakenIsGiven(protocol: Protocol, kind: Kind, a: Answer)
    requires a.Answered? && Decide(protocol, kind, a).Take?
    ensures Gives(protocol, kind, a, Decide(protocol, kind, a).attrs)
  {
    hide NvmeAttributes, ScsiAttributes, Decoded;
    DecodedExactly(a.rows);
  }

  /**
   The disk as the last answer found it, with the health and wear of the answers up to
   then; a usable last answer also gave it the attributes it is finished with.
   */
  lemma {:induction false} CascadeEnds(d: Disk, server: Server, asked: seq<Kind>, kind: Kind)
    returns (noted: Disk, attrs: seq<Attribute>)
    requires d.health == HealthAfter(server, asked) && d.wearout == WearAfter(server, asked)
    ensures var o := Cascade(d, server, asked, kind);
            && |o.asked| > 0
            && noted == d.(health := HealthAfter(server, o.asked), wearout := WearAfter(server, o.asked))
            && if server(o.asked).Answered? then
                 Gives(d.protocol, o.asked[|o.asked| - 1], server(o.asked), attrs) && o.disk == Finished(noted, attrs)
               else o.disk == noted
    decreases Rank(kind)
  {
    hide Decide, Finished, Gives;
    var now := asked + [kind];
    assert now[..|asked|] == asked;
    var a := server(now);
    noted, attrs := d, [];
    if a.Answered? {
      noted := Noted(d, a);
      var r := Decide(d.protocol, kind, a);
      if r.Retry? {
        noted, attrs := CascadeEnds(noted, server, now, r.kind);
      } else {
        attrs := r.attrs;
        TakenIsGiven(d.protocol, kind, a);
      }
    } else if Rejected(a) && kind == Sat {
      noted, attrs := CascadeEnds(d, server, now, Scsi);
    }
  }

  /** A text that says no more than that there is nothing. */
  predicate SaysNothing(s: string) {
    TrimSpace(s) == "" || TrimSpace(s) == "unknown" || TrimSpace(s) == "none" || TrimSpace(s) == "-"
  }

  /** The WWN identifies a disk, or else the serial number, or else the path. */
  lemma IdentityExactly(l: Listed)
    ensures Identity(l)
            == if !SaysNothing(l.wwn) then l.wwn else if !SaysNothing(l.serial) then l.serial else l.devPath
  {
    hide TrimSpace;
    EmptySaysNothing();
  }

  lemma EmptySaysNothing()
    ensures SaysNothing("")
  {
    assert TrimSpace("") == "";
  }

  /** The scalar readings that follow from the attributes a disk ends with and the wear given. */
  ghost predicate ReadOff(d: Disk, wear: Option<int>) {
    if d.protocol == Nvme then
      && IsLastReading(d.temperature, d.attributes, {2}, None) && IsLastReading(d.powerOnHours, d.attributes, {8}, None)
      && IsWear(d.wearout, d.attributes, wear)
    else
      && IsChosenTemperature(d.temperature, d.attributes) && IsLastReading(d.powerOnHours, d.attributes, {9, 301}, None)
      && d.wearout == wear
  }

  /** The attributes of the last answer, judged; none without a usable one. */
  ghost predicate HasGiven(d: Disk, server: Server, asked: seq<Kind>)
    requires asked != []
  {
    if server(asked).Answered? then
      exists attrs :: Gives(d.protocol, asked[|asked| - 1], server(asked), attrs) && d.attributes == JudgeAll(attrs)
    else d.attributes == []
  }

  /**
   What a listed disk ends with against any server: its identity and protocol by the listing,
   the health and wear the answers gave, the attributes of the last one, and the readings
   those hold.
   */
  lemma CollectedExactly(instance: string, l: Listed, server: Server)
    ensures var d, asked := Collected(instance, l, server), Cascade(Blank(instance, l), server, [], Plain).asked;
            && d.instance == instance && d.devPath == l.devPath
            && d.wwn == (if !SaysNothing(l.wwn) then l.wwn else if !SaysNothing(l.serial) then l.serial else l.devPath)
            && d.protocol == (if "/dev/nvme" <= l.devPath then Nvme else Ata)
            && asked != [] && d.health == HealthAfter(server, asked)
            && HasGiven(d, server, asked) && ReadOff(d, WearAfter(server, asked))
  {
    hide Cascade, Gives, JudgeAll, Statuses, OrAll, Scalars, Identity, IsWear, IsLastReading, IsChosenTemperature;
    IdentityExactly(l);
    var b := Blank(instance, l);
    var noted, attrs := CascadeEnds(b, server, [], Plain);
    var o := Cascade(b, server, [], Plain);
    if server(o.asked).Answered? {
      FinishedReadings(noted, attrs);
      assert Gives(b.protocol, o.asked[|o.asked| - 1], server(o.asked), attrs) && o.disk.attributes == JudgeAll(attrs);
    } else {
      NothingRead(noted);
    }
  }

  lemma FinishedReadings(noted: Disk, attrs: seq<Attribute>)
    requires noted.temperature == None && noted.powerOnHours == None
    ensures Finished(noted, attrs).attributes == JudgeAll(attrs) && ReadOff(Finished(noted, attrs), noted.wearout)
  {
    hide JudgeAll, Statuses, OrAll, Scalars, IsWear, IsLastReading, IsChosenTemperature;
    var judged := JudgeAll(attrs);
    var d := noted.(attributes := judged, status := OrAll(Statuses(judged)));
    HoursChoice(d, judged);
    WearoutChoice(d, judged);
    if d.protocol == Nvme {
      NvmeTemperature(d, judged);
    } else {
      TemperatureChoice(d, judged);
    }
  }

  lemma NothingRead(d: Disk)
    requires d.temperature == None && d.powerOnHours == None && d.attributes == []
    ensures ReadOff(d, d.wearout)
  {
  }

  // ---- An NVMe disk from its printed text ------------------------------------------

  /** The last field printed with the label. */
  ghost predicate IsLastPrinted(fields: seq<Field>, name: string, i: int) {
    && 0 <= i < |fields| && Lower(fields[i].name) == name
    && forall k :: i < k < |fields| ==> Lower(fields[k].name) != name
  }

  /** The reading is the last value printed with the label, if there is one. */
  ghost predicate IsPrinted(r: Option<int>, fields: seq<Field>, name: string) {
    && (forall i :: IsLastPrinted(fields, name, i) ==> r == Some(fields[i].value))
    && ((forall i :: 0 <= i < |fields| ==> Lower(fields[i].name) != name) ==> r == None)
  }

  lemma LabelsDiffer(j: int, k: int)
    requires 1 <= j <= 10 && 1 <= k <= 10 && LABELS[j - 1] == LABELS[k - 1]
    ensures j == k
  {
    LabelIds(j);
    LabelIds(k);
  }

  lemma PrintedReading(r: Option<int>, fields: seq<Field>, number: int)
    requires AllPrintable(fields) && 1 <= number <= 10
    requires IsLastReading(r, JudgeAll(ReadAll(fields)), {number}, None)
    ensures IsPrinted(r, fields, LABELS[number - 1])
  {
    hide Lower, Judge, Printable;
    var attrs := JudgeAll(ReadAll(fields));
    forall i | 0 <= i < |fields|
      ensures attrs[i].id == fields[i].number && attrs[i].raw == fields[i].value
      ensures Lower(fields[i].name) == LABELS[number - 1] <==> fields[i].number == number
    {
      JudgedKeeps(Read(fields[i]));
      PrintableLabel(fields[i], number);
    }
    forall i | IsLastPrinted(fields, LABELS[number - 1], i) ensures r == Some(fields[i].value) {
      assert LastOf(attrs, {number}, i);
    }
  }

  lemma JudgedKeeps(a: Attribute)
    ensures Judge(a).id == a.id && Judge(a).raw == a.raw
  {
  }

  lemma PrintableLabel(f: Field, number: int)
    requires Printable(f) && 1 <= number <= 10
    ensures Lower(f.name) == LABELS[number - 1] <==> f.number == number
  {
    hide Lower;
    if Lower(f.name) == LABELS[number - 1] {
      LabelsDiffer(f.number, number);
    }
  }

  /**
   The temperature and hours of an NVMe disk whose text the server prints are the last values
   printed as "Temperature" and as "Power On Hours", whatever else it prints.
   */
  lemma NvmeFromText(instance: string, l: Listed, server: Server, fields: seq<Field>)
    requires "/dev/nvme" <= l.devPath && AllPrintable(fields) && fields != []
    requires server([Plain]).Answered? && server([Plain]).text == PrintAll(fields)
    ensures var d := Collected(instance, l, server);
            && d.attributes == JudgeAll(ReadAll(fields))
            && IsPrinted(d.temperature, fields, "temperature")
            && IsPrinted(d.powerOnHours, fields, "power on hours")
  {
    hide Printable, Collected, JudgeAll, ReadAll, PrintAll, IsLastReading, IsWear, IsPrinted, Finished, Judge;
    var b := Blank(instance, l);
    RequestsInOrder(b, server);
    assert Cascade(b, server, [], Plain).asked == [Plain];
    CollectedExactly(instance, l, server);
    NvmeRoundTrip(fields);
    PrintedText(fields);
    var d := Collected(instance, l, server);
    PrintedReading(d.temperature, fields, 2);
    PrintedReading(d.powerOnHours, fields, 8);
  }

  lemma PrintedText(fields: seq<Field>)
    requires fields != []
    ensures PrintAll(fields) != ""
  {
  }
}
