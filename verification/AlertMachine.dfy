/**
 The alert engine as a transition function on its two memories: the time each
 alert key last fired, and the time each sustained condition was first seen.
 Times are integers in nanoseconds.
 */
module AlertMachine {
  import opened Wrappers

  const HOUR: int := 3_600_000_000_000
  const MAX_AGE: int := 6 * HOUR

  datatype Notification = Notification(
    alertType: string,
    severity: string,
    instance: string,
    subject: string,
    timestamp: int)

  /** A rule acts at once, or only after its condition has lasted for a duration. */
  datatype Kind = Instant | Sustained(duration: int)

  /** One rule looked at for one subject during one evaluation. */
  datatype Check = Check(key: string, kind: Kind, holds: bool, cooldown: int, notice: Notification)

  datatype Firing = Firing(key: string, at: int, notice: Notification)

  datatype Memory = Memory(lastFired: map<string, int>, sustained: map<string, int>)

  datatype Outcome = Outcome(mem: Memory, log: seq<Firing>)

  const EMPTY: Memory := Memory(map[], map[])

  function Young(m: map<string, int>, now: int): map<string, int> {
    map k | k in m && now - m[k] <= MAX_AGE :: m[k]
  }

  /** `cleanup`; an engine that never forgets has `gc` switched off. */
  function Recall(mem: Memory, now: int, gc: bool): Memory {
    if gc then Memory(Young(mem.lastFired, now), Young(mem.sustained, now)) else mem
  }

  function Fire(mem: Memory, now: int, c: Check): Outcome {
    if c.key in mem.lastFired && now - mem.lastFired[c.key] < c.cooldown then
      Outcome(mem, [])
    else
      Outcome(mem.(lastFired := mem.lastFired[c.key := now]), [Firing(c.key, now, c.notice)])
  }

  function Apply(mem: Memory, now: int, c: Check): Outcome {
    match c.kind
    case Instant =>
      if c.holds then Fire(mem, now, c) else Outcome(mem, [])
    case Sustained(duration) =>
      if !c.holds then
        Outcome(mem.(sustained := mem.sustained - {c.key}), [])
      else if c.key !in mem.sustained then
        Outcome(mem.(sustained := mem.sustained[c.key := now]), [])
      else if now - mem.sustained[c.key] >= duration then
        Fire(mem, now, c)
      else
        Outcome(mem, [])
  }

  /** The checks of one evaluation, in the order the engine happens to walk the snapshot. */
  function ApplyAll(mem: Memory, now: int, order: seq<Check>): Outcome {
    if order == [] then Outcome(mem, [])
    else
      var before := ApplyAll(mem, now, order[..|order| - 1]);
      var step := Apply(before.mem, now, order[|order| - 1]);
      Outcome(step.mem, before.log + step.log)
  }

  lemma ApplyAllAppend(mem: Memory, now: int, order: seq<Check>, c: Check)
    ensures var before := ApplyAll(mem, now, order);
            var step := Apply(before.mem, now, c);
            ApplyAll(mem, now, order + [c]) == Outcome(step.mem, before.log + step.log)
  {
    assert (order + [c])[..|order|] == order;
  }

  lemma {:induction false} ApplyAllConcat(mem: Memory, now: int, a: seq<Check>, b: seq<Check>)
    ensures var first := ApplyAll(mem, now, a);
            var second := ApplyAll(first.mem, now, b);
            ApplyAll(mem, now, a + b) == Outcome(second.mem, first.log + second.log)
  {
    hide Apply;
    if b == [] {
      assert a + b == a;
    } else {
      var b' := b[..|b| - 1];
      assert (a + b)[..|a + b| - 1] == a + b';
      ApplyAllConcat(mem, now, a, b');
    }
  }

  /** No two checks of one evaluation share a key. */
  ghost predicate Distinct(order: seq<Check>) {
    forall i, j :: 0 <= i < j < |order| ==> order[i].key != order[j].key
  }

  /** At most one check of an evaluation has the key, whatever the other keys. */
  ghost predicate Single(order: seq<Check>, key: string) {
    forall i, j :: 0 <= i < j < |order| ==> !(order[i].key == key && order[j].key == key)
  }

  ghost predicate FiredIn(log: seq<Firing>, key: string) {
    exists i :: 0 <= i < |log| && log[i].key == key
  }

  // ---- What one key sees ------------------------------------------------

  /** The two memories at one key. */
  datatype Slot = Slot(last: Option<int>, since: Option<int>)

  function Look(mem: Memory, key: string): Slot {
    Slot(if key in mem.lastFired then Some(mem.lastFired[key]) else None,
         if key in mem.sustained then Some(mem.sustained[key]) else None)
  }

  function Fresh(t: Option<int>, now: int): Option<int> {
    if t.Some? && now - t.value > MAX_AGE then None else t
  }

  function SlotRecall(s: Slot, now: int, gc: bool): Slot {
    if gc then Slot(Fresh(s.last, now), Fresh(s.since, now)) else s
  }

  predicate Ripe(s: Slot, now: int, c: Check) {
    && c.holds
    && (c.kind.Sustained? ==> s.since.Some? && now - s.since.value >= c.kind.duration)
  }

  predicate Cooling(s: Slot, now: int, c: Check) {
    s.last.Some? && now - s.last.value < c.cooldown
  }

  predicate SlotFires(s: Slot, now: int, c: Check) {
    Ripe(s, now, c) && !Cooling(s, now, c)
  }

  function SlotApply(s: Slot, now: int, c: Check): Slot {
    Slot(if SlotFires(s, now, c) then Some(now) else s.last,
         if c.kind.Instant? then s.since
         else if !c.holds then None
         else if s.since.None? then Some(now)
         else s.since)
  }

  /** The check made for a key, if the evaluation made one. */
  function Find(order: seq<Check>, key: string): (c: Option<Check>)
    ensures c.Some? ==> c.value in order && c.value.key == key
    ensures c.None? ==> forall i :: 0 <= i < |order| ==> order[i].key != key
  {
    if order == [] then None
    else if order[|order| - 1].key == key then Some(order[|order| - 1])
    else Find(order[..|order| - 1], key)
  }

  /** Whether `key` fires when the checks `order` meet the slot `s`. */
  predicate FiresFrom(s: Slot, now: int, seen: Option<Check>) {
    seen.Some? && SlotFires(s, now, seen.value)
  }

  /**
   One key's part of an evaluation depends on that key's own slot and check alone,
   whatever else the evaluation does and in whatever order.
   */
  lemma {:induction false} Project(mem: Memory, now: int, order: seq<Check>, key: string)
    requires Single(order, key)
    ensures var o := ApplyAll(mem, now, order);
            var seen := Find(order, key);
            && Look(o.mem, key) == (if seen.None? then Look(mem, key) else SlotApply(Look(mem, key), now, seen.value))
            && (FiredIn(o.log, key) <==> FiresFrom(Look(mem, key), now, seen))
  {
    if order != [] {
      var init, c := order[..|order| - 1], order[|order| - 1];
      Project(mem, now, init, key);
      var before := ApplyAll(mem, now, init);
      var step := Apply(before.mem, now, c);
      FiredAppend(before.log, step.log, key);
      if c.key == key {
        assert Find(init, key).None? by {
          assert forall d :: d in init ==> d.key != key;
        }
        StepAtKey(before.mem, now, c);
      } else {
        StepElsewhere(before.mem, now, c, key);
      }
    }
  }

  lemma FiredAppend(a: seq<Firing>, b: seq<Firing>, key: string)
    ensures FiredIn(a + b, key) <==> FiredIn(a, key) || FiredIn(b, key)
  {
    var s := a + b;
    if FiredIn(a, key) {
      var i :| 0 <= i < |a| && a[i].key == key;
      assert s[i].key == key;
    }
    if FiredIn(b, key) {
      var i :| 0 <= i < |b| && b[i].key == key;
      assert s[|a| + i].key == key;
    }
  }

  lemma StepAtKey(mem: Memory, now: int, c: Check)
    ensures var o := Apply(mem, now, c);
            && Look(o.mem, c.key) == SlotApply(Look(mem, c.key), now, c)
            && (FiredIn(o.log, c.key) <==> SlotFires(Look(mem, c.key), now, c))
            && (FiredIn(o.log, c.key) ==> o.log == [Firing(c.key, now, c.notice)])
            && (!FiredIn(o.log, c.key) ==> o.log == [])
  {
    var o := Apply(mem, now, c);
    if SlotFires(Look(mem, c.key), now, c) {
      assert o.log[0].key == c.key;
    }
  }

  lemma StepElsewhere(mem: Memory, now: int, c: Check, key: string)
    requires c.key != key
    ensures var o := Apply(mem, now, c);
            Look(o.mem, key) == Look(mem, key) && !FiredIn(o.log, key)
  {
  }

  lemma LookRecall(mem: Memory, now: int, gc: bool, key: string)
    ensures Look(Recall(mem, now, gc), key) == SlotRecall(Look(mem, key), now, gc)
  {
  }

  lemma LookDetermines(a: Memory, b: Memory)
    requires forall key :: Look(a, key) == Look(b, key)
    ensures a == b
  {
    forall key
      ensures key in a.lastFired <==> key in b.lastFired
      ensures key in a.sustained <==> key in b.sustained
      ensures key in a.lastFired ==> a.lastFired[key] == b.lastFired[key]
      ensures key in a.sustained ==> a.sustained[key] == b.sustained[key]
    {
      assert Look(a, key) == Look(b, key);
    }
    assert a.lastFired == b.lastFired;
    assert a.sustained == b.sustained;
  }

  // ---- The log of an evaluation, and its independence of order -----------

  /** The notifications of the checks whose keys are in `fired`, in order. */
  ghost function Emit(order: seq<Check>, now: int, fired: iset<string>): seq<Firing> {
    if order == [] then []
    else
      var c := order[|order| - 1];
      Emit(order[..|order| - 1], now, fired) + if c.key in fired then [Firing(c.key, now, c.notice)] else []
  }

  lemma {:induction false} EmitSame(order: seq<Check>, now: int, f: iset<string>, g: iset<string>)
    requires forall i :: 0 <= i < |order| ==> (order[i].key in f <==> order[i].key in g)
    ensures Emit(order, now, f) == Emit(order, now, g)
  {
    if order != [] {
      EmitSame(order[..|order| - 1], now, f, g);
    }
  }

  lemma {:induction false} EmitMembers(order: seq<Check>, now: int, fired: iset<string>, x: Firing)
    ensures x in Emit(order, now, fired) <==>
            exists c :: c in order && c.key in fired && x == Firing(c.key, now, c.notice)
  {
    if order != [] {
      var init, c := order[..|order| - 1], order[|order| - 1];
      EmitMembers(init, now, fired, x);
      assert order == init + [c];
    }
  }

  lemma {:induction false} EmitUnique(order: seq<Check>, now: int, fired: iset<string>)
    requires Distinct(order)
    ensures forall i, j :: 0 <= i < j < |Emit(order, now, fired)| ==>
              Emit(order, now, fired)[i] != Emit(order, now, fired)[j]
  {
    if order != [] {
      var init, c := order[..|order| - 1], order[|order| - 1];
      EmitUnique(init, now, fired);
      EmitMembers(init, now, fired, Firing(c.key, now, c.notice));
      assert forall d :: d in init ==> d.key != c.key;
    }
  }

  /** The log lists exactly the fired checks, each once, in the order of the walk. */
  lemma {:induction false} LogShape(mem: Memory, now: int, order: seq<Check>)
    requires Distinct(order)
    ensures ApplyAll(mem, now, order).log
            == Emit(order, now, iset key | FiredIn(ApplyAll(mem, now, order).log, key))
  {
    if order != [] {
      var init, c := order[..|order| - 1], order[|order| - 1];
      LogShape(mem, now, init);
      var before := ApplyAll(mem, now, init);
      var step := Apply(before.mem, now, c);
      var all := ApplyAll(mem, now, order).log;
      StepAtKey(before.mem, now, c);
      forall key ensures FiredIn(all, key) <==> FiredIn(before.log, key) || FiredIn(step.log, key) {
        FiredAppend(before.log, step.log, key);
      }
      forall i | 0 <= i < |init|
        ensures FiredIn(all, init[i].key) <==> FiredIn(before.log, init[i].key)
      {
        assert order[i].key != order[|order| - 1].key;
      }
      EmitSame(init, now, iset key | FiredIn(before.log, key), iset key | FiredIn(all, key));
      assert !FiredIn(before.log, c.key) by {
        Project(mem, now, init, c.key);
      }
    }
  }

  lemma {:induction false} UniqueMultiset<T>(a: seq<T>, b: seq<T>)
    requires forall i, j :: 0 <= i < j < |a| ==> a[i] != a[j]
    requires forall i, j :: 0 <= i < j < |b| ==> b[i] != b[j]
    requires forall x :: x in a <==> x in b
    ensures multiset(a) == multiset(b)
  {
    forall x ensures multiset(a)[x] == multiset(b)[x] {
      UniqueCount(a, x);
      UniqueCount(b, x);
    }
  }

  lemma {:induction false} UniqueCount<T>(a: seq<T>, x: T)
    requires forall i, j :: 0 <= i < j < |a| ==> a[i] != a[j]
    ensures multiset(a)[x] == if x in a then 1 else 0
  {
    if a != [] {
      var init := a[..|a| - 1];
      UniqueCount(init, x);
      assert a == init + [a[|a| - 1]];
    }
  }

  /**
   Go walks a map in any order. Whatever the order, one evaluation leaves the same
   memories and sends the same notifications.
   */
  lemma OrderIndependence(mem: Memory, now: int, a: seq<Check>, b: seq<Check>)
    requires Distinct(a) && Distinct(b)
    requires forall c :: c in a <==> c in b
    ensures ApplyAll(mem, now, a).mem == ApplyAll(mem, now, b).mem
    ensures multiset(ApplyAll(mem, now, a).log) == multiset(ApplyAll(mem, now, b).log)
  {
    var x, y := ApplyAll(mem, now, a), ApplyAll(mem, now, b);
    forall key
      ensures Look(x.mem, key) == Look(y.mem, key)
      ensures FiredIn(x.log, key) <==> FiredIn(y.log, key)
    {
      Project(mem, now, a, key);
      Project(mem, now, b, key);
      FindAgrees(a, b, key);
    }
    LookDetermines(x.mem, y.mem);
    var f, g := iset key | FiredIn(x.log, key), iset key | FiredIn(y.log, key);
    assert f == g;
    LogShape(mem, now, a);
    LogShape(mem, now, b);
    EmitUnique(a, now, f);
    EmitUnique(b, now, f);
    forall n ensures n in x.log <==> n in y.log {
      EmitMembers(a, now, f, n);
      EmitMembers(b, now, f, n);
    }
    UniqueMultiset(x.log, y.log);
  }

  lemma FindAgrees(a: seq<Check>, b: seq<Check>, key: string)
    requires Distinct(a) && Distinct(b)
    requires forall c :: c in a <==> c in b
    ensures Find(a, key) == Find(b, key)
  {
    var u, v := Find(a, key), Find(b, key);
    if u.Some? {
      assert u.value in b;
      var i :| 0 <= i < |b| && b[i] == u.value;
      assert v.Some?;
      var j :| 0 <= j < |b| && b[j] == v.value;
      assert i == j;
    }
  }
}
