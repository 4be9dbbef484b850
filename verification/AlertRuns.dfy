/**
 The alert engine over whole runs: evaluations follow each other on a clock that
 never goes back, and `cleanup` runs before each of them. The flag `gc` compares the
 engine (true) with one that never forgets (false).
 */
module AlertRuns {
  import opened Wrappers
  import opened AlertMachine

  datatype Round = Round(now: int, order: seq<Check>)

  datatype Trace = Trace(mem: Memory, logs: seq<seq<Firing>>)

  function Exec(rounds: seq<Round>, gc: bool): (t: Trace)
    ensures |t.logs| == |rounds|
  {
    if rounds == [] then Trace(EMPTY, [])
    else
      var before := Exec(rounds[..|rounds| - 1], gc);
      var r := rounds[|rounds| - 1];
      var o := ApplyAll(Recall(before.mem, r.now, gc), r.now, r.order);
      Trace(o.mem, before.logs + [o.log])
  }

  /** The clock never goes back. */
  ghost predicate Timely(rounds: seq<Round>) {
    forall i, j :: 0 <= i <= j < |rounds| ==> rounds[i].now <= rounds[j].now
  }

  /** Besides, no two checks of one evaluation share this key. Other keys may be shared. */
  ghost predicate Legal(rounds: seq<Round>, key: string) {
    && Timely(rounds)
    && (forall i :: 0 <= i < |rounds| ==> Single(rounds[i].order, key))
  }

  /** Whether evaluation `i` sends a notification for `key`. */
  ghost predicate Fires(rounds: seq<Round>, gc: bool, i: nat, key: string)
    requires i < |rounds|
  {
    FiredIn(Exec(rounds, gc).logs[i], key)
  }

  function Seen(rounds: seq<Round>, i: nat, key: string): Option<Check>
    requires i < |rounds|
  {
    Find(rounds[i].order, key)
  }

  /** The slot of `key` after the first `i` evaluations. */
  function SlotAt(rounds: seq<Round>, gc: bool, i: nat, key: string): Slot
    requires i <= |rounds|
  {
    Look(Exec(rounds[..i], gc).mem, key)
  }

  /** The slot evaluation `i` works from, once `cleanup` has passed. */
  function Before(rounds: seq<Round>, gc: bool, i: nat, key: string): Slot
    requires i < |rounds|
  {
    SlotRecall(SlotAt(rounds, gc, i, key), rounds[i].now, gc)
  }

  lemma {:induction false} ExecPrefix(rounds: seq<Round>, gc: bool, i: nat)
    requires i <= |rounds|
    ensures Exec(rounds[..i], gc).logs == Exec(rounds, gc).logs[..i]
  {
    if i < |rounds| {
      var init := rounds[..|rounds| - 1];
      ExecPrefix(init, gc, i);
      assert init[..i] == rounds[..i];
    } else {
      assert rounds[..i] == rounds;
    }
  }

  /**
   Evaluation `i` at one key. A key that is not looked at keeps its slot, up to
   what `cleanup` drops, and sends nothing.
   */
  lemma Beat(rounds: seq<Round>, gc: bool, i: nat, key: string)
    requires Legal(rounds, key) && i < |rounds|
    ensures var s, seen := Before(rounds, gc, i, key), Seen(rounds, i, key);
            && SlotAt(rounds, gc, i + 1, key) == (if seen.None? then s else SlotApply(s, rounds[i].now, seen.value))
            && (Fires(rounds, gc, i, key) <==> FiresFrom(s, rounds[i].now, seen))
  {
    var r, upto := rounds[i], rounds[..i + 1];
    assert upto[..|upto| - 1] == rounds[..i];
    var mem := Exec(rounds[..i], gc).mem;
    ExecPrefix(rounds, gc, i + 1);
    LookRecall(mem, r.now, gc, key);
    Project(Recall(mem, r.now, gc), r.now, r.order, key);
    assert Exec(rounds, gc).logs[i] == Exec(upto, gc).logs[i];
  }

  lemma FiringIsSeen(rounds: seq<Round>, gc: bool, i: nat, key: string)
    requires Legal(rounds, key) && i < |rounds| && Fires(rounds, gc, i, key)
    ensures Seen(rounds, i, key).Some?
  {
    Beat(rounds, gc, i, key);
  }

  // ---- Cooldown ------------------------------------------------------------

  /** What the cooldown memory of a key says about the firings before evaluation `i`. */
  lemma {:induction false} LastFiredHistory(rounds: seq<Round>, gc: bool, i: nat, key: string)
    requires Legal(rounds, key) && i <= |rounds|
    ensures var last := SlotAt(rounds, gc, i, key).last;
            && (last.Some? ==> exists j :: 0 <= j < i && Fires(rounds, gc, j, key) && rounds[j].now == last.value)
            && (forall j :: 0 <= j < i && Fires(rounds, gc, j, key) ==>
                  || (last.Some? && rounds[j].now <= last.value)
                  || (gc && rounds[i - 1].now - rounds[j].now > MAX_AGE))
  {
    hide Exec;
    if i == 0 {
      SlotStart(rounds, gc, key);
    } else {
      LastFiredHistory(rounds, gc, i - 1, key);
      Beat(rounds, gc, i - 1, key);
    }
  }

  /** Firings of the key before `i` that keep it silent at `i`. */
  ghost predicate Silenced(rounds: seq<Round>, gc: bool, i: nat, key: string, cooldown: int)
    requires i < |rounds|
  {
    exists j :: && 0 <= j < i && Fires(rounds, gc, j, key)
                && rounds[i].now - rounds[j].now < cooldown
                && (gc ==> rounds[i].now - rounds[j].now <= MAX_AGE)
  }

  /**
   An evaluation fires a ripe check exactly when no earlier firing of the same key is
   both within the cooldown and no more than six hours old.
   */
  lemma FiresExactly(rounds: seq<Round>, gc: bool, i: nat, key: string)
    requires Legal(rounds, key) && i < |rounds| && Seen(rounds, i, key).Some?
    ensures var c := Seen(rounds, i, key).value;
            Fires(rounds, gc, i, key) <==>
            Ripe(Before(rounds, gc, i, key), rounds[i].now, c) && !Silenced(rounds, gc, i, key, c.cooldown)
  {
    LastFiredHistory(rounds, gc, i, key);
    Beat(rounds, gc, i, key);
  }

  // ---- Spacing, whether or not keys are shared --------------------------------

  ghost function Flatten(logs: seq<seq<Firing>>): seq<Firing> {
    if logs == [] then [] else Flatten(logs[..|logs| - 1]) + logs[|logs| - 1]
  }

  /** All the firings of a run, in order. */
  ghost function Raised(rounds: seq<Round>, gc: bool): seq<Firing> {
    Flatten(Exec(rounds, gc).logs)
  }

  /** Each firing of the key is covered by the time kept for the key, or is past the horizon. */
  ghost predicate Remembered(mem: Memory, log: seq<Firing>, key: string, now: int, gc: bool) {
    forall i :: 0 <= i < |log| && log[i].key == key ==>
      && log[i].at <= now
      && ((key in mem.lastFired && log[i].at <= mem.lastFired[key]) || (gc && now - log[i].at > MAX_AGE))
  }

  predicate FarApart(from: int, to: int, cooldown: int, gc: bool) {
    to - from >= cooldown || (gc && to - from > MAX_AGE)
  }

  /** From the place `from` on, each firing of the key keeps its distance from all before it. */
  ghost predicate Spaced(log: seq<Firing>, from: nat, key: string, cooldown: int, gc: bool) {
    forall i, j :: 0 <= i < j < |log| && from <= j && log[i].key == key && log[j].key == key ==>
      FarApart(log[i].at, log[j].at, cooldown, gc)
  }

  ghost predicate CoolsFor(order: seq<Check>, key: string, cooldown: int) {
    forall i :: 0 <= i < |order| && order[i].key == key ==> order[i].cooldown >= cooldown
  }

  lemma {:induction false} RememberedRound(mem: Memory, now: int, order: seq<Check>,
                                           log: seq<Firing>, key: string, gc: bool)
    requires Remembered(mem, log, key, now, gc)
    ensures Remembered(ApplyAll(mem, now, order).mem, log + ApplyAll(mem, now, order).log, key, now, gc)
  {
    if order == [] {
      assert log + [] == log;
    } else {
      RememberedRound(mem, now, order[..|order| - 1], log, key, gc);
      var before := ApplyAll(mem, now, order[..|order| - 1]);
      var step := Apply(before.mem, now, order[|order| - 1]);
      assert log + (before.log + step.log) == (log + before.log) + step.log;
    }
  }

  lemma {:induction false} SpacedRound(mem: Memory, now: int, order: seq<Check>,
                                       log: seq<Firing>, key: string, cooldown: int, gc: bool)
    requires Remembered(mem, log, key, now, gc) && CoolsFor(order, key, cooldown)
    ensures Spaced(log + ApplyAll(mem, now, order).log, |log|, key, cooldown, gc)
  {
    if order != [] {
      var init := order[..|order| - 1];
      SpacedRound(mem, now, init, log, key, cooldown, gc);
      RememberedRound(mem, now, init, log, key, gc);
      var before := ApplyAll(mem, now, init);
      var step := Apply(before.mem, now, order[|order| - 1]);
      assert log + (before.log + step.log) == (log + before.log) + step.log;
    }
  }

  lemma RaisedAppend(rounds: seq<Round>, gc: bool)
    requires rounds != []
    ensures var before, r := Exec(rounds[..|rounds| - 1], gc), rounds[|rounds| - 1];
            var o := ApplyAll(Recall(before.mem, r.now, gc), r.now, r.order);
            Exec(rounds, gc).mem == o.mem && Raised(rounds, gc) == Raised(rounds[..|rounds| - 1], gc) + o.log
  {
    var before := Exec(rounds[..|rounds| - 1], gc);
    assert Exec(rounds, gc).logs[..|rounds| - 1] == before.logs;
  }

  /** A firing is that of a check of the evaluation, with the check's notification and the evaluation's time. */
  ghost predicate ComesFrom(f: Firing, order: seq<Check>, now: int) {
    exists j :: 0 <= j < |order| && f == Firing(order[j].key, now, order[j].notice)
  }

  lemma {:induction false} FiringsCome(mem: Memory, now: int, order: seq<Check>, i: nat)
    requires i < |ApplyAll(mem, now, order).log|
    ensures ComesFrom(ApplyAll(mem, now, order).log[i], order, now)
  {
    if order != [] {
      var n := |order| - 1;
      var before := ApplyAll(mem, now, order[..n]);
      if i < |before.log| {
        FiringsCome(mem, now, order[..n], i);
        var j :| 0 <= j < n && before.log[i] == Firing(order[..n][j].key, now, order[..n][j].notice);
        assert order[j] == order[..n][j];
      } else {
        assert ApplyAll(mem, now, order).log[i] == Firing(order[n].key, now, order[n].notice);
      }
    }
  }

  /** Where one check has the key, a firing of the key is that check's. */
  lemma ComesFromSeen(f: Firing, order: seq<Check>, now: int)
    requires ComesFrom(f, order, now) && Single(order, f.key)
    ensures f.at == now && Find(order, f.key).Some? && f.notice == Find(order, f.key).value.notice
  {
    var j :| 0 <= j < |order| && f == Firing(order[j].key, now, order[j].notice);
    var c := Find(order, f.key).value;
    var k :| 0 <= k < |order| && order[k] == c;
    assert j == k;
  }

  /** A firing of an evaluation is in the log of the run. */
  lemma {:induction false} FiringIsRaised(rounds: seq<Round>, gc: bool, i: nat, key: string) returns (k: nat)
    requires i < |rounds| && Fires(rounds, gc, i, key)
    ensures k < |Raised(rounds, gc)| && Raised(rounds, gc)[k].key == key
    ensures ComesFrom(Raised(rounds, gc)[k], rounds[i].order, rounds[i].now)
  {
    hide ApplyAll, ComesFrom;
    var init, r := rounds[..|rounds| - 1], rounds[|rounds| - 1];
    RaisedAppend(rounds, gc);
    if i < |init| {
      assert Exec(rounds, gc).logs[i] == Exec(init, gc).logs[i];
      k := FiringIsRaised(init, gc, i, key);
    } else {
      var mem := Recall(Exec(init, gc).mem, r.now, gc);
      var log := ApplyAll(mem, r.now, r.order).log;
      assert Exec(rounds, gc).logs[i] == log;
      var j :| 0 <= j < |log| && log[j].key == key;
      FiringsCome(mem, r.now, r.order, j);
      k := |Raised(init, gc)| + j;
    }
  }

  /** A firing in the log of the run is one of an evaluation. */
  lemma {:induction false} RaisedIsFiring(rounds: seq<Round>, gc: bool, k: nat) returns (i: nat)
    requires k < |Raised(rounds, gc)|
    ensures i < |rounds| && Fires(rounds, gc, i, Raised(rounds, gc)[k].key)
    ensures ComesFrom(Raised(rounds, gc)[k], rounds[i].order, rounds[i].now)
  {
    hide ApplyAll, ComesFrom;
    var init, r := rounds[..|rounds| - 1], rounds[|rounds| - 1];
    RaisedAppend(rounds, gc);
    if k < |Raised(init, gc)| {
      i := RaisedIsFiring(init, gc, k);
      assert Exec(rounds, gc).logs[i] == Exec(init, gc).logs[i];
    } else {
      i := |init|;
      var mem := Recall(Exec(init, gc).mem, r.now, gc);
      var log := ApplyAll(mem, r.now, r.order).log;
      FiringsCome(mem, r.now, r.order, k - |Raised(init, gc)|);
      assert Exec(rounds, gc).logs[i] == log && log[k - |Raised(init, gc)|] == Raised(rounds, gc)[k];
    }
  }

  /** The memory covers the firings also at the start of the next evaluation, after `cleanup`. */
  lemma {:induction false} RememberedAlong(rounds: seq<Round>, key: string, now: int, gc: bool)
    requires Timely(rounds) && (rounds != [] ==> rounds[|rounds| - 1].now <= now)
    ensures Remembered(Recall(Exec(rounds, gc).mem, now, gc), Raised(rounds, gc), key, now, gc)
  {
    hide Exec, ApplyAll;
    if rounds == [] {
      NothingRaised(gc);
    } else {
      var init, r := rounds[..|rounds| - 1], rounds[|rounds| - 1];
      RememberedAlong(init, key, r.now, gc);
      RaisedAppend(rounds, gc);
      RememberedRound(Recall(Exec(init, gc).mem, r.now, gc), r.now, r.order, Raised(init, gc), key, gc);
    }
  }

  lemma NothingRaised(gc: bool)
    ensures Raised([], gc) == [] && Exec([], gc).mem == EMPTY
  {
  }

  /**
   Whatever the keys, a firing of the last evaluation keeps the cooldown its key has there
   from all firings of the key before it, those of the same evaluation included.
   */
  lemma RoundSpacing(rounds: seq<Round>, key: string, cooldown: int, gc: bool)
    requires Timely(rounds) && rounds != [] && CoolsFor(rounds[|rounds| - 1].order, key, cooldown)
    ensures Spaced(Raised(rounds, gc), |Raised(rounds[..|rounds| - 1], gc)|, key, cooldown, gc)
  {
    hide Exec, ApplyAll, Flatten, Remembered;
    var init, r := rounds[..|rounds| - 1], rounds[|rounds| - 1];
    RememberedAlong(init, key, r.now, gc);
    RaisedAppend(rounds, gc);
    SpacedRound(Recall(Exec(init, gc).mem, r.now, gc), r.now, r.order, Raised(init, gc), key, cooldown, gc);
  }

  /** Two firings of a key are at least its cooldown, or more than six hours, apart, in every run. */
  lemma {:induction false} CooldownSpacing(rounds: seq<Round>, key: string, cooldown: int, gc: bool)
    requires Timely(rounds) && forall i :: 0 <= i < |rounds| ==> CoolsFor(rounds[i].order, key, cooldown)
    ensures Spaced(Raised(rounds, gc), 0, key, cooldown, gc)
  {
    hide Exec, ApplyAll, Flatten;
    if rounds == [] {
      NothingRaised(gc);
    } else {
      CooldownSpacing(rounds[..|rounds| - 1], key, cooldown, gc);
      RoundSpacing(rounds, key, cooldown, gc);
      RaisedAppend(rounds, gc);
    }
  }

  // ---- Garbage collection of the cooldown memory ---------------------------

  /** Every check of the keys is an instant one whose cooldown is at most `most`. */
  ghost predicate InstantFor(order: seq<Check>, keys: iset<string>, most: int) {
    forall i :: 0 <= i < |order| && order[i].key in keys ==> order[i].kind.Instant? && order[i].cooldown <= most
  }

  ghost predicate InstantKeys(rounds: seq<Round>, keys: iset<string>, most: int) {
    forall i :: 0 <= i < |rounds| ==> InstantFor(rounds[i].order, keys, most)
  }

  /** The notifications for some of the keys. */
  ghost function Restrict(log: seq<Firing>, keys: iset<string>): seq<Firing> {
    if log == [] then []
    else
      var f := log[|log| - 1];
      Restrict(log[..|log| - 1], keys) + if f.key in keys then [f] else []
  }

  lemma {:induction false} RestrictConcat(a: seq<Firing>, b: seq<Firing>, keys: iset<string>)
    ensures Restrict(a + b, keys) == Restrict(a, keys) + Restrict(b, keys)
  {
    if b == [] {
      assert a + b == a;
    } else {
      assert (a + b)[..|a + b| - 1] == a + b[..|b| - 1];
      RestrictConcat(a, b[..|b| - 1], keys);
    }
  }

  lemma {:induction false} RestrictFires(log: seq<Firing>, key: string)
    ensures FiredIn(log, key) <==> Restrict(log, iset{key}) != []
  {
    if log != [] {
      var init := log[..|log| - 1];
      RestrictFires(init, key);
      assert log == init + [log[|log| - 1]];
      FiredAppend(init, [log[|log| - 1]], key);
      assert FiredIn([log[|log| - 1]], key) <==> [log[|log| - 1]][0].key == key;
    }
  }

  /** The engine that forgets agrees with the other on the keys, or lacks a time past the horizon. */
  ghost predicate Alike(a: Memory, b: Memory, keys: iset<string>, now: int) {
    forall key :: key in keys ==>
      && (key in a.lastFired ==> key in b.lastFired && a.lastFired[key] == b.lastFired[key])
      && (key in b.lastFired && key !in a.lastFired ==> now - b.lastFired[key] > MAX_AGE)
  }

  lemma AlikeStep(a: Memory, b: Memory, now: int, c: Check, keys: iset<string>)
    requires Alike(a, b, keys, now) && (c.key in keys ==> c.kind.Instant? && c.cooldown <= MAX_AGE + 1)
    ensures var x, y := Apply(a, now, c), Apply(b, now, c);
            Alike(x.mem, y.mem, keys, now) && Restrict(x.log, keys) == Restrict(y.log, keys)
  {
    var x, y := Apply(a, now, c), Apply(b, now, c);
    if c.key !in keys {
      assert Restrict(x.log, keys) == [] && Restrict(y.log, keys) == [];
    }
  }

  lemma {:induction false} AlikeRound(a: Memory, b: Memory, now: int, order: seq<Check>, keys: iset<string>)
    requires Alike(a, b, keys, now) && InstantFor(order, keys, MAX_AGE + 1)
    ensures var x, y := ApplyAll(a, now, order), ApplyAll(b, now, order);
            Alike(x.mem, y.mem, keys, now) && Restrict(x.log, keys) == Restrict(y.log, keys)
  {
    hide Apply, Alike;
    if order != [] {
      var init, c := order[..|order| - 1], order[|order| - 1];
      AlikeRound(a, b, now, init, keys);
      var x, y := ApplyAll(a, now, init), ApplyAll(b, now, init);
      AlikeStep(x.mem, y.mem, now, c, keys);
      RestrictConcat(x.log, Apply(x.mem, now, c).log, keys);
      RestrictConcat(y.log, Apply(y.mem, now, c).log, keys);
    }
  }

  /** The two engines stay alike, also at the start of the next evaluation, after `cleanup`. */
  lemma {:induction false} AlikeAlong(rounds: seq<Round>, keys: iset<string>, now: int)
    requires Timely(rounds) && InstantKeys(rounds, keys, MAX_AGE + 1)
    requires rounds != [] ==> rounds[|rounds| - 1].now <= now
    ensures Alike(Recall(Exec(rounds, true).mem, now, true), Recall(Exec(rounds, false).mem, now, false), keys, now)
  {
    hide ApplyAll;
    if rounds != [] {
      var init, r := rounds[..|rounds| - 1], rounds[|rounds| - 1];
      AlikeAlong(init, keys, r.now);
      var a, b := Recall(Exec(init, true).mem, r.now, true), Recall(Exec(init, false).mem, r.now, false);
      AlikeRound(a, b, r.now, r.order, keys);
    }
  }

  /**
   For the rules without a timer, the engine that forgets and the one that never does
   send exactly the same notifications, in the same order, at every evaluation of
   every run, whether or not keys are shared.
   */
  lemma GcUnobservable(rounds: seq<Round>, i: nat, keys: iset<string>)
    requires Timely(rounds) && i < |rounds| && InstantKeys(rounds, keys, MAX_AGE + 1)
    ensures Restrict(Exec(rounds, true).logs[i], keys) == Restrict(Exec(rounds, false).logs[i], keys)
  {
    hide Alike, ApplyAll, InstantFor;
    var upto := rounds[..i + 1];
    assert upto[..i] == rounds[..i];
    ExecPrefix(rounds, true, i + 1);
    ExecPrefix(rounds, false, i + 1);
    assert Exec(rounds, true).logs[i] == Exec(upto, true).logs[i];
    assert Exec(rounds, false).logs[i] == Exec(upto, false).logs[i];
    var r := rounds[i];
    AlikeAlong(rounds[..i], keys, r.now);
    var a := Recall(Exec(rounds[..i], true).mem, r.now, true);
    var b := Recall(Exec(rounds[..i], false).mem, r.now, false);
    AlikeRound(a, b, r.now, r.order, keys);
  }

  lemma GcKeepsFirings(rounds: seq<Round>, i: nat, key: string)
    requires Timely(rounds) && i < |rounds| && InstantKeys(rounds, iset{key}, MAX_AGE + 1)
    ensures Fires(rounds, true, i, key) <==> Fires(rounds, false, i, key)
  {
    hide Exec, Restrict, InstantFor;
    GcUnobservable(rounds, i, iset{key});
    RestrictFires(Exec(rounds, true).logs[i], key);
    RestrictFires(Exec(rounds, false).logs[i], key);
  }

  /** Forgetting never shows for instant rules with this cooldown. */
  ghost predicate GcInvisible(cooldown: int) {
    forall rounds: seq<Round>, key: string, i: nat ::
      Timely(rounds) && InstantKeys(rounds, iset{key}, cooldown) && i < |rounds| ==>
        (Fires(rounds, true, i, key) <==> Fires(rounds, false, i, key))
  }

  const SAMPLE: Notification := Notification("backup_stale", "warning", "pbs", "101", 0)

  lemma SlotStart(rounds: seq<Round>, gc: bool, key: string)
    ensures SlotAt(rounds, gc, 0, key) == Slot(None, None)
  {
    assert rounds[..0] == [];
  }

  lemma TwoRounds(c: Check, gap: int)
    requires gap > MAX_AGE && gap < c.cooldown && c.kind.Instant? && c.holds
    ensures var rounds := [Round(0, [c]), Round(gap, [c])];
            && Legal(rounds, c.key) && InstantKeys(rounds, iset{c.key}, c.cooldown)
            && Fires(rounds, true, 1, c.key) && !Fires(rounds, false, 1, c.key)
  {
    hide Exec;
    var rounds := [Round(0, [c]), Round(gap, [c])];
    SlotStart(rounds, true, c.key);
    SlotStart(rounds, false, c.key);
    assert Find([c], c.key) == Some(c);
    Beat(rounds, true, 0, c.key);
    Beat(rounds, true, 1, c.key);
    Beat(rounds, false, 0, c.key);
    Beat(rounds, false, 1, c.key);
  }

  /** The six-hour horizon is exact: one nanosecond more of cooldown and it would show. */
  lemma GcInvisibleExactly(cooldown: int)
    ensures GcInvisible(cooldown) <==> cooldown <= 21_600_000_000_001
  {
    if cooldown <= MAX_AGE + 1 {
      forall rounds: seq<Round>, key: string, i: nat
        | Timely(rounds) && InstantKeys(rounds, iset{key}, cooldown) && i < |rounds|
        ensures Fires(rounds, true, i, key) <==> Fires(rounds, false, i, key)
      {
        GcKeepsFirings(rounds, i, key);
      }
    } else {
      var c := Check("k", Instant, true, cooldown, SAMPLE);
      TwoRounds(c, MAX_AGE + 1);
      var rounds := [Round(0, [c]), Round(MAX_AGE + 1, [c])];
      assert !(Fires(rounds, true, 1, c.key) <==> Fires(rounds, false, 1, c.key));
    }
  }

  // ---- Sustained conditions -------------------------------------------------

  /** The condition behind `key` was looked at by evaluation `i` and held. */
  predicate Held(rounds: seq<Round>, i: nat, key: string)
    requires i < |rounds|
  {
    var seen := Seen(rounds, i, key);
    seen.Some? && seen.value.kind.Sustained? && seen.value.holds
  }

  predicate Clear(rounds: seq<Round>, i: nat, key: string)
    requires i < |rounds|
  {
    var seen := Seen(rounds, i, key);
    seen.Some? && seen.value.kind.Sustained? && !seen.value.holds
  }

  lemma {:induction false} SinceHistory(rounds: seq<Round>, gc: bool, i: nat, key: string)
    requires Legal(rounds, key) && i <= |rounds|
    ensures var since := SlotAt(rounds, gc, i, key).since;
            since.Some? ==>
            exists j :: && 0 <= j < i && rounds[j].now == since.value && Held(rounds, j, key)
                        && forall m :: j < m < i ==> !Clear(rounds, m, key)
  {
    hide Exec;
    if i == 0 {
      SlotStart(rounds, gc, key);
    } else {
      SinceHistory(rounds, gc, i - 1, key);
      Beat(rounds, gc, i - 1, key);
      var since := SlotAt(rounds, gc, i, key).since;
      if since.Some? && Before(rounds, gc, i - 1, key).since.None? {
        assert Held(rounds, i - 1, key);
      }
    }
  }

  /**
   When a sustained rule fires, its condition was seen to hold at least its duration
   earlier, and no evaluation since then saw it clear.
   */
  lemma SustainedSoundness(rounds: seq<Round>, gc: bool, i: nat, key: string)
    requires Legal(rounds, key) && i < |rounds| && Fires(rounds, gc, i, key)
    requires Seen(rounds, i, key).Some? && Seen(rounds, i, key).value.kind.Sustained?
    ensures var d := Seen(rounds, i, key).value.kind.duration;
            exists j :: && 0 <= j < i && Held(rounds, j, key)
                        && d <= rounds[i].now - rounds[j].now
                        && (gc ==> rounds[i].now - rounds[j].now <= MAX_AGE)
                        && Held(rounds, i, key)
                        && forall m :: j < m <= i ==> !Clear(rounds, m, key)
  {
    Beat(rounds, gc, i, key);
    SinceHistory(rounds, gc, i, key);
  }

  /** The checks of the key are timed, with durations beyond the horizon. */
  ghost predicate OutlastsFor(order: seq<Check>, key: string) {
    forall i :: 0 <= i < |order| && order[i].key == key ==> order[i].kind.Sustained? && order[i].kind.duration > MAX_AGE
  }

  lemma {:induction false} NothingRipens(mem: Memory, now: int, order: seq<Check>, key: string)
    requires OutlastsFor(order, key) && (key in mem.sustained ==> now - mem.sustained[key] <= MAX_AGE)
    ensures var o := ApplyAll(mem, now, order);
            !FiredIn(o.log, key) && (key in o.mem.sustained ==> now - o.mem.sustained[key] <= MAX_AGE)
  {
    if order != [] {
      var init, c := order[..|order| - 1], order[|order| - 1];
      NothingRipens(mem, now, init, key);
      var before := ApplyAll(mem, now, init);
      FiredAppend(before.log, Apply(before.mem, now, c).log, key);
    }
  }

  /** A duration beyond the six-hour horizon silences a key for good, in every run, shared or not. */
  lemma NeverFiresBeyondHorizon(rounds: seq<Round>, i: nat, key: string)
    requires i < |rounds| && OutlastsFor(rounds[i].order, key)
    ensures !Fires(rounds, true, i, key)
  {
    hide ApplyAll;
    var r, upto := rounds[i], rounds[..i + 1];
    assert upto[..i] == rounds[..i];
    ExecPrefix(rounds, true, i + 1);
    assert Exec(rounds, true).logs[i] == Exec(upto, true).logs[i];
    NothingRipens(Recall(Exec(rounds[..i], true).mem, r.now, true), r.now, r.order, key);
  }

  /** Evaluations are at most `gap` apart. */
  ghost predicate Dense(rounds: seq<Round>, gap: int) {
    forall i :: 0 < i < |rounds| ==> rounds[i].now - rounds[i - 1].now <= gap
  }

  predicate InWindow(rounds: seq<Round>, i: nat, from: int, length: int)
    requires i < |rounds|
  {
    from <= rounds[i].now <= from + length
  }

  /** The check a rule with duration `d` and cooldown `c` makes while its condition holds. */
  predicate Holding(rounds: seq<Round>, i: nat, key: string, c: int, d: int)
    requires i < |rounds|
  {
    var seen := Seen(rounds, i, key);
    seen.Some? && seen.value.holds && seen.value.kind == Sustained(d) && seen.value.cooldown == c
  }

  function Window(c: int, d: int, gap: int): int {
    c + d + 2 * gap
  }

  /**
   The run covers the window with evaluations at most `gap` apart, and each evaluation
   within the window finds the condition holding.
   */
  ghost predicate Watched(rounds: seq<Round>, key: string, from: int, c: int, d: int, gap: int) {
    && Legal(rounds, key) && Dense(rounds, gap) && |rounds| > 0
    && rounds[0].now <= from + gap
    && rounds[|rounds| - 1].now >= from + Window(c, d, gap)
    && forall i :: 0 <= i < |rounds| && InWindow(rounds, i, from, Window(c, d, gap)) ==> Holding(rounds, i, key, c, d)
  }

  /**
   A timer lives through at least one gap: also without a duration, it is seeded by one
   evaluation and read by the next.
   */
  function Wait(d: int): int {
    if d < 1 then 1 else d
  }

  /** Once no earlier firing can silence it, a rule whose timer is young only has to wait. */
  lemma {:induction false} WaitsForRipeness(rounds: seq<Round>, key: string, from: int,
                                            c: int, d: int, gap: int, i: nat, f: int)
    returns (t: nat)
    requires Watched(rounds, key, from, c, d, gap) && 0 <= c && 0 <= d && Wait(d) + gap <= MAX_AGE + 1
    requires 0 < i < |rounds| && rounds[i - 1].now >= from + c
    requires SlotAt(rounds, true, i, key).since == Some(f)
    requires f <= from + c + gap && rounds[i - 1].now - f < Wait(d)
    ensures t < |rounds| && InWindow(rounds, t, from, Window(c, d, gap)) && Fires(rounds, true, t, key)
    decreases |rounds| - i
  {
    if t' :| 0 <= t' < i && InWindow(rounds, t', from, Window(c, d, gap)) && Fires(rounds, true, t', key) {
      return t';
    }
    assert InWindow(rounds, i, from, Window(c, d, gap));
    FiresExactly(rounds, true, i, key);
    assert !Silenced(rounds, true, i, key, c);
    if rounds[i].now - f >= d {
      return i;
    }
    Beat(rounds, true, i, key);
    t := WaitsForRipeness(rounds, key, from, c, d, gap, i + 1, f);
  }

  /** The first evaluation at or after a time. */
  lemma FirstAt(rounds: seq<Round>, time: int, gap: int) returns (i: nat)
    requires |rounds| > 0 && rounds[|rounds| - 1].now >= time
    requires Dense(rounds, gap) && rounds[0].now <= time + gap
    ensures i < |rounds| && time <= rounds[i].now <= time + gap
  {
    i := 0;
    while rounds[i].now < time
      invariant i < |rounds| && rounds[i].now <= time + gap
      decreases |rounds| - i
    {
      i := i + 1;
    }
  }

  /**
   Bounded response: a condition that holds at every evaluation of a window of length
   cooldown + duration + 2 gap makes its rule fire within that window, although
   `cleanup` keeps dropping and re-seeding the timer.
   */
  lemma BoundedResponse(rounds: seq<Round>, key: string, from: int, c: int, d: int, gap: int) returns (t: nat)
    requires Watched(rounds, key, from, c, d, gap)
    requires 0 <= c && 0 <= d && 0 <= gap && d + gap > 0 && Wait(d) + gap <= MAX_AGE + 1
    ensures t < |rounds| && InWindow(rounds, t, from, Window(c, d, gap)) && Fires(rounds, true, t, key)
  {
    hide Exec;
    var i := FirstAt(rounds, from + c, gap);
    if t' :| 0 <= t' <= i && InWindow(rounds, t', from, Window(c, d, gap)) && Fires(rounds, true, t', key) {
      return t';
    }
    assert InWindow(rounds, i, from, Window(c, d, gap));
    FiresExactly(rounds, true, i, key);
    assert !Silenced(rounds, true, i, key, c);
    Beat(rounds, true, i, key);
    SinceHistory(rounds, true, i, key);
    var f := SlotAt(rounds, true, i + 1, key).since.value;
    t := WaitsForRipeness(rounds, key, from, c, d, gap, i + 1, f);
  }

  // ---- The bound on the duration is exact ------------------------------------

  /** A time line whose gaps are at most `gap`: unit steps up to `d - 1`, then one gap, over and over. */
  datatype Phase = Phase(seed: int, offset: nat)

  function PhaseAt(n: nat, d: int, gap: int): (p: Phase)
    requires 1 <= d && 1 <= gap
    ensures p.offset < d
  {
    if n == 0 then Phase(0, 0)
    else
      var p := PhaseAt(n - 1, d, gap);
      if p.offset + 1 < d then Phase(p.seed, p.offset + 1) else Phase(p.seed + d - 1 + gap, 0)
  }

  function Time(n: nat, d: int, gap: int): int
    requires 1 <= d && 1 <= gap
  {
    PhaseAt(n, d, gap).seed + PhaseAt(n, d, gap).offset
  }

  function StarvedRounds(n: nat, check: Check, d: int, gap: int): (rounds: seq<Round>)
    requires 1 <= d && 1 <= gap
    ensures |rounds| == n
    ensures forall i :: 0 <= i < n ==> rounds[i] == Round(Time(i, d, gap), [check])
  {
    if n == 0 then []
    else
      StarvedRounds(n - 1, check, d, gap) + [Round(Time(n - 1, d, gap), [check])]
  }

  lemma {:induction false} TimeAdvances(i: nat, j: nat, d: int, gap: int)
    requires 1 <= d && 1 <= gap && i <= j
    ensures Time(i, d, gap) + (j - i) <= Time(j, d, gap)
    decreases j
  {
    if i < j {
      TimeAdvances(i, j - 1, d, gap);
    }
  }

  lemma StarvedLegal(n: nat, check: Check, d: int, gap: int)
    requires 1 <= d && 1 <= gap
    ensures Legal(StarvedRounds(n, check, d, gap), check.key) && Dense(StarvedRounds(n, check, d, gap), gap)
  {
    forall i, j | 0 <= i <= j < n
      ensures StarvedRounds(n, check, d, gap)[i].now <= StarvedRounds(n, check, d, gap)[j].now
    {
      TimeAdvances(i, j, d, gap);
    }
  }

  /** A check whose condition holds and whose timer has to live for `d`. */
  predicate Waiting(check: Check, d: int) {
    check.kind.Sustained? && check.holds && d == Wait(check.kind.duration)
  }

  lemma StarvedStep(s: Slot, check: Check, d: int, gap: int, i: nat)
    requires 1 <= d <= MAX_AGE && 1 <= gap && d + gap > MAX_AGE + 1 && Waiting(check, d)
    requires s == StarvedSlot(i, d, gap)
    ensures var now := Time(i, d, gap);
            && SlotApply(SlotRecall(s, now, true), now, check) == StarvedSlot(i + 1, d, gap)
            && !SlotFires(SlotRecall(s, now, true), now, check)
  {
  }

  ghost function StarvedSlot(i: nat, d: int, gap: int): Slot
    requires 1 <= d && 1 <= gap
  {
    if i == 0 then Slot(None, None) else Slot(None, Some(PhaseAt(i - 1, d, gap).seed))
  }

  /** One more evaluation on that time line. */
  lemma StarvedBeat(rounds: seq<Round>, check: Check, d: int, gap: int, i: nat)
    requires 1 <= d <= MAX_AGE && 1 <= gap && d + gap > MAX_AGE + 1 && i < |rounds|
    requires Waiting(check, d) && Legal(rounds, check.key)
    requires rounds[i] == Round(Time(i, d, gap), [check])
    requires SlotAt(rounds, true, i, check.key) == StarvedSlot(i, d, gap)
    ensures SlotAt(rounds, true, i + 1, check.key) == StarvedSlot(i + 1, d, gap)
    ensures !Fires(rounds, true, i, check.key)
  {
    Beat(rounds, true, i, check.key);
    assert Find([check], check.key) == Some(check);
    StarvedStep(SlotAt(rounds, true, i, check.key), check, d, gap, i);
  }

  /** On that time line the timer is always dropped just before it ripens. */
  lemma {:induction false} Starves(rounds: seq<Round>, check: Check, d: int, gap: int, i: nat)
    requires 1 <= d <= MAX_AGE && 1 <= gap && d + gap > MAX_AGE + 1 && i <= |rounds|
    requires Waiting(check, d) && Legal(rounds, check.key)
    requires forall j :: 0 <= j < |rounds| ==> rounds[j] == Round(Time(j, d, gap), [check])
    ensures SlotAt(rounds, true, i, check.key) == StarvedSlot(i, d, gap)
    ensures forall j :: 0 <= j < i ==> !Fires(rounds, true, j, check.key)
  {
    hide Exec;
    if i == 0 {
      SlotStart(rounds, true, check.key);
    } else {
      Starves(rounds, check, d, gap, i - 1);
      StarvedBeat(rounds, check, d, gap, i - 1);
    }
  }

  /** Rules with this cooldown and duration answer within the window, whatever the run. */
  ghost predicate Responsive(c: int, d: int, gap: int) {
    forall rounds: seq<Round>, key: string, from: int :: Watched(rounds, key, from, c, d, gap) ==>
      exists t :: 0 <= t < |rounds| && InWindow(rounds, t, from, Window(c, d, gap)) && Fires(rounds, true, t, key)
  }

  /** The response is bounded exactly when duration plus gap stays within the horizon. */
  lemma ResponsiveExactly(c: int, d: int, gap: int)
    requires 0 <= c && 0 <= d && 1 <= gap
    ensures Responsive(c, d, gap) <==> Wait(d) + gap <= 21_600_000_000_001
  {
    if Wait(d) + gap <= MAX_AGE + 1 {
      forall rounds: seq<Round>, key: string, from: int | Watched(rounds, key, from, c, d, gap)
        ensures exists t ::
                  0 <= t < |rounds| && InWindow(rounds, t, from, Window(c, d, gap)) && Fires(rounds, true, t, key)
      {
        var t := BoundedResponse(rounds, key, from, c, d, gap);
      }
    } else {
      Starvation(c, d, gap);
    }
  }

  lemma Starvation(c: int, d: int, gap: int)
    requires 0 <= c && 0 <= d && 1 <= gap && Wait(d) + gap > MAX_AGE + 1
    ensures !Responsive(c, d, gap)
  {
    hide Exec;
    var n := Window(c, d, gap) + 1;
    var check := Check("k", Sustained(d), true, c, SAMPLE);
    var rounds := StarvedRounds(n, check, Wait(d), gap);
    StarvedLegal(n, check, Wait(d), gap);
    TimeAdvances(0, n - 1, Wait(d), gap);
    assert Find([check], check.key) == Some(check);
    assert Watched(rounds, check.key, 0, c, d, gap);
    if d <= MAX_AGE {
      Starves(rounds, check, Wait(d), gap, n);
    } else {
      forall t | 0 <= t < n ensures !Fires(rounds, true, t, check.key) {
        NeverFiresBeyondHorizon(rounds, t, check.key);
      }
    }
  }
}
