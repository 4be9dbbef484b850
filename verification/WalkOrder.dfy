/** The order in which an evaluation walks over a snapshot, and when it shows. */
module WalkOrder {
  import opened Wrappers
  import opened Model
  import opened Names
  import opened AlertMachine
  import opened AlertRules

  lemma SameChecks(cfg: Config, t: Tick, a: seq<Subject>, b: seq<Subject>, c: Check)
    requires IsWalk(cfg, t, a) && IsWalk(cfg, t, b) && c in OrderOf(cfg, t, a)
    ensures c in OrderOf(cfg, t, b)
  {
    hide CheckOf, Present;
    var p, q := OrderOf(cfg, t, a), OrderOf(cfg, t, b);
    var i :| 0 <= i < |p| && p[i] == c;
    assert a[i] in b;
    var j :| 0 <= j < |b| && b[j] == a[i];
    assert q[j] == c;
  }

  /** Any two walks over one snapshot end in the same memories and the same notifications. */
  lemma WalksAgree(cfg: Config, all: Instances, t: Tick, mem: Memory, a: seq<Subject>, b: seq<Subject>)
    requires WellNamed(cfg, t, all) && IsWalk(cfg, t, a) && IsWalk(cfg, t, b)
    ensures var x, y := ApplyAll(mem, t.now, OrderOf(cfg, t, a)), ApplyAll(mem, t.now, OrderOf(cfg, t, b));
            x.mem == y.mem && multiset(x.log) == multiset(y.log)
  {
    hide CheckOf, Present, WellNamed;
    WalkDistinct(cfg, all, t, a);
    WalkDistinct(cfg, all, t, b);
    var p, q := OrderOf(cfg, t, a), OrderOf(cfg, t, b);
    forall c ensures c in p <==> c in q {
      if c in p {
        SameChecks(cfg, t, a, b, c);
      }
      if c in q {
        SameChecks(cfg, t, b, a, c);
      }
    }
    OrderIndependence(mem, t.now, p, q);
  }

  // ---- Walks that disagree ------------------------------------------------------

  /** The two walks leave the same memories and send the same notifications. */
  ghost predicate SameOutcome(cfg: Config, t: Tick, mem: Memory, a: seq<Subject>, b: seq<Subject>)
    requires AllPresent(cfg, t, a) && AllPresent(cfg, t, b)
  {
    var x, y := ApplyAll(mem, t.now, OrderOf(cfg, t, a)), ApplyAll(mem, t.now, OrderOf(cfg, t, b));
    x.mem == y.mem && multiset(x.log) == multiset(y.log)
  }

  /** Two walks over one filed snapshot that do not. */
  ghost predicate Disagree(cfg: Config, all: Instances, t: Tick, mem: Memory, a: seq<Subject>, b: seq<Subject>) {
    Filed(t.snap, all) && IsWalk(cfg, t, a) && IsWalk(cfg, t, b) && !SameOutcome(cfg, t, mem, a, b)
  }

  lemma ApplyOne(mem: Memory, now: int, c: Check)
    ensures ApplyAll(mem, now, [c]) == Apply(mem, now, c)
  {
    assert [c][..0] == [];
    assert ApplyAll(mem, now, [c][..0]) == Outcome(mem, []);
  }

  lemma ApplyTwo(mem: Memory, now: int, c: Check, d: Check)
    ensures var x := Apply(mem, now, c);
            var y := Apply(x.mem, now, d);
            ApplyAll(mem, now, [c, d]) == Outcome(y.mem, x.log + y.log)
  {
    ApplyOne(mem, now, c);
    ApplyAllAppend(mem, now, [c], d);
    assert [c] + [d] == [c, d];
  }

  /** Of two alerts with one key only the first is sent. */
  lemma FirstIsSent(now: int, c: Check, d: Check)
    requires c.key == d.key && c.kind.Instant? && d.kind.Instant? && c.holds && d.holds && d.cooldown > 0
    ensures ApplyAll(EMPTY, now, [c, d]).log == [Firing(c.key, now, c.notice)]
  {
    ApplyTwo(EMPTY, now, c, d);
  }

  /** Of two timed conditions with one key the last one decides on the timer. */
  lemma LastDecides(now: int, c: Check, d: Check)
    requires c.key == d.key && c.kind.Sustained? && d.kind.Sustained? && c.holds && !d.holds
    ensures ApplyAll(EMPTY, now, [c, d]).mem.sustained == map[]
    ensures ApplyAll(EMPTY, now, [d, c]).mem.sustained == map[c.key := now]
  {
    ApplyTwo(EMPTY, now, c, d);
    ApplyTwo(EMPTY, now, d, c);
  }

  lemma OrderOfTwo(cfg: Config, t: Tick, a: Subject, b: Subject)
    requires Present(cfg, t, a) && Present(cfg, t, b)
    ensures AllPresent(cfg, t, [a, b]) && OrderOf(cfg, t, [a, b]) == [CheckOf(cfg, t, a), CheckOf(cfg, t, b)]
  {
    hide CheckOf, Present;
  }

  /** A hot and a cold node, or a full and an empty one, under one key. */
  lemma TimersDisagree(cfg: Config, all: Instances, t: Tick, a: Subject, b: Subject)
    requires Filed(t.snap, all) && IsWalk(cfg, t, [a, b]) && IsWalk(cfg, t, [b, a])
    requires Present(cfg, t, a) && Present(cfg, t, b)
    requires var c, d := CheckOf(cfg, t, a), CheckOf(cfg, t, b);
             c.key == d.key && c.kind.Sustained? && d.kind.Sustained? && c.holds && !d.holds
    ensures Disagree(cfg, all, t, EMPTY, [a, b], [b, a])
  {
    hide CheckOf, Present, Filed, IsWalk, ApplyAll;
    OrderOfTwo(cfg, t, a, b);
    OrderOfTwo(cfg, t, b, a);
    LastDecides(t.now, CheckOf(cfg, t, a), CheckOf(cfg, t, b));
    assert t.now == map[CheckOf(cfg, t, a).key := t.now][CheckOf(cfg, t, a).key];
  }

  lemma CpuWalksDisagree(cfg: Config, all: Instances) returns (t: Tick, a: seq<Subject>, b: seq<Subject>)
    requires !Unnested(all.pve) && cfg.nodeCpuHigh.Some?
    ensures Disagree(cfg, all, t, EMPTY, a, b)
  {
    hide Joined, Unnested;
    var i, j := NestedPair(all.pve);
    var rest := NestedJoins(i, j);
    var m, n := rest + "n", "n";
    var threshold := cfg.nodeCpuHigh.value.threshold;
    var hot := Node(m, "online", threshold / 100.0, 0, 0, None);
    var cold := Node(n, "online", threshold / 100.0 - 1.0, 0, 0, None);
    t := Tick(0, NOTHING.(nodes := map[i := map[m := hot], j := map[n := cold]]), (x, y) => 0);
    TimersDisagree(cfg, all, t, NodeCpu(i, m), NodeCpu(j, n));
    a, b := [NodeCpu(i, m), NodeCpu(j, n)], [NodeCpu(j, n), NodeCpu(i, m)];
  }

  /** Memory used, of a total of 1, that is above a threshold, and that is below it. */
  lemma AroundThreshold(threshold: real) returns (above: int, below: int)
    ensures Pct(above, 1) >= threshold > Pct(below, 1)
  {
    var size := if threshold < 0.0 then 0.0 - threshold else threshold;
    above, below := size.Floor + 1, -1 - size.Floor;
  }

  lemma MemWalksDisagree(cfg: Config, all: Instances) returns (t: Tick, a: seq<Subject>, b: seq<Subject>)
    requires !Unnested(all.pve) && cfg.nodeCpuHigh.None? && cfg.nodeMemHigh.Some?
    ensures Disagree(cfg, all, t, EMPTY, a, b)
  {
    hide Joined, Unnested, Pct;
    var i, j := NestedPair(all.pve);
    var rest := NestedJoins(i, j);
    var m, n := rest + "n", "n";
    var above, below := AroundThreshold(cfg.nodeMemHigh.value.threshold);
    var full, empty := Node(m, "online", 0.0, above, 1, None), Node(n, "online", 0.0, below, 1, None);
    t := Tick(0, NOTHING.(nodes := map[i := map[m := full], j := map[n := empty]]), (x, y) => 0);
    TimersDisagree(cfg, all, t, NodeMem(i, m), NodeMem(j, n));
    a, b := [NodeMem(i, m), NodeMem(j, n)], [NodeMem(j, n), NodeMem(i, m)];
  }

  /** Two alerts under one key, only the first of which is sent. */
  lemma AlertsDisagree(cfg: Config, all: Instances, t: Tick, a: Subject, b: Subject)
    requires Filed(t.snap, all) && IsWalk(cfg, t, [a, b]) && IsWalk(cfg, t, [b, a])
    requires Present(cfg, t, a) && Present(cfg, t, b)
    requires Exclude(CheckOf(cfg, t, a), CheckOf(cfg, t, b))
    ensures Disagree(cfg, all, t, EMPTY, [a, b], [b, a])
  {
    hide CheckOf, Present, Filed, IsWalk, ApplyAll;
    OrderOfTwo(cfg, t, a, b);
    OrderOfTwo(cfg, t, b, a);
    OnlyOneIsSent(t.now, CheckOf(cfg, t, a), CheckOf(cfg, t, b));
  }

  /** Each of two alerts keeps the other from being sent. */
  predicate Exclude(c: Check, d: Check) {
    && c.key == d.key && c.kind.Instant? && d.kind.Instant? && c.holds && d.holds
    && c.cooldown > 0 && d.cooldown > 0 && c.notice != d.notice
  }

  lemma OnlyOneIsSent(now: int, c: Check, d: Check)
    requires Exclude(c, d)
    ensures multiset(ApplyAll(EMPTY, now, [c, d]).log) != multiset(ApplyAll(EMPTY, now, [d, c]).log)
  {
    hide ApplyAll;
    FirstIsSent(now, c, d);
    FirstIsSent(now, d, c);
    assert Firing(c.key, now, c.notice) in multiset([Firing(c.key, now, c.notice)]);
  }

  lemma BackupWalksDisagree(cfg: Config, all: Instances) returns (t: Tick, a: seq<Subject>, b: seq<Subject>)
    requires !Unnested(all.backups) && cfg.backupStale.Some? && cfg.backupStale.value.cooldown > 0
    ensures Disagree(cfg, all, t, EMPTY, a, b)
  {
    hide Joined, Unnested;
    var i, j := NestedPair(all.backups);
    var rest := NestedJoins(i, j);
    var m, n := rest + "n", "n";
    var backup := Backup("store", "ct", "101", 0);
    var late := cfg.backupStale.value.maxAge + 1;
    t := Tick(0, NOTHING.(backups := map[i := map[m := backup], j := map[n := backup]]), (x, y) => late);
    AlertsDisagree(cfg, all, t, BackupStale(i, m), BackupStale(j, n));
    a, b := [BackupStale(i, m), BackupStale(j, n)], [BackupStale(j, n), BackupStale(i, m)];
  }

  lemma QuietFirst(mem: Memory, now: int, q: Check, c: Check)
    requires q.kind.Instant? && !q.holds
    ensures ApplyAll(mem, now, [q, c]) == ApplyAll(mem, now, [c])
  {
    ApplyTwo(mem, now, q, c);
    ApplyOne(mem, now, c);
  }

  /** Checks that do not hold leave a walk as it is without them. */
  lemma QuietBetween(now: int, q: Check, c: Check, r: Check, d: Check)
    requires q.kind.Instant? && !q.holds && r.kind.Instant? && !r.holds
    ensures ApplyAll(EMPTY, now, [q, c, r, d]) == ApplyAll(EMPTY, now, [c, d])
  {
    hide ApplyAll;
    ApplyAllConcat(EMPTY, now, [q, c], [r, d]);
    ApplyAllConcat(EMPTY, now, [c], [d]);
    assert [q, c] + [r, d] == [q, c, r, d] && [c] + [d] == [c, d];
    QuietFirst(EMPTY, now, q, c);
    QuietFirst(ApplyAll(EMPTY, now, [c]).mem, now, r, d);
  }

  /** Two alerts under one key, each walked after a check that does not hold. */
  lemma AlertsDisagreeAmongOthers(cfg: Config, all: Instances, t: Tick, a: seq<Subject>, b: seq<Subject>)
    requires Filed(t.snap, all) && IsWalk(cfg, t, a) && IsWalk(cfg, t, b)
    requires |a| == 4 && b == [a[2], a[3], a[0], a[1]] && AllPresent(cfg, t, a)
    requires forall k :: k == 0 || k == 2 ==> CheckOf(cfg, t, a[k]).kind.Instant? && !CheckOf(cfg, t, a[k]).holds
    requires Exclude(CheckOf(cfg, t, a[1]), CheckOf(cfg, t, a[3]))
    ensures Disagree(cfg, all, t, EMPTY, a, b)
  {
    hide CheckOf, Present, Filed, ApplyAll;
    var p, c, q, d := CheckOf(cfg, t, a[0]), CheckOf(cfg, t, a[1]), CheckOf(cfg, t, a[2]), CheckOf(cfg, t, a[3]);
    assert OrderOf(cfg, t, a) == [p, c, q, d];
    assert OrderOf(cfg, t, b) == [q, d, p, c];
    QuietBetween(t.now, p, c, q, d);
    QuietBetween(t.now, q, d, p, c);
    OnlyOneIsSent(t.now, c, d);
  }

  /** Two datastores that are offline. */
  function Offline(i: string, m: string, j: string, n: string): Tick {
    var p, q := Datastore(m, None, None, Some("offline")), Datastore(n, None, None, Some("offline"));
    Tick(0, NOTHING.(datastores := map[i := map[m := p], j := map[n := q]]), (x, y) => 0)
  }

  function OfflineWalk(i: string, m: string, j: string, n: string): seq<Subject> {
    [DatastoreFull(i, m), DatastoreOffline(i, m), DatastoreFull(j, n), DatastoreOffline(j, n)]
  }

  lemma OfflineIsWalk(cfg: Config, i: string, m: string, j: string, n: string)
    requires i != j && cfg.datastoreFull.Some?
    ensures IsWalk(cfg, Offline(i, m, j, n), OfflineWalk(i, m, j, n))
  {
  }

  lemma OfflineIsSymmetric(i: string, m: string, j: string, n: string)
    requires i != j
    ensures Offline(i, m, j, n) == Offline(j, n, i, m)
  {
    var t, u := Offline(i, m, j, n), Offline(j, n, i, m);
    assert t.snap.datastores == u.snap.datastores;
  }

  lemma OfflineChecks(cfg: Config, i: string, m: string, j: string, n: string)
    requires i != j && cfg.datastoreFull.Some? && Joined(i, m) == Joined(j, n)
    ensures var t, a := Offline(i, m, j, n), OfflineWalk(i, m, j, n);
            && AllPresent(cfg, t, a) && !CheckOf(cfg, t, a[0]).holds && !CheckOf(cfg, t, a[2]).holds
            && CheckOf(cfg, t, a[0]).kind.Instant? && CheckOf(cfg, t, a[2]).kind.Instant?
            && Exclude(CheckOf(cfg, t, a[1]), CheckOf(cfg, t, a[3]))
  {
    hide Joined;
  }

  lemma DatastoreWalksDisagree(cfg: Config, all: Instances) returns (t: Tick, a: seq<Subject>, b: seq<Subject>)
    requires !Unnested(all.datastores) && cfg.datastoreFull.Some?
    ensures Disagree(cfg, all, t, EMPTY, a, b)
  {
    hide Joined, Unnested, IsWalk, CheckOf, Disagree;
    var i, j := NestedPair(all.datastores);
    var rest := NestedJoins(i, j);
    var m, n := rest + "n", "n";
    t, a, b := Offline(i, m, j, n), OfflineWalk(i, m, j, n), OfflineWalk(j, n, i, m);
    OfflineIsWalk(cfg, i, m, j, n);
    OfflineIsWalk(cfg, j, n, i, m);
    OfflineIsSymmetric(i, m, j, n);
    OfflineChecks(cfg, i, m, j, n);
    AlertsDisagreeAmongOthers(cfg, all, t, a, b);
  }

  /** The order of the walk never shows exactly when the instance names do not nest. */
  lemma OrderShowsExactly(cfg: Config, all: Instances)
    requires cfg.backupStale.Some? ==> cfg.backupStale.value.cooldown > 0
    ensures Apart(cfg, all) <==> forall t, mem, a, b :: !Disagree(cfg, all, t, mem, a, b)
  {
    if Apart(cfg, all) {
      forall t, mem, a, b ensures !Disagree(cfg, all, t, mem, a, b) {
        if Disagree(cfg, all, t, mem, a, b) {
          ApartIsNamed(cfg, all, t);
          WalksAgree(cfg, all, t, mem, a, b);
        }
      }
    } else {
      hide Disagree, Unnested;
      var t, a, b;
      if cfg.nodeCpuHigh.Some? && !Unnested(all.pve) {
        t, a, b := CpuWalksDisagree(cfg, all);
      } else if cfg.nodeMemHigh.Some? && !Unnested(all.pve) {
        t, a, b := MemWalksDisagree(cfg, all);
      } else if cfg.backupStale.Some? && !Unnested(all.backups) {
        t, a, b := BackupWalksDisagree(cfg, all);
      } else {
        t, a, b := DatastoreWalksDisagree(cfg, all);
      }
    }
  }
}
