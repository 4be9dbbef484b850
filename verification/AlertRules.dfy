/** The alert rules: which checks a snapshot gives rise to, and the keys they go by. */
module AlertRules {
  import opened Wrappers
  import opened Model
  import opened AlertMachine
  import opened AlertRuns
  import opened Names
  import Decimal

  datatype ThresholdAlert = ThresholdAlert(threshold: real, duration: int, severity: string, cooldown: int)
  datatype GuestAlert = GuestAlert(gracePeriod: int, severity: string, cooldown: int)
  datatype BackupAlert = BackupAlert(maxAge: int, severity: string, cooldown: int)
  datatype SimpleAlert = SimpleAlert(severity: string, cooldown: int)

  datatype Config = Config(
    nodeCpuHigh: Option<ThresholdAlert>,
    nodeMemHigh: Option<ThresholdAlert>,
    guestDown: Option<GuestAlert>,
    backupStale: Option<BackupAlert>,
    diskSmartFailed: Option<SimpleAlert>,
    datastoreFull: Option<ThresholdAlert>)

  const MINUTE: int := HOUR / 60
  const SECOND: int := MINUTE / 60

  const DEFAULT_CONFIG: Config := Config(
    Some(ThresholdAlert(90.0, 5 * MINUTE, "warning", HOUR)),
    Some(ThresholdAlert(90.0, 5 * MINUTE, "warning", HOUR)),
    Some(GuestAlert(2 * MINUTE, "critical", 30 * MINUTE)),
    Some(BackupAlert(36 * HOUR, "warning", 6 * HOUR)),
    Some(SimpleAlert("critical", 6 * HOUR)),
    Some(ThresholdAlert(85.0, 0, "warning", 6 * HOUR)))

  /**
   One evaluation's input. The age of a backup is read off the wall clock when the
   walk reaches it, so each backup has a reading of its own.
   */
  datatype Tick = Tick(now: int, snap: Snapshot, wall: (string, string) -> int)

  /** What a check is about. */
  datatype Subject =
    | NodeCpu(instance: string, node: string)
    | NodeMem(instance: string, node: string)
    | GuestDown(cluster: string, vmid: int)
    | BackupStale(instance: string, id: string)
    | DiskSmart(wwn: string)
    | DiskScrutiny(wwn: string)
    | DatastoreFull(instance: string, store: string)
    | DatastoreOffline(instance: string, store: string)

  function Pct(used: int, total: int): real
    requires total > 0
  {
    used as real / total as real * 100.0
  }

  predicate IsFull(ds: Datastore, threshold: real) {
    && ds.totalBytes.Some? && ds.usedBytes.Some? && ds.totalBytes.value > 0
    && Pct(ds.usedBytes.value, ds.totalBytes.value) >= threshold
  }

  /** Whether the snapshot holds what the check is about, and the rule looks at it. */
  predicate Present(cfg: Config, t: Tick, s: Subject) {
    match s
    case NodeCpu(i, n) => cfg.nodeCpuHigh.Some? && i in t.snap.nodes && n in t.snap.nodes[i]
    case NodeMem(i, n) =>
      cfg.nodeMemHigh.Some? && i in t.snap.nodes && n in t.snap.nodes[i] && t.snap.nodes[i][n].memTotal > 0
    case GuestDown(c, v) => cfg.guestDown.Some? && c in t.snap.guests && v in t.snap.guests[c]
    case BackupStale(i, id) => cfg.backupStale.Some? && i in t.snap.backups && id in t.snap.backups[i]
    case DiskSmart(w) => cfg.diskSmartFailed.Some? && w in t.snap.disks
    case DiskScrutiny(w) => cfg.diskSmartFailed.Some? && w in t.snap.disks
    case DatastoreFull(i, d) => cfg.datastoreFull.Some? && i in t.snap.datastores && d in t.snap.datastores[i]
    case DatastoreOffline(i, d) => cfg.datastoreFull.Some? && i in t.snap.datastores && d in t.snap.datastores[i]
  }

  function Prefix(s: Subject): string {
    match s
    case NodeCpu(_, _) => "node_cpu:"
    case NodeMem(_, _) => "node_mem:"
    case GuestDown(_, _) => "guest_down:"
    case BackupStale(_, _) => "backup_stale:"
    case DiskSmart(_) => "disk_smart:"
    case DiskScrutiny(_) => "disk_scrutiny:"
    case DatastoreFull(_, _) => "ds_full:"
    case DatastoreOffline(_, _) => "ds_offline:"
  }

  /** What follows the prefix. */
  function Rest(cfg: Config, t: Tick, s: Subject): string
    requires Present(cfg, t, s)
  {
    match s
    case NodeCpu(i, n) => Joined(i, t.snap.nodes[i][n].name)
    case NodeMem(i, n) => Joined(i, t.snap.nodes[i][n].name)
    case GuestDown(c, v) => Joined(c, Decimal.Itoa(t.snap.guests[c][v].vmid))
    case BackupStale(i, id) => Joined(i, id)
    case DiskSmart(w) => w
    case DiskScrutiny(w) => w
    case DatastoreFull(i, d) => Joined(i, t.snap.datastores[i][d].name)
    case DatastoreOffline(i, d) => Joined(i, t.snap.datastores[i][d].name)
  }

  /** The text a rule's format string gives. */
  function Key(cfg: Config, t: Tick, s: Subject): string
    requires Present(cfg, t, s)
  {
    Prefix(s) + Rest(cfg, t, s)
  }

  function CheckOf(cfg: Config, t: Tick, s: Subject): Check
    requires Present(cfg, t, s)
  {
    var key := Key(cfg, t, s);
    match s
    case NodeCpu(i, n) =>
      var node, rule := t.snap.nodes[i][n], cfg.nodeCpuHigh.value;
      Check(key, Sustained(rule.duration), node.cpu * 100.0 >= rule.threshold, rule.cooldown,
            Notification("node_cpu_high", rule.severity, i, node.name, t.now))
    case NodeMem(i, n) =>
      var node, rule := t.snap.nodes[i][n], cfg.nodeMemHigh.value;
      Check(key, Sustained(rule.duration), Pct(node.memUsed, node.memTotal) >= rule.threshold, rule.cooldown,
            Notification("node_mem_high", rule.severity, i, node.name, t.now))
    case GuestDown(c, v) =>
      var guest, rule := t.snap.guests[c][v], cfg.guestDown.value;
      Check(key, Sustained(rule.gracePeriod), guest.status != "running", rule.cooldown,
            Notification("guest_down", rule.severity, guest.instance, guest.name, t.now))
    case BackupStale(i, id) =>
      var backup, rule := t.snap.backups[i][id], cfg.backupStale.value;
      Check(key, Instant, t.wall(i, id) - backup.backupTime * SECOND > rule.maxAge, rule.cooldown,
            Notification("backup_stale", rule.severity, i, backup.backupId, t.now))
    case DiskSmart(w) =>
      var disk, rule := t.snap.disks[w], cfg.diskSmartFailed.value;
      Check(key, Instant, disk.health == "FAILED" || disk.status & FAILED_SMART != 0, rule.cooldown,
            Notification("disk_smart_failed", rule.severity, disk.instance, disk.devPath, t.now))
    case DiskScrutiny(w) =>
      var disk, rule := t.snap.disks[w], cfg.diskSmartFailed.value;
      Check(key, Instant, disk.status & WARN_SCRUTINY != 0 || disk.status & FAILED_SCRUTINY != 0, rule.cooldown,
            Notification("disk_scrutiny_warning", "warning", disk.instance, disk.devPath, t.now))
    case DatastoreFull(i, d) =>
      var ds, rule := t.snap.datastores[i][d], cfg.datastoreFull.value;
      Check(key, Instant, IsFull(ds, rule.threshold), rule.cooldown,
            Notification("datastore_full", rule.severity, i, ds.name, t.now))
    case DatastoreOffline(i, d) =>
      var ds := t.snap.datastores[i][d];
      Check(key, Instant, ds.error.Some?, HOUR,
            Notification("datastore_offline", "critical", i, ds.name, t.now))
  }

  // ---- The conditions, and what is announced ------------------------------------

  /** The subject is there, its rule looks at it, and its condition holds. */
  ghost predicate HoldsAt(cfg: Config, t: Tick, s: Subject) {
    match s
    case NodeCpu(i, n) =>
      && cfg.nodeCpuHigh.Some? && i in t.snap.nodes && n in t.snap.nodes[i]
      && 100.0 * t.snap.nodes[i][n].cpu >= cfg.nodeCpuHigh.value.threshold
    case NodeMem(i, n) =>
      && cfg.nodeMemHigh.Some? && i in t.snap.nodes && n in t.snap.nodes[i] && t.snap.nodes[i][n].memTotal > 0
      && Share(t.snap.nodes[i][n].memUsed, t.snap.nodes[i][n].memTotal, cfg.nodeMemHigh.value.threshold)
    case GuestDown(c, v) =>
      cfg.guestDown.Some? && c in t.snap.guests && v in t.snap.guests[c] && t.snap.guests[c][v].status != "running"
    case BackupStale(i, id) =>
      && cfg.backupStale.Some? && i in t.snap.backups && id in t.snap.backups[i]
      && t.wall(i, id) - 1_000_000_000 * t.snap.backups[i][id].backupTime > cfg.backupStale.value.maxAge
    case DiskSmart(w) =>
      && cfg.diskSmartFailed.Some? && w in t.snap.disks
      && (t.snap.disks[w].health == "FAILED" || t.snap.disks[w].status & 1 == 1)
    case DiskScrutiny(w) =>
      && cfg.diskSmartFailed.Some? && w in t.snap.disks
      && (t.snap.disks[w].status & 2 == 2 || t.snap.disks[w].status & 4 == 4)
    case DatastoreFull(i, d) =>
      && cfg.datastoreFull.Some? && i in t.snap.datastores && d in t.snap.datastores[i]
      && t.snap.datastores[i][d].totalBytes.Some? && t.snap.datastores[i][d].usedBytes.Some?
      && t.snap.datastores[i][d].totalBytes.value > 0
      && Share(t.snap.datastores[i][d].usedBytes.value, t.snap.datastores[i][d].totalBytes.value,
               cfg.datastoreFull.value.threshold)
    case DatastoreOffline(i, d) =>
      && cfg.datastoreFull.Some? && i in t.snap.datastores && d in t.snap.datastores[i]
      && t.snap.datastores[i][d].error.Some?
  }

  /** At least so many percent are used. */
  ghost predicate Share(used: int, total: int, percent: real) {
    100.0 * used as real >= percent * total as real
  }

  /** The subject is looked at, and its condition does not hold. */
  ghost predicate ClearAt(cfg: Config, t: Tick, s: Subject) {
    Present(cfg, t, s) && !HoldsAt(cfg, t, s)
  }

  lemma PctIsShare(used: int, total: int, percent: real)
    requires total > 0
    ensures Pct(used, total) >= percent <==> Share(used, total, percent)
  {
    var q := used as real / total as real;
    assert q * total as real == used as real;
    Scaled(q, total as real, percent);
  }

  lemma Scaled(q: real, total: real, percent: real)
    requires total > 0.0
    ensures q * 100.0 >= percent <==> 100.0 * (q * total) >= percent * total
  {
    var d := q * 100.0 - percent;
    assert 100.0 * (q * total) - percent * total == d * total;
  }

  lemma StatusBits(s: Status)
    ensures (s & 1 != 0 <==> s & 1 == 1) && (s & 2 != 0 <==> s & 2 == 2) && (s & 4 != 0 <==> s & 4 == 4)
  {
  }

  /** The engine's check of a subject holds exactly when the condition does. */
  lemma ConditionExactly(cfg: Config, t: Tick, s: Subject)
    ensures HoldsAt(cfg, t, s) <==> Present(cfg, t, s) && CheckOf(cfg, t, s).holds
  {
    hide Pct, Share, Key;
    match s
    case NodeMem(i, n) =>
      if Present(cfg, t, s) {
        var node := t.snap.nodes[i][n];
        PctIsShare(node.memUsed, node.memTotal, cfg.nodeMemHigh.value.threshold);
      }
    case DiskSmart(w) =>
      if w in t.snap.disks {
        StatusBits(t.snap.disks[w].status);
      }
    case DiskScrutiny(w) =>
      if w in t.snap.disks {
        StatusBits(t.snap.disks[w].status);
      }
    case DatastoreFull(i, d) =>
      if Present(cfg, t, s) {
        var ds := t.snap.datastores[i][d];
        if ds.totalBytes.Some? && ds.usedBytes.Some? && ds.totalBytes.value > 0 {
          PctIsShare(ds.usedBytes.value, ds.totalBytes.value, cfg.datastoreFull.value.threshold);
        }
      }
    case _ =>
  }

  /** The alert types, the severities in force, and what an alert names: instance and subject. */
  ghost predicate Announces(n: Notification, cfg: Config, t: Tick, s: Subject)
    requires Present(cfg, t, s)
  {
    && n.timestamp == t.now
    && match s
       case NodeCpu(i, name) =>
         && n.alertType == "node_cpu_high" && n.severity == cfg.nodeCpuHigh.value.severity
         && n.instance == i && n.subject == t.snap.nodes[i][name].name
       case NodeMem(i, name) =>
         && n.alertType == "node_mem_high" && n.severity == cfg.nodeMemHigh.value.severity
         && n.instance == i && n.subject == t.snap.nodes[i][name].name
       case GuestDown(c, v) =>
         && n.alertType == "guest_down" && n.severity == cfg.guestDown.value.severity
         && n.instance == t.snap.guests[c][v].instance && n.subject == t.snap.guests[c][v].name
       case BackupStale(i, id) =>
         && n.alertType == "backup_stale" && n.severity == cfg.backupStale.value.severity
         && n.instance == i && n.subject == t.snap.backups[i][id].backupId
       case DiskSmart(w) =>
         && n.alertType == "disk_smart_failed" && n.severity == cfg.diskSmartFailed.value.severity
         && n.instance == t.snap.disks[w].instance && n.subject == t.snap.disks[w].devPath
       case DiskScrutiny(w) =>
         && n.alertType == "disk_scrutiny_warning" && n.severity == "warning"
         && n.instance == t.snap.disks[w].instance && n.subject == t.snap.disks[w].devPath
       case DatastoreFull(i, d) =>
         && n.alertType == "datastore_full" && n.severity == cfg.datastoreFull.value.severity
         && n.instance == i && n.subject == t.snap.datastores[i][d].name
       case DatastoreOffline(i, d) =>
         && n.alertType == "datastore_offline" && n.severity == "critical"
         && n.instance == i && n.subject == t.snap.datastores[i][d].name
  }

  lemma CheckAnnounces(cfg: Config, t: Tick, s: Subject)
    requires Present(cfg, t, s)
    ensures Announces(CheckOf(cfg, t, s).notice, cfg, t, s)
  {
    hide Key;
  }

  /** A walk over everything there is to check, in some order, nothing twice. */
  ghost predicate IsWalk(cfg: Config, t: Tick, walk: seq<Subject>) {
    && (forall i, j :: 0 <= i < j < |walk| ==> walk[i] != walk[j])
    && (forall s :: s in walk <==> Present(cfg, t, s))
  }

  ghost predicate AllPresent(cfg: Config, t: Tick, walk: seq<Subject>) {
    forall i :: 0 <= i < |walk| ==> Present(cfg, t, walk[i])
  }

  ghost function OrderOf(cfg: Config, t: Tick, walk: seq<Subject>): (order: seq<Check>)
    requires AllPresent(cfg, t, walk)
    ensures |order| == |walk|
    ensures forall i :: 0 <= i < |walk| ==> order[i] == CheckOf(cfg, t, walk[i])
  {
    seq(|walk|, i requires 0 <= i < |walk| => CheckOf(cfg, t, walk[i]))
  }

  // ---- Keys are injective -----------------------------------------------------

  /** The instance names in use, for each kind of rule that puts one into a key. */
  datatype Instances = Instances(pve: set<string>, backups: set<string>, datastores: set<string>)

  ghost predicate NodesFiled(snap: Snapshot, names: set<string>) {
    snap.nodes.Keys <= names && forall i, n :: i in snap.nodes && n in snap.nodes[i] ==> snap.nodes[i][n].name == n
  }

  ghost predicate GuestsFiled(snap: Snapshot) {
    forall c, v :: c in snap.guests && v in snap.guests[c] ==> snap.guests[c][v].vmid == v
  }

  ghost predicate StoresFiled(snap: Snapshot, names: set<string>) {
    && snap.datastores.Keys <= names
    && forall i, d :: i in snap.datastores && d in snap.datastores[i] ==> snap.datastores[i][d].name == d
  }

  /** Entities are filed under their own names, as the collectors file them, and under instances in use. */
  ghost predicate Filed(snap: Snapshot, all: Instances) {
    && NodesFiled(snap, all.pve) && GuestsFiled(snap)
    && snap.backups.Keys <= all.backups && StoresFiled(snap, all.datastores)
  }

  ghost predicate NodesSlashFree(snap: Snapshot) {
    forall i, n :: i in snap.nodes && n in snap.nodes[i] ==> SlashFree(n)
  }

  ghost predicate StoresSlashFree(snap: Snapshot) {
    forall i, d :: i in snap.datastores && d in snap.datastores[i] ==> SlashFree(d)
  }

  /**
   What keeps a subject's key its own in a snapshot: only the names of its own rule count.
   Guests need no condition on the names of clusters, and disks none at all.
   */
  ghost predicate NamedFor(snap: Snapshot, all: Instances, s: Subject) {
    match s
    case NodeCpu(i, n) =>
      NodesFiled(snap, all.pve) && (Unshared(all.pve, i, n) || (SlashFree(n) && NodesSlashFree(snap)))
    case NodeMem(i, n) =>
      NodesFiled(snap, all.pve) && (Unshared(all.pve, i, n) || (SlashFree(n) && NodesSlashFree(snap)))
    case GuestDown(_, _) => GuestsFiled(snap)
    case BackupStale(i, id) => snap.backups.Keys <= all.backups && Unshared(all.backups, i, id)
    case DiskSmart(_) => true
    case DiskScrutiny(_) => true
    case DatastoreFull(i, d) =>
      StoresFiled(snap, all.datastores) && (Unshared(all.datastores, i, d) || (SlashFree(d) && StoresSlashFree(snap)))
    case DatastoreOffline(i, d) =>
      StoresFiled(snap, all.datastores) && (Unshared(all.datastores, i, d) || (SlashFree(d) && StoresSlashFree(snap)))
  }

  /** Every subject of the snapshot has its key to itself. */
  ghost predicate WellNamed(cfg: Config, t: Tick, all: Instances) {
    forall s :: Present(cfg, t, s) ==> NamedFor(t.snap, all, s)
  }

  /** For each rule in force that puts an instance into its keys, no instance name nests in another. */
  predicate Apart(cfg: Config, all: Instances) {
    && (cfg.nodeCpuHigh.Some? || cfg.nodeMemHigh.Some? ==> Unnested(all.pve))
    && (cfg.backupStale.Some? ==> Unnested(all.backups))
    && (cfg.datastoreFull.Some? ==> Unnested(all.datastores))
  }

  lemma ApartIsNamed(cfg: Config, all: Instances, t: Tick)
    requires Apart(cfg, all) && Filed(t.snap, all)
    ensures WellNamed(cfg, t, all)
  {
    hide Unshared, Unnested, NodesFiled, GuestsFiled, StoresFiled;
    forall s | Present(cfg, t, s) ensures NamedFor(t.snap, all, s) {
      InstanceInUse(cfg, all, t, s);
      match s
      case NodeCpu(i, n) => UnnestedUnshared(all.pve, i, n);
      case NodeMem(i, n) => UnnestedUnshared(all.pve, i, n);
      case BackupStale(i, id) => UnnestedUnshared(all.backups, i, id);
      case DatastoreFull(i, d) => UnnestedUnshared(all.datastores, i, d);
      case DatastoreOffline(i, d) => UnnestedUnshared(all.datastores, i, d);
      case _ =>
    }
  }

  lemma InstanceInUse(cfg: Config, all: Instances, t: Tick, s: Subject)
    requires Present(cfg, t, s) && Filed(t.snap, all)
    ensures s.NodeCpu? || s.NodeMem? ==> s.instance in all.pve
    ensures s.BackupStale? ==> s.instance in all.backups
    ensures s.DatastoreFull? || s.DatastoreOffline? ==> s.instance in all.datastores
  {
  }

  /** The key a subject goes by, when entities are filed under their own names. */
  function KeyFor(s: Subject): string {
    Prefix(s) +
    match s
    case NodeCpu(i, n) => Joined(i, n)
    case NodeMem(i, n) => Joined(i, n)
    case GuestDown(c, v) => Joined(c, Decimal.Itoa(v))
    case BackupStale(i, id) => Joined(i, id)
    case DiskSmart(w) => w
    case DiskScrutiny(w) => w
    case DatastoreFull(i, d) => Joined(i, d)
    case DatastoreOffline(i, d) => Joined(i, d)
  }

  lemma FiledKey(cfg: Config, all: Instances, t: Tick, s: Subject)
    requires Present(cfg, t, s) && NamedFor(t.snap, all, s)
    ensures Key(cfg, t, s) == KeyFor(s)
  {
    hide Joined, Prefix, Unshared;
  }

  /** The prefixes are told apart by their first, second, fourth, sixth and seventh letters. */
  lemma PrefixesApart(a: Subject, x: string, b: Subject, y: string)
    requires Prefix(a) + x == Prefix(b) + y
    ensures Prefix(a) == Prefix(b) && x == y
  {
    hide Prefix;
    var p, q, s := Prefix(a), Prefix(b), Prefix(a) + x;
    assert s[..|p|] == p && s[..|q|] == q;
    assert forall i :: 0 <= i < |p| && i < |q| ==> p[i] == s[i] == q[i];
    ApartByLetters(a, b);
    assert x == s[|p|..] && y == s[|q|..];
  }

  lemma ApartByLetters(a: Subject, b: Subject)
    requires forall i :: 0 <= i < |Prefix(a)| && i < |Prefix(b)| ==> Prefix(a)[i] == Prefix(b)[i]
    ensures Prefix(a) == Prefix(b)
  {
    var p, q := Prefix(a), Prefix(b);
    assert p[0] == q[0] && p[1] == q[1] && p[3] == q[3] && p[5] == q[5] && p[6] == q[6];
  }

  lemma SplitEither(names: set<string>, i: string, n: string, j: string, m: string)
    requires Unshared(names, i, n) || (SlashFree(n) && SlashFree(m))
    requires j in names && Joined(i, n) == Joined(j, m)
    ensures i == j && n == m
  {
    if Unshared(names, i, n) {
      UnsharedExactly(names, i, n);
    } else {
      SplitLastSlash(i, n, j, m);
    }
  }

  /** No other subject goes by the key of a subject that is well named. */
  lemma KeyIsOwn(cfg: Config, all: Instances, s: Subject, t: Tick, x: Subject)
    requires NamedFor(t.snap, all, s) && Present(cfg, t, x) && Key(cfg, t, x) == KeyFor(s)
    ensures x == s
  {
    hide Joined, Unshared, SlashFree, Prefix;
    var rest := KeyFor(s)[|Prefix(s)|..];
    PrefixesApart(s, rest, x, Rest(cfg, t, x));
    SamePrefixSameRule(s, x);
    match s
    case NodeCpu(i, n) => SplitEither(all.pve, i, n, x.instance, x.node);
    case NodeMem(i, n) => SplitEither(all.pve, i, n, x.instance, x.node);
    case GuestDown(c, v) => GuestKeysApart(c, v, x.cluster, x.vmid);
    case BackupStale(i, id) => SplitEither(all.backups, i, id, x.instance, x.id);
    case DiskSmart(w) =>
    case DiskScrutiny(w) =>
    case DatastoreFull(i, d) => SplitEither(all.datastores, i, d, x.instance, x.store);
    case DatastoreOffline(i, d) => SplitEither(all.datastores, i, d, x.instance, x.store);
  }

  /** Different subjects go by different keys, even in different snapshots, by the names of the one's rule alone. */
  lemma KeysInjective(cfg: Config, all: Instances, t: Tick, a: Subject, u: Tick, b: Subject)
    requires NamedFor(t.snap, all, a) && NamedFor(u.snap, all, a)
    requires Present(cfg, t, a) && Present(cfg, u, b) && Key(cfg, t, a) == Key(cfg, u, b)
    ensures a == b
  {
    hide NamedFor, Present, Key, KeyFor;
    FiledKey(cfg, all, t, a);
    KeyIsOwn(cfg, all, a, u, b);
  }

  /** A VMID has no slash, so that a guest's key needs no condition on the cluster's name. */
  lemma GuestKeysApart(c: string, v: int, d: string, w: int)
    requires Joined(c, Decimal.Itoa(v)) == Joined(d, Decimal.Itoa(w))
    ensures c == d && v == w
  {
    Decimal.ItoaChars(v, '/');
    Decimal.ItoaChars(w, '/');
    SplitLastSlash(c, Decimal.Itoa(v), d, Decimal.Itoa(w));
    Decimal.ItoaInjective(v, w);
  }

  lemma SamePrefixSameRule(a: Subject, b: Subject)
    requires Prefix(a) == Prefix(b)
    ensures a.NodeCpu? == b.NodeCpu? && a.NodeMem? == b.NodeMem? && a.GuestDown? == b.GuestDown?
    ensures a.BackupStale? == b.BackupStale? && a.DiskSmart? == b.DiskSmart? && a.DiskScrutiny? == b.DiskScrutiny?
    ensures a.DatastoreFull? == b.DatastoreFull? && a.DatastoreOffline? == b.DatastoreOffline?
  {
    var x, y := Prefix(a), Prefix(b);
    assert x[0] == y[0] && x[1] == y[1] && x[3] == y[3] && x[5] == y[5] && x[6] == y[6];
  }

  lemma WalkDistinct(cfg: Config, all: Instances, t: Tick, walk: seq<Subject>)
    requires WellNamed(cfg, t, all) && IsWalk(cfg, t, walk)
    ensures Distinct(OrderOf(cfg, t, walk))
  {
    hide CheckOf, Present, Key, NamedFor;
    var order := OrderOf(cfg, t, walk);
    forall i, j | 0 <= i < j < |order| ensures order[i].key != order[j].key {
      CheckHasKey(cfg, t, walk[i]);
      CheckHasKey(cfg, t, walk[j]);
      if order[i].key == order[j].key {
        KeysInjective(cfg, all, t, walk[i], t, walk[j]);
        assert false;
      }
    }
  }

  lemma WalkSingle(cfg: Config, all: Instances, t: Tick, walk: seq<Subject>, s: Subject)
    requires NamedFor(t.snap, all, s) && IsWalk(cfg, t, walk)
    ensures Single(OrderOf(cfg, t, walk), KeyFor(s))
  {
    hide CheckOf, Present, Key, NamedFor, KeyFor;
    var order := OrderOf(cfg, t, walk);
    forall i, j | 0 <= i < j < |order| ensures !(order[i].key == KeyFor(s) && order[j].key == KeyFor(s)) {
      CheckHasKey(cfg, t, walk[i]);
      CheckHasKey(cfg, t, walk[j]);
      if order[i].key == KeyFor(s) && order[j].key == KeyFor(s) {
        KeyIsOwn(cfg, all, s, t, walk[i]);
        KeyIsOwn(cfg, all, s, t, walk[j]);
        assert false;
      }
    }
  }

  /** Two subjects of one snapshot with one key. */
  ghost predicate Collide(cfg: Config, all: Instances, t: Tick, a: Subject, b: Subject) {
    && Filed(t.snap, all) && a != b
    && Present(cfg, t, a) && Present(cfg, t, b) && Key(cfg, t, a) == Key(cfg, t, b)
  }

  function Sample(name: string): Node {
    Node(name, "online", 0.0, 0, 1, None)
  }

  function Store(name: string): Datastore {
    Datastore(name, None, None, None)
  }

  const NOTHING: Snapshot := Snapshot(map[], map[], map[], map[], map[], map[], map[])

  lemma NodeKeysCollide(cfg: Config, all: Instances) returns (t: Tick, a: Subject, b: Subject)
    requires !Unnested(all.pve) && (cfg.nodeCpuHigh.Some? || cfg.nodeMemHigh.Some?)
    ensures Collide(cfg, all, t, a, b)
  {
    hide Joined, Unnested;
    var i, j := NestedPair(all.pve);
    var rest := NestedJoins(i, j);
    var m, n := rest + "n", "n";
    t := Tick(0, NOTHING.(nodes := map[i := map[m := Sample(m)], j := map[n := Sample(n)]]), (x, y) => 0);
    if cfg.nodeCpuHigh.Some? {
      a, b := NodeCpu(i, m), NodeCpu(j, n);
    } else {
      a, b := NodeMem(i, m), NodeMem(j, n);
    }
  }

  lemma BackupKeysCollide(cfg: Config, all: Instances) returns (t: Tick, a: Subject, b: Subject)
    requires !Unnested(all.backups) && cfg.backupStale.Some?
    ensures Collide(cfg, all, t, a, b)
  {
    hide Joined, Unnested;
    var i, j := NestedPair(all.backups);
    var rest := NestedJoins(i, j);
    var m, n := rest + "n", "n";
    var backup := Backup("store", "ct", "101", 0);
    t := Tick(0, NOTHING.(backups := map[i := map[m := backup], j := map[n := backup]]), (x, y) => 0);
    a, b := BackupStale(i, m), BackupStale(j, n);
  }

  lemma DatastoreKeysCollide(cfg: Config, all: Instances) returns (t: Tick, a: Subject, b: Subject)
    requires !Unnested(all.datastores) && cfg.datastoreFull.Some?
    ensures Collide(cfg, all, t, a, b)
  {
    hide Joined, Unnested;
    var i, j := NestedPair(all.datastores);
    var rest := NestedJoins(i, j);
    var m, n := rest + "n", "n";
    t := Tick(0, NOTHING.(datastores := map[i := map[m := Store(m)], j := map[n := Store(n)]]), (x, y) => 0);
    a, b := DatastoreFull(i, m), DatastoreFull(j, n);
  }

  /** With any names behind the instances, keys never collide exactly when the instances do not nest. */
  lemma KeysApartExactly(cfg: Config, all: Instances)
    ensures Apart(cfg, all) <==> forall t, a, b :: !Collide(cfg, all, t, a, b)
  {
    if Apart(cfg, all) {
      forall t, a, b ensures !Collide(cfg, all, t, a, b) {
        if Collide(cfg, all, t, a, b) {
          ApartIsNamed(cfg, all, t);
          KeysInjective(cfg, all, t, a, t, b);
        }
      }
    } else {
      hide Collide, Unnested;
      var t, a, b;
      if (cfg.nodeCpuHigh.Some? || cfg.nodeMemHigh.Some?) && !Unnested(all.pve) {
        t, a, b := NodeKeysCollide(cfg, all);
      } else if cfg.backupStale.Some? && !Unnested(all.backups) {
        t, a, b := BackupKeysCollide(cfg, all);
      } else {
        t, a, b := DatastoreKeysCollide(cfg, all);
      }
    }
  }

  // ---- Runs of the configured rules -------------------------------------------

  /** Each evaluation walks over all its snapshot holds, on a clock that never goes back. */
  ghost predicate TimelyRun(cfg: Config, ticks: seq<Tick>, walks: seq<seq<Subject>>) {
    && |ticks| == |walks|
    && (forall i, j :: 0 <= i <= j < |ticks| ==> ticks[i].now <= ticks[j].now)
    && (forall i :: 0 <= i < |ticks| ==> IsWalk(cfg, ticks[i], walks[i]))
  }

  /** Besides, the names of the subject's own rule keep its key its own. */
  ghost predicate LegalRun(cfg: Config, all: Instances, ticks: seq<Tick>, walks: seq<seq<Subject>>, s: Subject) {
    && TimelyRun(cfg, ticks, walks)
    && (forall i :: 0 <= i < |ticks| ==> NamedFor(ticks[i].snap, all, s))
  }

  ghost predicate Walks(cfg: Config, ticks: seq<Tick>, walks: seq<seq<Subject>>) {
    |ticks| == |walks| && forall i :: 0 <= i < |ticks| ==> AllPresent(cfg, ticks[i], walks[i])
  }

  ghost function Rounds(cfg: Config, ticks: seq<Tick>, walks: seq<seq<Subject>>): (rounds: seq<Round>)
    requires Walks(cfg, ticks, walks)
    ensures |rounds| == |ticks|
    ensures forall i :: 0 <= i < |ticks| ==> rounds[i] == Round(ticks[i].now, OrderOf(cfg, ticks[i], walks[i]))
  {
    seq(|ticks|, i requires 0 <= i < |ticks| => Round(ticks[i].now, OrderOf(cfg, ticks[i], walks[i])))
  }

  lemma RunIsTimely(cfg: Config, ticks: seq<Tick>, walks: seq<seq<Subject>>)
    requires TimelyRun(cfg, ticks, walks)
    ensures Walks(cfg, ticks, walks) && Timely(Rounds(cfg, ticks, walks))
  {
    hide Present;
    forall i | 0 <= i < |ticks| ensures AllPresent(cfg, ticks[i], walks[i]) {
      assert IsWalk(cfg, ticks[i], walks[i]);
    }
  }

  lemma RunIsLegal(cfg: Config, all: Instances, ticks: seq<Tick>, walks: seq<seq<Subject>>, s: Subject)
    requires LegalRun(cfg, all, ticks, walks, s)
    ensures Walks(cfg, ticks, walks) && Legal(Rounds(cfg, ticks, walks), KeyFor(s))
  {
    hide NamedFor, KeyFor;
    RunIsTimely(cfg, ticks, walks);
    forall i | 0 <= i < |ticks| ensures Single(OrderOf(cfg, ticks[i], walks[i]), KeyFor(s)) {
      WalkSingle(cfg, all, ticks[i], walks[i], s);
    }
  }

  lemma FoundAt(order: seq<Check>, j: nat)
    requires j < |order| && Single(order, order[j].key)
    ensures Find(order, order[j].key) == Some(order[j])
  {
  }

  /** In a run a subject's check is the one made under its key, and there is none when the subject is absent. */
  lemma SeenSubject(cfg: Config, all: Instances, ticks: seq<Tick>, walks: seq<seq<Subject>>, i: nat, s: Subject)
    requires LegalRun(cfg, all, ticks, walks, s) && i < |ticks|
    ensures Walks(cfg, ticks, walks)
    ensures Seen(Rounds(cfg, ticks, walks), i, KeyFor(s))
            == if Present(cfg, ticks[i], s) then Some(CheckOf(cfg, ticks[i], s)) else None
  {
    hide CheckOf, Present, Key, NamedFor, KeyFor;
    RunIsLegal(cfg, all, ticks, walks, s);
    var rounds := Rounds(cfg, ticks, walks);
    if Present(cfg, ticks[i], s) {
      assert IsWalk(cfg, ticks[i], walks[i]) && s in walks[i];
      var j :| 0 <= j < |walks[i]| && walks[i][j] == s;
      CheckHasKey(cfg, ticks[i], s);
      FiledKey(cfg, all, ticks[i], s);
      FoundAt(rounds[i].order, j);
    } else if Seen(rounds, i, KeyFor(s)).Some? {
      var other := SubjectSeen(cfg, ticks, walks, i, KeyFor(s));
      KeyIsOwn(cfg, all, s, ticks[i], other);
    }
  }

  lemma CheckHasKey(cfg: Config, t: Tick, s: Subject)
    requires Present(cfg, t, s)
    ensures CheckOf(cfg, t, s).key == Key(cfg, t, s)
  {
  }

  lemma SubjectSeen(cfg: Config, ticks: seq<Tick>, walks: seq<seq<Subject>>, i: nat, key: string) returns (s: Subject)
    requires TimelyRun(cfg, ticks, walks) && i < |ticks|
    requires Walks(cfg, ticks, walks) && Seen(Rounds(cfg, ticks, walks), i, key).Some?
    ensures Present(cfg, ticks[i], s) && Key(cfg, ticks[i], s) == key
    ensures Seen(Rounds(cfg, ticks, walks), i, key) == Some(CheckOf(cfg, ticks[i], s))
  {
    var order := OrderOf(cfg, ticks[i], walks[i]);
    var j :| 0 <= j < |order| && order[j] == Find(order, key).value;
    s := walks[i][j];
    CheckHasKey(cfg, ticks[i], s);
  }

  predicate IsInstant(s: Subject) {
    s.BackupStale? || s.DiskSmart? || s.DiskScrutiny? || s.DatastoreFull? || s.DatastoreOffline?
  }

  /** The keys of the rules that have no timer. */
  ghost predicate InstantRuleKey(key: string) {
    exists s: Subject :: IsInstant(s) && Prefix(s) <= key
  }

  predicate ShortCooldowns(cfg: Config) {
    && (cfg.backupStale.Some? ==> cfg.backupStale.value.cooldown <= MAX_AGE + 1)
    && (cfg.diskSmartFailed.Some? ==> cfg.diskSmartFailed.value.cooldown <= MAX_AGE + 1)
    && (cfg.datastoreFull.Some? ==> cfg.datastoreFull.value.cooldown <= MAX_AGE + 1)
  }

  lemma InstantCheck(cfg: Config, t: Tick, s: Subject)
    requires Present(cfg, t, s) && IsInstant(s) && ShortCooldowns(cfg)
    ensures CheckOf(cfg, t, s).kind.Instant? && CheckOf(cfg, t, s).cooldown <= MAX_AGE + 1
  {
  }

  /** A key that starts with a rule's prefix is a key of that rule, whatever the names in it. */
  lemma PrefixDecidesRule(cfg: Config, t: Tick, s: Subject, p: Subject)
    requires Present(cfg, t, s) && Prefix(p) <= Key(cfg, t, s)
    ensures Prefix(p) == Prefix(s)
  {
    hide Rest, Present;
    var key := Key(cfg, t, s);
    PrefixesApart(p, key[|Prefix(p)|..], s, Rest(cfg, t, s));
  }

  lemma InstantRuleSubject(cfg: Config, t: Tick, s: Subject)
    requires Present(cfg, t, s) && InstantRuleKey(Key(cfg, t, s))
    ensures IsInstant(s)
  {
    hide Key, Present;
    var p :| IsInstant(p) && Prefix(p) <= Key(cfg, t, s);
    PrefixDecidesRule(cfg, t, s, p);
    SamePrefixSameRule(p, s);
  }

  lemma InstantRuleKeys(cfg: Config, t: Tick, walk: seq<Subject>)
    requires AllPresent(cfg, t, walk) && ShortCooldowns(cfg)
    ensures InstantFor(OrderOf(cfg, t, walk), (iset key | InstantRuleKey(key)), MAX_AGE + 1)
  {
    hide CheckOf, Present, Key, ShortCooldowns, InstantRuleKey;
    var order := OrderOf(cfg, t, walk);
    forall i | 0 <= i < |order| && InstantRuleKey(order[i].key)
      ensures order[i].kind.Instant? && order[i].cooldown <= MAX_AGE + 1
    {
      CheckHasKey(cfg, t, walk[i]);
      InstantRuleSubject(cfg, t, walk[i]);
      InstantCheck(cfg, t, walk[i]);
    }
  }

  /**
   With cooldowns of at most six hours, as configured, `cleanup` never shows in the
   backup, disk and datastore alerts, whatever the names.
   */
  lemma RulesGcUnobservable(cfg: Config, ticks: seq<Tick>, walks: seq<seq<Subject>>, i: nat)
    requires TimelyRun(cfg, ticks, walks) && i < |ticks| && ShortCooldowns(cfg)
    ensures ShortCooldowns(DEFAULT_CONFIG)
    ensures Walks(cfg, ticks, walks)
    ensures var rounds, keys := Rounds(cfg, ticks, walks), iset key | InstantRuleKey(key);
            Restrict(Exec(rounds, true).logs[i], keys) == Restrict(Exec(rounds, false).logs[i], keys)
  {
    RunIsTimely(cfg, ticks, walks);
    var rounds, keys := Rounds(cfg, ticks, walks), iset key | InstantRuleKey(key);
    forall j | 0 <= j < |rounds| ensures InstantFor(rounds[j].order, keys, MAX_AGE + 1) {
      InstantRuleKeys(cfg, ticks[j], walks[j]);
    }
    GcUnobservable(rounds, i, keys);
  }

  /** The cooldown of a subject's rule. */
  function RuleCooldown(cfg: Config, s: Subject): int {
    match s
    case NodeCpu(_, _) => if cfg.nodeCpuHigh.Some? then cfg.nodeCpuHigh.value.cooldown else 0
    case NodeMem(_, _) => if cfg.nodeMemHigh.Some? then cfg.nodeMemHigh.value.cooldown else 0
    case GuestDown(_, _) => if cfg.guestDown.Some? then cfg.guestDown.value.cooldown else 0
    case BackupStale(_, _) => if cfg.backupStale.Some? then cfg.backupStale.value.cooldown else 0
    case DiskSmart(_) => if cfg.diskSmartFailed.Some? then cfg.diskSmartFailed.value.cooldown else 0
    case DiskScrutiny(_) => if cfg.diskSmartFailed.Some? then cfg.diskSmartFailed.value.cooldown else 0
    case DatastoreFull(_, _) => if cfg.datastoreFull.Some? then cfg.datastoreFull.value.cooldown else 0
    case DatastoreOffline(_, _) => HOUR
  }

  lemma CheckCools(cfg: Config, t: Tick, s: Subject)
    requires Present(cfg, t, s)
    ensures CheckOf(cfg, t, s).cooldown == RuleCooldown(cfg, s)
  {
  }

  lemma RuleCools(cfg: Config, t: Tick, walk: seq<Subject>, p: Subject, key: string)
    requires AllPresent(cfg, t, walk) && Prefix(p) <= key
    ensures CoolsFor(OrderOf(cfg, t, walk), key, RuleCooldown(cfg, p))
  {
    hide CheckOf, Present, Key;
    var order := OrderOf(cfg, t, walk);
    forall i | 0 <= i < |order| && order[i].key == key ensures order[i].cooldown >= RuleCooldown(cfg, p) {
      CheckHasKey(cfg, t, walk[i]);
      PrefixDecidesRule(cfg, t, walk[i], p);
      SamePrefixSameRule(p, walk[i]);
      CheckCools(cfg, t, walk[i]);
    }
  }

  /** Whatever the names, two alerts with one key are at least the rule's cooldown, or more than six hours, apart. */
  lemma RulesAreSpaced(cfg: Config, ticks: seq<Tick>, walks: seq<seq<Subject>>, s: Subject, key: string)
    requires TimelyRun(cfg, ticks, walks) && Prefix(s) <= key
    ensures Walks(cfg, ticks, walks)
    ensures Spaced(Raised(Rounds(cfg, ticks, walks), true), 0, key, RuleCooldown(cfg, s), true)
  {
    hide RuleCooldown, Raised, Spaced;
    RunIsTimely(cfg, ticks, walks);
    var rounds := Rounds(cfg, ticks, walks);
    forall i | 0 <= i < |rounds| ensures CoolsFor(rounds[i].order, key, RuleCooldown(cfg, s)) {
      RuleCools(cfg, ticks[i], walks[i], s, key);
    }
    CooldownSpacing(rounds, key, RuleCooldown(cfg, s), true);
  }

  /** The rule of a timed subject: its cooldown and how long its condition must last. */
  function TimedRule(cfg: Config, s: Subject): (rule: (int, int))
    requires match s
             case NodeCpu(_, _) => cfg.nodeCpuHigh.Some?
             case NodeMem(_, _) => cfg.nodeMemHigh.Some?
             case GuestDown(_, _) => cfg.guestDown.Some?
             case _ => false
  {
    match s
    case NodeCpu(_, _) => (cfg.nodeCpuHigh.value.cooldown, cfg.nodeCpuHigh.value.duration)
    case NodeMem(_, _) => (cfg.nodeMemHigh.value.cooldown, cfg.nodeMemHigh.value.duration)
    case _ => (cfg.guestDown.value.cooldown, cfg.guestDown.value.gracePeriod)
  }

  lemma TimedCheck(cfg: Config, t: Tick, s: Subject)
    requires TimedRule.requires(cfg, s) && Present(cfg, t, s)
    ensures CheckOf(cfg, t, s).kind == Sustained(TimedRule(cfg, s).1)
    ensures CheckOf(cfg, t, s).cooldown == TimedRule(cfg, s).0
  {
  }

  /**
   The ticks cover a window, at most `gap` apart, and at each one within the window the
   subject is there and its condition holds.
   */
  ghost predicate HeldThroughout(cfg: Config, ticks: seq<Tick>, s: Subject, from: int, gap: int)
    requires TimedRule.requires(cfg, s)
  {
    var (c, d) := TimedRule(cfg, s);
    && |ticks| > 0 && ticks[0].now <= from + gap && ticks[|ticks| - 1].now >= from + Window(c, d, gap)
    && (forall j :: 0 < j < |ticks| ==> ticks[j].now - ticks[j - 1].now <= gap)
    && (forall j :: 0 <= j < |ticks| && from <= ticks[j].now <= from + Window(c, d, gap) ==> HoldsAt(cfg, ticks[j], s))
  }

  /** The duration and the gap leave the timer time to ripen before it is dropped. */
  predicate Answerable(c: int, d: int, gap: int) {
    0 <= c && 0 <= d && 0 <= gap && d + gap > 0 && Wait(d) + gap <= MAX_AGE + 1
  }

  /**
   A node or guest whose condition holds at every evaluation of a window raises its
   alert within it.
   */
  lemma RuleResponds(cfg: Config, all: Instances, ticks: seq<Tick>, walks: seq<seq<Subject>>,
                     s: Subject, from: int, gap: int)
    returns (i: nat)
    requires LegalRun(cfg, all, ticks, walks, s) && TimedRule.requires(cfg, s)
    requires Answerable(TimedRule(cfg, s).0, TimedRule(cfg, s).1, gap) && HeldThroughout(cfg, ticks, s, from, gap)
    ensures i < |ticks| && Walks(cfg, ticks, walks)
    ensures var (c, d) := TimedRule(cfg, s);
            && from <= ticks[i].now <= from + Window(c, d, gap)
            && Fires(Rounds(cfg, ticks, walks), true, i, KeyFor(s))
  {
    hide CheckOf, Present, HoldsAt, Key, KeyFor, NamedFor, Exec, Legal, IsWalk, OrderOf;
    RunIsLegal(cfg, all, ticks, walks, s);
    var (c, d) := TimedRule(cfg, s);
    var rounds := Rounds(cfg, ticks, walks);
    forall j | 0 <= j < |rounds| && InWindow(rounds, j, from, Window(c, d, gap))
      ensures Holding(rounds, j, KeyFor(s), c, d)
    {
      SeenSubject(cfg, all, ticks, walks, j, s);
      ConditionExactly(cfg, ticks[j], s);
      TimedCheck(cfg, ticks[j], s);
    }
    i := BoundedResponse(rounds, KeyFor(s), from, c, d, gap);
  }

  /**
   A node's or guest's alert is raised only if its own condition held an evaluation at least
   the duration earlier, and no evaluation since then that found it saw the condition clear.
   */
  lemma RuleIsSound(cfg: Config, all: Instances, ticks: seq<Tick>, walks: seq<seq<Subject>>, i: nat, s: Subject)
    requires LegalRun(cfg, all, ticks, walks, s) && TimedRule.requires(cfg, s) && i < |ticks|
    requires Walks(cfg, ticks, walks) && Fires(Rounds(cfg, ticks, walks), true, i, KeyFor(s))
    ensures HoldsAt(cfg, ticks[i], s)
    ensures exists j :: && 0 <= j < i && HoldsAt(cfg, ticks[j], s)
                        && TimedRule(cfg, s).1 <= ticks[i].now - ticks[j].now <= MAX_AGE
                        && forall m :: j < m <= i ==> !ClearAt(cfg, ticks[m], s)
  {
    hide CheckOf, Present, HoldsAt, Key, KeyFor, NamedFor, Exec, Legal, IsWalk, OrderOf;
    RunIsLegal(cfg, all, ticks, walks, s);
    var rounds, key := Rounds(cfg, ticks, walks), KeyFor(s);
    FiredHolds(cfg, all, ticks, walks, i, s);
    SeenSubject(cfg, all, ticks, walks, i, s);
    ConditionExactly(cfg, ticks[i], s);
    TimedCheck(cfg, ticks[i], s);
    SustainedSoundness(rounds, true, i, key);
    var j :| && 0 <= j < i && Held(rounds, j, key)
             && TimedRule(cfg, s).1 <= rounds[i].now - rounds[j].now <= MAX_AGE
             && Held(rounds, i, key) && forall m :: j < m <= i ==> !Clear(rounds, m, key);
    SeenSubject(cfg, all, ticks, walks, j, s);
    ConditionExactly(cfg, ticks[j], s);
    forall m | j < m <= i ensures !ClearAt(cfg, ticks[m], s) {
      SeenSubject(cfg, all, ticks, walks, m, s);
      ConditionExactly(cfg, ticks[m], s);
      if Present(cfg, ticks[m], s) {
        TimedCheck(cfg, ticks[m], s);
        assert !Clear(rounds, m, key);
      }
    }
  }

  /** No alert is raised for a subject that is absent, or whose condition does not hold. */
  lemma FiredHolds(cfg: Config, all: Instances, ticks: seq<Tick>, walks: seq<seq<Subject>>, i: nat, s: Subject)
    requires LegalRun(cfg, all, ticks, walks, s) && i < |ticks|
    requires Walks(cfg, ticks, walks) && Fires(Rounds(cfg, ticks, walks), true, i, KeyFor(s))
    ensures HoldsAt(cfg, ticks[i], s)
  {
    hide CheckOf, Present, HoldsAt, Key, KeyFor, NamedFor, Exec, Legal, IsWalk, OrderOf;
    RunIsLegal(cfg, all, ticks, walks, s);
    var rounds := Rounds(cfg, ticks, walks);
    SeenSubject(cfg, all, ticks, walks, i, s);
    FiringIsSeen(rounds, true, i, KeyFor(s));
    FiresExactly(rounds, true, i, KeyFor(s));
    ConditionExactly(cfg, ticks[i], s);
  }

  /**
   The alert of a backup, disk or datastore is raised exactly when its condition holds and
   no alert of it was raised within the cooldown, as far as that is remembered.
   */
  lemma InstantFiresExactly(cfg: Config, all: Instances, ticks: seq<Tick>, walks: seq<seq<Subject>>,
                            i: nat, s: Subject)
    requires LegalRun(cfg, all, ticks, walks, s) && IsInstant(s) && i < |ticks|
    ensures Walks(cfg, ticks, walks)
    ensures var rounds := Rounds(cfg, ticks, walks);
            Fires(rounds, true, i, KeyFor(s)) <==>
              HoldsAt(cfg, ticks[i], s) && !Silenced(rounds, true, i, KeyFor(s), RuleCooldown(cfg, s))
  {
    hide CheckOf, Present, HoldsAt, Key, KeyFor, NamedFor, Exec, Legal, IsWalk, OrderOf, Silenced, RuleCooldown;
    RunIsLegal(cfg, all, ticks, walks, s);
    var rounds := Rounds(cfg, ticks, walks);
    SeenSubject(cfg, all, ticks, walks, i, s);
    ConditionExactly(cfg, ticks[i], s);
    if Present(cfg, ticks[i], s) {
      FiresExactly(rounds, true, i, KeyFor(s));
      CheckCools(cfg, ticks[i], s);
      InstantKind(cfg, ticks[i], s);
    } else {
      Beat(rounds, true, i, KeyFor(s));
    }
  }

  lemma InstantKind(cfg: Config, t: Tick, s: Subject)
    requires Present(cfg, t, s) && IsInstant(s)
    ensures CheckOf(cfg, t, s).kind.Instant?
  {
  }

  /** The default thresholds and cooldowns, in percent and minutes. */
  lemma DefaultsExactly(t: Tick, s: Subject)
    requires Present(DEFAULT_CONFIG, t, s)
    ensures RuleCooldown(DEFAULT_CONFIG, s) == 60_000_000_000 *
            match s
            case NodeCpu(_, _) => 60
            case NodeMem(_, _) => 60
            case GuestDown(_, _) => 30
            case DatastoreOffline(_, _) => 60
            case _ => 360
    ensures HoldsAt(DEFAULT_CONFIG, t, s) <==>
            match s
            case NodeCpu(i, n) => 100.0 * t.snap.nodes[i][n].cpu >= 90.0
            case NodeMem(i, n) => Share(t.snap.nodes[i][n].memUsed, t.snap.nodes[i][n].memTotal, 90.0)
            case GuestDown(c, v) => t.snap.guests[c][v].status != "running"
            case BackupStale(i, id) =>
              t.wall(i, id) - 1_000_000_000 * t.snap.backups[i][id].backupTime > 36 * 60 * 60_000_000_000
            case DiskSmart(w) => t.snap.disks[w].health == "FAILED" || t.snap.disks[w].status & 1 == 1
            case DiskScrutiny(w) => t.snap.disks[w].status & 2 == 2 || t.snap.disks[w].status & 4 == 4
            case DatastoreFull(i, d) =>
              var ds := t.snap.datastores[i][d];
              && ds.totalBytes.Some? && ds.usedBytes.Some? && ds.totalBytes.value > 0
              && Share(ds.usedBytes.value, ds.totalBytes.value, 85.0)
            case DatastoreOffline(i, d) => t.snap.datastores[i][d].error.Some?
    ensures forall n :: Announces(n, DEFAULT_CONFIG, t, s) ==>
              n.severity == if s.GuestDown? || s.DiskSmart? || s.DatastoreOffline? then "critical" else "warning"
  {
    hide Share;
  }

  /** By default, evaluated every 30 seconds, nodes answer within 66 minutes and guests within 33. */
  lemma DefaultWindows(s: Subject)
    requires TimedRule.requires(DEFAULT_CONFIG, s)
    ensures var (c, d), gap := TimedRule(DEFAULT_CONFIG, s), 30_000_000_000;
            && Answerable(c, d, gap)
            && Window(c, d, gap) == (if s.GuestDown? then 33 else 66) * 60_000_000_000
  {
  }

  /** A rule with a duration above six hours never raises an alert, whatever the names. */
  lemma LongRuleNeverFires(cfg: Config, ticks: seq<Tick>, walks: seq<seq<Subject>>, i: nat, s: Subject, key: string)
    requires TimelyRun(cfg, ticks, walks) && i < |ticks| && Prefix(s) <= key
    requires TimedRule.requires(cfg, s) && TimedRule(cfg, s).1 > MAX_AGE
    ensures Walks(cfg, ticks, walks) && !Fires(Rounds(cfg, ticks, walks), true, i, key)
  {
    hide CheckOf, Present, Key, Exec;
    RunIsTimely(cfg, ticks, walks);
    var order := OrderOf(cfg, ticks[i], walks[i]);
    forall k | 0 <= k < |order| && order[k].key == key
      ensures order[k].kind.Sustained? && order[k].kind.duration > MAX_AGE
    {
      CheckHasKey(cfg, ticks[i], walks[i][k]);
      PrefixDecidesRule(cfg, ticks[i], walks[i][k], s);
      SamePrefixSameRule(s, walks[i][k]);
      TimedCheck(cfg, ticks[i], walks[i][k]);
    }
    NeverFiresBeyondHorizon(Rounds(cfg, ticks, walks), i, key);
  }

  /**
   An evaluation whose snapshot lacks a node or guest, or whose memory total is 0,
   does nothing for its alert beyond what `cleanup` drops.
   */
  lemma AbsentChangesNothing(cfg: Config, all: Instances, ticks: seq<Tick>, walks: seq<seq<Subject>>,
                             i: nat, s: Subject)
    requires LegalRun(cfg, all, ticks, walks, s) && i < |ticks| && !Present(cfg, ticks[i], s)
    ensures Walks(cfg, ticks, walks)
    ensures var rounds, key := Rounds(cfg, ticks, walks), KeyFor(s);
            SlotAt(rounds, true, i + 1, key) == Before(rounds, true, i, key) && !Fires(rounds, true, i, key)
  {
    hide CheckOf, Present, Key, KeyFor, Exec, NamedFor;
    RunIsLegal(cfg, all, ticks, walks, s);
    SeenSubject(cfg, all, ticks, walks, i, s);
    Beat(Rounds(cfg, ticks, walks), true, i, KeyFor(s));
  }
}
