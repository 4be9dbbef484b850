/** The write history of the cache, and the snapshot it amounts to. */
module CacheReplay {
  import opened Wrappers
  import opened Model

  datatype Write =
    | SetNodes(instance: string, nodes: map<string, Node>)
    | SetGuests(cluster: string, guests: map<int, Guest>)
    | MergeDisks(disks: map<string, Disk>)
    | SetDatastores(instance: string, datastores: map<string, Datastore>)
    | SetBackups(instance: string, backups: map<string, Backup>)
    | SetTasks(instance: string, tasks: seq<Task>)
    | SetTemperature(instance: string, node: string, temp: real)
    | SetLastPoll(collector: string, time: int)

  const BLANK: Snapshot := Snapshot(map[], map[], map[], map[], map[], map[], map[])

  function Put(s: Snapshot, w: Write): Snapshot {
    match w
    case SetNodes(i, ns) => s.(nodes := s.nodes[i := ns])
    case SetGuests(c, gs) => s.(guests := s.guests[c := gs])
    case MergeDisks(ds) => s.(disks := s.disks + ds)
    case SetDatastores(i, ds) => s.(datastores := s.datastores[i := ds])
    case SetBackups(i, bs) => s.(backups := s.backups[i := bs])
    case SetTasks(i, ts) => s.(tasks := s.tasks[i := ts])
    case SetTemperature(i, n, t) =>
      if i in s.nodes && n in s.nodes[i] then
        s.(nodes := s.nodes[i := s.nodes[i][n := s.nodes[i][n].(temperature := Some(t))]])
      else s
    case SetLastPoll(c, t) => s.(lastPoll := s.lastPoll[c := t])
  }

  function Replay(ws: seq<Write>): Snapshot {
    if ws == [] then BLANK else Put(Replay(ws[..|ws| - 1]), ws[|ws| - 1])
  }

  /** Two writes that replace the same part of the cache. */
  predicate SamePart(a: Write, b: Write) {
    match a
    case SetNodes(i, _) => b.SetNodes? && b.instance == i
    case SetGuests(c, _) => b.SetGuests? && b.cluster == c
    case MergeDisks(_) => false
    case SetDatastores(i, _) => b.SetDatastores? && b.instance == i
    case SetBackups(i, _) => b.SetBackups? && b.instance == i
    case SetTasks(i, _) => b.SetTasks? && b.instance == i
    case SetTemperature(_, _, _) => false
    case SetLastPoll(c, _) => b.SetLastPoll? && b.collector == c
  }

  /** The last write of its part. */
  ghost predicate LastOfPart(ws: seq<Write>, k: nat) {
    k < |ws| && forall j :: k < j < |ws| ==> !SamePart(ws[k], ws[j])
  }

  /** The snapshot holds what `w` put. */
  ghost predicate Holds(s: Snapshot, w: Write) {
    match w
    case SetGuests(c, gs) => c in s.guests && s.guests[c] == gs
    case SetDatastores(i, ds) => i in s.datastores && s.datastores[i] == ds
    case SetBackups(i, bs) => i in s.backups && s.backups[i] == bs
    case SetTasks(i, ts) => i in s.tasks && s.tasks[i] == ts
    case SetLastPoll(c, t) => c in s.lastPoll && s.lastPoll[c] == t
    case _ => true
  }

  /** The snapshot has nothing where `w` would put something. */
  ghost predicate Lacks(s: Snapshot, w: Write) {
    match w
    case SetNodes(i, _) => i !in s.nodes
    case SetGuests(c, _) => c !in s.guests
    case MergeDisks(_) => true
    case SetDatastores(i, _) => i !in s.datastores
    case SetBackups(i, _) => i !in s.backups
    case SetTasks(i, _) => i !in s.tasks
    case SetTemperature(_, _, _) => true
    case SetLastPoll(c, _) => c !in s.lastPoll
  }

  lemma ReplayLast(ws: seq<Write>)
    requires ws != []
    ensures Replay(ws) == Put(Replay(ws[..|ws| - 1]), ws[|ws| - 1])
  {
  }

  lemma PutHolds(s: Snapshot, w: Write)
    ensures Holds(Put(s, w), w)
  {
  }

  lemma PutElsewhere(s: Snapshot, w: Write, other: Write)
    requires !SamePart(w, other)
    ensures Holds(s, w) ==> Holds(Put(s, other), w)
    ensures Lacks(s, w) ==> Lacks(Put(s, other), w)
  {
  }

  /** Guests, datastores, backups, tasks and poll times are those of the last write. */
  lemma {:induction false} LastWriteWins(ws: seq<Write>, k: nat)
    requires LastOfPart(ws, k)
    ensures Holds(Replay(ws), ws[k])
  {
    hide Put, Holds, Replay, SamePart;
    var n := |ws| - 1;
    ReplayLast(ws);
    if k < n {
      LastWriteWins(ws[..n], k);
      PutElsewhere(Replay(ws[..n]), ws[k], ws[n]);
    } else {
      PutHolds(Replay(ws[..n]), ws[n]);
    }
  }

  /** Nothing is in the cache that was not put there. */
  lemma {:induction false} NeverWritten(ws: seq<Write>, w: Write)
    requires forall j :: 0 <= j < |ws| ==> !SamePart(w, ws[j])
    ensures Lacks(Replay(ws), w)
  {
    if ws != [] {
      hide Put, Lacks, Replay, SamePart;
      var n := |ws| - 1;
      ReplayLast(ws);
      NeverWritten(ws[..n], w);
      PutElsewhere(Replay(ws[..n]), w, ws[n]);
    }
  }

  /** The last temperature written for a node after write `k`. */
  function TemperatureAfter(ws: seq<Write>, k: nat, instance: string, node: string): Option<real> {
    if |ws| <= k + 1 then None
    else
      var w := ws[|ws| - 1];
      if w.SetTemperature? && w.instance == instance && w.node == node then Some(w.temp)
      else TemperatureAfter(ws[..|ws| - 1], k, instance, node)
  }

  function WithTemperature(n: Node, t: Option<real>): Node {
    if t.Some? then n.(temperature := t) else n
  }

  lemma PutNodes(s: Snapshot, w: Write, i: string, n: string)
    requires i in s.nodes && !(w.SetNodes? && w.instance == i)
    ensures i in Put(s, w).nodes && Put(s, w).nodes[i].Keys == s.nodes[i].Keys
    ensures n in s.nodes[i] && w.SetTemperature? && w.instance == i && w.node == n ==>
              Put(s, w).nodes[i][n] == WithTemperature(s.nodes[i][n], Some(w.temp))
    ensures n in s.nodes[i] && !(w.SetTemperature? && w.instance == i && w.node == n) ==>
              Put(s, w).nodes[i][n] == s.nodes[i][n]
  {
    if w.SetTemperature? && w.instance in s.nodes && w.node in s.nodes[w.instance] {
      var ns := s.nodes[w.instance];
      var t := ns[w.node].(temperature := Some(w.temp));
      assert Put(s, w).nodes == s.nodes[w.instance := ns[w.node := t]];
    } else if w.SetNodes? {
      assert Put(s, w).nodes == s.nodes[w.instance := w.nodes];
    } else {
      assert Put(s, w).nodes == s.nodes;
    }
  }

  /**
   The nodes of an instance are those of its last update, each with the temperature
   written last since then, or else the one the update carried.
   */
  lemma {:induction false} NodesAndTemperatures(ws: seq<Write>, k: nat, node: string)
    requires LastOfPart(ws, k) && ws[k].SetNodes?
    ensures var s, i, ns := Replay(ws), ws[k].instance, ws[k].nodes;
            && i in s.nodes && s.nodes[i].Keys == ns.Keys
            && (node in ns ==> s.nodes[i][node] == WithTemperature(ns[node], TemperatureAfter(ws, k, i, node)))
  {
    var n := |ws| - 1;
    ReplayLast(ws);
    if k < n {
      hide Put, Replay;
      NodesAndTemperatures(ws[..n], k, node);
      assert !SamePart(ws[k], ws[n]);
      PutNodes(Replay(ws[..n]), ws[n], ws[k].instance, node);
    }
  }

  lemma PutDisks(s: Snapshot, w: Write)
    ensures Put(s, w).disks == if w.MergeDisks? then s.disks + w.disks else s.disks
  {
  }

  /** Each disk holds what the last update naming it brought. */
  lemma {:induction false} DisksAccumulate(ws: seq<Write>, k: nat, wwn: string)
    requires k < |ws| && ws[k].MergeDisks? && wwn in ws[k].disks
    requires forall j :: k < j < |ws| && ws[j].MergeDisks? ==> wwn !in ws[j].disks
    ensures wwn in Replay(ws).disks && Replay(ws).disks[wwn] == ws[k].disks[wwn]
  {
    hide Put, Replay;
    var n := |ws| - 1;
    ReplayLast(ws);
    PutDisks(Replay(ws[..n]), ws[n]);
    if k < n {
      DisksAccumulate(ws[..n], k, wwn);
    }
  }

  /** No disk ever disappears. */
  lemma {:induction false} DisksStay(ws: seq<Write>, k: nat)
    requires k <= |ws|
    ensures Replay(ws[..k]).disks.Keys <= Replay(ws).disks.Keys
  {
    hide Put, Replay;
    var n := |ws| - 1;
    if k <= n {
      ReplayLast(ws);
      PutDisks(Replay(ws[..n]), ws[n]);
      DisksStay(ws[..n], k);
      assert ws[..n][..k] == ws[..k];
    } else {
      assert ws[..k] == ws;
    }
  }
}
