/** The cache on the heap: shared cells updated in place, and snapshots that copy them. */
module SnapshotCache {
  import opened Wrappers
  import opened Model
  import opened CacheReplay

  /** What a pointer to an entity points at. */
  class Cell<T> {
    var value: T

    constructor (value: T)
      ensures this.value == value
    {
      this.value := value;
    }
  }

  /** A disk holds its attributes in a slice of its own, which may be nil, and which is set before the disk is filed. */
  class DiskCell {
    var info: Disk
    const attributes: array?<Attribute>

    constructor (info: Disk, attributes: array?<Attribute>)
      ensures this.info == info && this.attributes == attributes
    {
      this.info, this.attributes := info, attributes;
    }

    function Value(): Disk
      reads this, attributes
    {
      info.(attributes := if attributes == null then [] else attributes[..])
    }
  }

  function Values<K, T>(m: map<K, Cell<T>>): map<K, T>
    reads m.Values
  {
    map k | k in m :: m[k].value
  }

  ghost function CellsOf<K, T>(m: map<string, map<K, Cell<T>>>): set<object> {
    set i, k | i in m && k in m[i] :: m[i][k] as object
  }

  function NestedValues<K, T>(m: map<string, map<K, Cell<T>>>): map<string, map<K, T>>
    reads CellsOf(m)
  {
    map i | i in m :: map k | k in m[i] :: m[i][k].value
  }

  ghost function TaskCells(m: map<string, seq<Cell<Task>>>): set<object> {
    set i, k | i in m && 0 <= k < |m[i]| :: m[i][k] as object
  }

  function TaskValues(m: map<string, seq<Cell<Task>>>): map<string, seq<Task>>
    reads TaskCells(m)
  {
    map i | i in m :: seq(|m[i]|, k requires i in m && 0 <= k < |m[i]| reads TaskCells(m) => m[i][k].value)
  }

  ghost function DiskCells(m: map<string, DiskCell>): set<object> {
    set w | w in m :: m[w] as object
  }

  ghost function Slices(m: map<string, DiskCell>): set<object> {
    set w | w in m && m[w].attributes != null :: m[w].attributes as object
  }

  function DiskValues(m: map<string, DiskCell>): map<string, Disk>
    reads DiskCells(m), Slices(m)
  {
    map w | w in m :: m[w].Value()
  }

  /** The maps the cache holds, and the maps a snapshot is made of. */
  datatype Tables = Tables(
    nodes: map<string, map<string, Cell<Node>>>,
    guests: map<string, map<int, Cell<Guest>>>,
    disks: map<string, DiskCell>,
    datastores: map<string, map<string, Cell<Datastore>>>,
    backups: map<string, map<string, Cell<Backup>>>,
    tasks: map<string, seq<Cell<Task>>>,
    lastPoll: map<string, int>)
  {
    /** All the cells, and the slices of the disks. */
    ghost function Cells(): set<object> {
      CellsOf(nodes) + CellsOf(guests) + DiskCells(disks) + Slices(disks)
      + CellsOf(datastores) + CellsOf(backups) + TaskCells(tasks)
    }

    /** The contents, as values. */
    function View(): Snapshot
      reads Cells()
    {
      Snapshot(NestedValues(nodes), NestedValues(guests), DiskValues(disks), NestedValues(datastores),
               NestedValues(backups), TaskValues(tasks), lastPoll)
    }
  }

  /** The values of nested maps are those of the cells, entry by entry. */
  lemma NestedExactly<K(!new), T>(m: map<string, map<K, Cell<T>>>)
    ensures NestedValues(m).Keys == m.Keys && forall i :: i in m ==> NestedValues(m)[i].Keys == m[i].Keys
    ensures forall i, k :: i in m && k in m[i] ==> NestedValues(m)[i][k] == m[i][k].value
  {
  }

  lemma TasksExactly(m: map<string, seq<Cell<Task>>>)
    ensures TaskValues(m).Keys == m.Keys && forall i :: i in m ==> |TaskValues(m)[i]| == |m[i]|
    ensures forall i, k :: i in m && 0 <= k < |m[i]| ==> TaskValues(m)[i][k] == m[i][k].value
  {
  }

  /** A disk shows its own fields, and the attributes its slice holds. */
  lemma DisksExactly(m: map<string, DiskCell>)
    ensures DiskValues(m).Keys == m.Keys
    ensures forall w :: w in m ==>
              var d := DiskValues(m)[w];
              && d == m[w].info.(attributes := d.attributes)
              && (if m[w].attributes == null then d.attributes == [] else d.attributes == m[w].attributes[..])
  {
  }

  /** The view shows what the cells and slices hold, entry by entry. */
  lemma ViewExactly(t: Tables)
    ensures t.View().nodes == NestedValues(t.nodes) && t.View().guests == NestedValues(t.guests)
    ensures t.View().disks == DiskValues(t.disks) && t.View().datastores == NestedValues(t.datastores)
    ensures t.View().backups == NestedValues(t.backups) && t.View().tasks == TaskValues(t.tasks)
    ensures t.View().lastPoll == t.lastPoll
  {
  }

  // ---- Copies ---------------------------------------------------------------

  /** One of the inner copying loops of `Snapshot`. */
  method CopyCells<K(==), T>(m: map<K, Cell<T>>) returns (r: map<K, Cell<T>>)
    ensures r.Keys == m.Keys && forall k :: k in m ==> fresh(r[k]) && r[k].value == m[k].value
  {
    r := map[];
    var todo := m.Keys;
    while todo != {}
      invariant todo <= m.Keys && r.Keys == m.Keys - todo
      invariant forall k :: k in r ==> fresh(r[k]) && r[k].value == m[k].value
      decreases |todo|
    {
      var k :| k in todo;
      var cp := new Cell(m[k].value);
      r := r[k := cp];
      todo := todo - {k};
    }
  }

  method CopyTables<K(==, !new), T>(m: map<string, map<K, Cell<T>>>) returns (r: map<string, map<K, Cell<T>>>)
    ensures Copied(r, m) && fresh(CellsOf(r))
  {
    r := map[];
    var todo := m.Keys;
    while todo != {}
      invariant todo <= m.Keys && r.Keys == m.Keys - todo
      invariant forall i :: i in r ==> r[i].Keys == m[i].Keys
      invariant forall i, k :: i in r && k in r[i] ==> fresh(r[i][k]) && r[i][k].value == m[i][k].value
      decreases |todo|
    {
      var i :| i in todo;
      var inner := CopyCells(m[i]);
      r := r[i := inner];
      todo := todo - {i};
    }
  }

  ghost predicate CopiedDisk(cp: DiskCell, d: DiskCell)
    reads cp, cp.attributes, d, d.attributes
  {
    && cp.info == d.info && (cp.attributes == null <==> d.attributes == null)
    && (cp.attributes != null ==> cp.attributes[..] == d.attributes[..])
  }

  method CopyDisk(d: DiskCell) returns (cp: DiskCell)
    ensures fresh(cp) && CopiedDisk(cp, d)
    ensures cp.attributes != null ==> fresh(cp.attributes)
  {
    var slice: array?<Attribute> := null;
    if d.attributes != null {
      var from := d.attributes;
      slice := new Attribute[from.Length](i requires 0 <= i < from.Length reads from => from[i]);
      assert slice[..] == d.attributes[..];
    }
    cp := new DiskCell(d.info, slice);
  }

  method CopyDisks(m: map<string, DiskCell>) returns (r: map<string, DiskCell>)
    ensures CopiedDisks(r, m) && fresh(DiskCells(r)) && fresh(Slices(r))
  {
    r := map[];
    var todo := m.Keys;
    while todo != {}
      invariant todo <= m.Keys && r.Keys == m.Keys - todo
      invariant forall w :: w in r ==> fresh(r[w]) && CopiedDisk(r[w], m[w])
      invariant forall w :: w in r && r[w].attributes != null ==> fresh(r[w].attributes)
      decreases |todo|
    {
      hide CopiedDisk;
      var w :| w in todo;
      var cp := CopyDisk(m[w]);
      r := r[w := cp];
      todo := todo - {w};
    }
  }

  method CopyList(tasks: seq<Cell<Task>>) returns (list: seq<Cell<Task>>)
    ensures |list| == |tasks|
    ensures forall k :: 0 <= k < |list| ==> fresh(list[k]) && list[k].value == tasks[k].value
  {
    list := [];
    while |list| < |tasks|
      invariant |list| <= |tasks|
      invariant forall k :: 0 <= k < |list| ==> fresh(list[k]) && list[k].value == tasks[k].value
    {
      var cp := new Cell(tasks[|list|].value);
      list := list + [cp];
    }
  }

  method CopyTasks(m: map<string, seq<Cell<Task>>>) returns (r: map<string, seq<Cell<Task>>>)
    ensures CopiedTasks(r, m) && fresh(TaskCells(r))
  {
    r := map[];
    var todo := m.Keys;
    while todo != {}
      invariant todo <= m.Keys && r.Keys == m.Keys - todo
      invariant forall i :: i in r ==> |r[i]| == |m[i]|
      invariant forall i, k :: i in r && 0 <= k < |r[i]| ==> fresh(r[i][k]) && r[i][k].value == m[i][k].value
      decreases |todo|
    {
      var i :| i in todo;
      var list := CopyList(m[i]);
      r := r[i := list];
      todo := todo - {i};
    }
  }

  /** Same keys, and every copied cell holds what the original holds. */
  ghost predicate Copied<K(!new), T>(r: map<string, map<K, Cell<T>>>, m: map<string, map<K, Cell<T>>>)
    reads CellsOf(r), CellsOf(m)
  {
    && r.Keys == m.Keys && (forall i :: i in m ==> r[i].Keys == m[i].Keys)
    && (forall i, k :: i in r && k in r[i] ==> r[i][k].value == m[i][k].value)
  }

  lemma SameNested<K(!new), T>(r: map<string, map<K, Cell<T>>>, m: map<string, map<K, Cell<T>>>)
    requires Copied(r, m)
    ensures NestedValues(r) == NestedValues(m)
  {
    forall i | i in m ensures NestedValues(r)[i] == NestedValues(m)[i] {
    }
  }

  ghost predicate CopiedTasks(r: map<string, seq<Cell<Task>>>, m: map<string, seq<Cell<Task>>>)
    reads TaskCells(r), TaskCells(m)
  {
    && r.Keys == m.Keys && (forall i :: i in m ==> |r[i]| == |m[i]|)
    && (forall i, k :: i in r && 0 <= k < |r[i]| ==> r[i][k].value == m[i][k].value)
  }

  lemma SameTasks(r: map<string, seq<Cell<Task>>>, m: map<string, seq<Cell<Task>>>)
    requires CopiedTasks(r, m)
    ensures TaskValues(r) == TaskValues(m)
  {
    forall i | i in m ensures TaskValues(r)[i] == TaskValues(m)[i] {
    }
  }

  ghost predicate CopiedDisks(r: map<string, DiskCell>, m: map<string, DiskCell>)
    reads DiskCells(r), Slices(r), DiskCells(m), Slices(m)
  {
    && r.Keys == m.Keys
    && (forall w :: w in r ==> CopiedDisk(r[w], m[w]))
  }

  lemma SameDisks(r: map<string, DiskCell>, m: map<string, DiskCell>)
    requires CopiedDisks(r, m)
    ensures DiskValues(r) == DiskValues(m)
  {
  }

  method CopyHosts(nodes: map<string, map<string, Cell<Node>>>,
                   guests: map<string, map<int, Cell<Guest>>>,
                   disks: map<string, DiskCell>)
    returns (ns: map<string, map<string, Cell<Node>>>,
             gs: map<string, map<int, Cell<Guest>>>,
             ds: map<string, DiskCell>)
    ensures Copied(ns, nodes) && Copied(gs, guests) && CopiedDisks(ds, disks)
    ensures fresh(CellsOf(ns)) && fresh(CellsOf(gs)) && fresh(DiskCells(ds)) && fresh(Slices(ds))
  {
    hide CellsOf;
    ns := CopyTables(nodes);
    gs := CopyTables(guests);
    assert Copied(ns, nodes);
    ds := CopyDisks(disks);
    assert Copied(ns, nodes) && Copied(gs, guests);
  }

  method CopyVaults(datastores: map<string, map<string, Cell<Datastore>>>,
                    backups: map<string, map<string, Cell<Backup>>>,
                    tasks: map<string, seq<Cell<Task>>>)
    returns (ss: map<string, map<string, Cell<Datastore>>>,
             bs: map<string, map<string, Cell<Backup>>>,
             ts: map<string, seq<Cell<Task>>>)
    ensures Copied(ss, datastores) && Copied(bs, backups) && CopiedTasks(ts, tasks)
    ensures fresh(CellsOf(ss)) && fresh(CellsOf(bs)) && fresh(TaskCells(ts))
  {
    hide CellsOf;
    ss := CopyTables(datastores);
    bs := CopyTables(backups);
    assert Copied(ss, datastores);
    ts := CopyTasks(tasks);
    assert Copied(ss, datastores) && Copied(bs, backups);
  }

  function ListValues<T>(cells: seq<Cell<T>>): seq<T>
    reads cells
  {
    seq(|cells|, k requires 0 <= k < |cells| reads cells => cells[k].value)
  }

  lemma PutNested<K(!new), T>(m: map<string, map<K, Cell<T>>>, i: string, update: map<K, Cell<T>>)
    ensures NestedValues(m[i := update]) == NestedValues(m)[i := Values(update)]
  {
    var x, y := NestedValues(m[i := update]), NestedValues(m)[i := Values(update)];
    assert x.Keys == y.Keys;
    forall j | j in x ensures x[j] == y[j] {
    }
  }

  lemma PutTasks(m: map<string, seq<Cell<Task>>>, i: string, update: seq<Cell<Task>>)
    ensures TaskValues(m[i := update]) == TaskValues(m)[i := ListValues(update)]
  {
    var x, y := TaskValues(m[i := update]), TaskValues(m)[i := ListValues(update)];
    assert x.Keys == y.Keys;
    forall j | j in x ensures x[j] == y[j] {
      if j == i {
        assert x[j] == ListValues(update);
      }
    }
  }

  lemma JoinDisks(m: map<string, DiskCell>, update: map<string, DiskCell>)
    ensures DiskValues(m + update) == DiskValues(m) + DiskValues(update)
  {
  }

  lemma ViewSetNodes(t: Tables, i: string, update: map<string, Cell<Node>>)
    ensures t.(nodes := t.nodes[i := update]).View() == Put(t.View(), SetNodes(i, Values(update)))
  {
    hide NestedValues, DiskValues, TaskValues, Values, ListValues;
    PutNested(t.nodes, i, update);
  }

  lemma ViewSetGuests(t: Tables, i: string, update: map<int, Cell<Guest>>)
    ensures t.(guests := t.guests[i := update]).View() == Put(t.View(), SetGuests(i, Values(update)))
  {
    hide NestedValues, DiskValues, TaskValues, Values, ListValues;
    PutNested(t.guests, i, update);
  }

  lemma ViewSetDatastores(t: Tables, i: string, update: map<string, Cell<Datastore>>)
    ensures t.(datastores := t.datastores[i := update]).View() == Put(t.View(), SetDatastores(i, Values(update)))
  {
    hide NestedValues, DiskValues, TaskValues, Values, ListValues;
    PutNested(t.datastores, i, update);
  }

  lemma ViewSetBackups(t: Tables, i: string, update: map<string, Cell<Backup>>)
    ensures t.(backups := t.backups[i := update]).View() == Put(t.View(), SetBackups(i, Values(update)))
  {
    hide NestedValues, DiskValues, TaskValues, Values, ListValues;
    PutNested(t.backups, i, update);
  }

  lemma ViewSetTasks(t: Tables, i: string, update: seq<Cell<Task>>)
    ensures t.(tasks := t.tasks[i := update]).View() == Put(t.View(), SetTasks(i, ListValues(update)))
  {
    hide NestedValues, DiskValues, TaskValues, Values, ListValues;
    PutTasks(t.tasks, i, update);
  }

  lemma ViewMergeDisks(t: Tables, update: map<string, DiskCell>)
    ensures t.(disks := t.disks + update).View() == Put(t.View(), MergeDisks(DiskValues(update)))
  {
    hide NestedValues, DiskValues, TaskValues;
    JoinDisks(t.disks, update);
  }

  lemma ViewSetLastPoll(t: Tables, c: string, time: int)
    ensures t.(lastPoll := t.lastPoll[c := time]).View() == Put(t.View(), SetLastPoll(c, time))
  {
    hide NestedValues, DiskValues, TaskValues;
  }

  lemma HistoryGrows(history: seq<Write>, w: Write)
    ensures Replay(history + [w]) == Put(Replay(history), w)
  {
    assert (history + [w])[..|history|] == history;
  }

  // ---- The cache --------------------------------------------------------------

  /** No cell is filed twice, so that a write through one entry shows in that entry alone. */
  ghost predicate Apart<K(!new), T>(m: map<string, map<K, Cell<T>>>) {
    forall i, k, j, l :: i in m && k in m[i] && j in m && l in m[j] && m[i][k] == m[j][l] ==> i == j && k == l
  }

  class Cache {
    var nodes: map<string, map<string, Cell<Node>>>
    var guests: map<string, map<int, Cell<Guest>>>
    var disks: map<string, DiskCell>
    var datastores: map<string, map<string, Cell<Datastore>>>
    var backups: map<string, map<string, Cell<Backup>>>
    var tasks: map<string, seq<Cell<Task>>>
    var lastPoll: map<string, int>

    ghost var history: seq<Write>

    ghost function Held(): Tables
      reads this
    {
      Tables(nodes, guests, disks, datastores, backups, tasks, lastPoll)
    }

    ghost function Reach(): set<object>
      reads this
    {
      Held().Cells()
    }

    ghost function View(): Snapshot
      reads this, Held().Cells()
    {
      Held().View()
    }

    /** The contents are the replay of the writes made. */
    ghost predicate Valid()
      reads this, Held().Cells()
    {
      Apart(nodes) && View() == Replay(history)
    }

    /** The cache is not one of the cells it files. */
    lemma NotACell(t: Tables)
      ensures this !in t.Cells() && this !in DiskCells(t.disks)
    {
    }

    lemma NotADisk(m: map<string, DiskCell>)
      ensures this !in DiskCells(m) && this !in Slices(m)
    {
    }

    constructor ()
      ensures Valid() && history == [] && Reach() == {}
    {
      nodes, guests, disks, datastores, backups, tasks, lastPoll := map[], map[], map[], map[], map[], map[], map[];
      history := [];
    }

    method Snapshot() returns (snap: Tables)
      ensures fresh(snap.Cells()) && snap.View() == View()
    {
      hide NestedValues, TaskValues, DiskValues, CellsOf, TaskCells;
      var ns, gs, ds := CopyHosts(nodes, guests, disks);
      var ss, bs, ts := CopyVaults(datastores, backups, tasks);
      snap := Tables(ns, gs, ds, ss, bs, ts, lastPoll);
      SameNested(ns, nodes);
      SameNested(gs, guests);
      SameDisks(ds, disks);
      SameNested(ss, datastores);
      SameNested(bs, backups);
      SameTasks(ts, tasks);
    }

    /** The collectors hand over cells they have just made, so none is filed elsewhere. */
    method UpdateNodes(instance: string, update: map<string, Cell<Node>>)
      modifies this`nodes, this`history
      ensures nodes == old(nodes)[instance := update]
      ensures history == old(history) + [SetNodes(instance, Values(update))]
      ensures old(Valid()) && Apart(nodes) ==> Valid()
    {
      hide Tables.View, Tables.Cells, Values, ListValues, DiskValues, Replay, Put, Apart;
      nodes := nodes[instance := update];
      history := history + [SetNodes(instance, Values(update))];
      NotACell(old(Held()));
      HistoryGrows(old(history), SetNodes(instance, Values(update)));
      ViewSetNodes(old(Held()), instance, update);
    }

    method UpdateGuests(cluster: string, update: map<int, Cell<Guest>>)
      modifies this`guests, this`history
      ensures guests == old(guests)[cluster := update]
      ensures history == old(history) + [SetGuests(cluster, Values(update))]
      ensures old(Valid()) ==> Valid()
    {
      hide Tables.View, Tables.Cells, Values, ListValues, DiskValues, Replay, Put, Apart;
      guests := guests[cluster := update];
      history := history + [SetGuests(cluster, Values(update))];
      NotACell(old(Held()));
      HistoryGrows(old(history), SetGuests(cluster, Values(update)));
      ViewSetGuests(old(Held()), cluster, update);
    }

    method UpdateDisks(update: map<string, DiskCell>)
      modifies this`disks, this`history
      ensures disks == old(disks) + update
      ensures history == old(history) + [MergeDisks(DiskValues(update))]
      ensures old(Valid()) ==> Valid()
    {
      hide Tables.View, Tables.Cells, Values, ListValues, DiskValues, Replay, Put, Apart;
      disks := disks + update;
      history := history + [MergeDisks(DiskValues(update))];
      NotACell(old(Held()));
      NotADisk(update);
      assert DiskValues(update) == old(DiskValues(update));
      HistoryGrows(old(history), MergeDisks(DiskValues(update)));
      ViewMergeDisks(old(Held()), update);
    }

    method UpdateDatastores(instance: string, update: map<string, Cell<Datastore>>)
      modifies this`datastores, this`history
      ensures datastores == old(datastores)[instance := update]
      ensures history == old(history) + [SetDatastores(instance, Values(update))]
      ensures old(Valid()) ==> Valid()
    {
      hide Tables.View, Tables.Cells, Values, ListValues, DiskValues, Replay, Put, Apart;
      datastores := datastores[instance := update];
      history := history + [SetDatastores(instance, Values(update))];
      NotACell(old(Held()));
      HistoryGrows(old(history), SetDatastores(instance, Values(update)));
      ViewSetDatastores(old(Held()), instance, update);
    }

    method UpdateBackups(instance: string, update: map<string, Cell<Backup>>)
      modifies this`backups, this`history
      ensures backups == old(backups)[instance := update]
      ensures history == old(history) + [SetBackups(instance, Values(update))]
      ensures old(Valid()) ==> Valid()
    {
      hide Tables.View, Tables.Cells, Values, ListValues, DiskValues, Replay, Put, Apart;
      backups := backups[instance := update];
      history := history + [SetBackups(instance, Values(update))];
      NotACell(old(Held()));
      HistoryGrows(old(history), SetBackups(instance, Values(update)));
      ViewSetBackups(old(Held()), instance, update);
    }

    method UpdateTasks(instance: string, update: seq<Cell<Task>>)
      modifies this`tasks, this`history
      ensures tasks == old(tasks)[instance := update]
      ensures history == old(history) + [SetTasks(instance, ListValues(update))]
      ensures old(Valid()) ==> Valid()
    {
      hide Tables.View, Tables.Cells, Values, ListValues, DiskValues, Replay, Put, Apart;
      tasks := tasks[instance := update];
      history := history + [SetTasks(instance, ListValues(update))];
      NotACell(old(Held()));
      HistoryGrows(old(history), SetTasks(instance, ListValues(update)));
      ViewSetTasks(old(Held()), instance, update);
    }

    method SetLastPollTime(collector: string, time: int)
      modifies this`lastPoll, this`history
      ensures lastPoll == old(lastPoll)[collector := time]
      ensures history == old(history) + [SetLastPoll(collector, time)]
      ensures old(Valid()) ==> Valid()
    {
      hide Tables.View, Tables.Cells, Values, ListValues, DiskValues, Replay, Put, Apart;
      lastPoll := lastPoll[collector := time];
      history := history + [SetLastPoll(collector, time)];
      NotACell(old(Held()));
      HistoryGrows(old(history), SetLastPoll(collector, time));
      ViewSetLastPoll(old(Held()), collector, time);
    }

    /** The one write in place: through the pointer filed for the node, if there is one. */
    method UpdateNodeTemperature(instance: string, node: string, temp: real)
      modifies this`history, CellsOf(nodes)
      ensures history == old(history) + [SetTemperature(instance, node, temp)]
      ensures old(Valid()) ==> Valid()
    {
      hide Tables.View, Tables.Cells, Replay, Put;
      ghost var t := Held();
      if instance in nodes && node in nodes[instance] {
        WriteTemperature(t, instance, node, temp, nodes[instance][node]);
      } else {
        NoSuchNode(t, instance, node, temp);
      }
      label written:
      NotACell(t);
      history := history + [SetTemperature(instance, node, temp)];
      assert t.View() == old@written(t.View());
      HistoryGrows(old(history), SetTemperature(instance, node, temp));
    }
  }

  lemma NoSuchNode(t: Tables, i: string, n: string, temp: real)
    requires !(i in t.nodes && n in t.nodes[i])
    ensures Put(t.View(), SetTemperature(i, n, temp)) == t.View()
  {
  }

  /** A node's cell is none of the cells of other entities. */
  lemma NodeCellElsewhere(c: Cell<Node>, t: Tables)
    ensures c !in CellsOf(t.guests) && c !in CellsOf(t.datastores) && c !in CellsOf(t.backups)
    ensures c !in TaskCells(t.tasks) && c !in DiskCells(t.disks) && c !in Slices(t.disks)
  {
  }

  method WriteTemperature(ghost t: Tables, i: string, n: string, temp: real, cell: Cell<Node>)
    requires i in t.nodes && n in t.nodes[i] && cell == t.nodes[i][n]
    modifies cell
    ensures Apart(t.nodes) ==> t.View() == Put(old(t.View()), SetTemperature(i, n, temp))
  {
    hide NestedValues, TaskValues, DiskValues, Apart;
    NodeCellElsewhere(cell, t);
    WriteCell(t.nodes, i, n, temp, cell);
    assert NestedValues(t.guests) == old(NestedValues(t.guests));
    assert NestedValues(t.datastores) == old(NestedValues(t.datastores));
    assert NestedValues(t.backups) == old(NestedValues(t.backups));
    assert TaskValues(t.tasks) == old(TaskValues(t.tasks));
    assert DiskValues(t.disks) == old(DiskValues(t.disks));
  }

  method WriteCell(ghost m: map<string, map<string, Cell<Node>>>, i: string, n: string, temp: real, cell: Cell<Node>)
    requires i in m && n in m[i] && cell == m[i][n]
    modifies cell
    ensures Apart(m) ==> NestedValues(m) == WithTemperatureAt(old(NestedValues(m)), i, n, temp)
  {
    ghost var was := NestedValues(m);
    cell.value := cell.value.(temperature := Some(temp));
    if Apart(m) {
      TemperatureWritten(m, i, n, temp, was);
    }
  }

  ghost function WithTemperatureAt(nodes: map<string, map<string, Node>>, i: string, n: string, temp: real)
    : map<string, map<string, Node>>
  {
    if i in nodes && n in nodes[i] then nodes[i := nodes[i][n := nodes[i][n].(temperature := Some(temp))]] else nodes
  }

  /** Writing through one entry changes that entry alone, when no cell is filed twice. */
  lemma TemperatureWritten(m: map<string, map<string, Cell<Node>>>, i: string, n: string, temp: real,
                           was: map<string, map<string, Node>>)
    requires was.Keys == m.Keys && forall j :: j in m ==> was[j].Keys == m[j].Keys
    requires forall j, k :: j in m && k in m[j] && !(j == i && k == n) ==> m[j][k].value == was[j][k]
    requires i in m && n in m[i] && m[i][n].value == was[i][n].(temperature := Some(temp))
    ensures NestedValues(m) == WithTemperatureAt(was, i, n, temp)
  {
    var x: map<string, map<string, Node>> := NestedValues(m);
    var y := WithTemperatureAt(was, i, n, temp);
    forall j | j in m ensures x[j] == y[j] {
    }
  }

  // ---- Isolation ----------------------------------------------------------------

  /** What can happen to a cache, a write to the attribute slice of a cached disk included. */
  datatype Op =
    | OpNodes(instance: string, nodes: map<string, Cell<Node>>)
    | OpGuests(cluster: string, guests: map<int, Cell<Guest>>)
    | OpDisks(disks: map<string, DiskCell>)
    | OpDatastores(instance: string, datastores: map<string, Cell<Datastore>>)
    | OpBackups(instance: string, backups: map<string, Cell<Backup>>)
    | OpTasks(instance: string, tasks: seq<Cell<Task>>)
    | OpTemperature(instance: string, node: string, temp: real)
    | OpLastPoll(collector: string, time: int)
    | OpAttribute(wwn: string, index: nat, attribute: Attribute)

  /** The cells and slices of an update that later operations may write to. */
  ghost function Writable(op: Op): set<object> {
    match op
    case OpNodes(_, ns) => set n | n in ns :: ns[n] as object
    case OpDisks(ds) => Slices(ds)
    case _ => {}
  }

  ghost function AllWritable(ops: seq<Op>): set<object> {
    set k, o | 0 <= k < |ops| && o in Writable(ops[k]) :: o
  }

  method Perform(c: Cache, op: Op)
    modifies c, CellsOf(c.nodes), Slices(c.disks)
    ensures CellsOf(c.nodes) + Slices(c.disks) <= old(CellsOf(c.nodes) + Slices(c.disks) + Writable(op))
  {
    hide Tables.View, Replay, Put, NestedValues, DiskValues, TaskValues;
    match op {
      case OpNodes(i, ns) => c.UpdateNodes(i, ns);
      case OpGuests(i, gs) => c.UpdateGuests(i, gs);
      case OpDisks(ds) => c.UpdateDisks(ds);
      case OpDatastores(i, ds) => c.UpdateDatastores(i, ds);
      case OpBackups(i, bs) => c.UpdateBackups(i, bs);
      case OpTasks(i, ts) => c.UpdateTasks(i, ts);
      case OpTemperature(i, n, t) => c.UpdateNodeTemperature(i, n, t);
      case OpLastPoll(p, t) => c.SetLastPollTime(p, t);
      case OpAttribute(w, k, a) =>
        if w in c.disks && c.disks[w].attributes != null && k < c.disks[w].attributes.Length {
          c.disks[w].attributes[k] := a;
        }
    }
  }

  lemma WritableIncluded(ops: seq<Op>, i: nat)
    requires i < |ops|
    ensures Writable(ops[i]) <= AllWritable(ops)
  {
  }

  /** A snapshot shares nothing with what was there before. */
  method TakeSnapshot(c: Cache, ghost shared: set<object>) returns (snap: Tables)
    ensures fresh(snap.Cells()) && snap.View() == old(c.View())
    ensures c !in snap.Cells() && snap.Cells() !! shared
    ensures forall o :: o in snap.Cells() ==> allocated(o)
  {
    hide Tables.View;
    AllCellsAllocated(c.Held());
    hide Tables.Cells;
    snap := c.Snapshot();
    AllCellsAllocated(snap);
  }

  lemma AllCellsAllocated(t: Tables)
    ensures forall o :: o in t.Cells() ==> allocated(o)
  {
  }

  /**
   Snapshot isolation: no later sequence of operations on the cache changes anything
   that can be reached from a snapshot, which holds what the cache held when it was
   taken, in cells and slices of its own.
   */
  method SnapshotSurvives(c: Cache, ops: seq<Op>) returns (snap: Tables)
    modifies c, CellsOf(c.nodes), Slices(c.disks), AllWritable(ops)
    ensures fresh(snap.Cells()) && snap.View() == old(c.View())
  {
    hide Tables.View, Tables.Cells, Writable, AllWritable, CellsOf, Slices, Cache.View;
    ghost var shared := CellsOf(c.nodes) + Slices(c.disks) + AllWritable(ops);
    ghost var was := c.View();
    snap := TakeSnapshot(c, shared);
    var i := 0;
    while i < |ops|
      invariant 0 <= i <= |ops| && c !in snap.Cells() && snap.Cells() !! shared
      invariant snap.View() == was && forall o :: o in snap.Cells() ==> allocated(o)
      invariant CellsOf(c.nodes) + Slices(c.disks) <= shared
    {
      WritableIncluded(ops, i);
      Perform(c, ops[i]);
      i := i + 1;
    }
  }
}
