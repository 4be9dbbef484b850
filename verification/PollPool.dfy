/**
 Node polls sharing one counting semaphore, as a transition system over every
 interleaving. A poll submits one worker per node, waits for its WaitGroup and then
 publishes; the workers merge their results under the poll's mutex, so each merge is
 one step.
 */
module PollPool {
  import opened Wrappers
  import opened Model
  import opened Overlays

  /** What the server answers for one node; a missing answer is an error. */
  datatype Reply = Reply(
    name: string,
    status: Option<Node>,
    lxc: Option<seq<Guest>>,
    qemu: Option<seq<Guest>>,
    disks: Option<seq<Disk>>)

  datatype Plan = Plan(replies: seq<Reply>, pollDisks: bool)

  /** Where a worker is. `Finished` is after `wg.Done`, with the slot still held. */
  datatype Phase = Idle | Started | NodeMerged | GuestsMerged | Returning | Finished | Released

  datatype Pc = Looping | Submitting | Waiting | Publishing(k: nat) | Returned(ok: bool)

  datatype Write =
    | WroteNodes(nodes: map<string, Node>)
    | WroteGuests(guests: map<int, Guest>)
    | WroteDisks(disks: map<string, Disk>)
    | WrotePollTime

  /**
   `written` is what the poll has put into the cache, in order. The three orders list the
   workers with an answer as they passed their three merges.
   */
  datatype Poll = Poll(
    plan: Plan,
    pc: Pc,
    next: nat,
    cancelled: bool,
    wg: int,
    phases: seq<Phase>,
    nodeMap: map<string, Node>,
    guestMap: map<int, Guest>,
    diskList: seq<Disk>,
    written: seq<Write>,
    diskPollStamped: bool,
    nodeOrder: seq<nat>,
    guestOrder: seq<nat>,
    diskOrder: seq<nat>)

  datatype Pool = Pool(held: nat, polls: seq<Poll>)

  datatype Action =
    | Enter | Acquire | Refuse | Cancel | Leave | Await | Publish
    | Work(job: nat) | Finish(job: nat) | Release(job: nat)

  datatype Event = Event(poll: nat, action: Action)

  function OrEmpty<T>(xs: Option<seq<T>>): seq<T> {
    if xs.Some? then xs.value else []
  }

  /** `collectGuests`: a failing guest type is skipped, never an error. */
  function GuestsOf(r: Reply): seq<Guest> {
    OrEmpty(r.lxc) + OrEmpty(r.qemu)
  }

  /** The disks of a node, when they are due. */
  function DisksOf(plan: Plan, j: nat): seq<Disk>
    requires j < |plan.replies|
  {
    if plan.pollDisks then OrEmpty(plan.replies[j].disks) else []
  }

  function MergeGuests(m: map<int, Guest>, guests: seq<Guest>): map<int, Guest> {
    if guests == [] then m
    else
      var g := guests[|guests| - 1];
      MergeGuests(m, guests[..|guests| - 1])[g.vmid := g]
  }

  function DiskMap(disks: seq<Disk>): map<string, Disk> {
    if disks == [] then map[]
    else
      var d := disks[|disks| - 1];
      DiskMap(disks[..|disks| - 1])[d.wwn := d]
  }

  /** What a poll writes once every worker is done. */
  function Writes(p: Poll): seq<Write> {
    [WroteNodes(p.nodeMap), WroteGuests(p.guestMap)]
    + (if p.plan.pollDisks then [WroteDisks(DiskMap(p.diskList))] else [])
    + [WrotePollTime]
  }

  function WorkStep(p: Poll, j: nat): Option<Poll>
    requires j < |p.phases| == |p.plan.replies|
  {
    var r := p.plan.replies[j];
    match p.phases[j]
    case Started =>
      if r.status.None? then Some(p.(phases := p.phases[j := Returning]))
      else
        Some(p.(phases := p.phases[j := NodeMerged], nodeMap := p.nodeMap[r.name := r.status.value],
                nodeOrder := p.nodeOrder + [j]))
    case NodeMerged =>
      Some(p.(phases := p.phases[j := GuestsMerged], guestMap := MergeGuests(p.guestMap, GuestsOf(r)),
              guestOrder := p.guestOrder + [j]))
    case GuestsMerged =>
      Some(p.(phases := p.phases[j := Returning], diskList := p.diskList + DisksOf(p.plan, j),
              diskOrder := p.diskOrder + [j]))
    case _ => None
  }

  /** One action of a poll or of one of its workers; None when it is not enabled. */
  function Act(p: Poll, a: Action, free: bool): Option<Poll>
    requires |p.phases| == |p.plan.replies|
  {
    match a
    case Enter =>
      if p.pc.Looping? && p.next < |p.phases| then Some(p.(pc := Submitting, wg := p.wg + 1)) else None
    case Acquire =>
      if p.pc.Submitting? && free && p.next < |p.phases| then
        Some(p.(pc := Looping, next := p.next + 1, phases := p.phases[p.next := Started]))
      else None
    case Refuse =>
      if p.pc.Submitting? && p.cancelled then Some(p.(pc := Returned(false), wg := p.wg - 1)) else None
    case Cancel =>
      if p.cancelled then None else Some(p.(cancelled := true))
    case Leave =>
      if p.pc.Looping? && p.next == |p.phases| then Some(p.(pc := Waiting)) else None
    case Await =>
      if p.pc.Waiting? && p.wg == 0 then Some(p.(pc := Publishing(0))) else None
    case Publish =>
      if p.pc.Publishing? && p.pc.k < |Writes(p)| then
        var w := Writes(p)[p.pc.k];
        Some(p.(pc := if p.pc.k + 1 == |Writes(p)| then Returned(true) else Publishing(p.pc.k + 1),
                written := p.written + [w],
                diskPollStamped := p.diskPollStamped || w.WroteDisks?))
      else None
    case Work(j) =>
      if j < |p.phases| then WorkStep(p, j) else None
    case Finish(j) =>
      if j < |p.phases| && p.phases[j].Returning? then
        Some(p.(phases := p.phases[j := Finished], wg := p.wg - 1))
      else None
    case Release(j) =>
      if j < |p.phases| && p.phases[j].Finished? then Some(p.(phases := p.phases[j := Released])) else None
  }

  predicate Shaped(s: Pool) {
    forall i :: 0 <= i < |s.polls| ==> |s.polls[i].phases| == |s.polls[i].plan.replies|
  }

  function Step(capacity: nat, s: Pool, e: Event): Option<Pool>
    requires Shaped(s)
  {
    if e.poll >= |s.polls| then None
    else
      var q := Act(s.polls[e.poll], e.action, s.held < capacity);
      if q.None? then None
      else
        var held := if e.action.Acquire? then s.held + 1 else if e.action.Release? then s.held - 1 else s.held;
        if held < 0 then None else Some(Pool(held, s.polls[e.poll := q.value]))
  }

  function Begin(plan: Plan): Poll {
    Poll(plan, Looping, 0, false, 0, seq(|plan.replies|, i => Idle), map[], map[], [], [], false, [], [], [])
  }

  function Init(plans: seq<Plan>): (s: Pool)
    ensures Shaped(s)
  {
    Pool(0, seq(|plans|, i requires 0 <= i < |plans| => Begin(plans[i])))
  }

  // ---- Sums ---------------------------------------------------------------

  function Sum<T>(xs: seq<T>, f: T -> nat): nat {
    if xs == [] then 0 else Sum(xs[..|xs| - 1], f) + f(xs[|xs| - 1])
  }

  lemma {:induction false} SumUpdate<T>(xs: seq<T>, f: T -> nat, i: nat, x: T)
    requires i < |xs|
    ensures Sum(xs[i := x], f) + f(xs[i]) == Sum(xs, f) + f(x)
  {
    var n := |xs| - 1;
    var ys := xs[i := x];
    if i == n {
      assert ys[..n] == xs[..n];
    } else {
      SumUpdate(xs[..n], f, i, x);
      assert ys[..n] == xs[..n][i := x];
    }
  }

  lemma {:induction false} SumPositive<T>(xs: seq<T>, f: T -> nat) returns (i: nat)
    requires Sum(xs, f) > 0
    ensures i < |xs| && f(xs[i]) > 0
  {
    if f(xs[|xs| - 1]) > 0 {
      i := |xs| - 1;
    } else {
      i := SumPositive(xs[..|xs| - 1], f);
    }
  }

  lemma {:induction false} SumZero<T>(xs: seq<T>, f: T -> nat, i: nat)
    requires i < |xs| && Sum(xs, f) == 0
    ensures f(xs[i]) == 0
  {
    if i < |xs| - 1 {
      SumZero(xs[..|xs| - 1], f, i);
    }
  }

  function Rank(ph: Phase): nat {
    match ph
    case Idle => 0
    case Started => 1
    case NodeMerged => 2
    case GuestsMerged => 3
    case Returning => 4
    case Finished => 5
    case Released => 6
  }

  /** 1 for a worker that occupies a slot. */
  function Busy(ph: Phase): nat {
    if 1 <= Rank(ph) <= 5 then 1 else 0
  }

  /** 1 for a worker that the WaitGroup still counts. */
  function Unfinished(ph: Phase): nat {
    if 1 <= Rank(ph) <= 4 then 1 else 0
  }

  function Left(ph: Phase): nat {
    6 - Rank(ph)
  }

  function BusyWorkers(p: Poll): nat {
    Sum(p.phases, Busy)
  }

  // ---- Invariant ------------------------------------------------------------

  /** The poll is past the point where every worker has called `wg.Done`. */
  predicate Joined(p: Poll) {
    p.pc.Publishing? || p.pc == Returned(true)
  }

  ghost predicate Counted(p: Poll) {
    && |p.phases| == |p.plan.replies|
    && p.next <= |p.phases|
    && (forall j :: 0 <= j < |p.phases| ==> (j < p.next <==> p.phases[j] != Idle))
    && (p.pc.Submitting? ==> p.next < |p.phases|)
    && (p.pc.Waiting? || Joined(p) ==> p.next == |p.phases|)
    && p.wg == Sum(p.phases, Unfinished) + (if p.pc.Submitting? then 1 else 0)
    && (Joined(p) ==> forall j :: 0 <= j < |p.phases| ==> Rank(p.phases[j]) >= 5)
    && (forall j :: 0 <= j < |p.phases| && (p.phases[j].NodeMerged? || p.phases[j].GuestsMerged?) ==>
          p.plan.replies[j].status.Some?)
  }

  /** Nothing is written before the workers are joined, and then the writes go out in order. */
  ghost predicate WritesInOrder(p: Poll) {
    && (p.pc.Publishing? ==> p.pc.k < |Writes(p)| && p.written == Writes(p)[..p.pc.k])
    && (p.pc == Returned(true) ==> p.written == Writes(p))
    && (!Joined(p) ==> p.written == [])
    && (p.diskPollStamped <==> exists i :: 0 <= i < |p.written| && p.written[i].WroteDisks?)
  }

  // ---- What the answers put into the results ----------------------------------

  function NodePart(r: Reply): map<string, Node> {
    if r.status.Some? then map[r.name := r.status.value] else map[]
  }

  /** A node's guests by VMID, the last one listed for each. */
  function GuestPart(r: Reply): map<int, Guest> {
    if r.status.Some? then MergeGuests(map[], GuestsOf(r)) else map[]
  }

  function DiskPart(plan: Plan, j: nat): map<string, Disk>
    requires j < |plan.replies|
  {
    if plan.replies[j].status.Some? then DiskMap(DisksOf(plan, j)) else map[]
  }

  function NodeParts(plan: Plan): (parts: seq<map<string, Node>>)
    ensures |parts| == |plan.replies| && forall j :: 0 <= j < |parts| ==> parts[j] == NodePart(plan.replies[j])
  {
    seq(|plan.replies|, j requires 0 <= j < |plan.replies| => NodePart(plan.replies[j]))
  }

  function GuestParts(plan: Plan): (parts: seq<map<int, Guest>>)
    ensures |parts| == |plan.replies| && forall j :: 0 <= j < |parts| ==> parts[j] == GuestPart(plan.replies[j])
  {
    seq(|plan.replies|, j requires 0 <= j < |plan.replies| => GuestPart(plan.replies[j]))
  }

  function DiskParts(plan: Plan): (parts: seq<map<string, Disk>>)
    ensures |parts| == |plan.replies| && forall j :: 0 <= j < |parts| ==> parts[j] == DiskPart(plan, j)
  {
    seq(|plan.replies|, j requires 0 <= j < |plan.replies| => DiskPart(plan, j))
  }

  function DisksInOrder(plan: Plan, order: seq<nat>): seq<Disk> {
    if order == [] then []
    else
      var j := order[|order| - 1];
      DisksInOrder(plan, order[..|order| - 1]) + if j < |plan.replies| then DisksOf(plan, j) else []
  }

  /** The order lists the workers with an answer that are past a phase, each once. */
  ghost predicate HasPassed(plan: Plan, phases: seq<Phase>, order: seq<nat>, rank: nat)
    requires |phases| == |plan.replies|
  {
    && (forall j: nat :: j in order <==> j < |phases| && plan.replies[j].status.Some? && Rank(phases[j]) >= rank)
    && (forall i, k :: 0 <= i < k < |order| ==> order[i] != order[k])
  }

  /** The merged results are those of the workers that have merged, laid over each other in the order of the merges. */
  ghost predicate Merged(p: Poll)
    requires |p.phases| == |p.plan.replies|
  {
    && HasPassed(p.plan, p.phases, p.nodeOrder, 2) && p.nodeMap == Overlay(NodeParts(p.plan), p.nodeOrder)
    && HasPassed(p.plan, p.phases, p.guestOrder, 3) && p.guestMap == Overlay(GuestParts(p.plan), p.guestOrder)
    && HasPassed(p.plan, p.phases, p.diskOrder, 4) && p.diskList == DisksInOrder(p.plan, p.diskOrder)
  }

  ghost predicate PollInv(p: Poll) {
    && |p.phases| == |p.plan.replies|
    && Counted(p) && WritesInOrder(p) && Merged(p)
  }

  ghost predicate Inv(capacity: nat, s: Pool) {
    && (forall i :: 0 <= i < |s.polls| ==> PollInv(s.polls[i]))
    && s.held == Sum(s.polls, BusyWorkers)
    && s.held <= capacity
  }

  lemma {:induction false} MergeGuestsOver(m: map<int, Guest>, guests: seq<Guest>)
    ensures MergeGuests(m, guests) == m + MergeGuests(map[], guests)
  {
    if guests != [] {
      MergeGuestsOver(m, guests[..|guests| - 1]);
    }
  }

  lemma {:induction false} DiskMapConcat(a: seq<Disk>, b: seq<Disk>)
    ensures DiskMap(a + b) == DiskMap(a) + DiskMap(b)
  {
    if b == [] {
      assert a + b == a;
    } else {
      assert (a + b)[..|a + b| - 1] == a + b[..|b| - 1];
      DiskMapConcat(a, b[..|b| - 1]);
    }
  }

  // ---- Every action keeps the invariant -------------------------------------

  lemma CountedAcquire(p: Poll)
    requires Counted(p) && Act(p, Acquire, true).Some?
    ensures Counted(Act(p, Acquire, true).value)
  {
    SumUpdate(p.phases, Unfinished, p.next, Started);
  }

  lemma CountedAwait(p: Poll)
    requires Counted(p) && Act(p, Await, true).Some?
    ensures Counted(Act(p, Await, true).value)
  {
    forall j | 0 <= j < |p.phases| ensures Rank(p.phases[j]) >= 5 {
      SumZero(p.phases, Unfinished, j);
    }
  }

  lemma CountedMove(p: Poll, j: nat, ph: Phase)
    requires Counted(p) && j < |p.phases| && 1 <= Rank(p.phases[j]) < Rank(ph)
    requires ph.NodeMerged? || ph.GuestsMerged? ==> p.plan.replies[j].status.Some?
    ensures Counted(p.(phases := p.phases[j := ph], wg := p.wg - Unfinished(p.phases[j]) + Unfinished(ph)))
  {
    SumUpdate(p.phases, Unfinished, j, ph);
  }

  lemma CountedMerge(p: Poll, q: Poll)
    requires Counted(p) && q.plan == p.plan && q.phases == p.phases && q.next == p.next && q.wg == p.wg && q.pc == p.pc
    ensures Counted(q)
  {
  }

  lemma CountedFacts(p: Poll, j: nat)
    requires Counted(p) && j < |p.phases|
    ensures p.phases[j].NodeMerged? || p.phases[j].GuestsMerged? ==> p.plan.replies[j].status.Some?
    ensures |p.phases| == |p.plan.replies|
  {
  }

  lemma CountedWork(p: Poll, j: nat)
    requires Counted(p) && |p.phases| == |p.plan.replies| && j < |p.phases| && WorkStep(p, j).Some?
    ensures Counted(WorkStep(p, j).value)
  {
    hide Counted, MergeGuests, GuestsOf, DisksOf;
    var q := WorkStep(p, j).value;
    CountedFacts(p, j);
    CountedMove(p, j, q.phases[j]);
    CountedMerge(p.(phases := q.phases, wg := p.wg), q);
  }

  lemma CountedEnd(p: Poll, j: nat, ph: Phase)
    requires Counted(p) && j < |p.phases| && p.phases[j] in [Returning, Finished]
    requires ph == if p.phases[j].Returning? then Finished else Released
    ensures Counted(p.(phases := p.phases[j := ph], wg := if ph.Finished? then p.wg - 1 else p.wg))
  {
    hide Counted;
    CountedMove(p, j, ph);
  }

  lemma CountedWorker(p: Poll, a: Action, free: bool)
    requires Counted(p) && |p.phases| == |p.plan.replies| && Act(p, a, free).Some?
    requires (a.Work? || a.Finish? || a.Release?)
    ensures Counted(Act(p, a, free).value)
  {
    hide Counted, Writes, WorkStep;
    match a {
      case Work(j) => CountedWork(p, j);
      case Finish(j) => CountedEnd(p, j, Finished);
      case Release(j) => CountedEnd(p, j, Released);
      case _ =>
    }
  }

  lemma CountedStep(p: Poll, a: Action, free: bool)
    requires Counted(p) && |p.phases| == |p.plan.replies| && Act(p, a, free).Some?
    ensures Counted(Act(p, a, free).value)
  {
    hide WorkStep;
    match a {
      case Acquire => CountedAcquire(p);
      case Await => CountedAwait(p);
      case Work(_) => CountedWorker(p, a, free);
      case Finish(_) => CountedWorker(p, a, free);
      case Release(_) => CountedWorker(p, a, free);
      case _ =>
    }
  }

  lemma WritesPublish(p: Poll)
    requires Counted(p) && WritesInOrder(p) && Act(p, Publish, true).Some?
    ensures WritesInOrder(Act(p, Publish, true).value)
  {
    hide Writes;
    var q := Act(p, Publish, true).value;
    var k, all := p.pc.k, Writes(p);
    SameWrites(p, q);
    assert all[..k + 1] == all[..k] + [all[k]] && (k + 1 == |all| ==> all[..k + 1] == all);
    assert forall i :: 0 <= i < k ==> q.written[i] == p.written[i];
    assert q.written[k] == all[k];
  }

  /** Once the workers are joined nothing merges any more. */
  lemma WritesElse(p: Poll, a: Action, free: bool)
    requires Counted(p) && WritesInOrder(p) && Act(p, a, free).Some? && !a.Publish?
    ensures WritesInOrder(Act(p, a, free).value)
  {
    hide Writes, MergeGuests, GuestsOf;
    var q := Act(p, a, free).value;
    assert q.written == p.written && q.diskPollStamped == p.diskPollStamped;
    if Joined(p) {
      assert p.next == |p.phases|;
      assert !a.Work?;
      assert q.pc == p.pc;
      SameWrites(p, q);
    } else {
      assert Joined(q) ==> q.pc == Publishing(0);
      FirstWrite(q);
    }
  }

  lemma SameWrites(p: Poll, q: Poll)
    requires q.plan == p.plan && q.nodeMap == p.nodeMap && q.guestMap == p.guestMap && q.diskList == p.diskList
    ensures Writes(p) == Writes(q)
  {
  }

  lemma FirstWrite(p: Poll)
    ensures |Writes(p)| > 0 && Writes(p)[..0] == []
  {
  }

  lemma PassedStays(plan: Plan, before: seq<Phase>, after: seq<Phase>, order: seq<nat>, rank: nat)
    requires |before| == |after| == |plan.replies| && HasPassed(plan, before, order, rank)
    requires forall j :: 0 <= j < |before| && plan.replies[j].status.Some? ==>
               (Rank(before[j]) >= rank <==> Rank(after[j]) >= rank)
    ensures HasPassed(plan, after, order, rank)
  {
  }

  lemma PassedAdds(plan: Plan, before: seq<Phase>, order: seq<nat>, rank: nat, j: nat, ph: Phase)
    requires |before| == |plan.replies| && HasPassed(plan, before, order, rank)
    requires j < |before| && plan.replies[j].status.Some? && Rank(before[j]) < rank <= Rank(ph)
    ensures HasPassed(plan, before[j := ph], order + [j], rank)
  {
    var after, longer := before[j := ph], order + [j];
    assert j !in order;
    assert forall i :: i in longer <==> i in order || i == j;
  }

  /** The three merges: each lays what its worker gives over one of the results. */
  lemma NodeMerge(p: Poll, j: nat)
    requires |p.phases| == |p.plan.replies| && Merged(p) && j < |p.phases|
    requires p.phases[j].Started? && p.plan.replies[j].status.Some?
    ensures Merged(WorkStep(p, j).value)
  {
    hide HasPassed, Overlay, DisksInOrder, NodeParts, GuestParts;
    var q := WorkStep(p, j).value;
    PassedAdds(p.plan, p.phases, p.nodeOrder, 2, j, NodeMerged);
    PassedStays(p.plan, p.phases, q.phases, p.guestOrder, 3);
    PassedStays(p.plan, p.phases, q.phases, p.diskOrder, 4);
    OverlayAppend(NodeParts(p.plan), p.nodeOrder, j);
    assert q.nodeMap == p.nodeMap + NodePart(p.plan.replies[j]);
  }

  lemma GuestMerge(p: Poll, j: nat)
    requires |p.phases| == |p.plan.replies| && Merged(p) && j < |p.phases|
    requires p.phases[j].NodeMerged? && p.plan.replies[j].status.Some?
    ensures Merged(WorkStep(p, j).value)
  {
    hide HasPassed, Overlay, DisksInOrder, NodeParts, GuestParts, MergeGuests, GuestsOf;
    var q := WorkStep(p, j).value;
    PassedStays(p.plan, p.phases, q.phases, p.nodeOrder, 2);
    PassedAdds(p.plan, p.phases, p.guestOrder, 3, j, GuestsMerged);
    PassedStays(p.plan, p.phases, q.phases, p.diskOrder, 4);
    OverlayAppend(GuestParts(p.plan), p.guestOrder, j);
    MergeGuestsOver(p.guestMap, GuestsOf(p.plan.replies[j]));
  }

  lemma DiskMerge(p: Poll, j: nat)
    requires |p.phases| == |p.plan.replies| && Merged(p) && j < |p.phases|
    requires p.phases[j].GuestsMerged? && p.plan.replies[j].status.Some?
    ensures Merged(WorkStep(p, j).value)
  {
    hide HasPassed, Overlay, NodeParts, GuestParts, DisksOf;
    var q := WorkStep(p, j).value;
    PassedStays(p.plan, p.phases, q.phases, p.nodeOrder, 2);
    PassedStays(p.plan, p.phases, q.phases, p.guestOrder, 3);
    PassedAdds(p.plan, p.phases, p.diskOrder, 4, j, Returning);
    assert (p.diskOrder + [j])[..|p.diskOrder|] == p.diskOrder;
  }

  /** The worker results merged so far stand as they did. */
  ghost predicate SameGiven(p: Poll, q: Poll)
    requires |p.phases| == |p.plan.replies|
  {
    && q.plan == p.plan && |q.phases| == |p.phases|
    && q.nodeMap == p.nodeMap && q.guestMap == p.guestMap && q.diskList == p.diskList
    && q.nodeOrder == p.nodeOrder && q.guestOrder == p.guestOrder && q.diskOrder == p.diskOrder
    && forall j :: 0 <= j < |p.phases| && p.plan.replies[j].status.Some? ==>
         && (Rank(p.phases[j]) >= 2 <==> Rank(q.phases[j]) >= 2)
         && (Rank(p.phases[j]) >= 3 <==> Rank(q.phases[j]) >= 3)
         && (Rank(p.phases[j]) >= 4 <==> Rank(q.phases[j]) >= 4)
  }

  /** A step that merges nothing. */
  lemma QuietStep(p: Poll, a: Action, free: bool)
    requires Counted(p) && |p.phases| == |p.plan.replies| && Act(p, a, free).Some?
    requires a.Work? ==> p.phases[a.job].Started? && p.plan.replies[a.job].status.None?
    ensures SameGiven(p, Act(p, a, free).value)
  {
    hide Writes, MergeGuests, GuestsOf;
  }

  lemma MergedStays(p: Poll, q: Poll)
    requires |p.phases| == |p.plan.replies| && Merged(p) && SameGiven(p, q)
    ensures Merged(q)
  {
    hide HasPassed, Overlay, DisksInOrder;
    PassedStays(p.plan, p.phases, q.phases, p.nodeOrder, 2);
    PassedStays(p.plan, p.phases, q.phases, p.guestOrder, 3);
    PassedStays(p.plan, p.phases, q.phases, p.diskOrder, 4);
  }

  lemma MergedStep(p: Poll, a: Action, free: bool)
    requires Counted(p) && |p.phases| == |p.plan.replies| && Merged(p) && Act(p, a, free).Some?
    ensures Act(p, a, free).value.plan == p.plan
    ensures |Act(p, a, free).value.phases| == |p.phases| && Merged(Act(p, a, free).value)
  {
    hide Merged, Writes, MergeGuests, GuestsOf;
    if a.Work? && !(p.phases[a.job].Started? && p.plan.replies[a.job].status.None?) {
      match p.phases[a.job] {
        case Started => NodeMerge(p, a.job);
        case NodeMerged => GuestMerge(p, a.job);
        case GuestsMerged => DiskMerge(p, a.job);
        case _ => assert false;
      }
    } else {
      QuietStep(p, a, free);
      MergedStays(p, Act(p, a, free).value);
    }
  }

  lemma PollStep(p: Poll, a: Action, free: bool)
    requires PollInv(p) && Act(p, a, free).Some?
    ensures PollInv(Act(p, a, free).value) && Act(p, a, free).value.plan == p.plan
  {
    hide Act, Counted, WritesInOrder;
    assert |p.phases| == |p.plan.replies|;
    CountedStep(p, a, free);
    MergedStep(p, a, free);
    if a.Publish? {
      PublishIgnoresSlots(p, free);
      WritesPublish(p);
    } else {
      WritesElse(p, a, free);
    }
  }

  lemma PublishIgnoresSlots(p: Poll, free: bool)
    requires |p.phases| == |p.plan.replies|
    ensures Act(p, Publish, free) == Act(p, Publish, true)
  {
  }

  // ---- The pool -----------------------------------------------------------

  lemma BusyMove(p: Poll, j: nat, ph: Phase)
    requires j < |p.phases|
    ensures Sum(p.phases[j := ph], Busy) == Sum(p.phases, Busy) - Busy(p.phases[j]) + Busy(ph)
    ensures Sum(p.phases[j := ph], Left) == Sum(p.phases, Left) - Left(p.phases[j]) + Left(ph)
  {
    SumUpdate(p.phases, Busy, j, ph);
    SumUpdate(p.phases, Left, j, ph);
  }

  /** How a worker's own step moves it. */
  lemma WorkerStep(p: Poll, a: Action, free: bool)
    requires |p.phases| == |p.plan.replies| && Act(p, a, free).Some? && (a.Work? || a.Finish? || a.Release?)
    ensures var q := Act(p, a, free).value;
            && a.job < |p.phases| && q.phases == p.phases[a.job := q.phases[a.job]]
            && 1 <= Rank(p.phases[a.job]) < Rank(q.phases[a.job]) && (a.Release? <==> q.phases[a.job].Released?)
            && q.pc == p.pc && q.next == p.next && q.cancelled == p.cancelled
  {
    hide Writes, MergeGuests, GuestsOf;
  }

  /** How the poll's own steps move it. */
  lemma ControlStep(p: Poll, a: Action, free: bool)
    requires Counted(p) && WritesInOrder(p) && Act(p, a, free).Some? && !a.Work? && !a.Finish? && !a.Release?
    ensures var q := Act(p, a, free).value;
            && PcLeft(q) + (if q.cancelled then 0 else 1) < PcLeft(p) + (if p.cancelled then 0 else 1)
            && if a.Acquire? then
                 p.next < |p.phases| && p.phases[p.next].Idle? && q.phases == p.phases[p.next := Started]
               else q.phases == p.phases
  {
    hide MergeGuests, GuestsOf;
  }

  lemma BusyStep(p: Poll, a: Action, free: bool)
    requires Counted(p) && WritesInOrder(p) && Act(p, a, free).Some?
    ensures BusyWorkers(Act(p, a, free).value)
            == BusyWorkers(p) + (if a.Acquire? then 1 else 0) - (if a.Release? then 1 else 0)
  {
    hide Act;
    var q := Act(p, a, free).value;
    if a.Work? || a.Finish? || a.Release? {
      WorkerStep(p, a, free);
      BusyMove(p, a.job, q.phases[a.job]);
    } else {
      ControlStep(p, a, free);
      if a.Acquire? {
        BusyMove(p, p.next, Started);
      }
    }
  }

  lemma InvShaped(capacity: nat, s: Pool)
    requires Inv(capacity, s)
    ensures Shaped(s)
  {
    forall i | 0 <= i < |s.polls| ensures |s.polls[i].phases| == |s.polls[i].plan.replies| {
      assert PollInv(s.polls[i]);
    }
  }

  lemma StepKeepsInv(capacity: nat, s: Pool, e: Event)
    requires Inv(capacity, s) && Shaped(s) && Step(capacity, s, e).Some?
    ensures Inv(capacity, Step(capacity, s, e).value) && Shaped(Step(capacity, s, e).value)
  {
    hide Act, PollInv, Counted;
    var p := s.polls[e.poll];
    assert PollInv(p);
    var t := Step(capacity, s, e).value;
    var free := s.held < capacity;
    PollStep(p, e.action, free);
    InvCounted(p);
    BusyStep(p, e.action, free);
    SumUpdate(s.polls, BusyWorkers, e.poll, t.polls[e.poll]);
    if e.action.Acquire? {
      AcquireNeedsRoom(p, e.action, free);
    }
    InvShaped(capacity, t);
  }

  lemma InvCounted(p: Poll)
    requires PollInv(p)
    ensures Counted(p) && WritesInOrder(p)
  {
  }

  lemma AcquireNeedsRoom(p: Poll, a: Action, free: bool)
    requires |p.phases| == |p.plan.replies| && Act(p, a, free).Some? && a.Acquire?
    ensures free
  {
  }

  /** The pool after a list of events, if each was enabled when it came. */
  function Exec(capacity: nat, s: Pool, events: seq<Event>): (t: Option<Pool>)
    requires Shaped(s)
    ensures t.Some? ==> Shaped(t.value)
  {
    if events == [] then Some(s)
    else
      var before := Exec(capacity, s, events[..|events| - 1]);
      if before.None? then None
      else
        var after := Step(capacity, before.value, events[|events| - 1]);
        if after.Some? && Shaped(after.value) then after else None
  }

  ghost predicate Reachable(capacity: nat, plans: seq<Plan>, s: Pool) {
    exists events :: Exec(capacity, Init(plans), events) == Some(s)
  }

  lemma {:induction false} SumOfZeros<T>(xs: seq<T>, f: T -> nat)
    requires forall i :: 0 <= i < |xs| ==> f(xs[i]) == 0
    ensures Sum(xs, f) == 0
  {
    if xs != [] {
      SumOfZeros(xs[..|xs| - 1], f);
    }
  }

  lemma BeginInv(plan: Plan)
    ensures PollInv(Begin(plan)) && BusyWorkers(Begin(plan)) == 0
  {
    SumOfZeros(Begin(plan).phases, Unfinished);
    SumOfZeros(Begin(plan).phases, Busy);
  }

  lemma InitInv(capacity: nat, plans: seq<Plan>)
    ensures Inv(capacity, Init(plans))
  {
    hide Begin, PollInv;
    var s := Init(plans);
    forall i | 0 <= i < |plans| ensures PollInv(s.polls[i]) && BusyWorkers(s.polls[i]) == 0 {
      BeginInv(plans[i]);
    }
    SumOfZeros(s.polls, BusyWorkers);
  }

  lemma StepKeepsPlans(capacity: nat, s: Pool, e: Event)
    requires Inv(capacity, s) && Shaped(s) && Step(capacity, s, e).Some?
    ensures var t := Step(capacity, s, e).value;
            |t.polls| == |s.polls| && forall i :: 0 <= i < |s.polls| ==> t.polls[i].plan == s.polls[i].plan
  {
    hide Act, PollInv;
    assert PollInv(s.polls[e.poll]);
    PollStep(s.polls[e.poll], e.action, s.held < capacity);
  }

  lemma {:induction false} ExecKeeps(capacity: nat, plans: seq<Plan>, events: seq<Event>)
    requires Exec(capacity, Init(plans), events).Some?
    ensures var s := Exec(capacity, Init(plans), events).value;
            && Inv(capacity, s) && |s.polls| == |plans|
            && forall i :: 0 <= i < |plans| ==> s.polls[i].plan == plans[i]
  {
    hide Inv, Step;
    if events == [] {
      InitInv(capacity, plans);
    } else {
      var init := events[..|events| - 1];
      ExecKeeps(capacity, plans, init);
      var before := Exec(capacity, Init(plans), init).value;
      StepKeepsInv(capacity, before, events[|events| - 1]);
      StepKeepsPlans(capacity, before, events[|events| - 1]);
    }
  }

  /**
   Safety of the pool: in every reachable state the slots held are the workers that
   acquired one and have not released it, never more than the pool has, and each
   WaitGroup counts its poll's unfinished workers and its pending submission.
   */
  lemma PoolSafety(capacity: nat, plans: seq<Plan>, s: Pool)
    requires Reachable(capacity, plans, s)
    ensures s.held == Sum(s.polls, BusyWorkers) && s.held <= capacity
    ensures forall i :: 0 <= i < |s.polls| ==>
              s.polls[i].wg == Sum(s.polls[i].phases, Unfinished) + (if s.polls[i].pc.Submitting? then 1 else 0)
  {
    hide PollInv;
    var events :| Exec(capacity, Init(plans), events) == Some(s);
    ExecKeeps(capacity, plans, events);
    forall i | 0 <= i < |s.polls|
      ensures s.polls[i].wg == Sum(s.polls[i].phases, Unfinished) + (if s.polls[i].pc.Submitting? then 1 else 0)
    {
      assert PollInv(s.polls[i]);
      InvCounted(s.polls[i]);
    }
  }

  // ---- Termination ----------------------------------------------------------

  function PcLeft(p: Poll): nat {
    match p.pc
    case Looping => if p.next <= |p.phases| then 2 * (|p.phases| - p.next) + 7 else 0
    case Submitting => if p.next <= |p.phases| then 2 * (|p.phases| - p.next) + 6 else 0
    case Waiting => 6
    case Publishing(k) => if k <= 5 then 5 - k else 0
    case Returned(_) => 0
  }

  /** What a poll and its workers have left to do. */
  function WorkLeft(p: Poll): nat {
    Sum(p.phases, Left) + PcLeft(p) + if p.cancelled then 0 else 1
  }

  function Measure(s: Pool): nat {
    Sum(s.polls, WorkLeft)
  }

  lemma WorkShrinks(p: Poll, a: Action, free: bool)
    requires Counted(p) && WritesInOrder(p) && Act(p, a, free).Some?
    ensures WorkLeft(Act(p, a, free).value) < WorkLeft(p)
  {
    hide Act;
    var q := Act(p, a, free).value;
    if a.Work? || a.Finish? || a.Release? {
      WorkerStep(p, a, free);
      BusyMove(p, a.job, q.phases[a.job]);
    } else {
      ControlStep(p, a, free);
      if a.Acquire? {
        BusyMove(p, p.next, Started);
      }
    }
  }

  lemma StepShrinks(capacity: nat, s: Pool, e: Event)
    requires Inv(capacity, s) && Shaped(s) && Step(capacity, s, e).Some?
    ensures Measure(Step(capacity, s, e).value) < Measure(s)
  {
    hide Act, WorkLeft;
    var p := s.polls[e.poll];
    assert PollInv(p);
    WorkShrinks(p, e.action, s.held < capacity);
    SumUpdate(s.polls, WorkLeft, e.poll, Step(capacity, s, e).value.polls[e.poll]);
  }

  /** Every run is finite, with a bound known from the start, cancellations included. */
  lemma {:induction false} RunsAreBounded(capacity: nat, plans: seq<Plan>, events: seq<Event>)
    requires Exec(capacity, Init(plans), events).Some?
    ensures |events| + Measure(Exec(capacity, Init(plans), events).value) <= Measure(Init(plans))
  {
    hide Inv, Step, Measure;
    if events != [] {
      var init := events[..|events| - 1];
      RunsAreBounded(capacity, plans, init);
      ExecKeeps(capacity, plans, init);
      StepShrinks(capacity, Exec(capacity, Init(plans), init).value, events[|events| - 1]);
    }
  }

  // ---- Progress -------------------------------------------------------------

  ghost predicate AllReturned(s: Pool) {
    forall i :: 0 <= i < |s.polls| ==> s.polls[i].pc.Returned?
  }

  /** A worker that has started can always take its next step. */
  lemma WorkerMoves(p: Poll, j: nat, free: bool) returns (a: Action)
    requires Counted(p) && j < |p.phases| && 1 <= Rank(p.phases[j]) <= 5
    ensures Act(p, a, free).Some? && (a == Work(j) || a == Finish(j) || a == Release(j))
  {
    a := match p.phases[j]
         case Returning => Finish(j)
         case Finished => Release(j)
         case _ => Work(j);
  }

  /** A poll that has not returned can act, unless it is waiting for a slot. */
  lemma PollMoves(p: Poll) returns (a: Action)
    requires PollInv(p) && !p.pc.Returned?
    ensures !a.Cancel? && !a.Release? && Act(p, a, true).Some?
    ensures !a.Acquire? ==> Act(p, a, false).Some?
  {
    hide MergeGuests, GuestsOf;
    match p.pc {
      case Looping => a := if p.next < |p.phases| then Enter else Leave;
      case Submitting => a := Acquire;
      case Publishing(_) => a := Publish;
      case Waiting =>
        if p.wg == 0 {
          a := Await;
        } else {
          var j := SumPositive(p.phases, Unfinished);
          a := WorkerMoves(p, j, false);
          assert Act(p, a, true) == Act(p, a, false);
        }
    }
  }

  /**
   No deadlock: while some poll has not returned, some step other than a cancellation
   is enabled, whatever the workers of other polls, abandoned ones included, hold.
   */
  lemma Progress(capacity: nat, s: Pool) returns (e: Event)
    requires capacity >= 1 && Inv(capacity, s) && Shaped(s) && !AllReturned(s)
    ensures !e.action.Cancel? && Step(capacity, s, e).Some?
  {
    hide Act, PollInv, Counted;
    var i :| 0 <= i < |s.polls| && !s.polls[i].pc.Returned?;
    assert PollInv(s.polls[i]);
    var a := PollMoves(s.polls[i]);
    e := Event(i, a);
    if s.held == capacity && a.Acquire? {
      var k := SumPositive(s.polls, BusyWorkers);
      var j := SumPositive(s.polls[k].phases, Busy);
      assert PollInv(s.polls[k]);
      InvCounted(s.polls[k]);
      var b := WorkerMoves(s.polls[k], j, false);
      e := Event(k, b);
    } else if a.Acquire? {
      assert s.held < capacity;
    }
  }

  /** A run that can go no further has all polls returned and all slots free. */
  lemma RunsEndReturned(capacity: nat, plans: seq<Plan>, s: Pool)
    requires capacity >= 1 && Reachable(capacity, plans, s) && Shaped(s)
    requires forall e :: Step(capacity, s, e).Some? ==> e.action.Cancel?
    ensures AllReturned(s) && s.held == 0
  {
    hide Act, PollInv, Counted, Step;
    var events :| Exec(capacity, Init(plans), events) == Some(s);
    ExecKeeps(capacity, plans, events);
    if !AllReturned(s) {
      var e := Progress(capacity, s);
      assert false;
    }
    if s.held > 0 {
      var k := SumPositive(s.polls, BusyWorkers);
      var j := SumPositive(s.polls[k].phases, Busy);
      assert PollInv(s.polls[k]);
      InvCounted(s.polls[k]);
      var b := WorkerMoves(s.polls[k], j, s.held < capacity);
      StepOfAct(capacity, s, Event(k, b));
      assert false;
    }
  }

  lemma StepOfAct(capacity: nat, s: Pool, e: Event)
    requires Shaped(s) && e.poll < |s.polls| && Act(s.polls[e.poll], e.action, s.held < capacity).Some? && s.held > 0
    ensures Step(capacity, s, e).Some?
  {
  }

  // ---- What gets published ----------------------------------------------------

  ghost predicate NodesComplete(p: Poll) {
    && (forall n :: n in p.nodeMap <==> exists v :: OffersNode(p.plan, n, v))
    && (forall n :: n in p.nodeMap ==> OffersNode(p.plan, n, p.nodeMap[n]))
  }

  ghost predicate GuestsComplete(p: Poll) {
    && (forall v :: v in p.guestMap <==> exists g :: OffersGuest(p.plan, g) && g.vmid == v)
    && (forall v :: v in p.guestMap ==> OffersGuest(p.plan, p.guestMap[v]) && p.guestMap[v].vmid == v)
  }

  ghost predicate DisksComplete(p: Poll) {
    forall d :: d in p.diskList <==> OffersDisk(p.plan, d)
  }

  /** All the workers have merged all they had. */
  ghost predicate Complete(p: Poll) {
    NodesComplete(p) && GuestsComplete(p) && DisksComplete(p)
  }

  /** A node whose status call succeeded. */
  ghost predicate OffersNode(plan: Plan, n: string, v: Node) {
    exists j :: 0 <= j < |plan.replies| && plan.replies[j].name == n && plan.replies[j].status == Some(v)
  }

  /** A guest in a successful list, of containers or of machines, of a node whose status call succeeded. */
  ghost predicate OffersGuest(plan: Plan, g: Guest) {
    exists j :: && 0 <= j < |plan.replies| && plan.replies[j].status.Some?
                && (InList(plan.replies[j].lxc, g) || InList(plan.replies[j].qemu, g))
  }

  predicate InList<T(==)>(list: Option<seq<T>>, x: T) {
    list.Some? && x in list.value
  }

  ghost predicate OffersDisk(plan: Plan, d: Disk) {
    exists j :: && 0 <= j < |plan.replies| && plan.replies[j].status.Some?
                && plan.pollDisks && InList(plan.replies[j].disks, d)
  }

  lemma InGuests(r: Reply, g: Guest)
    ensures g in GuestsOf(r) <==> InList(r.lxc, g) || InList(r.qemu, g)
  {
  }

  /** A successful list has the VMID. */
  ghost predicate HasVmid(list: Option<seq<Guest>>, v: int) {
    list.Some? && exists l :: 0 <= l < |list.value| && list.value[l].vmid == v
  }

  /** The node has an answer, and lists the VMID. */
  ghost predicate ListsVmid(r: Reply, v: int) {
    r.status.Some? && (HasVmid(r.lxc, v) || HasVmid(r.qemu, v))
  }

  /** What a node gives for a VMID: the last machine with it, or, if no machine has it, the last container. */
  ghost predicate GivesGuest(r: Reply, v: int, g: Guest) {
    if HasVmid(r.qemu, v) then exists l :: IsLastListed(r.qemu.value, v, l) && r.qemu.value[l] == g
    else r.lxc.Some? && exists l :: IsLastListed(r.lxc.value, v, l) && r.lxc.value[l] == g
  }

  /** A node's part has the VMIDs it lists, and for each the guest it gives. */
  lemma GuestPartExactly(r: Reply, v: int)
    ensures v in GuestPart(r) <==> ListsVmid(r, v)
    ensures v in GuestPart(r) ==> GivesGuest(r, v, GuestPart(r)[v])
  {
    hide MergeGuests;
    var lxc, all := OrEmpty(r.lxc), GuestsOf(r);
    if v in GuestPart(r) {
      var l := MergedGuest(all, v);
      LastOfBoth(r, v, l);
    }
    if ListsVmid(r, v) {
      if HasVmid(r.lxc, v) {
        var l :| 0 <= l < |r.lxc.value| && r.lxc.value[l].vmid == v;
        assert all[l] == r.lxc.value[l];
        ListedIsMerged(all, all[l]);
      } else {
        var l :| 0 <= l < |r.qemu.value| && r.qemu.value[l].vmid == v;
        assert all[|lxc| + l] == r.qemu.value[l];
        ListedIsMerged(all, all[|lxc| + l]);
      }
    }
  }

  /** The last place in both lists together is one of the machines, if they have the VMID. */
  lemma LastOfBoth(r: Reply, v: int, l: nat)
    requires IsLastListed(GuestsOf(r), v, l)
    ensures (HasVmid(r.lxc, v) || HasVmid(r.qemu, v)) && GivesGuest(r, v, GuestsOf(r)[l])
  {
    var lxc, qemu, all := OrEmpty(r.lxc), OrEmpty(r.qemu), GuestsOf(r);
    assert forall k :: 0 <= k < |qemu| ==> all[|lxc| + k] == qemu[k];
    assert forall k :: 0 <= k < |lxc| ==> all[k] == lxc[k];
    if l >= |lxc| {
      assert qemu[l - |lxc|].vmid == v;
      assert IsLastListed(qemu, v, l - |lxc|);
    } else {
      assert lxc[l].vmid == v && IsLastListed(lxc, v, l);
      forall k | 0 <= k < |qemu| ensures qemu[k].vmid != v {
        assert all[|lxc| + k] == qemu[k];
      }
    }
  }

  /** A node's part has the disks of its successful list when they are due, the last for each WWN. */
  lemma DiskPartExactly(plan: Plan, j: nat, w: string)
    requires j < |plan.replies|
    ensures w in DiskPart(plan, j) <==>
              && plan.replies[j].status.Some? && plan.pollDisks && plan.replies[j].disks.Some?
              && exists l :: 0 <= l < |plan.replies[j].disks.value| && plan.replies[j].disks.value[l].wwn == w
    ensures w in DiskPart(plan, j) ==> exists l ::
              IsLastDisk(plan.replies[j].disks.value, w, l) && plan.replies[j].disks.value[l] == DiskPart(plan, j)[w]
  {
    hide DiskMap;
    var disks := DisksOf(plan, j);
    if w in DiskPart(plan, j) {
      var l := MappedDisk(disks, w);
      assert disks[l].wwn == w;
    }
    if l :| 0 <= l < |disks| && disks[l].wwn == w {
      ListedIsMapped(disks, disks[l]);
    }
  }

  predicate IsLastDisk(disks: seq<Disk>, w: string, l: int) {
    0 <= l < |disks| && disks[l].wwn == w && forall m :: l < m < |disks| ==> disks[m].wwn != w
  }

  lemma {:induction false} MappedDisk(disks: seq<Disk>, w: string) returns (l: nat)
    requires w in DiskMap(disks)
    ensures IsLastDisk(disks, w, l) && disks[l] == DiskMap(disks)[w]
  {
    var n := |disks| - 1;
    if disks[n].wwn == w {
      l := n;
    } else {
      l := MappedDisk(disks[..n], w);
      forall m | l < m < |disks| ensures disks[m].wwn != w {
        if m < n {
          assert disks[..n][m] == disks[m];
        }
      }
    }
  }

  lemma {:induction false} ListedIsMapped(disks: seq<Disk>, d: Disk)
    requires d in disks
    ensures d.wwn in DiskMap(disks)
  {
    var n := |disks| - 1;
    if disks[n] != d {
      assert disks == disks[..n] + [disks[n]];
      ListedIsMapped(disks[..n], d);
    }
  }

  /** Every worker with an answer is in the order, once. */
  ghost predicate IsWhole(plan: Plan, order: seq<nat>) {
    && (forall j: nat :: j in order <==> j < |plan.replies| && plan.replies[j].status.Some?)
    && (forall i, k :: 0 <= i < k < |order| ==> order[i] != order[k])
  }

  lemma JoinedOrders(p: Poll)
    requires PollInv(p) && Joined(p)
    ensures IsWhole(p.plan, p.nodeOrder) && IsWhole(p.plan, p.guestOrder) && IsWhole(p.plan, p.diskOrder)
    ensures p.nodeMap == Overlay(NodeParts(p.plan), p.nodeOrder)
    ensures p.guestMap == Overlay(GuestParts(p.plan), p.guestOrder)
    ensures p.diskList == DisksInOrder(p.plan, p.diskOrder)
  {
    hide Writes, Overlay, DisksInOrder;
  }

  lemma JoinedIsComplete(p: Poll)
    requires PollInv(p) && Joined(p)
    ensures Complete(p)
  {
    hide PollInv, Joined, NodesComplete, GuestsComplete, DisksComplete;
    JoinedOrders(p);
    CompleteNodes(p);
    CompleteGuests(p);
    CompleteDisks(p);
  }

  lemma CompleteNodes(p: Poll)
    requires IsWhole(p.plan, p.nodeOrder) && p.nodeMap == Overlay(NodeParts(p.plan), p.nodeOrder)
    ensures NodesComplete(p)
  {
    hide Overlay;
    forall n | n in p.nodeMap ensures OffersNode(p.plan, n, p.nodeMap[n]) {
      var k := OverlayLast(NodeParts(p.plan), p.nodeOrder, n);
      var j := p.nodeOrder[k];
      assert p.plan.replies[j].name == n && p.plan.replies[j].status == Some(p.nodeMap[n]);
    }
    forall n, v | OffersNode(p.plan, n, v) ensures n in p.nodeMap {
      var j :| 0 <= j < |p.plan.replies| && p.plan.replies[j].name == n && p.plan.replies[j].status == Some(v);
      OverlayHas(NodeParts(p.plan), p.nodeOrder, j, n);
    }
  }

  lemma {:induction false} MergedGuest(guests: seq<Guest>, v: int) returns (l: nat)
    requires v in MergeGuests(map[], guests)
    ensures IsLastListed(guests, v, l) && guests[l] == MergeGuests(map[], guests)[v]
  {
    var n := |guests| - 1;
    if guests[n].vmid == v {
      l := n;
    } else {
      l := MergedGuest(guests[..n], v);
      forall m | l < m < |guests| ensures guests[m].vmid != v {
        if m < n {
          assert guests[..n][m] == guests[m];
        }
      }
    }
  }

  lemma {:induction false} ListedIsMerged(guests: seq<Guest>, g: Guest)
    requires g in guests
    ensures g.vmid in MergeGuests(map[], guests)
  {
    var n := |guests| - 1;
    if guests[n] != g {
      assert guests == guests[..n] + [guests[n]];
      ListedIsMerged(guests[..n], g);
    }
  }

  /** The last place in a node's list where the VMID stands. */
  predicate IsLastListed(guests: seq<Guest>, v: int, l: int) {
    0 <= l < |guests| && guests[l].vmid == v && forall m :: l < m < |guests| ==> guests[m].vmid != v
  }

  lemma CompleteGuests(p: Poll)
    requires IsWhole(p.plan, p.guestOrder) && p.guestMap == Overlay(GuestParts(p.plan), p.guestOrder)
    ensures GuestsComplete(p)
  {
    hide Overlay, MergeGuests, GuestsOf;
    forall v | v in p.guestMap ensures OffersGuest(p.plan, p.guestMap[v]) && p.guestMap[v].vmid == v {
      var k := OverlayLast(GuestParts(p.plan), p.guestOrder, v);
      var r := p.plan.replies[p.guestOrder[k]];
      var l := MergedGuest(GuestsOf(r), v);
      InGuests(r, p.guestMap[v]);
    }
    forall g | OffersGuest(p.plan, g) ensures g.vmid in p.guestMap {
      var j :| && 0 <= j < |p.plan.replies| && p.plan.replies[j].status.Some?
               && (InList(p.plan.replies[j].lxc, g) || InList(p.plan.replies[j].qemu, g));
      InGuests(p.plan.replies[j], g);
      ListedIsMerged(GuestsOf(p.plan.replies[j]), g);
      OverlayHas(GuestParts(p.plan), p.guestOrder, j, g.vmid);
    }
  }

  lemma {:induction false} InDisks(plan: Plan, order: seq<nat>, d: Disk)
    ensures d in DisksInOrder(plan, order) <==> exists j :: j in order && j < |plan.replies| && d in DisksOf(plan, j)
  {
    hide DisksOf;
    if order != [] {
      var init := order[..|order| - 1];
      InDisks(plan, init, d);
      assert order == init + [order[|order| - 1]];
    }
  }

  lemma CompleteDisks(p: Poll)
    requires IsWhole(p.plan, p.diskOrder) && p.diskList == DisksInOrder(p.plan, p.diskOrder)
    ensures DisksComplete(p)
  {
    forall d ensures d in p.diskList <==> OffersDisk(p.plan, d) {
      InDisks(p.plan, p.diskOrder, d);
      if OffersDisk(p.plan, d) {
        var j :| && 0 <= j < |p.plan.replies| && p.plan.replies[j].status.Some? && p.plan.pollDisks
                 && InList(p.plan.replies[j].disks, d);
        assert j in p.diskOrder && d in DisksOf(p.plan, j);
      }
    }
  }

  /**
   All or nothing: a poll that failed in `Submit` has written nothing and left its
   disk-poll time alone, although its workers may still be at work; a poll that has
   written anything has all its workers' results, and what it wrote is a prefix of the
   complete publication, all of it once the poll returns.
   */
  lemma AllOrNothing(capacity: nat, plans: seq<Plan>, s: Pool, i: nat)
    requires Reachable(capacity, plans, s) && i < |s.polls|
    ensures var p := s.polls[i];
            && i < |plans| && p.plan == plans[i]
            && (p.pc == Returned(false) ==> p.written == [] && !p.diskPollStamped)
            && (p.written != [] ==> Complete(p) && p.written <= Writes(p))
            && (p.pc == Returned(true) ==>
                Complete(p) && p.written == Writes(p) && (p.diskPollStamped <==> p.plan.pollDisks))
  {
    hide Complete, Counted, Merged;
    var events :| Exec(capacity, Init(plans), events) == Some(s);
    ExecKeeps(capacity, plans, events);
    var p := s.polls[i];
    assert PollInv(p);
    if Joined(p) {
      JoinedIsComplete(p);
      if p.pc == Returned(true) && p.plan.pollDisks {
        assert p.written[2].WroteDisks?;
      }
    }
  }

  // ---- How the schedule shows ---------------------------------------------------

  lemma {:induction false} DisksOverlay(plan: Plan, order: seq<nat>)
    requires forall j: nat :: j in order ==> j < |plan.replies| && plan.replies[j].status.Some?
    ensures DiskMap(DisksInOrder(plan, order)) == Overlay(DiskParts(plan), order)
  {
    hide DiskMap, DisksOf;
    if order == [] {
      NoDisks();
    } else {
      var init, j := order[..|order| - 1], order[|order| - 1];
      assert order == init + [j] && j in order && forall i: nat :: i in init ==> i in order;
      DisksOverlay(plan, init);
      DiskMapConcat(DisksInOrder(plan, init), DisksOf(plan, j));
    }
  }

  lemma NoDisks()
    ensures DiskMap([]) == map[]
  {
  }

  /** What a completed poll wrote: each result laid over in the order of its merges. */
  ghost predicate WroteInOrders(p: Poll) {
    && IsWhole(p.plan, p.nodeOrder) && IsWhole(p.plan, p.guestOrder) && IsWhole(p.plan, p.diskOrder)
    && p.written == [WroteNodes(Overlay(NodeParts(p.plan), p.nodeOrder)),
                     WroteGuests(Overlay(GuestParts(p.plan), p.guestOrder))]
                    + (if p.plan.pollDisks then [WroteDisks(Overlay(DiskParts(p.plan), p.diskOrder))] else [])
                    + [WrotePollTime]
  }

  lemma CompletedWrites(capacity: nat, plans: seq<Plan>, s: Pool, i: nat)
    requires Reachable(capacity, plans, s) && i < |s.polls| && s.polls[i].pc == Returned(true)
    ensures WroteInOrders(s.polls[i])
  {
    hide Counted, Merged, Overlay, DiskMap, DisksInOrder, Inv;
    var events :| Exec(capacity, Init(plans), events) == Some(s);
    ExecKeeps(capacity, plans, events);
    var p := s.polls[i];
    InvOfPoll(capacity, s, i);
    JoinedOrders(p);
    DisksOverlay(p.plan, p.diskOrder);
  }

  lemma InvOfPoll(capacity: nat, s: Pool, i: nat)
    requires Inv(capacity, s) && i < |s.polls|
    ensures PollInv(s.polls[i])
  {
  }

  /** Among the nodes that list the VMID, the last one to be merged. */
  ghost predicate IsLastLister(p: Poll, v: int, k: int) {
    && 0 <= k < |p.guestOrder| && p.guestOrder[k] < |p.plan.replies| && ListsVmid(p.plan.replies[p.guestOrder[k]], v)
    && forall m :: k < m < |p.guestOrder| && p.guestOrder[m] < |p.plan.replies| ==>
         !ListsVmid(p.plan.replies[p.guestOrder[m]], v)
  }

  /**
   The guests published are those of the VMIDs some node lists, each as given by the node
   whose worker merged last among those that list it.
   */
  lemma LastMergerWins(capacity: nat, plans: seq<Plan>, s: Pool, i: nat, v: int)
    requires Reachable(capacity, plans, s) && i < |s.polls| && s.polls[i].pc == Returned(true)
    ensures var p := s.polls[i];
            && |p.written| >= 2 && p.written[1].WroteGuests?
            && (v in p.written[1].guests <==> exists j :: 0 <= j < |p.plan.replies| && ListsVmid(p.plan.replies[j], v))
            && (v in p.written[1].guests ==>
                  exists k :: IsLastLister(p, v, k)
                              && GivesGuest(p.plan.replies[p.guestOrder[k]], v, p.written[1].guests[v]))
  {
    hide Reachable, Overlay, GuestPart, GivesGuest, ListsVmid;
    CompletedWrites(capacity, plans, s, i);
    var p := s.polls[i];
    var parts := GuestParts(p.plan);
    forall j: nat | j < |p.plan.replies| ensures v in parts[j] <==> ListsVmid(p.plan.replies[j], v) {
      GuestPartExactly(p.plan.replies[j], v);
    }
    if v in p.written[1].guests {
      var k := OverlayLast(parts, p.guestOrder, v);
      var r := p.plan.replies[p.guestOrder[k]];
      GuestPartExactly(r, v);
      assert ListsVmid(r, v) && IsLastLister(p, v, k);
    }
    if j :| 0 <= j < |p.plan.replies| && ListsVmid(p.plan.replies[j], v) {
      ListersAnswer(p.plan.replies[j], v);
      OverlayHas(parts, p.guestOrder, j, v);
    }
  }

  lemma ListersAnswer(r: Reply, v: int)
    requires ListsVmid(r, v)
    ensures r.status.Some?
  {
  }

  /** What each answer gives for a node, a VMID or a WWN it shares with another one is the same. */
  ghost predicate Settled(plan: Plan) {
    Agree(NodeParts(plan)) && Agree(GuestParts(plan)) && (plan.pollDisks ==> Agree(DiskParts(plan)))
  }

  /** Some completed run, over some pool and beside some other polls, writes this. */
  ghost predicate Publishes(plan: Plan, written: seq<Write>) {
    exists capacity, plans, s, i ::
      && Reachable(capacity, plans, s) && 0 <= i < |s.polls|
      && s.polls[i].plan == plan && s.polls[i].pc == Returned(true) && s.polls[i].written == written
  }

  /** All orders put results under the same keys, and the same results when the answers are settled. */
  lemma ScheduleIndependence(p: Poll, q: Poll)
    requires WroteInOrders(p) && WroteInOrders(q) && p.plan == q.plan
    ensures Overlay(NodeParts(p.plan), p.nodeOrder).Keys == Overlay(NodeParts(p.plan), q.nodeOrder).Keys
    ensures Overlay(GuestParts(p.plan), p.guestOrder).Keys == Overlay(GuestParts(p.plan), q.guestOrder).Keys
    ensures Overlay(DiskParts(p.plan), p.diskOrder).Keys == Overlay(DiskParts(p.plan), q.diskOrder).Keys
    ensures Settled(p.plan) ==> p.written == q.written
  {
    hide Overlay, Agree;
    OverlaySame(NodeParts(p.plan), p.nodeOrder, q.nodeOrder);
    OverlaySame(GuestParts(p.plan), p.guestOrder, q.guestOrder);
    OverlaySame(DiskParts(p.plan), p.diskOrder, q.diskOrder);
  }

  lemma SettledPublishesAlike(plan: Plan, a: seq<Write>, b: seq<Write>)
    requires Settled(plan) && Publishes(plan, a) && Publishes(plan, b)
    ensures a == b
  {
    hide Reachable, Settled, WroteInOrders;
    var capacity, plans, s, i :|
      && Reachable(capacity, plans, s) && 0 <= i < |s.polls|
      && s.polls[i].plan == plan && s.polls[i].pc == Returned(true) && s.polls[i].written == a;
    var capacity', plans', t, j :|
      && Reachable(capacity', plans', t) && 0 <= j < |t.polls|
      && t.polls[j].plan == plan && t.polls[j].pc == Returned(true) && t.polls[j].written == b;
    CompletedWrites(capacity, plans, s, i);
    CompletedWrites(capacity', plans', t, j);
    ScheduleIndependence(s.polls[i], t.polls[j]);
  }

  // ---- A run that leaves a chosen worker for last ----------------------------------

  lemma ReachStep(capacity: nat, plans: seq<Plan>, s: Pool, e: Event)
    requires Reachable(capacity, plans, s) && Shaped(s) && Step(capacity, s, e).Some?
    requires Shaped(Step(capacity, s, e).value)
    ensures Reachable(capacity, plans, Step(capacity, s, e).value)
  {
    hide Step;
    var events :| Exec(capacity, Init(plans), events) == Some(s);
    assert (events + [e])[..|events|] == events;
    assert Exec(capacity, Init(plans), events + [e]) == Step(capacity, s, e);
  }

  /** A pending submission of a cancelled poll can be refused, with or without a free slot. */
  lemma RefusalIsEnabled(p: Poll, free: bool)
    requires p.pc == Submitting && p.cancelled && |p.phases| == |p.plan.replies|
    ensures Act(p, Refuse, free).Some? && Act(p, Refuse, free).value.pc == Returned(false)
    ensures free && p.next < |p.phases| ==> Act(p, Acquire, free).Some?
  {
  }

  /** Over any pool, also one with free slots, a poll of some node can be cancelled and end in an error. */
  lemma CancelledRun(capacity: nat, plan: Plan) returns (s: Pool)
    requires |plan.replies| > 0
    ensures Reachable(capacity, [plan], s) && |s.polls| == 1 && s.polls[0].plan == plan
    ensures s.polls[0].pc == Returned(false)
  {
    hide Exec;
    s := Init([plan]);
    StartIsReachable(capacity, plan);
    ReachStep(capacity, [plan], s, Event(0, Enter));
    s := Step(capacity, s, Event(0, Enter)).value;
    ReachStep(capacity, [plan], s, Event(0, Cancel));
    s := Step(capacity, s, Event(0, Cancel)).value;
    ReachStep(capacity, [plan], s, Event(0, Refuse));
    s := Step(capacity, s, Event(0, Refuse)).value;
  }

  lemma StartIsReachable(capacity: nat, plan: Plan)
    ensures Reachable(capacity, [plan], Init([plan]))
  {
    assert Exec(capacity, Init([plan]), []) == Some(Init([plan]));
  }

  /** A pool one poll has to itself, with a slot for each of its workers. */
  ghost predicate Solo(s: Pool, plan: Plan) {
    && |s.polls| == 1 && s.polls[0].plan == plan && |s.polls[0].phases| == |plan.replies|
    && Reachable(|plan.replies|, [plan], s)
  }

  /** An action of the poll or of a worker that holds on to its slot. */
  lemma SoloStep(plan: Plan, s: Pool, a: Action, p: Poll) returns (t: Pool)
    requires Solo(s, plan) && !a.Release? && Act(s.polls[0], a, s.held < |plan.replies|) == Some(p)
    requires p.plan == plan && |p.phases| == |plan.replies|
    ensures Solo(t, plan) && t.polls[0] == p && t.held == if a.Acquire? then s.held + 1 else s.held
  {
    hide Act, Reachable;
    t := Pool(if a.Acquire? then s.held + 1 else s.held, s.polls[0 := p]);
    assert Step(|plan.replies|, s, Event(0, a)) == Some(t);
    ReachStep(|plan.replies|, [plan], s, Event(0, a));
  }

  /** The first k workers are started, and nothing has been merged. */
  ghost predicate HasBegun(p: Poll, k: nat) {
    && p.pc == Looping && p.next == k <= |p.phases| && p.written == []
    && (forall j :: 0 <= j < |p.phases| ==> p.phases[j] == if j < k then Started else Idle)
  }

  lemma {:induction false} StartWorkers(plan: Plan, k: nat) returns (s: Pool)
    requires k <= |plan.replies|
    ensures Solo(s, plan) && HasBegun(s.polls[0], k) && s.held == k
  {
    hide Reachable;
    if k == 0 {
      s := Init([plan]);
      StartIsReachable(|plan.replies|, plan);
    } else {
      s := StartWorkers(plan, k - 1);
      var p := s.polls[0];
      s := SoloStep(plan, s, Enter, p.(pc := Submitting, wg := p.wg + 1));
      p := s.polls[0];
      s := SoloStep(plan, s, Acquire, p.(pc := Looping, next := p.next + 1, phases := p.phases[p.next := Started]));
    }
  }

  /** The poll waits for workers that are started or have called `wg.Done`. */
  ghost predicate IsWaiting(p: Poll) {
    p.pc == Waiting && p.written == [] && forall j :: 0 <= j < |p.phases| ==> p.phases[j] in [Started, Finished]
  }

  function Appended(plan: Plan, order: seq<nat>, j: nat): seq<nat>
    requires j < |plan.replies|
  {
    if plan.replies[j].status.Some? then order + [j] else order
  }

  lemma WorkerRuns(plan: Plan, s: Pool, j: nat) returns (t: Pool)
    requires Solo(s, plan) && j < |plan.replies| && IsWaiting(s.polls[0]) && s.polls[0].phases[j] == Started
    ensures Solo(t, plan) && IsWaiting(t.polls[0]) && t.polls[0].phases == s.polls[0].phases[j := Finished]
    ensures t.polls[0].nodeOrder == Appended(plan, s.polls[0].nodeOrder, j)
    ensures t.polls[0].guestOrder == Appended(plan, s.polls[0].guestOrder, j)
    ensures t.polls[0].diskOrder == Appended(plan, s.polls[0].diskOrder, j)
  {
    hide Reachable, MergeGuests, GuestsOf, DisksOf;
    var p := s.polls[0];
    t := s;
    if plan.replies[j].status.Some? {
      t := WorkerMerges(plan, s, j);
    } else {
      t := SoloStep(plan, s, Work(j), p.(phases := p.phases[j := Returning]));
    }
    var q := t.polls[0];
    t := SoloStep(plan, t, Finish(j), q.(phases := q.phases[j := Finished], wg := q.wg - 1));
    assert t.polls[0].phases == p.phases[j := Finished];
  }

  lemma WorkerMerges(plan: Plan, s: Pool, j: nat) returns (t: Pool)
    requires Solo(s, plan) && j < |plan.replies| && s.polls[0].phases[j] == Started && plan.replies[j].status.Some?
    ensures Solo(t, plan)
    ensures var p, q := s.polls[0], t.polls[0];
            && q.phases == p.phases[j := Returning] && q.pc == p.pc && q.written == p.written
            && q.nodeOrder == p.nodeOrder + [j] && q.guestOrder == p.guestOrder + [j]
            && q.diskOrder == p.diskOrder + [j]
  {
    hide Reachable, MergeGuests, GuestsOf, DisksOf;
    var p := s.polls[0];
    t := SoloWork(plan, s, j);
    t := SoloWork(plan, t, j);
    t := SoloWork(plan, t, j);
    assert t.polls[0].phases == p.phases[j := Returning];
  }

  lemma SoloWork(plan: Plan, s: Pool, j: nat) returns (t: Pool)
    requires Solo(s, plan)
    requires j < |plan.replies| == |s.polls[0].phases| && s.polls[0].plan == plan && WorkStep(s.polls[0], j).Some?
    ensures Solo(t, plan) && |t.polls| == 1 && t.polls[0].plan == plan && |t.polls[0].phases| == |plan.replies|
    ensures Some(t.polls[0]) == WorkStep(s.polls[0], j)
  {
    hide Reachable, MergeGuests, GuestsOf, DisksOf;
    t := SoloStep(plan, s, Work(j), WorkStep(s.polls[0], j).value);
  }

  /** All the first k workers but one have run. */
  lemma {:induction false} OthersRun(plan: Plan, s: Pool, last: nat, k: nat) returns (t: Pool)
    requires Solo(s, plan) && IsWaiting(s.polls[0]) && k <= |plan.replies|
    requires forall j :: 0 <= j < |plan.replies| ==> s.polls[0].phases[j] == Started
    ensures Solo(t, plan) && IsWaiting(t.polls[0])
    ensures forall j :: 0 <= j < |plan.replies| ==>
              t.polls[0].phases[j] == if j < k && j != last then Finished else Started
  {
    hide Reachable;
    if k == 0 {
      t := s;
    } else {
      t := OthersRun(plan, s, last, k - 1);
      if k - 1 != last {
        t := WorkerRuns(plan, t, k - 1);
      }
    }
  }

  lemma AllFinished(plan: Plan, s: Pool)
    requires Solo(s, plan) && IsWaiting(s.polls[0])
    requires forall j :: 0 <= j < |plan.replies| ==> s.polls[0].phases[j] == Finished
    ensures s.polls[0].wg == 0
  {
    hide Exec, Inv;
    PoolSafety(|plan.replies|, [plan], s);
    SumOfZeros(s.polls[0].phases, Unfinished);
  }

  function WritesLeft(p: Poll): nat {
    if p.pc.Publishing? && p.pc.k <= |Writes(p)| then |Writes(p)| - p.pc.k else 0
  }

  lemma {:induction false} AllPublished(plan: Plan, s: Pool) returns (t: Pool)
    requires Solo(s, plan) && s.polls[0].pc.Publishing? && s.polls[0].pc.k < |Writes(s.polls[0])|
    ensures Solo(t, plan) && t.polls[0].pc == Returned(true)
    ensures t.polls[0].nodeOrder == s.polls[0].nodeOrder && t.polls[0].guestOrder == s.polls[0].guestOrder
    ensures t.polls[0].diskOrder == s.polls[0].diskOrder
    decreases WritesLeft(s.polls[0])
  {
    hide Reachable;
    var p := s.polls[0];
    var k := p.pc.k;
    var w := Writes(p)[k];
    var q := p.(pc := if k + 1 == |Writes(p)| then Returned(true) else Publishing(k + 1),
                written := p.written + [w], diskPollStamped := p.diskPollStamped || w.WroteDisks?);
    SameWrites(p, q);
    t := SoloStep(plan, s, Publish, q);
    if k + 1 < |Writes(p)| {
      t := AllPublished(plan, t);
    }
  }

  /** In the orders of a completed poll a worker with an answer stands last. */
  ghost predicate MergedLast(p: Poll, j: nat) {
    && p.nodeOrder != [] && p.nodeOrder[|p.nodeOrder| - 1] == j
    && p.guestOrder != [] && p.guestOrder[|p.guestOrder| - 1] == j
    && p.diskOrder != [] && p.diskOrder[|p.diskOrder| - 1] == j
  }

  /** Any worker with an answer can be the last to merge. */
  lemma AnyoneLast(plan: Plan, last: nat) returns (p: Poll)
    requires last < |plan.replies| && plan.replies[last].status.Some?
    ensures p.plan == plan && Publishes(plan, p.written) && WroteInOrders(p) && MergedLast(p, last)
  {
    hide Reachable, WroteInOrders;
    var s := StartWorkers(plan, |plan.replies|);
    s := SoloStep(plan, s, Leave, s.polls[0].(pc := Waiting));
    s := OthersRun(plan, s, last, |plan.replies|);
    s := WorkerRuns(plan, s, last);
    AllFinished(plan, s);
    s := SoloStep(plan, s, Await, s.polls[0].(pc := Publishing(0)));
    s := AllPublished(plan, s);
    CompletedWrites(|plan.replies|, [plan], s, 0);
    p := s.polls[0];
  }

  /** Two answers that differ on a node they share: the one merged last shows. */
  lemma NodesShow(plan: Plan, j: nat, k: nat, n: string)
    requires j < |plan.replies| && k < |plan.replies| && n in NodeParts(plan)[j] && n in NodeParts(plan)[k]
    requires NodeParts(plan)[j][n] != NodeParts(plan)[k][n]
    ensures !PublishesOne(plan)
  {
    hide Publishes, Overlay;
    var p := AnyoneLast(plan, j);
    var q := AnyoneLast(plan, k);
    OverlayEnds(NodeParts(plan), p.nodeOrder, j, n);
    OverlayEnds(NodeParts(plan), q.nodeOrder, k, n);
    assert p.written[0] != q.written[0];
  }

  lemma GuestsShow(plan: Plan, j: nat, k: nat, v: int)
    requires j < |plan.replies| && k < |plan.replies| && v in GuestParts(plan)[j] && v in GuestParts(plan)[k]
    requires GuestParts(plan)[j][v] != GuestParts(plan)[k][v]
    ensures !PublishesOne(plan)
  {
    hide Publishes, Overlay;
    var p := AnyoneLast(plan, j);
    var q := AnyoneLast(plan, k);
    OverlayEnds(GuestParts(plan), p.guestOrder, j, v);
    OverlayEnds(GuestParts(plan), q.guestOrder, k, v);
    assert p.written[1] != q.written[1];
  }

  lemma DisksShow(plan: Plan, j: nat, k: nat, w: string)
    requires plan.pollDisks && j < |plan.replies| && k < |plan.replies|
    requires w in DiskParts(plan)[j] && w in DiskParts(plan)[k]
    requires DiskParts(plan)[j][w] != DiskParts(plan)[k][w]
    ensures !PublishesOne(plan)
  {
    hide Publishes, Overlay;
    var p := AnyoneLast(plan, j);
    var q := AnyoneLast(plan, k);
    OverlayEnds(DiskParts(plan), p.diskOrder, j, w);
    OverlayEnds(DiskParts(plan), q.diskOrder, k, w);
    assert p.written[2] != q.written[2];
  }

  /** All completed runs with these answers, over all pools, write the same. */
  ghost predicate PublishesOne(plan: Plan) {
    forall a, b :: Publishes(plan, a) && Publishes(plan, b) ==> a == b
  }

  /** The schedule never shows exactly when the answers are settled. */
  lemma ScheduleShowsExactly(plan: Plan)
    ensures PublishesOne(plan) <==> Settled(plan)
  {
    hide Publishes, NodeParts, GuestParts, DiskParts, Agree;
    if Settled(plan) {
      forall a, b | Publishes(plan, a) && Publishes(plan, b) ensures a == b {
        SettledPublishesAlike(plan, a, b);
      }
    } else if !Agree(NodeParts(plan)) {
      var j, k, n := Disagreement(NodeParts(plan));
      NodesShow(plan, j, k, n);
    } else if !Agree(GuestParts(plan)) {
      var j, k, v := Disagreement(GuestParts(plan));
      GuestsShow(plan, j, k, v);
    } else {
      var j, k, w := Disagreement(DiskParts(plan));
      DisksShow(plan, j, k, w);
    }
  }
}
