/** The alerter itself: two maps updated in place while a snapshot is walked. */
module AlertEngine {
  import opened AlertMachine
  import opened AlertRuns
  import opened AlertRules

  /** What a firing does outside: one insert into the store, one send per provider. */
  datatype Effect = Stored(at: int, notice: Notification) | Sent(provider: string, notice: Notification)

  ghost function Sends(providers: seq<string>, notice: Notification): seq<Effect> {
    seq(|providers|, i requires 0 <= i < |providers| => Sent(providers[i], notice))
  }

  ghost function EffectsOf(log: seq<Firing>, providers: seq<string>): seq<Effect> {
    if log == [] then []
    else
      var f := log[|log| - 1];
      EffectsOf(log[..|log| - 1], providers) + [Stored(f.at, f.notice)] + Sends(providers, f.notice)
  }

  /** What one firing does outside. */
  ghost function EffectsOfOne(f: Firing, providers: seq<string>): seq<Effect> {
    [Stored(f.at, f.notice)] + Sends(providers, f.notice)
  }

  lemma EffectsAppend(log: seq<Firing>, providers: seq<string>)
    requires log != []
    ensures EffectsOf(log, providers)
            == EffectsOf(log[..|log| - 1], providers) + EffectsOfOne(log[|log| - 1], providers)
  {
    var init, f := log[..|log| - 1], log[|log| - 1];
    assert EffectsOf(init, providers) + [Stored(f.at, f.notice)] + Sends(providers, f.notice)
        == EffectsOf(init, providers) + ([Stored(f.at, f.notice)] + Sends(providers, f.notice));
  }

  lemma EffectsGrow(log: seq<Firing>, f: Firing, providers: seq<string>)
    ensures EffectsOf(log + [f], providers)
            == EffectsOf(log, providers) + [Stored(f.at, f.notice)] + Sends(providers, f.notice)
  {
    assert (log + [f])[..|log|] == log;
  }

  lemma OneMore(m: int, k: int)
    ensures (m + 1) * k == m * k + k
  {
  }

  /** The firings account for the effects one to one: each for a store attempt, then a send per provider. */
  lemma {:induction false} EffectsLayout(log: seq<Firing>, providers: seq<string>)
    ensures |EffectsOf(log, providers)| == |log| * (|providers| + 1)
    ensures forall i :: 0 <= i < |log| ==>
              AccountsFor(EffectsOf(log, providers), log[i], providers, i * (|providers| + 1))
  {
    hide EffectsOf, EffectsOfOne, AccountsFor;
    if log == [] {
      NoEffects(providers);
    } else {
      var n, k := |log| - 1, |providers| + 1;
      EffectsLayout(log[..n], providers);
      EffectsAppend(log, providers);
      OneMore(n, k);
      OneLength(log[n], providers);
      AccountsForOne(EffectsOf(log[..n], providers), log[n], providers);
      forall i | 0 <= i < n ensures AccountsFor(EffectsOf(log, providers), log[i], providers, i * k) {
        AccountsStill(EffectsOf(log[..n], providers), log[i], providers, i * k, EffectsOfOne(log[n], providers));
      }
    }
  }

  lemma NoEffects(providers: seq<string>)
    ensures EffectsOf([], providers) == []
  {
  }

  lemma OneLength(f: Firing, providers: seq<string>)
    ensures |EffectsOfOne(f, providers)| == |providers| + 1
  {
  }

  /** The effects of a firing are found at the place `k`. */
  ghost predicate AccountsFor(effects: seq<Effect>, f: Firing, providers: seq<string>, k: int) {
    && 0 <= k && k + |providers| < |effects|
    && effects[k] == Stored(f.at, f.notice)
    && forall j :: 0 <= j < |providers| ==> effects[k + 1 + j] == Sent(providers[j], f.notice)
  }

  lemma AccountsForOne(before: seq<Effect>, f: Firing, providers: seq<string>)
    ensures AccountsFor(before + EffectsOfOne(f, providers), f, providers, |before|)
  {
  }

  lemma AccountsStill(effects: seq<Effect>, f: Firing, providers: seq<string>, k: int, more: seq<Effect>)
    requires AccountsFor(effects, f, providers, k)
    ensures AccountsFor(effects + more, f, providers, k)
  {
  }

  /** `order` lists the checks of the subjects `visited`, none of them visited twice. */
  ghost predicate Follows(cfg: Config, t: Tick, visited: seq<Subject>, order: seq<Check>) {
    if visited == [] then order == []
    else
      var init, s := visited[..|visited| - 1], visited[|visited| - 1];
      && |order| == |visited| && Follows(cfg, t, init, order[..|init|])
      && s !in init && Present(cfg, t, s) && order[|init|] == CheckOf(cfg, t, s)
  }

  lemma FollowsOne(cfg: Config, t: Tick, visited: seq<Subject>, order: seq<Check>, s: Subject)
    requires Follows(cfg, t, visited, order) && s !in visited && Present(cfg, t, s)
    ensures Follows(cfg, t, visited + [s], order + [CheckOf(cfg, t, s)])
  {
    assert (visited + [s])[..|visited|] == visited;
    FollowsLength(cfg, t, visited, order);
    assert (order + [CheckOf(cfg, t, s)])[..|visited|] == order;
  }

  /** The sections of `evaluate`, in the order of the code. */
  function Section(s: Subject): nat {
    match s
    case NodeCpu(_, _) => 0
    case NodeMem(_, _) => 0
    case GuestDown(_, _) => 1
    case BackupStale(_, _) => 2
    case DiskSmart(_) => 3
    case DiskScrutiny(_) => 3
    case DatastoreFull(_, _) => 4
    case DatastoreOffline(_, _) => 4
  }

  /** The first sections have visited all there is for them, and nothing else was visited. */
  ghost predicate CoversUpTo(cfg: Config, t: Tick, visited: seq<Subject>, sections: nat) {
    forall s :: s in visited <==> Section(s) < sections && Present(cfg, t, s)
  }

  lemma CoversNothing(cfg: Config, t: Tick)
    ensures CoversUpTo(cfg, t, [], 0)
  {
  }

  lemma CoversAll(cfg: Config, t: Tick, visited: seq<Subject>)
    requires CoversUpTo(cfg, t, visited, 5)
    requires forall i, j :: 0 <= i < j < |visited| ==> visited[i] != visited[j]
    ensures IsWalk(cfg, t, visited)
  {
  }

  lemma FollowsNothing(cfg: Config, t: Tick)
    ensures Follows(cfg, t, [], [])
  {
  }

  lemma FollowsLength(cfg: Config, t: Tick, visited: seq<Subject>, order: seq<Check>)
    requires Follows(cfg, t, visited, order)
    ensures |visited| == |order|
  {
  }

  lemma {:induction false} FollowsAt(cfg: Config, t: Tick, visited: seq<Subject>, order: seq<Check>, i: nat)
    requires Follows(cfg, t, visited, order) && i < |visited|
    ensures |order| == |visited| && Present(cfg, t, visited[i]) && order[i] == CheckOf(cfg, t, visited[i])
    ensures forall j :: 0 <= j < i ==> visited[j] != visited[i]
  {
    var n := |visited| - 1;
    hide CheckOf, Present;
    if i < n {
      FollowsAt(cfg, t, visited[..n], order[..n], i);
    }
  }

  lemma FollowsOrder(cfg: Config, t: Tick, visited: seq<Subject>, order: seq<Check>)
    requires Follows(cfg, t, visited, order)
    ensures AllPresent(cfg, t, visited) && order == OrderOf(cfg, t, visited)
    ensures forall i, j :: 0 <= i < j < |visited| ==> visited[i] != visited[j]
  {
    hide CheckOf, Present, Follows;
    FollowsLength(cfg, t, visited, order);
    forall i | 0 <= i < |visited|
      ensures Present(cfg, t, visited[i]) && order[i] == CheckOf(cfg, t, visited[i])
      ensures forall j :: 0 <= j < i ==> visited[j] != visited[i]
    {
      FollowsAt(cfg, t, visited, order, i);
    }
  }

  lemma MakesRound(cfg: Config, t: Tick, visited: seq<Subject>, order: seq<Check>)
    requires Follows(cfg, t, visited, order) && IsWalk(cfg, t, visited)
    ensures IsRound(cfg, t, visited, Round(t.now, order))
  {
    FollowsOrder(cfg, t, visited, order);
  }

  /** Each round of the run makes the checks of one walk over one tick. */
  ghost predicate IsRun(cfg: Config, ticks: seq<Tick>, walks: seq<seq<Subject>>, rounds: seq<Round>) {
    && |ticks| == |walks| == |rounds|
    && forall i :: 0 <= i < |rounds| ==> IsRound(cfg, ticks[i], walks[i], rounds[i])
  }

  ghost predicate IsRound(cfg: Config, t: Tick, walk: seq<Subject>, round: Round) {
    && AllPresent(cfg, t, walk) && IsWalk(cfg, t, walk)
    && round == Round(t.now, OrderOf(cfg, t, walk))
  }

  lemma RunExtends(cfg: Config, ticks: seq<Tick>, walks: seq<seq<Subject>>, rounds: seq<Round>,
                   t: Tick, walk: seq<Subject>, round: Round)
    requires IsRun(cfg, ticks, walks, rounds) && IsRound(cfg, t, walk, round)
    ensures IsRun(cfg, ticks + [t], walks + [walk], rounds + [round])
  {
    hide IsRound;
  }

  lemma RunHasRounds(cfg: Config, ticks: seq<Tick>, walks: seq<seq<Subject>>, rounds: seq<Round>)
    requires IsRun(cfg, ticks, walks, rounds)
    ensures Walks(cfg, ticks, walks) && rounds == Rounds(cfg, ticks, walks)
  {
    forall i | 0 <= i < |ticks| ensures AllPresent(cfg, ticks[i], walks[i]) {
      assert IsRound(cfg, ticks[i], walks[i], rounds[i]);
    }
  }

  lemma RunGrows(rounds: seq<Round>, r: Round)
    ensures var before := Exec(rounds, true);
            var o := ApplyAll(Recall(before.mem, r.now, true), r.now, r.order);
            && Exec(rounds + [r], true).mem == o.mem
            && AlertRuns.Raised(rounds + [r], true) == AlertRuns.Raised(rounds, true) + o.log
  {
    assert (rounds + [r])[..|rounds|] == rounds;
    RaisedAppend(rounds + [r], true);
  }

  /** Some element of a non-empty set: the next key of a map being ranged over. */
  method AnyOf<T(==)>(s: set<T>) returns (x: T)
    requires s != {}
    ensures x in s
  {
    x :| x in s;
  }

  class Alerter {
    const config: Config
    const providers: seq<string>
    var lastFired: map<string, int>
    var sustained: map<string, int>

    ghost var log: seq<Firing>
    ghost var effects: seq<Effect>
    ghost var visited: seq<Subject>
    ghost var order: seq<Check>
    ghost var ticks: seq<Tick>
    ghost var walks: seq<seq<Subject>>
    ghost var rounds: seq<Round>

    ghost function Mem(): Memory
      reads this
    {
      Memory(lastFired, sustained)
    }

    /** The engine has done what its run so far says. */
    ghost predicate Valid()
      reads this
    {
      && IsRun(config, ticks, walks, rounds)
      && Mem() == Exec(rounds, true).mem
      && log == AlertRuns.Raised(rounds, true)
      && effects == EffectsOf(log, providers)
    }

    constructor (config: Config, providers: seq<string>)
      ensures Valid() && ticks == [] && this.config == config && this.providers == providers
    {
      this.config, this.providers := config, providers;
      lastFired, sustained := map[], map[];
      log, effects, visited, order := [], [], [], [];
      ticks, walks, rounds := [], [], [];
    }

    method Cleanup(now: int)
      modifies this`lastFired, this`sustained
      ensures Mem() == Recall(old(Mem()), now, true)
    {
      lastFired := Prune(lastFired, now);
      sustained := Prune(sustained, now);
    }

    /** A deletion loop: Go allows deleting the current key while ranging over a map. */
    method Prune(m: map<string, int>, now: int) returns (kept: map<string, int>)
      ensures kept == Young(m, now)
    {
      kept := m;
      var todo := m.Keys;
      while todo != {}
        invariant todo <= m.Keys
        invariant kept == map k | k in m && (k in todo || now - m[k] <= MAX_AGE) :: m[k]
        decreases |todo|
      {
        var key := AnyOf(todo);
        if now - m[key] > MAX_AGE {
          kept := kept - {key};
        }
        todo := todo - {key};
      }
    }

    /** `InsertAlert`, which may fail. */
    method InsertAlert(now: int, notice: Notification) returns (failed: bool)
      modifies this`effects
      ensures effects == old(effects) + [Stored(now, notice)]
    {
      effects := effects + [Stored(now, notice)];
      failed := *;
    }

    /** A provider's `Send`, which may fail. */
    method Send(provider: string, notice: Notification) returns (failed: bool)
      modifies this`effects
      ensures effects == old(effects) + [Sent(provider, notice)]
    {
      effects := effects + [Sent(provider, notice)];
      failed := *;
    }

    /** Sends to all providers, whatever errors come back. */
    method SendAll(notice: Notification)
      modifies this`effects
      ensures effects == old(effects) + Sends(providers, notice)
    {
      var i := 0;
      assert Sends(providers[..0], notice) == [];
      while i < |providers|
        invariant 0 <= i <= |providers|
        invariant effects == old(effects) + Sends(providers[..i], notice)
      {
        var failed := Send(providers[i], notice);
        assert Sends(providers[..i + 1], notice) == Sends(providers[..i], notice) + [Sent(providers[i], notice)];
        i := i + 1;
      }
      assert providers[..i] == providers;
    }

    /** Whatever errors the store and the providers return, they are only logged. */
    method Fire(now: int, c: Check)
      requires effects == EffectsOf(log, providers)
      modifies this`lastFired, this`log, this`effects
      ensures Mem() == AlertMachine.Fire(old(Mem()), now, c).mem
      ensures log == old(log) + AlertMachine.Fire(old(Mem()), now, c).log
      ensures effects == EffectsOf(log, providers)
    {
      hide EffectsOf, EffectsOfOne, Sends;
      if c.key in lastFired && now - lastFired[c.key] < c.cooldown {
        return;
      }
      lastFired := lastFired[c.key := now];
      log := log + [Firing(c.key, now, c.notice)];
      var failed := InsertAlert(now, c.notice);
      SendAll(c.notice);
      EffectsGrow(old(log), Firing(c.key, now, c.notice), providers);
    }

    method CheckSustained(now: int, c: Check)
      requires effects == EffectsOf(log, providers) && c.kind.Sustained?
      modifies this`lastFired, this`sustained, this`log, this`effects
      ensures Mem() == Apply(old(Mem()), now, c).mem
      ensures log == old(log) + Apply(old(Mem()), now, c).log
      ensures effects == EffectsOf(log, providers)
    {
      if c.holds {
        if c.key in sustained {
          if now - sustained[c.key] >= c.kind.duration {
            Fire(now, c);
          }
        } else {
          sustained := sustained[c.key := now];
        }
      } else {
        sustained := sustained - {c.key};
      }
    }

    /** The checks made so far have taken the memories and the log from where the evaluation began. */
    ghost predicate InStep(now: int, start: Memory, before: seq<Firing>)
      reads this
    {
      && Mem() == ApplyAll(start, now, order).mem
      && log == before + ApplyAll(start, now, order).log
      && effects == EffectsOf(log, providers)
    }

    /** One check: a timed rule goes through its timer, another fires if its condition holds. */
    method Make(now: int, c: Check, ghost start: Memory, ghost before: seq<Firing>)
      requires InStep(now, start, before)
      modifies this`lastFired, this`sustained, this`log, this`effects, this`order
      ensures InStep(now, start, before) && order == old(order) + [c]
    {
      ApplyAllAppend(start, now, order, c);
      match c.kind {
        case Sustained(_) => CheckSustained(now, c);
        case Instant =>
          if c.holds {
            Fire(now, c);
          }
      }
      order := order + [c];
    }

    /** The checks made are those of the subjects visited, each visited once. */
    ghost predicate OnWalk(t: Tick, start: Memory, before: seq<Firing>)
      reads this
    {
      && InStep(t.now, start, before)
      && Follows(config, t, visited, order)
    }

    method Visit(t: Tick, s: Subject, ghost start: Memory, ghost before: seq<Firing>)
      requires OnWalk(t, start, before) && Present(config, t, s) && s !in visited
      modifies this`lastFired, this`sustained, this`log, this`effects, this`order, this`visited
      ensures OnWalk(t, start, before) && visited == old(visited) + [s]
    {
      var c := CheckOf(config, t, s);
      Make(t.now, c, start, before);
      FollowsOne(config, t, visited, old(order), s);
      visited := visited + [s];
    }

    method EvaluateNodes(t: Tick, ghost start: Memory, ghost before: seq<Firing>)
      requires OnWalk(t, start, before) && CoversUpTo(config, t, visited, 0)
      modifies this`lastFired, this`sustained, this`log, this`effects, this`order, this`visited
      ensures OnWalk(t, start, before) && CoversUpTo(config, t, visited, 1)
    {
      hide Follows, InStep;
      var instances := t.snap.nodes.Keys;
      while instances != {}
        invariant instances <= t.snap.nodes.Keys && OnWalk(t, start, before)
        invariant forall s :: s in visited <==>
                    s in old(visited) ||
                    ((s.NodeCpu? || s.NodeMem?) && Present(config, t, s) && s.instance !in instances)
        decreases |instances|
      {
        var instance := AnyOf(instances);
        EvaluateNodesOf(t, instance, start, before);
        instances := instances - {instance};
      }
    }

    method EvaluateNodesOf(t: Tick, instance: string, ghost start: Memory, ghost before: seq<Firing>)
      requires instance in t.snap.nodes
      requires OnWalk(t, start, before)
      requires forall s :: s in visited && (s.NodeCpu? || s.NodeMem?) ==> s.instance != instance
      modifies this`lastFired, this`sustained, this`log, this`effects, this`order, this`visited
      ensures OnWalk(t, start, before)
      ensures forall s :: s in visited <==>
                s in old(visited) || ((s.NodeCpu? || s.NodeMem?) && Present(config, t, s) && s.instance == instance)
    {
      hide Follows, InStep;
      var names := t.snap.nodes[instance].Keys;
      while names != {}
        invariant names <= t.snap.nodes[instance].Keys && OnWalk(t, start, before)
        invariant forall s :: s in visited <==>
                    s in old(visited) ||
                    ((s.NodeCpu? || s.NodeMem?) && Present(config, t, s) && s.instance == instance && s.node !in names)
        decreases |names|
      {
        var name := AnyOf(names);
        if config.nodeCpuHigh.Some? {
          Visit(t, NodeCpu(instance, name), start, before);
        }
        if config.nodeMemHigh.Some? && t.snap.nodes[instance][name].memTotal > 0 {
          Visit(t, NodeMem(instance, name), start, before);
        }
        names := names - {name};
      }
    }

    method EvaluateGuests(t: Tick, ghost start: Memory, ghost before: seq<Firing>)
      requires OnWalk(t, start, before) && CoversUpTo(config, t, visited, 1)
      modifies this`lastFired, this`sustained, this`log, this`effects, this`order, this`visited
      ensures OnWalk(t, start, before) && CoversUpTo(config, t, visited, 2)
    {
      hide Follows, InStep;
      if config.guestDown.None? {
        return;
      }
      var clusters := t.snap.guests.Keys;
      while clusters != {}
        invariant clusters <= t.snap.guests.Keys && OnWalk(t, start, before)
        invariant forall s :: s in visited <==>
                    s in old(visited) || (s.GuestDown? && Present(config, t, s) && s.cluster !in clusters)
        decreases |clusters|
      {
        var cluster := AnyOf(clusters);
        EvaluateGuestsOf(t, cluster, start, before);
        clusters := clusters - {cluster};
      }
    }

    method EvaluateGuestsOf(t: Tick, cluster: string, ghost start: Memory, ghost before: seq<Firing>)
      requires config.guestDown.Some? && cluster in t.snap.guests
      requires OnWalk(t, start, before) && forall s :: s in visited && (s.GuestDown?) ==> s.cluster != cluster
      modifies this`lastFired, this`sustained, this`log, this`effects, this`order, this`visited
      ensures OnWalk(t, start, before)
      ensures forall s :: s in visited <==>
                s in old(visited) || (s.GuestDown? && Present(config, t, s) && s.cluster == cluster)
    {
      hide Follows, InStep;
      var vmids := t.snap.guests[cluster].Keys;
      while vmids != {}
        invariant vmids <= t.snap.guests[cluster].Keys && OnWalk(t, start, before)
        invariant forall s :: s in visited <==>
                    s in old(visited) ||
                    (s.GuestDown? && Present(config, t, s) && s.cluster == cluster && s.vmid !in vmids)
        decreases |vmids|
      {
        var vmid := AnyOf(vmids);
        Visit(t, GuestDown(cluster, vmid), start, before);
        vmids := vmids - {vmid};
      }
    }

    method EvaluateBackups(t: Tick, ghost start: Memory, ghost before: seq<Firing>)
      requires OnWalk(t, start, before) && CoversUpTo(config, t, visited, 2)
      modifies this`lastFired, this`sustained, this`log, this`effects, this`order, this`visited
      ensures OnWalk(t, start, before) && CoversUpTo(config, t, visited, 3)
    {
      hide Follows, InStep;
      if config.backupStale.None? {
        return;
      }
      var instances := t.snap.backups.Keys;
      while instances != {}
        invariant instances <= t.snap.backups.Keys && OnWalk(t, start, before)
        invariant forall s :: s in visited <==>
                    s in old(visited) || (s.BackupStale? && Present(config, t, s) && s.instance !in instances)
        decreases |instances|
      {
        var instance := AnyOf(instances);
        EvaluateBackupsOf(t, instance, start, before);
        instances := instances - {instance};
      }
    }

    method EvaluateBackupsOf(t: Tick, instance: string, ghost start: Memory, ghost before: seq<Firing>)
      requires config.backupStale.Some? && instance in t.snap.backups
      requires OnWalk(t, start, before) && forall s :: s in visited && (s.BackupStale?) ==> s.instance != instance
      modifies this`lastFired, this`sustained, this`log, this`effects, this`order, this`visited
      ensures OnWalk(t, start, before)
      ensures forall s :: s in visited <==>
                s in old(visited) || (s.BackupStale? && Present(config, t, s) && s.instance == instance)
    {
      hide Follows, InStep;
      var ids := t.snap.backups[instance].Keys;
      while ids != {}
        invariant ids <= t.snap.backups[instance].Keys && OnWalk(t, start, before)
        invariant forall s :: s in visited <==>
                    s in old(visited) ||
                    (s.BackupStale? && Present(config, t, s) && s.instance == instance && s.id !in ids)
        decreases |ids|
      {
        var id := AnyOf(ids);
        Visit(t, BackupStale(instance, id), start, before);
        ids := ids - {id};
      }
    }

    method EvaluateDisks(t: Tick, ghost start: Memory, ghost before: seq<Firing>)
      requires OnWalk(t, start, before) && CoversUpTo(config, t, visited, 3)
      modifies this`lastFired, this`sustained, this`log, this`effects, this`order, this`visited
      ensures OnWalk(t, start, before) && CoversUpTo(config, t, visited, 4)
    {
      hide Follows, InStep;
      if config.diskSmartFailed.None? {
        return;
      }
      var wwns := t.snap.disks.Keys;
      while wwns != {}
        invariant wwns <= t.snap.disks.Keys && OnWalk(t, start, before)
        invariant forall s :: s in visited <==>
                    s in old(visited) || ((s.DiskSmart? || s.DiskScrutiny?) && Present(config, t, s) && s.wwn !in wwns)
        decreases |wwns|
      {
        var wwn := AnyOf(wwns);
        Visit(t, DiskSmart(wwn), start, before);
        Visit(t, DiskScrutiny(wwn), start, before);
        wwns := wwns - {wwn};
      }
    }

    method EvaluateDatastores(t: Tick, ghost start: Memory, ghost before: seq<Firing>)
      requires OnWalk(t, start, before) && CoversUpTo(config, t, visited, 4)
      modifies this`lastFired, this`sustained, this`log, this`effects, this`order, this`visited
      ensures OnWalk(t, start, before) && CoversUpTo(config, t, visited, 5)
    {
      hide Follows, InStep;
      if config.datastoreFull.None? {
        return;
      }
      var instances := t.snap.datastores.Keys;
      while instances != {}
        invariant instances <= t.snap.datastores.Keys && OnWalk(t, start, before)
        invariant forall s :: s in visited <==>
                    s in old(visited) ||
                    ((s.DatastoreFull? || s.DatastoreOffline?) && Present(config, t, s) && s.instance !in instances)
        decreases |instances|
      {
        var instance := AnyOf(instances);
        EvaluateDatastoresOf(t, instance, start, before);
        instances := instances - {instance};
      }
    }

    method EvaluateDatastoresOf(t: Tick, instance: string, ghost start: Memory, ghost before: seq<Firing>)
      requires config.datastoreFull.Some? && instance in t.snap.datastores
      requires OnWalk(t, start, before)
      requires forall s :: s in visited && (s.DatastoreFull? || s.DatastoreOffline?) ==> s.instance != instance
      modifies this`lastFired, this`sustained, this`log, this`effects, this`order, this`visited
      ensures OnWalk(t, start, before)
      ensures forall s :: s in visited <==>
                s in old(visited) ||
                ((s.DatastoreFull? || s.DatastoreOffline?) && Present(config, t, s) && s.instance == instance)
    {
      hide Follows, InStep;
      var stores := t.snap.datastores[instance].Keys;
      while stores != {}
        invariant stores <= t.snap.datastores[instance].Keys && OnWalk(t, start, before)
        invariant forall s :: s in visited <==>
                    s in old(visited) ||
                    ((s.DatastoreFull? || s.DatastoreOffline?) && Present(config, t, s)
                     && s.instance == instance && s.store !in stores)
        decreases |stores|
      {
        var store := AnyOf(stores);
        Visit(t, DatastoreFull(instance, store), start, before);
        Visit(t, DatastoreOffline(instance, store), start, before);
        stores := stores - {store};
      }
    }

    /** `evaluate`: one more round of the run, whatever order the maps are walked in. */
    method Evaluate(t: Tick)
      requires Valid()
      modifies this
      ensures Valid() && ticks == old(ticks) + [t]
      ensures |walks| == |old(walks)| + 1 && walks[..|old(walks)|] == old(walks)
    {
      hide Follows, IsRun, IsRound, AlertRuns.Exec, AlertRuns.Raised, AlertMachine.ApplyAll, AlertMachine.Recall;
      hide IsWalk, AllPresent, OrderOf, EffectsOf;
      Cleanup(t.now);
      WalkAll(t);
      MakesRound(config, t, visited, order);
      RunExtends(config, ticks, walks, rounds, t, visited, Round(t.now, order));
      RunGrows(rounds, Round(t.now, order));
      ticks, walks, rounds := ticks + [t], walks + [visited], rounds + [Round(t.now, order)];
    }

    method WalkAll(t: Tick)
      requires effects == EffectsOf(log, providers)
      modifies this`lastFired, this`sustained, this`log, this`effects, this`order, this`visited
      ensures Follows(config, t, visited, order) && IsWalk(config, t, visited)
      ensures Mem() == ApplyAll(old(Mem()), t.now, order).mem
      ensures log == old(log) + ApplyAll(old(Mem()), t.now, order).log
      ensures effects == EffectsOf(log, providers)
    {
      ghost var start, before := Mem(), log;
      visited, order := [], [];
      hide Follows, EffectsOf, CoversUpTo, IsWalk;
      CoversNothing(config, t);
      FollowsNothing(config, t);
      EvaluateNodes(t, start, before);
      EvaluateGuests(t, start, before);
      EvaluateBackups(t, start, before);
      EvaluateDisks(t, start, before);
      EvaluateDatastores(t, start, before);
      FollowsOrder(config, t, visited, order);
      CoversAll(config, t, visited);
    }

    // ---- What the object's log amounts to ---------------------------------------

    ghost predicate OnTime()
      reads this
    {
      forall i, j :: 0 <= i <= j < |ticks| ==> ticks[i].now <= ticks[j].now
    }

    lemma RunSoFar()
      requires Valid() && OnTime()
      ensures TimelyRun(config, ticks, walks) && Walks(config, ticks, walks) && rounds == Rounds(config, ticks, walks)
    {
      RunHasRounds(config, ticks, walks, rounds);
      forall i | 0 <= i < |ticks| ensures IsWalk(config, ticks[i], walks[i]) {
        assert IsRound(config, ticks[i], walks[i], rounds[i]);
      }
    }

    /** Two alerts it raised with one key are at least the rule's cooldown, or more than six hours, apart. */
    lemma AlertsAreSpaced(s: Subject, p: nat, q: nat)
      requires Valid() && OnTime() && p < q < |log|
      requires log[p].key == log[q].key && Prefix(s) <= log[q].key
      ensures FarApart(log[p].at, log[q].at, RuleCooldown(config, s), true)
    {
      hide RuleCooldown, AlertRuns.Raised, IsRun, EffectsOf;
      RunSoFar();
      RulesAreSpaced(config, ticks, walks, s, log[q].key);
    }

    /**
     What it did outside is one store attempt and one send per provider for each alert, in
     order, and nothing else.
     */
    lemma AlertsGoOut(i: nat)
      requires Valid() && i < |log|
      ensures |effects| == |log| * (|providers| + 1) && AccountsFor(effects, log[i], providers, i * (|providers| + 1))
    {
      EffectsLayout(log, providers);
    }

    /** The log entry is the alert of the subject at a tick where its condition held. */
    ghost predicate IsAlertOf(k: nat, s: Subject, i: nat)
      requires k < |log| && i < |ticks|
      reads this
    {
      && log[k].key == KeyFor(s) && log[k].at == ticks[i].now && HoldsAt(config, ticks[i], s)
      && Present(config, ticks[i], s) && Announces(log[k].notice, config, ticks[i], s)
    }

    lemma FiringIsAlert(all: Instances, s: Subject, k: nat, i: nat)
      requires Valid() && LegalRun(config, all, ticks, walks, s) && k < |log| && i < |ticks|
      requires log[k].key == KeyFor(s) && AlertRuns.Fires(rounds, true, i, KeyFor(s))
      requires ComesFrom(log[k], rounds[i].order, rounds[i].now)
      ensures IsAlertOf(k, s, i)
    {
      hide KeyFor, HoldsAt, Announces, Present, CheckOf, AlertRuns.Raised, AlertRuns.Fires, IsRun, EffectsOf, NamedFor;
      hide ComesFrom, Single;
      RunSoFar();
      RunIsLegal(config, all, ticks, walks, s);
      FiredHolds(config, all, ticks, walks, i, s);
      ConditionExactly(config, ticks[i], s);
      SeenSubject(config, all, ticks, walks, i, s);
      ComesFromSeen(log[k], rounds[i].order, rounds[i].now);
      CheckAnnounces(config, ticks[i], s);
    }

    /** A node or guest whose condition held throughout a window has its alert in the log. */
    lemma AlertIsRaised(all: Instances, s: Subject, from: int, gap: int) returns (k: nat, i: nat)
      requires Valid() && LegalRun(config, all, ticks, walks, s) && TimedRule.requires(config, s)
      requires Answerable(TimedRule(config, s).0, TimedRule(config, s).1, gap)
      requires HeldThroughout(config, ticks, s, from, gap)
      ensures k < |log| && i < |ticks| && IsAlertOf(k, s, i)
      ensures from <= log[k].at <= from + Window(TimedRule(config, s).0, TimedRule(config, s).1, gap)
    {
      hide HeldThroughout, KeyFor, HoldsAt, AlertRuns.Raised, AlertRuns.Fires, IsRun, EffectsOf, NamedFor, IsAlertOf;
      RunSoFar();
      i := RuleResponds(config, all, ticks, walks, s, from, gap);
      k := FiringIsRaised(rounds, true, i, KeyFor(s));
      FiringIsAlert(all, s, k, i);
      IsAlertThen(k, s, i);
    }

    lemma IsAlertThen(k: nat, s: Subject, i: nat)
      requires k < |log| && i < |ticks| && IsAlertOf(k, s, i)
      ensures log[k].key == KeyFor(s) && log[k].at == ticks[i].now && HoldsAt(config, ticks[i], s)
    {
    }

    /** A backup, disk or datastore whose condition held has its alert in the log, of then or of within the cooldown. */
    lemma InstantAlertIsRaised(all: Instances, s: Subject, i: nat) returns (k: nat, j: nat)
      requires Valid() && LegalRun(config, all, ticks, walks, s) && IsInstant(s)
      requires i < |ticks| && HoldsAt(config, ticks[i], s)
      ensures k < |log| && j <= i && IsAlertOf(k, s, j)
      ensures j == i || ticks[i].now - ticks[j].now < RuleCooldown(config, s)
    {
      hide KeyFor, HoldsAt, AlertRuns.Raised, AlertRuns.Fires, IsRun, EffectsOf, NamedFor, IsAlertOf, RuleCooldown;
      RunSoFar();
      InstantFiresExactly(config, all, ticks, walks, i, s);
      j := i;
      if !AlertRuns.Fires(rounds, true, i, KeyFor(s)) {
        j :| && 0 <= j < i && AlertRuns.Fires(rounds, true, j, KeyFor(s))
             && rounds[i].now - rounds[j].now < RuleCooldown(config, s);
      }
      k := FiringIsRaised(rounds, true, j, KeyFor(s));
      FiringIsAlert(all, s, k, j);
    }

    /**
     It raised an alert only at a tick where the condition held, and by a timed rule only
     after it had lasted, never seen clear.
     */
    lemma AlertIsDeserved(all: Instances, s: Subject, k: nat) returns (i: nat)
      requires Valid() && LegalRun(config, all, ticks, walks, s)
      requires k < |log| && log[k].key == KeyFor(s)
      ensures i < |ticks| && IsAlertOf(k, s, i)
      ensures TimedRule.requires(config, s) ==>
                exists j :: && 0 <= j < i && HoldsAt(config, ticks[j], s)
                            && TimedRule(config, s).1 <= log[k].at - ticks[j].now <= MAX_AGE
                            && forall m :: j < m <= i ==> !ClearAt(config, ticks[m], s)
    {
      hide KeyFor, HoldsAt, ClearAt, AlertRuns.Raised, AlertRuns.Fires, IsRun, EffectsOf, NamedFor, IsAlertOf;
      RunSoFar();
      i := RaisedIsFiring(rounds, true, k);
      FiringIsAlert(all, s, k, i);
      IsAlertThen(k, s, i);
      if TimedRule.requires(config, s) {
        RuleIsSound(config, all, ticks, walks, i, s);
      }
    }

    /** The ticker loop over a run of ticks. */
    method Run(inputs: seq<Tick>)
      requires Valid()
      modifies this
      ensures Valid() && ticks == old(ticks) + inputs
    {
      hide IsRun, EffectsOf, AlertRuns.Raised, AlertRuns.Exec;
      var i := 0;
      while i < |inputs|
        invariant 0 <= i <= |inputs|
        invariant Valid() && ticks == old(ticks) + inputs[..i]
      {
        Evaluate(inputs[i]);
        i := i + 1;
      }
    }
  }
}
