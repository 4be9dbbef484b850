/**
 The backup index: a PBS poll keeps the latest snapshot per datastore and backup id,
 and every reader answers from the kept entries as it would from all the snapshots.
 */
module BackupIndex {
  import opened Model
  import opened Names
  import AlertRules
  import Decimal

  function KeyOf(b: Backup): string {
    Joined(b.datastore, b.backupId)
  }

  /** All the snapshots the poll fetched: a datastore whose listing failed has none. */
  ghost function Raw(datastores: set<string>, listings: map<string, seq<Backup>>): set<Backup> {
    set d, b | d in datastores && d in listings && b in listings[d] :: b
  }

  /** Each entry is a latest snapshot of its group, and each snapshot's group has an entry. */
  ghost predicate IsIndex(index: map<string, Backup>, raw: set<Backup>) {
    && (forall k :: k in index ==> index[k] in raw && KeyOf(index[k]) == k)
    && (forall b :: b in raw ==> KeyOf(b) in index && b.backupTime <= index[KeyOf(b)].backupTime)
  }

  ghost function SetOf(s: seq<Backup>): set<Backup> {
    set b | b in s
  }

  /** `e` is the first snapshot in the list to have the greatest time of the group `k`. */
  ghost predicate FirstLatest(s: seq<Backup>, k: string, e: Backup) {
    exists i :: 0 <= i < |s| && IsFirstLatest(s, k, e, i)
  }

  ghost predicate IsFirstLatest(s: seq<Backup>, k: string, e: Backup, i: nat)
    requires i < |s|
  {
    && s[i] == e && KeyOf(e) == k
    && (forall j :: 0 <= j < i && KeyOf(s[j]) == k ==> s[j].backupTime < e.backupTime)
    && (forall j :: i <= j < |s| && KeyOf(s[j]) == k ==> s[j].backupTime <= e.backupTime)
  }

  /** Listings as the server gives them, a datastore's own snapshots, where a key stands for one backup. */
  ghost predicate WellFiled(listings: map<string, seq<Backup>>) {
    && (forall d, b :: d in listings && b in listings[d] ==> b.datastore == d)
    && (Unnested(listings.Keys) || forall d, b :: d in listings && b in listings[d] ==> SlashFree(b.backupId))
  }

  lemma OneKeyOneStore(listings: map<string, seq<Backup>>, d: string, b: Backup, e: string, c: Backup)
    requires WellFiled(listings) && d in listings && b in listings[d] && e in listings && c in listings[e]
    requires KeyOf(b) == KeyOf(c)
    ensures d == e
  {
    if Unnested(listings.Keys) {
      SplitUnnested(listings.Keys, d, b.backupId, e, c.backupId);
    } else {
      SplitLastSlash(d, b.backupId, e, c.backupId);
    }
  }

  /** The groups of the listed datastores are kept, each by the first of its latest snapshots. */
  ghost predicate KeepsFirst(index: map<string, Backup>, datastores: set<string>, listings: map<string, seq<Backup>>) {
    forall d, b :: d in datastores && d in listings && b in listings[d] ==>
      KeyOf(b) in index && FirstLatest(listings[d], KeyOf(b), index[KeyOf(b)])
  }

  /** The keep-latest loops of `Collect`, over the datastores in any order. */
  method KeepLatest(datastores: set<string>, listings: map<string, seq<Backup>>) returns (backups: map<string, Backup>)
    ensures IsIndex(backups, Raw(datastores, listings))
    ensures WellFiled(listings) ==> KeepsFirst(backups, datastores, listings)
  {
    hide IsIndex, FirstLatest, KeepsFirst, WellFiled;
    backups := map[];
    IndexOfNothing(listings);
    assert datastores - datastores == {} && Raw({}, listings) == {};
    var todo := datastores;
    while todo != {}
      invariant todo <= datastores
      invariant IsIndex(backups, Raw(datastores - todo, listings))
      invariant WellFiled(listings) ==> KeepsFirst(backups, datastores - todo, listings)
      decreases |todo|
    {
      var d :| d in todo;
      ghost var done := Raw(datastores - todo, listings);
      assert datastores - (todo - {d}) == datastores - todo + {d};
      if d in listings {
        ghost var before := backups;
        backups := KeepLatestOf(backups, listings[d], done);
        assert Raw(datastores - (todo - {d}), listings) == done + SetOf(listings[d]);
        if WellFiled(listings) {
          OneMoreStore(before, backups, datastores - todo, listings, d);
        }
      } else {
        assert Raw(datastores - (todo - {d}), listings) == done;
        AbsentStore(backups, datastores - todo, listings, d);
      }
      todo := todo - {d};
    }
    assert datastores - todo == datastores;
  }

  lemma AbsentStore(index: map<string, Backup>, done: set<string>, listings: map<string, seq<Backup>>, d: string)
    requires d !in listings
    ensures KeepsFirst(index, done, listings) ==> KeepsFirst(index, done + {d}, listings)
  {
  }

  /** What one datastore's snapshots do to the index. */
  ghost predicate Folded(before: map<string, Backup>, after: map<string, Backup>, snaps: seq<Backup>) {
    && (forall k :: k in after && k !in before ==> FirstLatest(snaps, k, after[k]))
    && (forall k :: k in before && (forall b :: b in snaps ==> KeyOf(b) != k) ==> k in after && after[k] == before[k])
    && (forall b :: b in snaps ==> KeyOf(b) in after)
  }

  lemma OneMoreStore(before: map<string, Backup>, after: map<string, Backup>, done: set<string>,
                     listings: map<string, seq<Backup>>, d: string)
    requires WellFiled(listings) && KeepsFirst(before, done, listings) && IsIndex(before, Raw(done, listings))
    requires d in listings && d !in done && Folded(before, after, listings[d])
    ensures KeepsFirst(after, done + {d}, listings)
  {
    hide FirstLatest, WellFiled, KeyOf;
    forall e, b | e in done + {d} && e in listings && b in listings[e]
      ensures KeyOf(b) in after && FirstLatest(listings[e], KeyOf(b), after[KeyOf(b)])
    {
      if e == d {
        if KeyOf(b) in before {
          var c := before[KeyOf(b)];
          assert c in Raw(done, listings);
          var f :| f in done && f in listings && c in listings[f];
          OneKeyOneStore(listings, d, b, f, c);
        }
      } else {
        forall c | c in listings[d] ensures KeyOf(c) != KeyOf(b) {
          if KeyOf(c) == KeyOf(b) {
            OneKeyOneStore(listings, d, c, e, b);
          }
        }
      }
    }
  }

  /** One snapshot: a new group, or a newer one of its group. */
  function Keep(index: map<string, Backup>, b: Backup): map<string, Backup> {
    if KeyOf(b) !in index || b.backupTime > index[KeyOf(b)].backupTime then index[KeyOf(b) := b] else index
  }

  /** The inner loop, over the snapshots of one datastore. */
  method KeepLatestOf(before: map<string, Backup>, snaps: seq<Backup>, ghost done: set<Backup>)
    returns (backups: map<string, Backup>)
    requires IsIndex(before, done)
    ensures IsIndex(backups, done + SetOf(snaps)) && Folded(before, backups, snaps)
  {
    hide IsIndex, Folded;
    backups := before;
    var i := 0;
    assert done + SetOf(snaps[..0]) == done;
    FoldedNothing(before);
    while i < |snaps|
      invariant 0 <= i <= |snaps|
      invariant IsIndex(backups, done + SetOf(snaps[..i])) && Folded(before, backups, snaps[..i])
    {
      ghost var was := backups;
      backups := Keep(backups, snaps[i]);
      assert snaps[..i + 1] == snaps[..i] + [snaps[i]];
      assert done + SetOf(snaps[..i + 1]) == done + SetOf(snaps[..i]) + {snaps[i]};
      KeepIndexed(was, done + SetOf(snaps[..i]), snaps[i]);
      KeepFolded(before, was, snaps[..i], snaps[i]);
      i := i + 1;
    }
    assert snaps[..i] == snaps;
  }

  lemma KeepIndexed(index: map<string, Backup>, raw: set<Backup>, b: Backup)
    requires IsIndex(index, raw)
    ensures IsIndex(Keep(index, b), raw + {b})
  {
  }

  lemma FoldedNothing(before: map<string, Backup>)
    ensures Folded(before, before, [])
  {
  }

  lemma KeepFolded(before: map<string, Backup>, after: map<string, Backup>, snaps: seq<Backup>, b: Backup)
    requires Folded(before, after, snaps)
    ensures Folded(before, Keep(after, b), snaps + [b])
  {
    var index, longer := Keep(after, b), snaps + [b];
    forall k | k in index && k !in before ensures FirstLatest(longer, k, index[k]) {
      if k in after {
        var i :| 0 <= i < |snaps| && IsFirstLatest(snaps, k, after[k], i);
        if index[k] == after[k] {
          assert IsFirstLatest(longer, k, index[k], i);
        } else {
          assert IsFirstLatest(longer, k, index[k], |snaps|);
        }
      } else {
        assert IsFirstLatest(longer, k, index[k], |snaps|);
      }
    }
  }

  lemma IndexOfNothing(listings: map<string, seq<Backup>>)
    ensures IsIndex(map[], {}) && KeepsFirst(map[], {}, listings)
  {
  }

  lemma FirstLatestUnique(s: seq<Backup>, k: string, e: Backup, f: Backup)
    requires FirstLatest(s, k, e) && FirstLatest(s, k, f)
    ensures e == f
  {
    var i :| 0 <= i < |s| && IsFirstLatest(s, k, e, i);
    var j :| 0 <= j < |s| && IsFirstLatest(s, k, f, j);
    assert i == j;
  }

  /** The order in which the datastores are visited does not show. */
  lemma IndexUnique(a: map<string, Backup>, b: map<string, Backup>,
                    datastores: set<string>, listings: map<string, seq<Backup>>)
    requires IsIndex(a, Raw(datastores, listings)) && IsIndex(b, Raw(datastores, listings))
    requires KeepsFirst(a, datastores, listings) && KeepsFirst(b, datastores, listings)
    ensures a == b
  {
    hide FirstLatest;
    var raw := Raw(datastores, listings);
    forall k ensures k in a.Keys <==> k in b.Keys {
      if k in a {
        assert a[k] in raw && KeyOf(a[k]) in b;
      }
      if k in b {
        assert b[k] in raw && KeyOf(b[k]) in a;
      }
    }
    forall k | k in a ensures a[k] == b[k] {
      assert a[k] in raw;
      var d :| d in datastores && d in listings && a[k] in listings[d];
      FirstLatestUnique(listings[d], k, a[k], b[k]);
    }
  }

  // ---- Which guest a backup belongs to ---------------------------------------

  predicate HasSuffix(s: string, suffix: string) {
    |suffix| <= |s| && s[|s| - |suffix|..] == suffix
  }

  predicate Matches(backupId: string, vmidText: string) {
    backupId == vmidText || HasSuffix(backupId, "-" + vmidText)
  }

  lemma DashAndDigits(id: string, x: string)
    requires Decimal.AllDigits(x) && HasSuffix(id, "-" + x)
    ensures var p := |id| - |x| - 1;
            p >= 0 && id[p] == '-' && id[p + 1..] == x && forall i :: p < i < |id| ==> Decimal.IsDigit(id[i])
  {
    var p := |id| - |x| - 1;
    assert id[p..] == "-" + x && id[p] == id[p..][0];
    assert id[p + 1..] == id[p..][1..] == x;
    assert forall i :: p < i < |id| ==> id[i] == x[i - p - 1];
  }

  /** A run of digits after the last dash is determined by the text. */
  lemma DigitsAfterDash(id: string, x: string, y: string)
    requires Decimal.AllDigits(x) && Decimal.AllDigits(y)
    requires HasSuffix(id, "-" + x) && HasSuffix(id, "-" + y)
    ensures x == y
  {
    hide HasSuffix;
    DashAndDigits(id, x);
    DashAndDigits(id, y);
    assert |x| == |y|;
  }

  lemma SuffixHasDash(id: string, x: string)
    requires HasSuffix(id, "-" + x)
    ensures '-' in id
  {
    assert id[|id| - |x| - 1] == id[|id| - |x| - 1..][0] == '-';
  }

  /** A backup id belongs to at most one guest. */
  lemma OneGuestPerBackup(id: string, v: int, w: int)
    requires 0 <= v && 0 <= w
    requires Matches(id, Decimal.Itoa(v)) && Matches(id, Decimal.Itoa(w))
    ensures v == w
  {
    var x, y := Decimal.Itoa(v), Decimal.Itoa(w);
    assert '-' !in x && '-' !in y;
    if '-' in id {
      DigitsAfterDash(id, x, y);
    } else if HasSuffix(id, "-" + x) {
      SuffixHasDash(id, x);
    } else if HasSuffix(id, "-" + y) {
      SuffixHasDash(id, y);
    }
    Decimal.ItoaInjective(v, w);
  }

  function Digits(v: int): string {
    Decimal.Dec(if v < 0 then -v else v)
  }

  /** The sign of a number is lost on the ids it matches. */
  lemma MatchesByDigits(id: string, v: int)
    requires Matches(id, Decimal.Itoa(v))
    ensures Matches(id, Digits(v))
  {
    var d := Digits(v);
    if v < 0 {
      if id == Decimal.Itoa(v) {
        assert id[|id| - |"-" + d|..] == "-" + d;
      } else {
        var t := "-" + Decimal.Itoa(v);
        assert id[|id| - |t|..] == t && t[1..] == "-" + d;
        assert id[|id| - |t| + 1..] == id[|id| - |t|..][1..];
      }
    }
  }

  /** Two numbers have backup ids in common exactly when they are equal or opposite. */
  lemma SharedIdsExactly(v: int, w: int)
    ensures (exists id :: Matches(id, Decimal.Itoa(v)) && Matches(id, Decimal.Itoa(w))) <==> v == w || v == -w
  {
    if id :| Matches(id, Decimal.Itoa(v)) && Matches(id, Decimal.Itoa(w)) {
      MatchesByDigits(id, v);
      MatchesByDigits(id, w);
      OneGuestPerBackup(id, if v < 0 then -v else v, if w < 0 then -w else w);
    }
    var id := if v < 0 then Decimal.Itoa(v) else "-" + Decimal.Itoa(v);
    if v == w {
      assert Matches(Decimal.Itoa(v), Decimal.Itoa(v));
    } else if v == -w {
      assert id == "-" + Digits(v) == "-" + Digits(w);
      assert id[0..] == id;
      assert Matches(id, Decimal.Itoa(v)) && Matches(id, Decimal.Itoa(w));
    }
  }

  // ---- Readers ----------------------------------------------------------------

  ghost function Entries(backups: map<string, map<string, Backup>>): set<Backup> {
    set i, k | i in backups && k in backups[i] :: backups[i][k]
  }

  ghost predicate Mine(b: Backup, vmid: int) {
    Matches(b.backupId, Decimal.Itoa(vmid))
  }

  /** 0 without a matching backup, else the greatest time of the matching ones. */
  ghost predicate IsLatestFor(all: set<Backup>, vmid: int, t: int) {
    if exists b :: b in all && Mine(b, vmid) then
      && (exists b :: b in all && Mine(b, vmid) && b.backupTime == t)
      && (forall b :: b in all && Mine(b, vmid) ==> b.backupTime <= t)
    else t == 0
  }

  ghost predicate Descending(s: seq<Backup>) {
    forall i, j :: 0 <= i < j < |s| ==> s[i].backupTime >= s[j].backupTime
  }

  /** Stands for sort.Slice by descending time: some order of the same elements. */
  method SortByTime(s: seq<Backup>) returns (r: seq<Backup>)
    ensures multiset(r) == multiset(s) && Descending(r)
  {
    r := [];
    var i := 0;
    while i < |s|
      invariant 0 <= i <= |s| && multiset(r) == multiset(s[..i]) && Descending(r)
    {
      r := InsertByTime(r, s[i]);
      assert s[..i + 1] == s[..i] + [s[i]];
      i := i + 1;
    }
    assert s[..i] == s;
  }

  method InsertByTime(r: seq<Backup>, b: Backup) returns (q: seq<Backup>)
    requires Descending(r)
    ensures multiset(q) == multiset(r) + multiset{b} && Descending(q)
  {
    var j := 0;
    while j < |r| && r[j].backupTime >= b.backupTime
      invariant 0 <= j <= |r|
      invariant forall k :: 0 <= k < j ==> r[k].backupTime >= b.backupTime
    {
      j := j + 1;
    }
    q := r[..j] + [b] + r[j..];
    InsertedElements(r, j, b);
    InsertedDescends(r, j, b);
  }

  lemma InsertedElements(r: seq<Backup>, j: nat, b: Backup)
    requires j <= |r|
    ensures multiset(r[..j] + [b] + r[j..]) == multiset(r) + multiset{b}
  {
    assert r == r[..j] + r[j..];
  }

  lemma InsertedDescends(r: seq<Backup>, j: nat, b: Backup)
    requires j <= |r| && Descending(r)
    requires forall k :: 0 <= k < j ==> r[k].backupTime >= b.backupTime
    requires j < |r| ==> b.backupTime >= r[j].backupTime
    ensures Descending(r[..j] + [b] + r[j..])
  {
    var q := r[..j] + [b] + r[j..];
    assert forall k :: 0 <= k < |q| ==> q[k] == if k < j then r[k] else if k == j then b else r[k - 1];
  }

  ghost function Pairs(backups: map<string, map<string, Backup>>): set<(string, string)> {
    set i, k | i in backups && k in backups[i] :: (i, k)
  }

  /** Where the guest's backups are filed. */
  ghost function MinePairs(backups: map<string, map<string, Backup>>, vmid: int): set<(string, string)> {
    set p | p in Pairs(backups) && Mine(backups[p.0][p.1], vmid)
  }

  ghost function MineKeys(backups: map<string, Backup>, vmid: int): set<string> {
    set k | k in backups && Mine(backups[k], vmid)
  }

  lemma {:induction false} PairedCount(i: string, keys: set<string>)
    ensures |set k | k in keys :: (i, k)| == |keys|
  {
    if keys != {} {
      var k :| k in keys;
      PairedCount(i, keys - {k});
      assert (set x | x in keys :: (i, x)) == (set x | x in keys - {k} :: (i, x)) + {(i, k)};
    }
  }

  /** Those of the instances already ranged over. */
  ghost function FoundPairs(backups: map<string, map<string, Backup>>, vmid: int, todo: set<string>)
    : set<(string, string)>
  {
    set p | p in MinePairs(backups, vmid) && p.0 !in todo
  }

  lemma FoundIn(backups: map<string, map<string, Backup>>, vmid: int, todo: set<string>, p: (string, string))
    ensures p in FoundPairs(backups, vmid, todo)
            <==> p.0 in backups && p.0 !in todo && p.1 in MineKeys(backups[p.0], vmid)
  {
    hide Mine;
  }

  /** One more instance's backups, none of them counted before. */
  lemma OneMoreInstance(backups: map<string, map<string, Backup>>, vmid: int, todo: set<string>, i: string)
    requires i in backups && i in todo
    ensures |FoundPairs(backups, vmid, todo - {i})| == |FoundPairs(backups, vmid, todo)| + |MineKeys(backups[i], vmid)|
  {
    hide Mine, MineKeys, FoundPairs;
    var here := set k | k in MineKeys(backups[i], vmid) :: (i, k);
    var before, after := FoundPairs(backups, vmid, todo), FoundPairs(backups, vmid, todo - {i});
    forall p ensures p in after <==> p in before || p in here {
      FoundIn(backups, vmid, todo, p);
      FoundIn(backups, vmid, todo - {i}, p);
    }
    forall p | p in here ensures p !in before {
      FoundIn(backups, vmid, todo, p);
    }
    PairedCount(i, MineKeys(backups[i], vmid));
    assert after == before + here;
  }

  /** The guest's backups, newest first, one for each place where one is filed. */
  method BackupsForGuest(backups: map<string, map<string, Backup>>, vmid: int) returns (result: seq<Backup>)
    ensures Descending(result) && |result| == |MinePairs(backups, vmid)|
    ensures forall b :: b in result <==> b in Entries(backups) && Mine(b, vmid)
  {
    hide Mine;
    result := [];
    var instances := backups.Keys;
    assert FoundPairs(backups, vmid, instances) == {};
    while instances != {}
      invariant instances <= backups.Keys
      invariant |result| == |FoundPairs(backups, vmid, instances)|
      invariant forall b :: b in result ==> b in Entries(backups) && Mine(b, vmid)
      invariant forall i, k :: i in backups && i !in instances && k in backups[i] && Mine(backups[i][k], vmid) ==>
                  backups[i][k] in result
      decreases |instances|
    {
      var i :| i in instances;
      var more := MatchesWithin(backups[i], vmid);
      OneMoreInstance(backups, vmid, instances, i);
      result := result + more;
      instances := instances - {i};
    }
    assert FoundPairs(backups, vmid, instances) == MinePairs(backups, vmid);
    var sorted := SortByTime(result);
    assert |multiset(sorted)| == |multiset(result)|;
    assert forall b :: b in result <==> b in multiset(result);
    assert forall b :: b in sorted <==> b in multiset(sorted);
    result := sorted;
  }

  /** The inner loop, over one instance. */
  method MatchesWithin(backups: map<string, Backup>, vmid: int) returns (result: seq<Backup>)
    ensures |result| == |MineKeys(backups, vmid)|
    ensures forall b :: b in result ==> Mine(b, vmid) && exists k :: k in backups && backups[k] == b
    ensures forall k :: k in backups && Mine(backups[k], vmid) ==> backups[k] in result
  {
    var vmidText := Decimal.Itoa(vmid);
    result := [];
    hide Matches;
    var keys := backups.Keys;
    ghost var found: set<string> := {};
    while keys != {}
      invariant keys <= backups.Keys && |result| == |found|
      invariant found == set k | k in MineKeys(backups, vmid) && k !in keys
      invariant forall b :: b in result ==> Mine(b, vmid) && exists k :: k in backups && backups[k] == b
      invariant forall k :: k in backups && k !in keys && Mine(backups[k], vmid) ==> backups[k] in result
      decreases |keys|
    {
      var k :| k in keys;
      if Matches(backups[k].backupId, vmidText) {
        assert k !in found;
        result := result + [backups[k]];
        found := found + {k};
      }
      keys := keys - {k};
    }
    assert found == MineKeys(backups, vmid);
  }

  method LatestBackupTime(backups: map<string, map<string, Backup>>, vmid: int) returns (t: int)
    ensures IsLatestFor(Entries(backups), vmid, t)
  {
    var bs := BackupsForGuest(backups, vmid);
    if |bs| == 0 {
      assert forall b :: b in Entries(backups) && Mine(b, vmid) ==> b in bs;
      t := 0;
    } else {
      assert bs[0] in bs;
      t := bs[0].backupTime;
      forall b | b in Entries(backups) && Mine(b, vmid) ensures b.backupTime <= t {
        assert b in bs;
      }
    }
  }

  ghost predicate IsLast(all: set<Backup>, t: int) {
    && t >= 0 && (forall b :: b in all ==> b.backupTime <= t)
    && (t > 0 ==> exists b :: b in all && b.backupTime == t)
  }

  /** The backup part of the widget: how many entries there are, and the newest time. */
  method WidgetBackups(backups: map<string, map<string, Backup>>) returns (total: nat, last: int)
    ensures total == |Pairs(backups)| && IsLast(Entries(backups), last)
  {
    total, last := 0, 0;
    var instances := backups.Keys;
    ghost var seen: set<(string, string)> := {};
    while instances != {}
      invariant instances <= backups.Keys && last >= 0 && total == |seen|
      invariant forall p :: p in seen <==> p in Pairs(backups) && p.0 !in instances
      invariant forall p :: p in seen ==> backups[p.0][p.1].backupTime <= last
      invariant last > 0 ==> exists p :: p in seen && backups[p.0][p.1].backupTime == last
      decreases |instances|
    {
      var i :| i in instances;
      var keys := backups[i].Keys;
      while keys != {}
        invariant keys <= backups[i].Keys && last >= 0 && total == |seen|
        invariant forall p :: p in seen <==> p in Pairs(backups) && (p.0 !in instances || (p.0 == i && p.1 !in keys))
        invariant forall p :: p in seen ==> backups[p.0][p.1].backupTime <= last
        invariant last > 0 ==> exists p :: p in seen && backups[p.0][p.1].backupTime == last
        decreases |keys|
      {
        var k :| k in keys;
        total := total + 1;
        assert (i, k) !in seen;
        seen := seen + {(i, k)};
        if backups[i][k].backupTime > last {
          last := backups[i][k].backupTime;
          assert backups[(i, k).0][(i, k).1].backupTime == last;
        }
        keys := keys - {k};
      }
      instances := instances - {i};
    }
    assert seen == Pairs(backups);
    forall b | b in Entries(backups) ensures b.backupTime <= last {
      var j, k :| j in backups && k in backups[j] && b == backups[j][k];
      assert (j, k) in seen;
    }
  }

  // ---- The compressed index answers like the raw list -----------------------------

  /** Every instance's entries are the index of its snapshots. */
  ghost predicate Indexes(backups: map<string, map<string, Backup>>, raws: map<string, set<Backup>>) {
    backups.Keys == raws.Keys && forall i :: i in backups ==> IsIndex(backups[i], raws[i])
  }

  ghost function AllRaw(raws: map<string, set<Backup>>): set<Backup> {
    set i, b | i in raws && b in raws[i] :: b
  }

  ghost function StoresOf(raw: set<Backup>): set<string> {
    set b | b in raw :: b.datastore
  }

  /** In each instance the datastores do not nest, or else the backup ids have no slash. */
  ghost predicate KeysTell(raws: map<string, set<Backup>>) {
    forall i :: i in raws ==> Unnested(StoresOf(raws[i])) || forall b :: b in raws[i] ==> SlashFree(b.backupId)
  }

  /** Then a group is one datastore and one backup id. */
  lemma GroupIsOneBackup(raw: set<Backup>, b: Backup, c: Backup)
    requires b in raw && c in raw && KeyOf(b) == KeyOf(c)
    requires Unnested(StoresOf(raw)) || (SlashFree(b.backupId) && SlashFree(c.backupId))
    ensures b.datastore == c.datastore && b.backupId == c.backupId
  {
    if Unnested(StoresOf(raw)) {
      SplitUnnested(StoresOf(raw), b.datastore, b.backupId, c.datastore, c.backupId);
    } else {
      SplitLastSlash(b.datastore, b.backupId, c.datastore, c.backupId);
    }
  }

  /** Each snapshot is outlived by an entry of its own backup. */
  lemma Covered(backups: map<string, map<string, Backup>>, raws: map<string, set<Backup>>, b: Backup)
    returns (e: Backup)
    requires Indexes(backups, raws) && b in AllRaw(raws)
    ensures e in Entries(backups) && b.backupTime <= e.backupTime
    ensures KeysTell(raws) ==> e.backupId == b.backupId
  {
    var i :| i in raws && b in raws[i];
    e := backups[i][KeyOf(b)];
    assert e in Entries(backups) && e in raws[i] && e in AllRaw(raws);
    if KeysTell(raws) {
      GroupIsOneBackup(raws[i], b, e);
    }
  }

  lemma EntriesAreRaw(backups: map<string, map<string, Backup>>, raws: map<string, set<Backup>>)
    requires Indexes(backups, raws)
    ensures Entries(backups) <= AllRaw(raws)
  {
  }

  /** The latest backup of a guest is the same over the entries and over all the snapshots. */
  lemma LatestLikeRaw(backups: map<string, map<string, Backup>>, raws: map<string, set<Backup>>, vmid: int, t: int)
    requires Indexes(backups, raws) && KeysTell(raws)
    ensures IsLatestFor(Entries(backups), vmid, t) <==> IsLatestFor(AllRaw(raws), vmid, t)
  {
    hide Indexes, KeysTell, Matches, Entries, AllRaw;
    EntriesAreRaw(backups, raws);
    forall b | b in AllRaw(raws) && Mine(b, vmid)
      ensures Outlived(Entries(backups), vmid, b)
    {
      var e := Covered(backups, raws, b);
      assert Mine(e, vmid);
    }
    SameLatest(Entries(backups), AllRaw(raws), vmid, t);
  }

  lemma SameLatest(kept: set<Backup>, all: set<Backup>, vmid: int, t: int)
    requires kept <= all
    requires forall b :: b in all && Mine(b, vmid) ==> Outlived(kept, vmid, b)
    ensures IsLatestFor(kept, vmid, t) <==> IsLatestFor(all, vmid, t)
  {
    hide Mine, Outlived;
    if IsLatestFor(kept, vmid, t) {
      forall b | b in all && Mine(b, vmid)
        ensures b.backupTime <= t && exists e :: e in kept && Mine(e, vmid)
      {
        var e := Outliving(kept, vmid, b);
      }
    }
    if IsLatestFor(all, vmid, t) && exists b :: b in all && Mine(b, vmid) {
      var b :| b in all && Mine(b, vmid) && b.backupTime == t;
      var e := Outliving(kept, vmid, b);
      assert e in all && e.backupTime == t;
    }
  }

  ghost predicate Outlived(kept: set<Backup>, vmid: int, b: Backup) {
    exists e :: e in kept && Mine(e, vmid) && b.backupTime <= e.backupTime
  }

  lemma Outliving(kept: set<Backup>, vmid: int, b: Backup) returns (e: Backup)
    requires Outlived(kept, vmid, b)
    ensures e in kept && Mine(e, vmid) && b.backupTime <= e.backupTime
  {
    e :| e in kept && Mine(e, vmid) && b.backupTime <= e.backupTime;
  }

  /** The widget's newest backup needs no condition on the names. */
  lemma LastLikeRaw(backups: map<string, map<string, Backup>>, raws: map<string, set<Backup>>, t: int)
    requires Indexes(backups, raws)
    ensures IsLast(Entries(backups), t) <==> IsLast(AllRaw(raws), t)
  {
    EntriesAreRaw(backups, raws);
    forall b | b in AllRaw(raws) ensures exists e :: e in Entries(backups) && b.backupTime <= e.backupTime {
      var e := Covered(backups, raws, b);
    }
  }

  /** A stale alert's condition holds exactly when every snapshot of the group is too old. */
  lemma StaleLikeRaw(cfg: AlertRules.Config, t: AlertRules.Tick, raws: map<string, set<Backup>>, i: string, key: string)
    requires Indexes(t.snap.backups, raws) && AlertRules.Present(cfg, t, AlertRules.BackupStale(i, key))
    ensures AlertRules.CheckOf(cfg, t, AlertRules.BackupStale(i, key)).holds <==>
            forall b :: b in raws[i] && KeyOf(b) == key ==>
              t.wall(i, key) - b.backupTime * AlertRules.SECOND > cfg.backupStale.value.maxAge
  {
    var e := t.snap.backups[i][key];
    assert IsIndex(t.snap.backups[i], raws[i]);
    assert e in raws[i] && KeyOf(e) == key;
    forall b | b in raws[i] && KeyOf(b) == key
      ensures b.backupTime * AlertRules.SECOND <= e.backupTime * AlertRules.SECOND
    {
    }
  }

  /** Over these datastores, every index gives every guest the latest backup the raw snapshots give. */
  ghost predicate Tells(stores: set<string>) {
    forall backups, raws, vmid, t :: Indexes(backups, raws) && StoresOf(AllRaw(raws)) <= stores ==>
      (IsLatestFor(Entries(backups), vmid, t) <==> IsLatestFor(AllRaw(raws), vmid, t))
  }

  lemma FewerUnnested(stores: set<string>, fewer: set<string>)
    requires Unnested(stores) && fewer <= stores
    ensures Unnested(fewer)
  {
  }

  /** With any backup ids, the readers answer as from all the snapshots exactly when the datastore names do not nest. */
  lemma TellsExactly(stores: set<string>)
    ensures Tells(stores) <==> Unnested(stores)
  {
    hide IsLatestFor, Indexes, Unnested, Entries;
    if Unnested(stores) {
      forall backups, raws, vmid, t | Indexes(backups, raws) && StoresOf(AllRaw(raws)) <= stores
        ensures IsLatestFor(Entries(backups), vmid, t) <==> IsLatestFor(AllRaw(raws), vmid, t)
      {
        forall i | i in raws ensures Unnested(StoresOf(raws[i])) {
          assert StoresOf(raws[i]) <= StoresOf(AllRaw(raws)) by {
            assert raws[i] <= AllRaw(raws);
          }
          FewerUnnested(stores, StoresOf(raws[i]));
        }
        LatestLikeRaw(backups, raws, vmid, t);
      }
    } else {
      var d, e := NestedPair(stores);
      var backups, raws := HiddenBackup(d, e);
    }
  }

  /** Of two nested datastores, one can hide guest 1's backup in the other behind one that is not the guest's. */
  lemma HiddenBackup(d: string, e: string)
    returns (backups: map<string, map<string, Backup>>, raws: map<string, set<Backup>>)
    requires d != e && d + "/" <= e + "/"
    ensures Indexes(backups, raws) && StoresOf(AllRaw(raws)) == {d, e}
    ensures IsLatestFor(AllRaw(raws), 1, 5) && !IsLatestFor(Entries(backups), 1, 5)
  {
    hide Mine, Joined;
    var rest := NestedJoins(d, e);
    var b, c := Backup(e, "ct", "1", 5), Backup(d, "ct", rest + "1", 9);
    assert KeyOf(b) == KeyOf(c);
    backups, raws := map["pbs" := map[KeyOf(b) := c]], map["pbs" := {b, c}];
    assert AllRaw(raws) == {b, c} by {
      assert b in raws["pbs"] && c in raws["pbs"];
    }
    assert Entries(backups) == {c} by {
      assert backups["pbs"][KeyOf(b)] == c;
    }
    NotGuestOne(b, c, rest);
    assert b in AllRaw(raws);
    assert b.datastore in StoresOf(AllRaw(raws)) && c.datastore in StoresOf(AllRaw(raws));
  }

  lemma NotGuestOne(b: Backup, c: Backup, rest: string)
    requires rest != [] && rest[|rest| - 1] == '/' && b.backupId == "1" && c.backupId == rest + "1"
    ensures Mine(b, 1) && !Mine(c, 1)
  {
    assert Decimal.Itoa(1) == "1";
    var id := rest + "1";
    assert |id| >= 2 && id[|id| - 2] == '/';
    assert id[|id| - 2..][0] == '/' && ("-" + "1")[0] == '-';
  }
}
