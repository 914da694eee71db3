/** Exact deduplication of memories (pkg/dream/analyzer.go, first tier, and the
    consolidator that applies its proposals). Memories are rows of a table keyed
    by id; two rows are copies of each other when they carry the same non-empty
    content hash in the same project. */
module DreamDedup {
  import opened Collections

  datatype Revision = NoRevision | Tombstone | Content

  datatype Memory = Memory(id: string, source: Option<string>, project: Option<string>, hash: Option<string>,
                           createdAt: int, deletedAt: Option<int>, revision: Revision)
  {
    predicate Live() { deletedAt.None? }
    function Project(): string { OrEmpty(project) }
    function Hash(): string { OrEmpty(hash) }
    predicate Hashed() { Hash() != "" }
    function Key(): string { DedupKey(project, Hash()) }
  }

  type Table = map<string, Memory>

  /** COALESCE(column, '') */
  function OrEmpty(s: Option<string>): string
  {
    if s.Some? then s.value else ""
  }

  /** The id is the primary key. */
  ghost predicate Keyed(db: Table)
  {
    forall id :: id in db ==> db[id].id == id
  }

  /** Same text in the same project. */
  predicate Copies(a: Memory, b: Memory)
  {
    a.Hashed() && a.Hash() == b.Hash() && a.Project() == b.Project()
  }

  ghost predicate HasLiveCopy(db: Table, m: Memory)
  {
    exists id :: id in db && db[id].Live() && Copies(m, db[id])
  }

  // ----- The key that scopes a hash to its project -----

  function DedupKey(project: Option<string>, hash: string): string
  {
    OrEmpty(project) + "\0" + hash
  }

  ghost predicate NulFree(db: Table)
  {
    forall id :: id in db ==> '\0' !in db[id].Hash()
  }

  /** On hashes without a NUL the key tells project and hash apart; no project and
      the empty project are the same scope. */
  lemma KeyTellsProjectAndHash(p: Option<string>, h: string, q: Option<string>, k: string)
    requires '\0' !in h && '\0' !in k
    ensures DedupKey(p, h) == DedupKey(q, k) <==> OrEmpty(p) == OrEmpty(q) && h == k
  {
    var a, b := DedupKey(p, h), DedupKey(q, k);
    var i, j := |OrEmpty(p)|, |OrEmpty(q)|;
    assert a[i] == '\0' && b[j] == '\0';
    assert h == a[i + 1..] && k == b[j + 1..];
    assert OrEmpty(p) == a[..i] && OrEmpty(q) == b[..j];
    assert i < j < |a| ==> h[j - i - 1] == a[j];
    assert j < i < |b| ==> k[i - j - 1] == b[i];
  }

  /** With a NUL inside the hash two different scopes can share a key. */
  lemma NulInHashCollides()
    ensures DedupKey(Some("a"), "b\0c") == DedupKey(Some("a\0b"), "c")
  {
    assert DedupKey(Some("a"), "b\0c") == "a\0b\0c" == DedupKey(Some("a\0b"), "c");
  }

  // ----- Proposals -----

  datatype Kind = Dedup | Merge | Contradiction | Synthesize

  datatype Action = Action(kind: Kind, memoryId: string, relatedId: string, confidence: real)

  ghost predicate Grouped(a: Memory, b: Memory)
  {
    a.Hashed() && b.Hashed() && a.Key() == b.Key()
  }

  /** The first row read that shares the group of rows[j]. */
  ghost function FirstLike(rows: seq<Memory>, j: nat): (i: nat)
    requires j < |rows| && rows[j].Hashed()
    ensures i <= j && Grouped(rows[i], rows[j])
    ensures forall h :: 0 <= h < i ==> !Grouped(rows[h], rows[j])
  {
    FirstLikeFrom(rows, j, 0)
  }

  ghost function FirstLikeFrom(rows: seq<Memory>, j: nat, from: nat): (i: nat)
    requires from <= j < |rows| && rows[j].Hashed()
    ensures from <= i <= j && Grouped(rows[i], rows[j])
    ensures forall h :: from <= h < i ==> !Grouped(rows[h], rows[j])
    decreases j - from
  {
    if Grouped(rows[from], rows[j]) then from else FirstLikeFrom(rows, j, from + 1)
  }

  ghost predicate Duplicate(rows: seq<Memory>, j: nat)
  {
    j < |rows| && rows[j].Hashed() && FirstLike(rows, j) < j
  }

  ghost function ProposalFor(rows: seq<Memory>, j: nat): Action
    requires Duplicate(rows, j)
  {
    Action(Dedup, rows[j].id, rows[FirstLike(rows, j)].id, 1.0)
  }

  /** One proposal for every row that is not the first of its group, and no other:
      who[x] is the row that actions[x] would remove. */
  ghost predicate Proposes(rows: seq<Memory>, actions: seq<Action>, who: seq<nat>)
  {
    && |who| == |actions|
    && (forall x :: 0 <= x < |who| ==> Duplicate(rows, who[x]) && actions[x] == ProposalFor(rows, who[x]))
    && (forall x, y :: 0 <= x < y < |who| ==> who[x] != who[y])
    && (forall j: nat :: Duplicate(rows, j) ==> j in who)
  }

  ghost predicate Increasing(indices: seq<nat>)
  {
    forall x, y :: 0 <= x < y < |indices| ==> indices[x] < indices[y]
  }

  /** The rows of one group, in reading order. */
  ghost predicate GroupOf(rows: seq<Memory>, n: nat, key: string, indices: seq<nat>)
    requires n <= |rows|
  {
    && indices != []
    && Increasing(indices)
    && (forall i: nat :: i in indices <==> i < n && rows[i].Hashed() && rows[i].Key() == key)
  }

  ghost predicate HashGroups(rows: seq<Memory>, n: nat, groups: map<string, seq<nat>>)
    requires n <= |rows|
  {
    && (forall k :: k in groups ==> GroupOf(rows, n, k, groups[k]))
    && (forall i :: 0 <= i < n && rows[i].Hashed() ==> rows[i].Key() in groups)
  }

  lemma ExtendGroup(rows: seq<Memory>, n: nat, key: string, indices: seq<nat>)
    requires n < |rows| && rows[n].Hashed() && rows[n].Key() == key
    requires if indices == [] then forall i :: 0 <= i < n && rows[i].Hashed() ==> rows[i].Key() != key
             else GroupOf(rows, n, key, indices)
    ensures GroupOf(rows, n + 1, key, indices + [n])
  {
    var more := indices + [n];
    forall x | 0 <= x < |indices| ensures more[x] < n { assert indices[x] in indices; }
    assert forall i: nat :: i in more <==> i in indices || i == n;
  }

  method GroupByHash(rows: seq<Memory>) returns (groups: map<string, seq<nat>>)
    ensures HashGroups(rows, |rows|, groups)
  {
    groups := map[];
    for n := 0 to |rows|
      invariant HashGroups(rows, n, groups)
    {
      ghost var before := groups;
      var key := rows[n].Key();
      if rows[n].Hashed() {
        var indices := if key in groups then groups[key] else [];
        ExtendGroup(rows, n, key, indices);
        groups := groups[key := indices + [n]];
      }
      forall k | k in groups && !(rows[n].Hashed() && k == key) ensures GroupOf(rows, n + 1, k, groups[k]) {
        assert k in before && GroupOf(rows, n, k, before[k]);
      }
    }
  }

  lemma FirstOfGroup(rows: seq<Memory>, key: string, indices: seq<nat>, x: nat)
    requires GroupOf(rows, |rows|, key, indices) && x < |indices|
    ensures indices[x] < |rows| && rows[indices[x]].Hashed()
    ensures FirstLike(rows, indices[x]) == indices[0]
    ensures Duplicate(rows, indices[x]) <==> x > 0
  {
    assert indices[x] in indices && indices[0] in indices;
    var i := FirstLike(rows, indices[x]);
    assert i in indices;
    var y: nat :| y < |indices| && indices[y] == i;
    assert Grouped(rows[indices[0]], rows[indices[x]]);
  }

  /** The newer members of one group, each proposed for removal in favour of the first. */
  method ProposeGroup(rows: seq<Memory>, ghost key: string, indices: seq<nat>) returns (actions: seq<Action>)
    requires GroupOf(rows, |rows|, key, indices)
    ensures |actions| == |indices| - 1
    ensures forall x :: 0 < x < |indices| ==>
              Duplicate(rows, indices[x]) && actions[x - 1] == ProposalFor(rows, indices[x])
  {
    actions := [];
    assert forall i :: i in indices ==> i < |rows|;
    assert indices[0] in indices;
    var keeper := rows[indices[0]];
    for x := 1 to |indices|
      invariant |actions| == x - 1
      invariant forall y :: 0 < y < x ==> Duplicate(rows, indices[y]) && actions[y - 1] == ProposalFor(rows, indices[y])
    {
      FirstOfGroup(rows, key, indices, x);
      actions := actions + [Action(Dedup, rows[indices[x]].id, keeper.id, 1.0)];
    }
  }

  ghost predicate Entry(rows: seq<Memory>, done: set<string>, action: Action, j: nat)
  {
    Duplicate(rows, j) && rows[j].Key() in done && action == ProposalFor(rows, j)
  }

  /** Proposals so far: those of the groups whose key is in done. */
  ghost predicate ProposesFor(rows: seq<Memory>, done: set<string>, actions: seq<Action>, who: seq<nat>)
  {
    && |who| == |actions|
    && (forall x :: 0 <= x < |who| ==> Entry(rows, done, actions[x], who[x]))
    && (forall x, y :: 0 <= x < y < |who| ==> who[x] != who[y])
    && (forall j: nat :: Duplicate(rows, j) && rows[j].Key() in done ==> j in who)
  }

  lemma AppendDistinct(a: seq<nat>, b: seq<nat>)
    requires forall x, y :: 0 <= x < y < |a| ==> a[x] != a[y]
    requires Increasing(b) && forall i :: i in b ==> i !in a
    ensures forall x, y :: 0 <= x < y < |a + b| ==> (a + b)[x] != (a + b)[y]
  {
    forall x, y | 0 <= x < y < |a + b| ensures (a + b)[x] != (a + b)[y] {
      if x < |a| <= y { assert b[y - |a|] in b; }
    }
  }

  lemma RestOfGroup(rows: seq<Memory>, key: string, indices: seq<nat>)
    requires GroupOf(rows, |rows|, key, indices)
    ensures Increasing(indices[1..])
    ensures forall j: nat :: j in indices[1..] <==> Duplicate(rows, j) && rows[j].Key() == key
  {
    forall j: nat ensures j in indices[1..] <==> Duplicate(rows, j) && rows[j].Key() == key {
      if j in indices {
        var x: nat :| x < |indices| && indices[x] == j;
        FirstOfGroup(rows, key, indices, x);
        assert x > 0 ==> indices[1..][x - 1] == j;
      }
    }
  }

  lemma AddGroup(rows: seq<Memory>, done: set<string>, actions: seq<Action>, who: seq<nat>,
                 key: string, indices: seq<nat>, more: seq<Action>)
    requires ProposesFor(rows, done, actions, who) && key !in done
    requires GroupOf(rows, |rows|, key, indices) && |more| == |indices| - 1
    requires forall x :: 0 < x < |indices| ==>
               Duplicate(rows, indices[x]) && more[x - 1] == ProposalFor(rows, indices[x])
    ensures ProposesFor(rows, done + {key}, actions + more, who + indices[1..])
  {
    var rest := indices[1..];
    RestOfGroup(rows, key, indices);
    assert forall x :: 0 <= x < |who| ==> rows[who[x]].Key() != key;
    AppendDistinct(who, rest);
    forall x | 0 <= x < |rest| ensures Entry(rows, done + {key}, more[x], rest[x]) {
      assert rest[x] in rest && rest[x] == indices[x + 1];
    }
    forall x | 0 <= x < |who| ensures Entry(rows, done + {key}, actions[x], who[x]) {
      assert Entry(rows, done, actions[x], who[x]);
    }
  }

  /** Analyze, first tier. The groups are walked in an order of the map's choosing. */
  method ProposeExactDedup(rows: seq<Memory>) returns (actions: seq<Action>, exactDupes: nat, ghost who: seq<nat>)
    ensures Proposes(rows, actions, who)
    ensures exactDupes == |actions|
  {
    var groups := GroupByHash(rows);
    actions, exactDupes, who := [], 0, [];
    var left := groups.Keys;
    while left != {}
      invariant left <= groups.Keys
      invariant ProposesFor(rows, groups.Keys - left, actions, who)
      invariant exactDupes == |actions|
      decreases |left|
    {
      var key :| key in left;
      var indices := groups[key];
      assert GroupOf(rows, |rows|, key, indices);
      var more := ProposeGroup(rows, key, indices);
      AddGroup(rows, groups.Keys - left, actions, who, key, indices, more);
      if |indices| > 1 {
        exactDupes := exactDupes + |indices| - 1;
        actions := actions + more;
      } else {
        assert actions + more == actions;
      }
      who := who + indices[1..];
      assert groups.Keys - (left - {key}) == groups.Keys - left + {key};
      left := left - {key};
    }
    assert forall j: nat :: Duplicate(rows, j) ==> rows[j].Key() in groups.Keys - left;
  }

  // ----- What applying proposals does to the table -----

  /** The rows the analyzer reads: the live ones, oldest first. */
  ghost predicate ReadsLive(db: Table, rows: seq<Memory>)
  {
    && (forall i :: 0 <= i < |rows| ==> rows[i].id in db && db[rows[i].id] == rows[i] && rows[i].Live())
    && (forall id :: id in db && db[id].Live() ==> db[id] in rows)
    && (forall i, j :: 0 <= i < j < |rows| ==> rows[i].id != rows[j].id && rows[i].createdAt <= rows[j].createdAt)
  }

  function Remove(m: Memory, now: int): Memory
  {
    m.(deletedAt := Some(now), revision := Tombstone)
  }

  /** Marks the memories named in ids deleted. */
  function Delete(db: Table, ids: set<string>, now: int): Table
  {
    map id | id in db :: if id in ids then Remove(db[id], now) else db[id]
  }

  ghost function Targets(actions: seq<Action>): set<string>
  {
    set a | a in actions :: a.memoryId
  }

  lemma DeleteMore(db: Table, ids: set<string>, id: string, now: int)
    ensures Delete(Delete(db, ids, now), {id}, now) == Delete(db, ids + {id}, now)
  {
  }

  lemma CopiesAreGrouped(db: Table, rows: seq<Memory>, i: nat, j: nat)
    requires ReadsLive(db, rows) && NulFree(db) && i < |rows| && j < |rows|
    ensures Grouped(rows[i], rows[j]) <==> Copies(rows[i], rows[j])
  {
    assert rows[i].id in db && rows[j].id in db;
    KeyTellsProjectAndHash(rows[i].project, rows[i].Hash(), rows[j].project, rows[j].Hash());
  }

  /** A row that is first of its group, or has no hash, is the target of no proposal. */
  lemma FirstIsNoTarget(db: Table, rows: seq<Memory>, actions: seq<Action>, who: seq<nat>, i: nat)
    requires ReadsLive(db, rows) && Proposes(rows, actions, who)
    requires i < |rows| && !Duplicate(rows, i)
    ensures forall a :: a in actions ==> a.memoryId != rows[i].id
  {
    forall a | a in actions ensures a.memoryId != rows[i].id {
      var x :| 0 <= x < |actions| && actions[x] == a;
      assert Duplicate(rows, who[x]);
    }
  }

  /** Applying any of the proposals keeps the first-read copy of every group live,
      so no project loses its last copy of anything. */
  lemma AnySubsetKeepsFirstRead(db: Table, rows: seq<Memory>, actions: seq<Action>, who: seq<nat>,
                                chosen: seq<Action>, now: int, j: nat)
    requires ReadsLive(db, rows) && NulFree(db) && Proposes(rows, actions, who)
    requires forall a :: a in chosen ==> a in actions
    requires j < |rows|
    ensures var after := Delete(db, Targets(chosen), now);
            && (!rows[j].Hashed() ==> after[rows[j].id] == rows[j])
            && (rows[j].Hashed() ==>
                  var keeper := rows[FirstLike(rows, j)];
                  Copies(rows[j], keeper) && after[keeper.id] == keeper && HasLiveCopy(after, rows[j]))
  {
    var after := Delete(db, Targets(chosen), now);
    if rows[j].Hashed() {
      var i := FirstLike(rows, j);
      CopiesAreGrouped(db, rows, j, i);
      assert Grouped(rows[FirstLike(rows, i)], rows[j]);
      FirstIsNoTarget(db, rows, actions, who, i);
      assert rows[i].id in after;
    } else {
      FirstIsNoTarget(db, rows, actions, who, j);
    }
  }

  /** Applying all of them leaves, of the copies of any row, the oldest alone. */
  lemma ApplyingAllLeavesOne(db: Table, rows: seq<Memory>, actions: seq<Action>, who: seq<nat>, now: int, j: nat,
                             id: string)
    requires Keyed(db) && ReadsLive(db, rows) && NulFree(db) && Proposes(rows, actions, who)
    requires j < |rows| && rows[j].Hashed()
    ensures var after := Delete(db, Targets(actions), now);
            var keeper := rows[FirstLike(rows, j)];
            && (id in after && after[id].Live() && Copies(rows[j], after[id]) <==> id == keeper.id)
            && (id in db && db[id].Live() && Copies(rows[j], db[id]) ==> keeper.createdAt <= db[id].createdAt)
  {
    var i := FirstLike(rows, j);
    AnySubsetKeepsFirstRead(db, rows, actions, who, actions, now, j);
    if id in db && db[id].Live() && Copies(rows[j], db[id]) && id != rows[i].id {
      var h :| 0 <= h < |rows| && rows[h] == db[id];
      CopiesAreGrouped(db, rows, j, h);
      assert Duplicate(rows, h) && i < h by {
        assert Grouped(rows[i], rows[h]);
        assert h != i;
        assert Grouped(rows[FirstLike(rows, h)], rows[j]);
      }
      var x :| 0 <= x < |who| && who[x] == h;
      assert actions[x] in actions && actions[x].memoryId == id;
    }
  }

  // ----- The consolidator: every stored proposal is checked again -----

  datatype Verdict = Safe | NoKeeper | OwnKeeper | MemoryGone | KeeperGone | OtherProject | ContentsDiffer

  function CheckDedupPair(db: Table, memoryId: string, keeperId: string, sameContent: bool): Verdict
  {
    if keeperId == "" then NoKeeper
    else if keeperId == memoryId then OwnKeeper
    else if memoryId !in db || !db[memoryId].Live() then MemoryGone
    else if keeperId !in db || !db[keeperId].Live() then KeeperGone
    else if db[memoryId].Project() != db[keeperId].Project() then OtherProject
    else if sameContent && (!db[memoryId].Hashed() || db[memoryId].Hash() != db[keeperId].Hash()) then ContentsDiffer
    else Safe
  }

  /** What applying a stored action does to the table; a refused or non-deleting one does nothing. */
  function Act(db: Table, a: Action, now: int): Table
  {
    match a.kind
    case Dedup => if CheckDedupPair(db, a.memoryId, a.relatedId, true).Safe? then Delete(db, {a.memoryId}, now) else db
    case Merge =>
      if a.relatedId != "" && CheckDedupPair(db, a.relatedId, a.memoryId, false).Safe?
      then Delete(db, {a.relatedId}, now) else db
    case _ => db
  }

  function Run(db: Table, actions: seq<Action>, now: int): Table
  {
    if actions == [] then db else Run(Act(db, actions[0], now), actions[1..], now)
  }

  lemma DedupKeepsCopies(db: Table, a: Action, now: int, m: Memory)
    requires a.kind != Merge && HasLiveCopy(db, m)
    ensures HasLiveCopy(Act(db, a, now), m)
  {
    var id :| id in db && db[id].Live() && Copies(m, db[id]);
    var after := Act(db, a, now);
    var removed := id == a.memoryId && a.kind == Dedup && CheckDedupPair(db, a.memoryId, a.relatedId, true).Safe?;
    var kept := if removed then a.relatedId else id;
    assert kept in after && after[kept].Live() && Copies(m, after[kept]);
  }

  /** However stale, repeated or wrong the stored proposals are, deduplicating never
      takes a project's last live copy of a text. */
  lemma {:induction false} RunKeepsCopies(db: Table, actions: seq<Action>, now: int, m: Memory)
    requires (forall a :: a in actions ==> a.kind != Merge) && HasLiveCopy(db, m)
    ensures HasLiveCopy(Run(db, actions, now), m)
  {
    if actions != [] {
      assert actions[0] in actions;
      DedupKeepsCopies(db, actions[0], now, m);
      RunKeepsCopies(Act(db, actions[0], now), actions[1..], now, m);
    }
  }

  /** A merge keeps a text's last live copy exactly when it is refused, or some other
      row than the one it absorbs has the text. */
  lemma MergeKeepsCopyExactlyWhen(db: Table, a: Action, now: int, m: Memory)
    requires a.kind == Merge && HasLiveCopy(db, m)
    ensures HasLiveCopy(Act(db, a, now), m) <==>
              || a.relatedId == "" || !CheckDedupPair(db, a.relatedId, a.memoryId, false).Safe?
              || exists id :: id in db && id != a.relatedId && db[id].Live() && Copies(m, db[id])
  {
    var after := Act(db, a, now);
    if id :| id in db && id != a.relatedId && db[id].Live() && Copies(m, db[id]) {
      assert after[id] == db[id];
    }
    if HasLiveCopy(after, m) {
      var id :| id in after && after[id].Live() && Copies(m, after[id]);
      assert id in db && db[id] == after[id];
    }
  }

  /** So a merge of two texts of one project does remove the absorbed one. */
  lemma MergeRemovesText(keeper: Memory, absorbed: Memory, a: Action, now: int)
    requires keeper.id != "" && absorbed.id != "" && keeper.id != absorbed.id && keeper.Live() && absorbed.Live()
    requires keeper.Project() == absorbed.Project() && keeper.Hash() != absorbed.Hash() && absorbed.Hashed()
    requires a.kind == Merge && a.memoryId == keeper.id && a.relatedId == absorbed.id
    ensures var db := map[keeper.id := keeper, absorbed.id := absorbed];
            HasLiveCopy(db, absorbed) && !HasLiveCopy(Act(db, a, now), absorbed)
  {
    var db := map[keeper.id := keeper, absorbed.id := absorbed];
    assert absorbed.id in db && Copies(absorbed, db[absorbed.id]);
    MergeKeepsCopyExactlyWhen(db, a, now, absorbed);
  }

  ghost predicate ProjectLive(db: Table, project: string)
  {
    exists id :: id in db && db[id].Live() && db[id].Project() == project
  }

  /** No run of actions, merges included, empties a project. */
  lemma {:induction false} RunKeepsProjects(db: Table, actions: seq<Action>, now: int, project: string)
    requires ProjectLive(db, project)
    ensures ProjectLive(Run(db, actions, now), project)
  {
    if actions != [] {
      ActKeepsProjects(db, actions[0], now, project);
      RunKeepsProjects(Act(db, actions[0], now), actions[1..], now, project);
    }
  }

  lemma ActKeepsProjects(db: Table, a: Action, now: int, project: string)
    requires ProjectLive(db, project)
    ensures ProjectLive(Act(db, a, now), project)
  {
    var id :| id in db && db[id].Live() && db[id].Project() == project;
    var after := Act(db, a, now);
    var kept := if id in after && after[id].Live() then id else if a.kind == Merge then a.memoryId else a.relatedId;
    assert kept in after && after[kept].Live() && after[kept].Project() == project;
  }

  /** Fresh proposals, taken in any order, all pass the check: the checked run
      deletes exactly their targets. */
  lemma {:induction false} FreshProposalsAllApply(db: Table, rows: seq<Memory>, actions: seq<Action>, who: seq<nat>,
                                                  n: nat, now: int)
    requires ReadsLive(db, rows) && NulFree(db) && Proposes(rows, actions, who) && n <= |actions|
    requires "" !in db
    ensures Run(Delete(db, Targets(actions[..n]), now), actions[n..], now) == Delete(db, Targets(actions), now)
    decreases |actions| - n
  {
    if n == |actions| {
      assert actions[..n] == actions;
    } else {
      FreshProposalApplies(db, rows, actions, who, n, now);
      assert actions[n..][1..] == actions[n + 1..];
      FreshProposalsAllApply(db, rows, actions, who, n + 1, now);
    }
  }

  /** Earlier proposals have not touched the row that proposal n would remove. */
  lemma TargetUntouched(db: Table, rows: seq<Memory>, actions: seq<Action>, who: seq<nat>, n: nat)
    requires ReadsLive(db, rows) && Proposes(rows, actions, who) && n < |actions|
    ensures actions[n].memoryId !in Targets(actions[..n])
  {
    forall a | a in actions[..n] ensures a.memoryId != actions[n].memoryId {
      var x :| 0 <= x < n && actions[x] == a;
      assert who[x] != who[n] && a == ProposalFor(rows, who[x]);
    }
  }

  lemma FreshProposalApplies(db: Table, rows: seq<Memory>, actions: seq<Action>, who: seq<nat>, n: nat, now: int)
    requires ReadsLive(db, rows) && NulFree(db) && Proposes(rows, actions, who) && n < |actions|
    requires "" !in db
    ensures Act(Delete(db, Targets(actions[..n]), now), actions[n], now) == Delete(db, Targets(actions[..n + 1]), now)
  {
    var before := Delete(db, Targets(actions[..n]), now);
    var j := who[n];
    var keeper := rows[FirstLike(rows, j)];
    assert actions[n] == ProposalFor(rows, j);
    AnySubsetKeepsFirstRead(db, rows, actions, who, actions[..n], now, j);
    TargetUntouched(db, rows, actions, who, n);
    assert CheckDedupPair(before, rows[j].id, keeper.id, true).Safe?;
    assert Targets(actions[..n + 1]) == Targets(actions[..n]) + {rows[j].id} by {
      assert actions[..n + 1] == actions[..n] + [actions[n]];
    }
    DeleteMore(db, Targets(actions[..n]), rows[j].id, now);
  }

  // ----- Consolidate: one pass over a report -----

  /** Only live rows became tombstones; every other row is untouched. */
  ghost predicate OnlyRemoves(before: Table, after: Table, now: int)
  {
    && after.Keys == before.Keys
    && forall id :: id in before ==>
         after[id] == before[id] || (before[id].Live() && after[id] == Remove(before[id], now))
  }

  ghost function Changed(before: Table, after: Table): set<string>
    requires after.Keys == before.Keys
  {
    set id | id in before && after[id] != before[id]
  }

  lemma RemoveOneMore(before: Table, now0: Table, id: string, now: int)
    requires OnlyRemoves(before, now0, now) && id in now0 && now0[id].Live()
    ensures var after := Delete(now0, {id}, now);
            OnlyRemoves(before, after, now) && |Changed(before, after)| == |Changed(before, now0)| + 1
  {
    var after := Delete(now0, {id}, now);
    assert now0[id] == before[id];
    assert Changed(before, after) == Changed(before, now0) + {id};
  }

  /** A cap of zero or below deletes nothing. */
  function Cap(maxDeletions: int): nat
  {
    if maxDeletions > 0 then maxDeletions else 0
  }

  datatype ConsolidationResult = ConsolidationResult(softDeleted: nat, flagged: nat, skipped: nat)

  /** Within the limits, and safe to apply. */
  predicate Applies(db: Table, a: Action, maxDeletions: int, threshold: real, deletions: nat)
  {
    && a.kind.Dedup? && deletions < maxDeletions && a.confidence >= threshold
    && CheckDedupPair(db, a.memoryId, a.relatedId, true).Safe?
  }

  /** The table after taking the actions in order from a count of deletions. */
  function Consolidated(db: Table, actions: seq<Action>, maxDeletions: int, threshold: real, now: int,
                        deletions: nat): Table
  {
    if actions == [] then db
    else if Applies(db, actions[0], maxDeletions, threshold, deletions) then
      Consolidated(Delete(db, {actions[0].memoryId}, now), actions[1..], maxDeletions, threshold, now, deletions + 1)
    else Consolidated(db, actions[1..], maxDeletions, threshold, now, deletions)
  }

  /** With room under the limits a pass is the plain checked run. */
  lemma {:induction false} RoomyPassIsTheRun(db: Table, actions: seq<Action>, maxDeletions: int, threshold: real,
                                             now: int, deletions: nat)
    requires forall a :: a in actions ==> a.kind == Dedup && a.confidence >= threshold
    requires deletions + |actions| <= maxDeletions
    ensures Consolidated(db, actions, maxDeletions, threshold, now, deletions) == Run(db, actions, now)
    decreases |actions|
  {
    if actions != [] {
      assert actions[0] in actions && forall a :: a in actions[1..] ==> a in actions;
      var applies := Applies(db, actions[0], maxDeletions, threshold, deletions);
      RoomyPassIsTheRun(Act(db, actions[0], now), actions[1..], maxDeletions, threshold, now,
                        if applies then deletions + 1 else deletions);
    }
  }

  /** A pass over fresh proposals, with room for them all and no threshold above certainty,
      deletes exactly what they name. */
  lemma FreshPassAppliesAll(db: Table, rows: seq<Memory>, actions: seq<Action>, who: seq<nat>, maxDeletions: int,
                            threshold: real, now: int)
    requires ReadsLive(db, rows) && NulFree(db) && Proposes(rows, actions, who) && "" !in db
    requires |actions| <= maxDeletions && threshold <= 1.0
    ensures Consolidated(db, actions, maxDeletions, threshold, now, 0) == Delete(db, Targets(actions), now)
  {
    forall a | a in actions ensures a.kind == Dedup && a.confidence >= threshold {
      var x :| 0 <= x < |actions| && actions[x] == a;
      assert a == ProposalFor(rows, who[x]);
    }
    RoomyPassIsTheRun(db, actions, maxDeletions, threshold, now, 0);
    FreshProposalsAllApply(db, rows, actions, who, 0, now);
    assert actions[0..] == actions && actions[..0] == [] && Targets([]) == {};
    assert Delete(db, {}, now) == db;
  }

  /** Some dedup action of enough confidence names the memory, and as its keeper another one
      with the same hash, not an empty one, in the same project. */
  ghost predicate Entitles(db: Table, actions: seq<Action>, id: string, threshold: real)
  {
    exists a :: a in actions && a.kind.Dedup? && a.memoryId == id && a.confidence >= threshold
                && id in db && a.relatedId in db && a.relatedId != id
                && db[id].Hash() != "" && db[id].Hash() == db[a.relatedId].Hash()
                && db[id].Project() == db[a.relatedId].Project()
  }

  lemma {:induction false} ConsolidatedIsEntitled(db: Table, actions: seq<Action>, maxDeletions: int, threshold: real,
                                                  now: int, deletions: nat)
    ensures var after := Consolidated(db, actions, maxDeletions, threshold, now, deletions);
            && after.Keys == db.Keys
            && forall id :: id in db && after[id] != db[id] ==> Entitles(db, actions, id, threshold)
    decreases |actions|
  {
    if actions != [] {
      var a, rest := actions[0], actions[1..];
      assert a in actions && forall x :: x in rest ==> x in actions;
      var applies := Applies(db, a, maxDeletions, threshold, deletions);
      var next := if applies then Delete(db, {a.memoryId}, now) else db;
      ConsolidatedIsEntitled(next, rest, maxDeletions, threshold, now, if applies then deletions + 1 else deletions);
      var after := Consolidated(db, actions, maxDeletions, threshold, now, deletions);
      forall id | id in db && after[id] != db[id] ensures Entitles(db, actions, id, threshold) {
        if next[id] == db[id] { assert Entitles(next, rest, id, threshold); } else { assert id == a.memoryId; }
      }
    }
  }

  function Contradictions(actions: seq<Action>): nat
  {
    if actions == [] then 0 else (if actions[0].kind.Contradiction? then 1 else 0) + Contradictions(actions[1..])
  }

  class Ledger {
    var memories: Table

    method SoftDeleteIfActive(id: string, now: int) returns (deleted: bool)
      modifies this
      ensures deleted == (id in old(memories) && old(memories)[id].Live())
      ensures memories == if deleted then Delete(old(memories), {id}, now) else old(memories)
    {
      deleted := id in memories && memories[id].Live();
      if deleted {
        memories := memories[id := Remove(memories[id], now)];
        assert memories == Delete(old(memories), {id}, now);
      }
    }

    /** Applies one dedup proposal unless a limit or the check stands in the way. */
    method TryDedup(a: Action, maxDeletions: int, threshold: real, deletions: nat, now: int) returns (applied: bool)
      requires a.kind == Dedup
      modifies this
      ensures applied <==> Applies(old(memories), a, maxDeletions, threshold, deletions)
      ensures memories == if applied then Delete(old(memories), {a.memoryId}, now) else old(memories)
    {
      if maxDeletions == 0 || deletions >= maxDeletions || a.confidence < threshold {
        return false;
      }
      if !CheckDedupPair(memories, a.memoryId, a.relatedId, true).Safe? {
        return false;
      }
      applied := SoftDeleteIfActive(a.memoryId, now);
    }

    /** One pass: never deletes more than the cap, never a project's last copy, and
        accounts for every action. */
    method Consolidate(actions: seq<Action>, maxDeletions: int, threshold: real, now: int)
      returns (r: ConsolidationResult)
      modifies this
      ensures memories == Consolidated(old(memories), actions, maxDeletions, threshold, now, 0)
      ensures OnlyRemoves(old(memories), memories, now)
      ensures r.softDeleted == |Changed(old(memories), memories)| <= Cap(maxDeletions)
      ensures r.softDeleted + r.flagged + r.skipped == |actions| && r.flagged == Contradictions(actions)
      ensures forall m :: HasLiveCopy(old(memories), m) ==> HasLiveCopy(memories, m)
      ensures forall id :: id in memories && memories[id] != old(memories)[id] ==>
                Entitles(old(memories), actions, id, threshold)
    {
      ConsolidatedIsEntitled(memories, actions, maxDeletions, threshold, now, 0);
      var softDeleted: nat, flagged: nat, skipped: nat := 0, 0, 0;
      assert Changed(memories, memories) == {};
      assert actions[0..] == actions;
      for i := 0 to |actions|
        invariant OnlyRemoves(old(memories), memories, now)
        invariant softDeleted == |Changed(old(memories), memories)| <= Cap(maxDeletions)
        invariant softDeleted + flagged + skipped == i
        invariant flagged + Contradictions(actions[i..]) == Contradictions(actions)
        invariant Consolidated(memories, actions[i..], maxDeletions, threshold, now, softDeleted)
               == Consolidated(old(memories), actions, maxDeletions, threshold, now, 0)
        invariant forall m :: HasLiveCopy(old(memories), m) ==> HasLiveCopy(memories, m)
      {
        ghost var before := memories;
        var a := actions[i];
        assert actions[i..][0] == a && actions[i..][1..] == actions[i + 1..];
        match a.kind
        case Dedup =>
          var applied := TryDedup(a, maxDeletions, threshold, softDeleted, now);
          if applied {
            RemoveOneMore(old(memories), before, a.memoryId, now);
            forall m | HasLiveCopy(before, m) ensures HasLiveCopy(memories, m) {
              DedupKeepsCopies(before, a, now, m);
            }
            softDeleted := softDeleted + 1;
          } else {
            skipped := skipped + 1;
          }
        case Contradiction => flagged := flagged + 1;
        case _ => skipped := skipped + 1;
      }
      r := ConsolidationResult(softDeleted, flagged, skipped);
    }
  }
}
