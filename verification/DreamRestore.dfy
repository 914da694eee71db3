/** Bringing back what deduplication took (cmd/anchored/restore.go): which deleted
    memories count as lost, and what restoring all of them leaves. */
module DreamRestore {
  import opened Collections
  import opened DreamDedup

  /** From the start of a completed run to half an hour after its end, in seconds. */
  datatype Window = Window(start: int, end: int)

  const GRACE_SECONDS := 1800

  predicate Applying(windows: seq<Window>, at: int)
  {
    exists w :: w in windows && w.start <= at <= w.end + GRACE_SECONDS
  }

  /** SQL equality of hash columns: NULL equals nothing. */
  predicate SameText(a: Memory, b: Memory)
  {
    a.hash.Some? && a.hash == b.hash && a.Project() == b.Project()
  }

  /** A deletion that deduplication did not make: a tombstone, or a raw delete outside any run. */
  predicate OnPurpose(windows: seq<Window>, t: Memory)
  {
    t.deletedAt.Some? && (t.revision.Tombstone? || (t.revision.Content? && !Applying(windows, t.deletedAt.value)))
  }

  ghost predicate PurposeTwin(db: Table, windows: seq<Window>, m: Memory)
  {
    exists id :: id in db && id != m.id && SameText(db[id], m) && OnPurpose(windows, db[id])
  }

  /** Deleted by a run that had proposed it, with no live copy left and no copy removed on purpose. */
  ghost predicate Lost(db: Table, dreamed: set<string>, windows: seq<Window>, m: Memory)
  {
    && m.id in db && db[m.id] == m
    && m.id in dreamed
    && m.revision.Content?
    && m.deletedAt.Some? && Applying(windows, m.deletedAt.value)
    && !HasLiveCopy(db, m)
    && !PurposeTwin(db, windows, m)
  }

  /** What the query yields: the lost rows by age, then id. */
  ghost predicate ListsLost(db: Table, dreamed: set<string>, windows: seq<Window>, rows: seq<Memory>)
  {
    && (forall m :: m in rows <==> Lost(db, dreamed, windows, m))
    && (forall i, j :: 0 <= i < j < |rows| ==> rows[i].id != rows[j].id && rows[i].createdAt <= rows[j].createdAt)
  }

  const TRANSCRIPT_IMPORT_SOURCES: set<string> := {"claude-code", "opencode"}

  predicate Wanted(includeImported: bool, m: Memory)
  {
    includeImported || OrEmpty(m.source) !in TRANSCRIPT_IMPORT_SOURCES
  }

  /** rows[i] is wanted and no wanted row before it shares its key. */
  ghost predicate OldestWanted(rows: seq<Memory>, includeImported: bool, i: int)
  {
    && 0 <= i < |rows|
    && Wanted(includeImported, rows[i])
    && (rows[i].Hashed() ==>
          forall h :: 0 <= h < i && Wanted(includeImported, rows[h]) && rows[h].Hashed() ==>
            rows[h].Key() != rows[i].Key())
  }

  ghost function Picks(rows: seq<Memory>, includeImported: bool, n: nat): seq<Memory>
    requires n <= |rows|
  {
    if n == 0 then []
    else Picks(rows, includeImported, n - 1) + if OldestWanted(rows, includeImported, n - 1) then [rows[n - 1]] else []
  }

  /** The loop of findDreamLost over the query's rows. */
  method FindDreamLost(rows: seq<Memory>, includeImported: bool) returns (out: seq<Memory>)
    ensures out == Picks(rows, includeImported, |rows|)
  {
    out := [];
    var seen: set<string> := {};
    for n := 0 to |rows|
      invariant out == Picks(rows, includeImported, n)
      invariant forall h :: 0 <= h < n && Wanted(includeImported, rows[h]) && rows[h].Hashed() ==> rows[h].Key() in seen
      invariant forall k :: k in seen ==>
                  exists h :: 0 <= h < n && Wanted(includeImported, rows[h]) && rows[h].Hashed() && rows[h].Key() == k
    {
      if !includeImported && OrEmpty(rows[n].source) in TRANSCRIPT_IMPORT_SOURCES {
        continue;
      }
      var key := rows[n].Key();
      if rows[n].Hashed() {
        if key in seen {
          continue;
        }
        seen := seen + {key};
      }
      out := out + [rows[n]];
    }
  }

  lemma {:induction false} PicksMember(rows: seq<Memory>, includeImported: bool, n: nat, m: Memory)
    requires n <= |rows|
    ensures m in Picks(rows, includeImported, n) <==>
              exists i :: 0 <= i < n && OldestWanted(rows, includeImported, i) && rows[i] == m
  {
    if n > 0 { PicksMember(rows, includeImported, n - 1, m); }
  }

  /** The picks are rows in the order of the query, each once. */
  lemma {:induction false} PicksInOrder(rows: seq<Memory>, includeImported: bool, n: nat) returns (at: seq<nat>)
    requires n <= |rows|
    ensures |at| == |Picks(rows, includeImported, n)|
    ensures forall k :: 0 <= k < |at| ==> at[k] < n && Picks(rows, includeImported, n)[k] == rows[at[k]]
    ensures forall j, k :: 0 <= j < k < |at| ==> at[j] < at[k]
  {
    at := [];
    if n > 0 {
      at := PicksInOrder(rows, includeImported, n - 1);
      if OldestWanted(rows, includeImported, n - 1) { at := at + [n - 1]; }
    }
  }

  /** Every wanted row with a hash has a picked row with the same key, no younger than it. */
  lemma {:induction false} PickedForEach(rows: seq<Memory>, includeImported: bool, i: nat)
    requires i < |rows| && Wanted(includeImported, rows[i]) && rows[i].Hashed()
    ensures exists h :: 0 <= h <= i && OldestWanted(rows, includeImported, h)
                        && rows[h].Hashed() && rows[h].Key() == rows[i].Key()
  {
    if !OldestWanted(rows, includeImported, i) {
      var h :| 0 <= h < i && Wanted(includeImported, rows[h]) && rows[h].Hashed() && rows[h].Key() == rows[i].Key();
      PickedForEach(rows, includeImported, h);
    }
  }

  // ----- Restoring -----

  function Restored(m: Memory): Memory
  {
    m.(deletedAt := None, revision := Content)
  }

  /** Brings the named memories back; the others stay as they are. */
  function Restore(db: Table, ids: set<string>): Table
  {
    map id | id in db :: if id in ids && !db[id].Live() then Restored(db[id]) else db[id]
  }

  ghost function Ids(ms: seq<Memory>): set<string>
  {
    set m | m in ms :: m.id
  }

  /** Table, proposals, run windows and the rows the query yields. */
  ghost predicate Setting(db: Table, dreamed: set<string>, windows: seq<Window>, rows: seq<Memory>)
  {
    Keyed(db) && NulFree(db) && ListsLost(db, dreamed, windows, rows)
  }

  lemma KeysAreCopies(db: Table, a: Memory, b: Memory)
    requires Keyed(db) && NulFree(db) && a.id in db && db[a.id] == a && b.id in db && db[b.id] == b
    ensures a.Hashed() && b.Hashed() && a.Key() == b.Key() <==> Copies(a, b)
  {
    KeyTellsProjectAndHash(a.project, a.Hash(), b.project, b.Hash());
  }

  /** Only lost rows come back. */
  lemma BackIsLost(db: Table, dreamed: set<string>, windows: seq<Window>, rows: seq<Memory>, includeImported: bool,
                   id: string)
    requires Setting(db, dreamed, windows, rows) && id in Ids(Picks(rows, includeImported, |rows|))
    ensures id in db && Lost(db, dreamed, windows, db[id])
    ensures exists i :: 0 <= i < |rows| && OldestWanted(rows, includeImported, i) && rows[i].id == id
  {
    var m :| m in Picks(rows, includeImported, |rows|) && m.id == id;
    PicksMember(rows, includeImported, |rows|, m);
    assert m in rows;
  }

  /** After restoring all the picks, each picked text is live exactly once in its project. */
  lemma RestoreGivesEachGroupOne(db: Table, dreamed: set<string>, windows: seq<Window>, rows: seq<Memory>,
                                 includeImported: bool,
                                 m: Memory, id: string)
    requires Setting(db, dreamed, windows, rows)
    requires m in Picks(rows, includeImported, |rows|)
    ensures var after := Restore(db, Ids(Picks(rows, includeImported, |rows|)));
            && m.id in after && after[m.id] == Restored(m)
            && (m.Hashed() ==> (id in after && after[id].Live() && Copies(m, after[id]) <==> id == m.id))
  {
    var picks := Picks(rows, includeImported, |rows|);
    var after := Restore(db, Ids(picks));
    PicksMember(rows, includeImported, |rows|, m);
    var i :| 0 <= i < |rows| && OldestWanted(rows, includeImported, i) && rows[i] == m;
    assert Lost(db, dreamed, windows, m);
    if m.Hashed() && id in after && after[id].Live() && Copies(m, after[id]) {
      assert !db[id].Live();
      BackIsLost(db, dreamed, windows, rows, includeImported, id);
      var h :| 0 <= h < |rows| && OldestWanted(rows, includeImported, h) && rows[h].id == id;
      assert Lost(db, dreamed, windows, rows[h]);
      KeysAreCopies(db, m, rows[h]);
      assert h == i;
    }
  }

  lemma LiveCopyStays(db: Table, ids: set<string>, m: Memory)
    requires HasLiveCopy(db, m)
    ensures HasLiveCopy(Restore(db, ids), m)
  {
    var id :| id in db && db[id].Live() && Copies(m, db[id]);
    assert Restore(db, ids)[id] == db[id];
  }

  lemma PurposeTwinStays(db: Table, dreamed: set<string>, windows: seq<Window>, rows: seq<Memory>,
                         includeImported: bool, m: Memory)
    requires Setting(db, dreamed, windows, rows) && PurposeTwin(db, windows, m)
    ensures PurposeTwin(Restore(db, Ids(Picks(rows, includeImported, |rows|))), windows, m)
  {
    var picks := Picks(rows, includeImported, |rows|);
    var id :| id in db && id != m.id && SameText(db[id], m) && OnPurpose(windows, db[id]);
    if id in Ids(picks) { BackIsLost(db, dreamed, windows, rows, includeImported, id); }
    assert Restore(db, Ids(picks))[id] == db[id];
  }

  /** A memory lost after restoring was lost before. */
  lemma StillLost(db: Table, dreamed: set<string>, windows: seq<Window>, rows: seq<Memory>, includeImported: bool,
                  m: Memory)
    requires Setting(db, dreamed, windows, rows)
    requires Lost(Restore(db, Ids(Picks(rows, includeImported, |rows|))), dreamed, windows, m)
    ensures Lost(db, dreamed, windows, m)
  {
    if HasLiveCopy(db, m) { LiveCopyStays(db, Ids(Picks(rows, includeImported, |rows|)), m); }
    if PurposeTwin(db, windows, m) { PurposeTwinStays(db, dreamed, windows, rows, includeImported, m); }
  }

  lemma PickFor(db: Table, dreamed: set<string>, windows: seq<Window>, rows: seq<Memory>, includeImported: bool,
                m: Memory)
    returns (p: Memory)
    requires Setting(db, dreamed, windows, rows)
    requires m.Hashed() && Wanted(includeImported, m) && Lost(db, dreamed, windows, m)
    ensures p in Picks(rows, includeImported, |rows|) && Copies(m, p) && p.createdAt <= m.createdAt
  {
    var i :| 0 <= i < |rows| && rows[i] == m;
    PickedForEach(rows, includeImported, i);
    var h :| 0 <= h <= i && OldestWanted(rows, includeImported, h) && rows[h].Hashed() && rows[h].Key() == m.Key();
    p := rows[h];
    assert p in rows;
    PicksMember(rows, includeImported, |rows|, p);
    KeysAreCopies(db, m, p);
  }

  /** Every wanted lost memory has a live copy after the restore, no younger than itself. */
  lemma BroughtBack(db: Table, dreamed: set<string>, windows: seq<Window>, rows: seq<Memory>, includeImported: bool,
                    m: Memory)
    requires Setting(db, dreamed, windows, rows)
    requires m.Hashed() && Wanted(includeImported, m) && Lost(db, dreamed, windows, m)
    ensures var after := Restore(db, Ids(Picks(rows, includeImported, |rows|)));
            exists id :: id in after && after[id].Live() && Copies(m, after[id]) && after[id].createdAt <= m.createdAt
  {
    var p := PickFor(db, dreamed, windows, rows, includeImported, m);
    RestoreGivesEachGroupOne(db, dreamed, windows, rows, includeImported, p, p.id);
    var after := Restore(db, Ids(Picks(rows, includeImported, |rows|)));
    assert after[p.id] == Restored(p) && Copies(m, after[p.id]);
  }

  /** One restore is enough: run again, the command finds nothing. */
  lemma NothingLeftToRestore(db: Table, dreamed: set<string>, windows: seq<Window>, rows: seq<Memory>,
                             includeImported: bool, m: Memory)
    requires Setting(db, dreamed, windows, rows)
    requires Wanted(includeImported, m)
    ensures !Lost(Restore(db, Ids(Picks(rows, includeImported, |rows|))), dreamed, windows, m)
  {
    if Lost(Restore(db, Ids(Picks(rows, includeImported, |rows|))), dreamed, windows, m) {
      StillLost(db, dreamed, windows, rows, includeImported, m);
      if m.Hashed() {
        BroughtBack(db, dreamed, windows, rows, includeImported, m);
      } else {
        var i :| 0 <= i < |rows| && rows[i] == m;
        assert OldestWanted(rows, includeImported, i);
        PicksMember(rows, includeImported, |rows|, m);
        RestoreGivesEachGroupOne(db, dreamed, windows, rows, includeImported, m, m.id);
      }
    }
  }

  /** A text is live after the restore exactly when it was live before, or a lost row with
      it is wanted: leaving imported rows out loses the texts that only they carry. */
  lemma LiveAfterExactlyWhen(db: Table, dreamed: set<string>, windows: seq<Window>, rows: seq<Memory>,
                             includeImported: bool,
                             m: Memory)
    requires Setting(db, dreamed, windows, rows)
    ensures HasLiveCopy(Restore(db, Ids(Picks(rows, includeImported, |rows|))), m) <==>
              HasLiveCopy(db, m) || exists w :: w in rows && Wanted(includeImported, w) && Copies(m, w)
  {
    var ids := Ids(Picks(rows, includeImported, |rows|));
    var after := Restore(db, ids);
    if HasLiveCopy(db, m) { LiveCopyStays(db, ids, m); }
    if w :| w in rows && Wanted(includeImported, w) && Copies(m, w) {
      BroughtBack(db, dreamed, windows, rows, includeImported, w);
      var id :| id in after && after[id].Live() && Copies(w, after[id]);
      assert Copies(m, after[id]);
    }
    if HasLiveCopy(after, m) && !HasLiveCopy(db, m) {
      var id :| id in after && after[id].Live() && Copies(m, after[id]);
      BackIsLost(db, dreamed, windows, rows, includeImported, id);
      var i :| 0 <= i < |rows| && OldestWanted(rows, includeImported, i) && rows[i].id == id;
      assert Lost(db, dreamed, windows, rows[i]);
    }
  }

  // ----- What is not brought back -----

  /** The row was removed on purpose: by a tombstone, or outside every run and its half hour. */
  ghost predicate RemovedByUser(windows: seq<Window>, t: Memory)
  {
    t.deletedAt.Some? &&
    (t.revision == Tombstone ||
     (t.revision == Content &&
      forall w :: w in windows ==> !(w.start <= t.deletedAt.value <= w.end + 1800)))
  }

  /** A text that the user removed is not live after the restore unless it was before. */
  lemma RemovedStaysRemoved(db: Table, dreamed: set<string>, windows: seq<Window>, rows: seq<Memory>,
                            includeImported: bool, t: Memory)
    requires Setting(db, dreamed, windows, rows)
    requires t.id in db && db[t.id] == t && t.hash.Some? && t.hash.value != "" && RemovedByUser(windows, t)
    requires forall id :: id in db && db[id].hash == t.hash && db[id].Project() == t.Project() ==> !db[id].Live()
    ensures var after := Restore(db, Ids(Picks(rows, includeImported, |rows|)));
            forall id :: id in after && after[id].hash == t.hash && after[id].Project() == t.Project() ==>
              !after[id].Live()
  {
    var after := Restore(db, Ids(Picks(rows, includeImported, |rows|)));
    forall id | id in after && after[id].hash == t.hash && after[id].Project() == t.Project()
      ensures !after[id].Live()
    {
      if after[id].Live() {
        BackIsLost(db, dreamed, windows, rows, includeImported, id);
        assert id != t.id;
        assert PurposeTwin(db, windows, db[id]);
      }
    }
  }

  /** Only what a run deleted comes back: a proposed row with its content, deleted during a
      run or in the half hour after it, from a wanted source. */
  lemma OnlyDreamtComesBack(db: Table, dreamed: set<string>, windows: seq<Window>, rows: seq<Memory>,
                            includeImported: bool, id: string)
    requires Setting(db, dreamed, windows, rows) && id in db
    requires Restore(db, Ids(Picks(rows, includeImported, |rows|)))[id] != db[id]
    ensures id in dreamed && db[id].revision == Content && db[id].deletedAt.Some?
    ensures exists w :: w in windows && w.start <= db[id].deletedAt.value <= w.end + 1800
    ensures includeImported || (OrEmpty(db[id].source) != "claude-code" && OrEmpty(db[id].source) != "opencode")
  {
    BackIsLost(db, dreamed, windows, rows, includeImported, id);
    var i :| 0 <= i < |rows| && OldestWanted(rows, includeImported, i) && rows[i].id == id;
    assert rows[i] in rows;
  }

  /** Whether imports are left out, told by the source. */
  predicate Considered(includeImported: bool, m: Memory)
  {
    includeImported || (m.source != Some("claude-code") && m.source != Some("opencode"))
  }

  /** A lost row is picked exactly when it is considered and, if it has a hash, none of the
      rows before it is a considered one of the same hash and project. */
  lemma PickedExactlyWhen(db: Table, dreamed: set<string>, windows: seq<Window>, rows: seq<Memory>,
                          includeImported: bool, i: nat)
    requires Setting(db, dreamed, windows, rows) && i < |rows|
    ensures rows[i] in Picks(rows, includeImported, |rows|) <==>
              && Considered(includeImported, rows[i])
              && (OrEmpty(rows[i].hash) != "" ==>
                    forall h :: 0 <= h < i && Considered(includeImported, rows[h]) ==>
                      OrEmpty(rows[h].hash) != OrEmpty(rows[i].hash) || rows[h].Project() != rows[i].Project())
  {
    PicksMember(rows, includeImported, |rows|, rows[i]);
    assert rows[i] in rows;
    forall h | 0 <= h < i
      ensures Wanted(includeImported, rows[h]) == Considered(includeImported, rows[h])
      ensures rows[h].Hashed() && rows[i].Hashed() && rows[h].Key() == rows[i].Key() <==>
                OrEmpty(rows[i].hash) != "" && OrEmpty(rows[h].hash) == OrEmpty(rows[i].hash)
                && rows[h].Project() == rows[i].Project()
    {
      assert rows[h] in rows;
      KeysAreCopies(db, rows[h], rows[i]);
    }
  }

  // ----- The two directions together -----

  /** The raw delete that deduplication used to do: no tombstone. */
  function RawDelete(db: Table, ids: set<string>, at: int): Table
  {
    map id | id in db :: if id in ids then db[id].(deletedAt := Some(at)) else db[id]
  }

  /** The hypotheses of RestoreUndoesDream on the table before the run. */
  ghost predicate Untouched(db: Table, dreamed: set<string>, windows: seq<Window>, taken: set<string>, at: int,
                            m: Memory)
  {
    && Keyed(db) && (forall id :: id in db && db[id].Live() ==> db[id].revision.Content?)
    && taken <= dreamed && (forall id :: id in taken ==> id in db && db[id].Live())
    && (exists w :: w in windows && w.start <= at <= w.end + 1800)
    && m.id in db && db[m.id] == m && m.Live() && m.Hashed() && !PurposeTwin(db, windows, m)
  }

  /** If the run left no copy of m live, then m itself counts as lost. */
  lemma TakenIsLost(db: Table, dreamed: set<string>, windows: seq<Window>, taken: set<string>, at: int, m: Memory)
    requires Untouched(db, dreamed, windows, taken, at, m)
    ensures var dreamt := RawDelete(db, taken, at);
            HasLiveCopy(dreamt, m) || (m.id in taken && Lost(dreamt, dreamed, windows, dreamt[m.id]))
  {
    var dreamt := RawDelete(db, taken, at);
    var gone := dreamt[m.id];
    assert gone.Live() ==> Copies(m, gone);
    if PurposeTwin(dreamt, windows, gone) {
      var id :| id in dreamt && id != m.id && SameText(dreamt[id], gone) && OnPurpose(windows, dreamt[id]);
      assert OnPurpose(windows, db[id]) && SameText(db[id], m);
    }
    if HasLiveCopy(dreamt, gone) {
      var id :| id in dreamt && dreamt[id].Live() && Copies(gone, dreamt[id]);
      assert Copies(m, dreamt[id]);
    }
  }

  /** Whatever proposed memories a run deleted, even every copy of a text at once:
      each text that was live before and was never removed on purpose is live again
      in its project after one restore that wants its source. */
  lemma RestoreUndoesDream(db: Table, dreamed: set<string>, windows: seq<Window>, taken: set<string>, at: int,
                           rows: seq<Memory>, includeImported: bool, m: Memory)
    requires Untouched(db, dreamed, windows, taken, at, m) && Wanted(includeImported, m)
    requires Setting(RawDelete(db, taken, at), dreamed, windows, rows)
    ensures var dreamt := RawDelete(db, taken, at);
            HasLiveCopy(Restore(dreamt, Ids(Picks(rows, includeImported, |rows|))), m)
  {
    var dreamt := RawDelete(db, taken, at);
    TakenIsLost(db, dreamed, windows, taken, at, m);
    LiveAfterExactlyWhen(dreamt, dreamed, windows, rows, includeImported, m);
    if !HasLiveCopy(dreamt, m) { assert Copies(m, dreamt[m.id]) && dreamt[m.id] in rows; }
  }

  /** Copies removed by today's exact deduplication are never lost, not even when they
      are deleted raw inside a run: their keeper is live in their project. */
  lemma DedupedIsNotLost(db: Table, rows: seq<Memory>, actions: seq<Action>, who: seq<nat>, chosen: seq<Action>,
                         dreamed: set<string>, windows: seq<Window>, at: int, j: nat)
    requires Keyed(db) && ReadsLive(db, rows) && NulFree(db) && Proposes(rows, actions, who)
    requires forall a :: a in chosen ==> a in actions
    requires j < |rows|
    ensures var after := RawDelete(db, Targets(chosen), at);
            !Lost(after, dreamed, windows, after[rows[j].id])
  {
    var after := RawDelete(db, Targets(chosen), at);
    if rows[j].Hashed() {
      AnySubsetKeepsFirstRead(db, rows, actions, who, chosen, at, j);
      var keeper := rows[FirstLike(rows, j)];
      assert Delete(db, Targets(chosen), at)[keeper.id] == keeper;
      assert after[keeper.id] == keeper && Copies(after[rows[j].id], keeper);
    } else {
      FirstIsNoTarget(db, rows, actions, who, j);
    }
  }
}
