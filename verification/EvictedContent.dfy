/** What eviction does to content that is added again (pkg/context/artifact.go, eviction.go).
    An artifact can outlive its chunks: its hash then still stands for content of which no
    row is left, and AddArtifact takes the content as present. */
module EvictedContent {
  import opened Collections
  import opened ChunkTables
  import opened ChunkStore

  // ----- Adding parts -----

  predicate FromPart(parts: seq<NewChunk>, c: Chunk)
  {
    NewChunk(c.id, c.content, c.indexedAt, c.ttlHours) in parts
  }

  /** Inserting parts adds rows of the artifact and takes none away. */
  lemma {:induction false} InsertPartsAdds(tok: string -> seq<string>, db: DB, parts: seq<NewChunk>,
                                           artifactId: string)
    ensures var after := InsertParts(tok, db, parts, artifactId);
            && after.artifacts == db.artifacts
            && (forall c :: c in db.chunks ==> c in after.chunks)
            && (forall c :: c in after.chunks && c !in db.chunks ==> c.artifactId == artifactId && FromPart(parts, c))
    decreases |parts|
  {
    if parts != [] && parts[0].content == "" {
      InsertPartsAdds(tok, db, parts[1..], artifactId);
      assert parts == [parts[0]] + parts[1..];
    } else if parts != [] && !HasId(db.chunks, parts[0].id) {
      InsertPartsAdds(tok, InsertChunk(tok, db, parts[0], artifactId), parts[1..], artifactId);
      assert parts[0] in parts;
    }
  }

  lemma {:induction false} FreshPartsAreStored(tok: string -> seq<string>, db: DB, parts: seq<NewChunk>,
                                               artifactId: string)
    requires FreshParts(db.chunks, parts)
    ensures AllStored(InsertParts(tok, db, parts, artifactId).chunks, parts, artifactId)
    decreases |parts|
  {
    if parts != [] {
      var n, rest := parts[0], parts[1..];
      FreshStep(db.chunks, parts);
      assert parts == [n] + rest;
      if n.content == "" {
        FreshPartsAreStored(tok, db, rest, artifactId);
      } else {
        var next := InsertChunk(tok, db, n, artifactId);
        FreshWithRow(db.chunks, next.chunks[|db.chunks|], parts);
        FreshPartsAreStored(tok, next, rest, artifactId);
        InsertPartsAdds(tok, next, rest, artifactId);
        assert next.chunks[|next.chunks| - 1] in next.chunks;
      }
    }
  }

  // ----- The condition -----

  /** Adding content makes every part of it a row of the artifact that has its hash exactly
      when no artifact had the hash before, or the parts were rows of that one already. */
  lemma StoredExactlyWhen(tok: string -> seq<string>, db: DB, op: Op, holder: Artifact)
    requires Consistent(tok, db) && op.AddArtifact? && op.hash != ""
    requires (forall a :: a in db.artifacts ==> a.id != op.artifactId) && FreshParts(db.chunks, op.parts)
    requires holder in Apply(tok, db, op).artifacts && holder.hash == op.hash
    ensures AllStored(Apply(tok, db, op).chunks, op.parts, holder.id) <==>
              !HasHash(db.artifacts, op.hash) || AllStored(db.chunks, op.parts, holder.id)
  {
    if HasHash(db.artifacts, op.hash) {
      var a :| a in db.artifacts && a.hash == op.hash;
      assert Clashes(db.artifacts, op.artifactId, op.hash);
    } else {
      var added := db.(artifacts := db.artifacts + [Artifact(op.artifactId, op.hash, op.expires)]);
      FreshPartsAreStored(tok, added, op.parts, op.artifactId);
      InsertPartsAdds(tok, added, op.parts, op.artifactId);
      assert !Clashes(db.artifacts, op.artifactId, op.hash);
    }
  }

  // ----- Content that is lost -----

  /** The artifact is stored, and none of its rows. */
  ghost predicate Orphaned(db: DB, a: Artifact)
  {
    a in db.artifacts && forall c :: c in db.chunks ==> c.artifactId != a.id
  }

  /** Adding the content of an orphaned artifact does nothing at all. */
  lemma OrphanBlocks(tok: string -> seq<string>, db: DB, a: Artifact, op: Op)
    requires Orphaned(db, a) && op.AddArtifact? && op.hash == a.hash && a.hash != ""
    ensures Apply(tok, db, op) == db
  {
    var i :| 0 <= i < |db.artifacts| && db.artifacts[i] == a;
    assert Clashes(db.artifacts, op.artifactId, op.hash);
  }

  /** Every operation but one leaves an orphan an orphan: a prune at or after its time. */
  lemma OrphanEndsExactlyWhen(tok: string -> seq<string>, db: DB, a: Artifact, op: Op)
    requires Consistent(tok, db) && Orphaned(db, a) && WellFormed(op)
    ensures Orphaned(Apply(tok, db, op), a) <==> !(op.Prune? && Expired(a, op.now))
  {
    match op
    case PlainInsert(id, content, at, ttlHours) =>
    case AddArtifact(id, hash, expires, parts) =>
      if !Clashes(db.artifacts, id, hash) {
        InsertPartsAdds(tok, db.(artifacts := db.artifacts + [Artifact(id, hash, expires)]), parts, id);
        assert a.id != id;
      }
    case UpdateContent(id, content) =>
      EditedRows(db.chunks, id, content);
      var edited := Edited(db.chunks, id, content);
      forall c | c in edited ensures c.artifactId != a.id {
        var i :| 0 <= i < |edited| && edited[i] == c;
        assert db.chunks[i] in db.chunks;
      }
    case DeleteByIds(ids) =>
      DeleteIdsLeaves(tok, db, ids);
      FilterMembers(db.chunks, (c: Chunk) => c.id !in ids);
    case Prune(now) =>
      PruneLeaves(tok, db, now);
      FilterMembers(db.artifacts, (a: Artifact) => !Expired(a, now));
  }

  function RunFrom(tok: string -> seq<string>, db: DB, ops: seq<Op>): DB
    decreases |ops|
  {
    if ops == [] then db else RunFrom(tok, Apply(tok, db, ops[0]), ops[1..])
  }

  /** Over every sequence of operations an orphan stays one until a prune at or after its
      time, and as long as it is one its content cannot be added again. */
  lemma {:induction false} OrphanedUntilPruned(tok: string -> seq<string>, db: DB, a: Artifact, ops: seq<Op>,
                                               again: Op)
    requires Consistent(tok, db) && Orphaned(db, a) && (forall op :: op in ops ==> WellFormed(op))
    requires forall op :: op in ops ==> !(op.Prune? && Expired(a, op.now))
    requires again.AddArtifact? && again.hash == a.hash && a.hash != ""
    ensures Orphaned(RunFrom(tok, db, ops), a) && Apply(tok, RunFrom(tok, db, ops), again) == RunFrom(tok, db, ops)
    decreases |ops|
  {
    if ops == [] {
      OrphanBlocks(tok, db, a, again);
    } else {
      OrphanEndsExactlyWhen(tok, db, a, ops[0]);
      ApplyConsistent(tok, db, ops[0]);
      OrphanedUntilPruned(tok, Apply(tok, db, ops[0]), a, ops[1..], again);
    }
  }

  // ----- Reaching it -----

  function PartIds(parts: seq<NewChunk>): seq<string>
  {
    seq(|parts|, i requires 0 <= i < |parts| => parts[i].id)
  }

  lemma PartIdsMembers(parts: seq<NewChunk>, n: NewChunk)
    requires n in parts
    ensures n.id in PartIds(parts)
  {
    var i :| 0 <= i < |parts| && parts[i] == n;
    assert PartIds(parts)[i] == n.id;
  }

  /** Deleting the ids of all parts deletes every row of the artifact. */
  lemma PartsDeleted(tok: string -> seq<string>, parts: seq<NewChunk>, a: Artifact)
    ensures var start := DB([], [a], multiset{});
            var evicted := DeleteIds(tok, InsertParts(tok, start, parts, a.id), PartIds(parts));
            evicted.chunks == [] && evicted.artifacts == [a]
  {
    var ids := PartIds(parts);
    var start := DB([], [a], multiset{});
    var added := InsertParts(tok, start, parts, a.id);
    InsertPartsAdds(tok, start, parts, a.id);
    DeleteIdsLeaves(tok, added, ids);
    forall c | c in added.chunks ensures c.id in ids {
      PartIdsMembers(parts, NewChunk(c.id, c.content, c.indexedAt, c.ttlHours));
    }
    FilterNone(added.chunks, (c: Chunk) => c.id !in ids);
  }

  lemma RunMore(tok: string -> seq<string>, ops: seq<Op>, op: Op)
    ensures Run(tok, ops + [op]) == Apply(tok, Run(tok, ops), op)
  {
    assert (ops + [op])[..|ops + [op]| - 1] == ops;
  }

  lemma RunThree(tok: string -> seq<string>, a: Op, b: Op, c: Op)
    ensures Run(tok, [a]) == Apply(tok, DB([], [], multiset{}), a)
    ensures Run(tok, [a, b]) == Apply(tok, Run(tok, [a]), b)
    ensures Run(tok, [a, b, c]) == Apply(tok, Run(tok, [a, b]), c)
  {
    RunMore(tok, [], a);
    RunMore(tok, [a], b);
    RunMore(tok, [a, b], c);
    assert [] + [a] == [a] && [a] + [b] == [a, b] && [a, b] + [c] == [a, b, c];
  }

  /** From the empty store, any content at all: added, it is stored; evicted, the artifact
      is left without its rows; added again, it is not stored. */
  lemma EvictedContentIsNotIndexedAgain(tok: string -> seq<string>, add: Op, again: Op)
    requires add.AddArtifact? && FreshParts([], add.parts) && add.hash != ""
    requires again.AddArtifact? && again.hash == add.hash
    ensures AllStored(Run(tok, [add]).chunks, add.parts, add.artifactId)
    ensures var evict := DeleteByIds(PartIds(add.parts));
            && Run(tok, [add, evict]).chunks == []
            && Orphaned(Run(tok, [add, evict]), Artifact(add.artifactId, add.hash, add.expires))
            && Run(tok, [add, evict, again]) == Run(tok, [add, evict])
  {
    var a, evict := Artifact(add.artifactId, add.hash, add.expires), DeleteByIds(PartIds(add.parts));
    RunThree(tok, add, evict, again);
    assert [] + [a] == [a];
    assert Run(tok, [add]) == InsertParts(tok, DB([], [a], multiset{}), add.parts, a.id);
    FreshPartsAreStored(tok, DB([], [a], multiset{}), add.parts, a.id);
    PartsDeleted(tok, add.parts, a);
    assert Orphaned(Run(tok, [add, evict]), a);
    OrphanBlocks(tok, Run(tok, [add, evict]), a, again);
  }

  // ----- Content added without a time to live -----

  /** A cycle with nothing over the cap: artifacts past their time, then chunks past theirs. */
  function Cycle(tok: string -> seq<string>, db: DB, now: int): DB
  {
    var pruned := Apply(tok, db, Prune(now));
    DeleteIds(tok, pruned, ChunkIds(Filter(pruned.chunks, (c: Chunk) => ChunkExpired(c, now))))
  }

  lemma CycleKeeps(tok: string -> seq<string>, db: DB, now: int)
    requires Consistent(tok, db)
    ensures var after := Cycle(tok, db, now);
            && Consistent(tok, after)
            && (forall a :: a in after.artifacts <==> a in db.artifacts && !Expired(a, now))
            && (forall c :: c in after.chunks <==>
                  c in db.chunks && Names(after.artifacts, c.artifactId) && !ChunkExpired(c, now))
  {
    var pruned := Apply(tok, db, Prune(now));
    PruneLeaves(tok, db, now);
    DeleteExpired(tok, pruned, now);
    FilterMembers(db.artifacts, (a: Artifact) => !Expired(a, now));
    FilterMembers(pruned.chunks, (c: Chunk) => !ChunkExpired(c, now));
  }

  /** The rows an addition makes have its time, and there is one if some part is not empty. */
  lemma RowsAdded(tok: string -> seq<string>, db: DB, op: Op, at: int, ttl: int)
    requires Consistent(tok, db) && op.AddArtifact? && WellFormed(op)
    requires !Clashes(db.artifacts, op.artifactId, op.hash) && FreshParts(db.chunks, op.parts)
    requires forall n :: n in op.parts ==> n.at == Utc(at) && n.ttlHours == ttl
    ensures var after := Apply(tok, db, op);
            && Consistent(tok, after) && Artifact(op.artifactId, op.hash, op.expires) in after.artifacts
            && (forall c :: c in after.chunks && c.artifactId == op.artifactId ==>
                  c.indexedAt == Utc(at) && c.ttlHours == ttl)
            && AllStored(after.chunks, op.parts, op.artifactId)
  {
    var a := Artifact(op.artifactId, op.hash, op.expires);
    var added := db.(artifacts := db.artifacts + [a]);
    ApplyConsistent(tok, db, op);
    InsertPartsAdds(tok, added, op.parts, op.artifactId);
    FreshPartsAreStored(tok, added, op.parts, op.artifactId);
    assert a in added.artifacts;
    forall c | c in db.chunks ensures c.artifactId != op.artifactId {
      assert Names(db.artifacts, c.artifactId);
    }
  }

  lemma NamesOnly(artifacts: seq<Artifact>, a: Artifact)
    requires UniqueArtifacts(artifacts) && a in artifacts
    ensures Names(artifacts, a.id) && a.id != ""
  {
  }

  /** A cycle orphans an artifact exactly when its rows' time has passed and its own has not. */
  lemma OrphanedByCycle(tok: string -> seq<string>, db: DB, a: Artifact, at: int, ttl: int, now: int)
    requires Consistent(tok, db) && a in db.artifacts && ttl > 0
    requires forall c :: c in db.chunks && c.artifactId == a.id ==> c.indexedAt == Utc(at) && c.ttlHours == ttl
    requires exists c :: c in db.chunks && c.artifactId == a.id
    ensures Orphaned(Cycle(tok, db, now), a) <==> !Expired(a, now) && at + 3600 * ttl <= now
  {
    CycleKeeps(tok, db, now);
    var c :| c in db.chunks && c.artifactId == a.id;
    if !Expired(a, now) { NamesOnly(Cycle(tok, db, now).artifacts, a); }
  }

  /** Once some part is not empty: a cycle leaves the artifact without its rows exactly when
      the content was added without a time to live and the default one has passed, or in the
      one second in which the time to live ends. */
  lemma CycleOrphansExactlyWhen(tok: string -> seq<string>, db: DB, op: Op, ttlHours: int, defaultTTL: int, at: int,
                                now: int)
    requires Consistent(tok, db) && op.AddArtifact? && WellFormed(op) && op.expires == Expiry(ttlHours, at)
    requires !Clashes(db.artifacts, op.artifactId, op.hash) && FreshParts(db.chunks, op.parts)
    requires forall n :: n in op.parts ==> n.at == Utc(at) && n.ttlHours == ChunkTTL(ttlHours, defaultTTL)
    requires exists n :: n in op.parts && n.content != ""
    ensures Orphaned(Cycle(tok, Apply(tok, db, op), now), Artifact(op.artifactId, op.hash, op.expires)) <==>
              if ttlHours <= 0 then at + 3600 * ChunkTTL(ttlHours, defaultTTL) <= now else at + 3600 * ttlHours == now
  {
    var a := Artifact(op.artifactId, op.hash, op.expires);
    RowsAdded(tok, db, op, at, ChunkTTL(ttlHours, defaultTTL));
    var n :| n in op.parts && n.content != "";
    assert Stored(Apply(tok, db, op).chunks, n.content, a.id);
    OrphanedByCycle(tok, Apply(tok, db, op), a, at, ChunkTTL(ttlHours, defaultTTL), now);
  }

  /** Content added without a time to live is lost for good once the default one has passed:
      no operations whatever, however often it is added again, make it stored. */
  lemma LostForGood(tok: string -> seq<string>, db: DB, op: Op, ttlHours: int, defaultTTL: int, at: int, now: int,
                    ops: seq<Op>, again: Op)
    requires Consistent(tok, db) && op.AddArtifact? && WellFormed(op) && op.expires == Expiry(ttlHours, at)
    requires !Clashes(db.artifacts, op.artifactId, op.hash) && FreshParts(db.chunks, op.parts) && op.hash != ""
    requires forall n :: n in op.parts ==> n.at == Utc(at) && n.ttlHours == ChunkTTL(ttlHours, defaultTTL)
    requires exists n :: n in op.parts && n.content != ""
    requires ttlHours <= 0 && at + 3600 * ChunkTTL(ttlHours, defaultTTL) <= now
    requires (forall o :: o in ops ==> WellFormed(o)) && again.AddArtifact? && again.hash == op.hash
    ensures var later := RunFrom(tok, Cycle(tok, Apply(tok, db, op), now), ops);
            Orphaned(later, Artifact(op.artifactId, op.hash, op.expires)) && Apply(tok, later, again) == later
  {
    var a := Artifact(op.artifactId, op.hash, op.expires);
    CycleOrphansExactlyWhen(tok, db, op, ttlHours, defaultTTL, at, now);
    ApplyConsistent(tok, db, op);
    CycleKeeps(tok, Apply(tok, db, op), now);
    OrphanedUntilPruned(tok, Cycle(tok, Apply(tok, db, op), now), a, ops, again);
  }
}
