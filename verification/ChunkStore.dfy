/** The chunk store and its evictor (pkg/context/store.go, artifact.go, eviction.go)
    as code that changes the tables row by row. */
module ChunkStore {
  import opened ChunkTables
  import opened Collections

  predicate ChunkExpired(c: Chunk, now: int)
  {
    c.ttlHours > 0 && c.indexedAt.seconds + 3600 * c.ttlHours <= now
  }

  // ----- What a series of deletes leaves -----

  lemma {:induction false} DeleteIdsLeaves(tok: string -> seq<string>, db: DB, ids: seq<string>)
    ensures DeleteIds(tok, db, ids).chunks == Filter(db.chunks, (c: Chunk) => c.id !in ids)
    ensures DeleteIds(tok, db, ids).artifacts == db.artifacts
    decreases |ids|
  {
    if ids == [] {
      FilterAll(db.chunks, (c: Chunk) => c.id !in ids);
    } else {
      var first := (c: Chunk) => c.id != ids[0];
      DeleteIdsLeaves(tok, Delete(tok, db, first), ids[1..]);
      assert forall x :: x in ids <==> x == ids[0] || x in ids[1..];
      FilterTwice(db.chunks, first, (c: Chunk) => c.id !in ids[1..], (c: Chunk) => c.id !in ids);
    }
  }

  lemma {:induction false} PruneAllLeaves(tok: string -> seq<string>, db: DB, ids: seq<string>)
    ensures PruneAll(tok, db, ids).chunks == Filter(db.chunks, (c: Chunk) => c.artifactId !in ids)
    ensures PruneAll(tok, db, ids).artifacts == Filter(db.artifacts, (a: Artifact) => a.id !in ids)
    decreases |ids|
  {
    if ids == [] {
      FilterAll(db.chunks, (c: Chunk) => c.artifactId !in ids);
      FilterAll(db.artifacts, (a: Artifact) => a.id !in ids);
    } else {
      var keepChunk, keepArtifact := (c: Chunk) => c.artifactId != ids[0], (a: Artifact) => a.id != ids[0];
      PruneAllLeaves(tok, PruneArtifact(tok, db, ids[0]), ids[1..]);
      assert forall x :: x in ids <==> x == ids[0] || x in ids[1..];
      FilterTwice(db.chunks, keepChunk, (c: Chunk) => c.artifactId !in ids[1..], (c: Chunk) => c.artifactId !in ids);
      FilterTwice(db.artifacts, keepArtifact, (a: Artifact) => a.id !in ids[1..], (a: Artifact) => a.id !in ids);
    }
  }

  lemma {:induction false} IdsMembers(artifacts: seq<Artifact>)
    ensures forall x :: x in Ids(artifacts) <==> exists a :: a in artifacts && a.id == x
    ensures |Ids(artifacts)| == |artifacts|
  {
    if artifacts != [] {
      IdsMembers(artifacts[1..]);
      assert artifacts == [artifacts[0]] + artifacts[1..];
      assert artifacts[0] in artifacts;
    }
  }

  function ChunkIds(chunks: seq<Chunk>): seq<string>
  {
    if chunks == [] then [] else [chunks[0].id] + ChunkIds(chunks[1..])
  }

  lemma {:induction false} ChunkIdsMembers(chunks: seq<Chunk>)
    ensures forall x :: x in ChunkIds(chunks) <==> exists c :: c in chunks && c.id == x
    ensures |ChunkIds(chunks)| == |chunks|
  {
    if chunks != [] {
      ChunkIdsMembers(chunks[1..]);
      assert chunks == [chunks[0]] + chunks[1..];
      assert chunks[0] in chunks;
    }
  }

  lemma {:induction false} ChunkIdsConcat(a: seq<Chunk>, b: seq<Chunk>)
    ensures ChunkIds(a + b) == ChunkIds(a) + ChunkIds(b)
  {
    if a == [] {
      assert a + b == b;
    } else {
      ChunkIdsConcat(a[1..], b);
      assert (a + b)[1..] == a[1..] + b;
      assert [a[0].id] + (ChunkIds(a[1..]) + ChunkIds(b)) == ([a[0].id] + ChunkIds(a[1..])) + ChunkIds(b);
    }
  }

  /** By their unique ids, the artifacts dropped are the expired ones. */
  lemma ExpiredIds(artifacts: seq<Artifact>, now: int)
    requires UniqueArtifacts(artifacts)
    ensures var ids := Ids(Filter(artifacts, (a: Artifact) => Expired(a, now)));
            forall a :: a in artifacts ==> (a.id in ids <==> Expired(a, now))
    ensures var ids := Ids(Filter(artifacts, (a: Artifact) => Expired(a, now)));
            forall x :: x in ids ==> exists a :: a in artifacts && a.id == x
  {
    var gone := Filter(artifacts, (a: Artifact) => Expired(a, now));
    var ids := Ids(gone);
    IdsMembers(gone);
    FilterMembers(artifacts, (a: Artifact) => Expired(a, now));
    forall a | a in artifacts ensures a.id in ids <==> Expired(a, now) {
      if a.id in ids {
        var b :| b in gone && b.id == a.id;
        SameArtifact(artifacts, a, b);
      }
    }
  }

  /** A chunk goes exactly when its artifact does. */
  lemma NamesLeft(artifacts: seq<Artifact>, ids: seq<string>, artifactId: string)
    requires Names(artifacts, artifactId) && (forall a :: a in artifacts ==> a.id != "")
    requires forall x :: x in ids ==> exists a :: a in artifacts && a.id == x
    ensures artifactId !in ids <==> Names(Filter(artifacts, (a: Artifact) => a.id !in ids), artifactId)
  {
    var left := Filter(artifacts, (a: Artifact) => a.id !in ids);
    FilterMembers(artifacts, (a: Artifact) => a.id !in ids);
    if artifactId !in ids && artifactId != "" {
      var a :| a in artifacts && a.id == artifactId;
      assert a in left;
    }
  }

  /** Dropping the artifacts with these ids leaves the unexpired ones. */
  lemma UnexpiredLeft(db: DB, now: int)
    requires UniqueArtifacts(db.artifacts)
    ensures var ids := Ids(Filter(db.artifacts, (a: Artifact) => Expired(a, now)));
            Filter(db.artifacts, (a: Artifact) => a.id !in ids) ==
              Filter(db.artifacts, (a: Artifact) => !Expired(a, now))
  {
    var ids := Ids(Filter(db.artifacts, (a: Artifact) => Expired(a, now)));
    ExpiredIds(db.artifacts, now);
    FilterSame(db.artifacts, (a: Artifact) => a.id !in ids, (a: Artifact) => !Expired(a, now));
  }

  lemma NamedChunksLeft(db: DB, ids: seq<string>)
    requires RefsOk(db) && UniqueArtifacts(db.artifacts)
    requires forall x :: x in ids ==> exists a :: a in db.artifacts && a.id == x
    ensures forall c :: c in Filter(db.chunks, (c: Chunk) => c.artifactId !in ids)
              <==> c in db.chunks && Names(Filter(db.artifacts, (a: Artifact) => a.id !in ids), c.artifactId)
  {
    FilterMembers(db.chunks, (c: Chunk) => c.artifactId !in ids);
    forall c | c in db.chunks
      ensures c.artifactId !in ids <==> Names(Filter(db.artifacts, (a: Artifact) => a.id !in ids), c.artifactId)
    {
      NamesLeft(db.artifacts, ids, c.artifactId);
    }
  }

  /** The artifacts whose time has come, and what pruning them leaves. */
  lemma PruneLeaves(tok: string -> seq<string>, db: DB, now: int)
    requires Consistent(tok, db)
    ensures var after := Apply(tok, db, Prune(now));
            && Consistent(tok, after)
            && after.artifacts == Filter(db.artifacts, (a: Artifact) => !Expired(a, now))
            && (forall c :: c in after.chunks <==> c in db.chunks && Names(after.artifacts, c.artifactId))
  {
    var ids := Ids(Filter(db.artifacts, (a: Artifact) => Expired(a, now)));
    assert Apply(tok, db, Prune(now)) == PruneAll(tok, db, ids);
    PruneAllConsistent(tok, db, ids);
    PruneAllLeaves(tok, db, ids);
    ExpiredIds(db.artifacts, now);
    NamedChunksLeft(db, ids);
    UnexpiredLeft(db, now);
  }

  lemma SameArtifact(artifacts: seq<Artifact>, a: Artifact, b: Artifact)
    requires UniqueArtifacts(artifacts) && a in artifacts && b in artifacts && a.id == b.id
    ensures a == b
  {
  }

  lemma SameChunk(chunks: seq<Chunk>, a: Chunk, b: Chunk)
    requires UniqueIds(chunks) && a in chunks && b in chunks && a.id == b.id
    ensures a == b
  {
  }

  /** Deleting the ids of the expired rows deletes just those rows. */
  lemma DeleteExpired(tok: string -> seq<string>, db: DB, now: int)
    requires Consistent(tok, db)
    ensures var ids := ChunkIds(Filter(db.chunks, (c: Chunk) => ChunkExpired(c, now)));
            var after := DeleteIds(tok, db, ids);
            && Consistent(tok, after) && after.artifacts == db.artifacts
            && after.chunks == Filter(db.chunks, (c: Chunk) => !ChunkExpired(c, now))
            && |ids| == |db.chunks| - |after.chunks|
  {
    var p, q := (c: Chunk) => ChunkExpired(c, now), (c: Chunk) => !ChunkExpired(c, now);
    var gone := Filter(db.chunks, p);
    var ids := ChunkIds(gone);
    DeleteIdsConsistent(tok, db, ids);
    DeleteIdsLeaves(tok, db, ids);
    ChunkIdsMembers(gone);
    FilterMembers(db.chunks, p);
    forall c | c in db.chunks ensures c.id in ids <==> p(c) {
      if c.id in ids {
        var b :| b in gone && b.id == c.id;
        SameChunk(db.chunks, b, c);
      }
    }
    FilterSame(db.chunks, (c: Chunk) => c.id !in ids, q);
    FilterSizes(db.chunks, p, q);
  }

  // ----- Oldest first -----

  predicate InTextOrder(chunks: seq<Chunk>)
  {
    forall i, j :: 0 <= i < j < |chunks| ==> chunks[i].indexedAt.WallClock() <= chunks[j].indexedAt.WallClock()
  }

  /** ORDER BY indexed_at: rows of one time may come in any order. */
  predicate Ordering(order: seq<Chunk>, chunks: seq<Chunk>)
  {
    InTextOrder(order) && multiset(order) == multiset(chunks)
  }

  function CreationTime(c: Chunk): int
  {
    c.indexedAt.WallClock()
  }

  lemma OrderingExists(chunks: seq<Chunk>) returns (order: seq<Chunk>)
    ensures Ordering(order, chunks)
  {
    order := SortOn(chunks, CreationTime);
    SortOnLaws(chunks, CreationTime);
    assert forall c: Chunk :: CreationTime(c) == c.indexedAt.WallClock();
  }

  lemma {:induction false} FilterCount(s: seq<Chunk>, p: Chunk -> bool, x: Chunk)
    ensures multiset(Filter(s, p))[x] == if p(x) then multiset(s)[x] else 0
  {
    if s != [] {
      FilterCount(s[1..], p, x);
      assert s == [s[0]] + s[1..];
    }
  }

  lemma FilterPermuted(a: seq<Chunk>, b: seq<Chunk>, p: Chunk -> bool)
    requires multiset(a) == multiset(b)
    ensures multiset(Filter(a, p)) == multiset(Filter(b, p))
  {
    forall x ensures multiset(Filter(a, p))[x] == multiset(Filter(b, p))[x] {
      FilterCount(a, p, x);
      FilterCount(b, p, x);
    }
  }

  ghost predicate DistinctIds(chunks: seq<Chunk>)
  {
    forall i, j :: 0 <= i < j < |chunks| ==> chunks[i].id != chunks[j].id
  }

  lemma HeadIds(a: seq<Chunk>, b: seq<Chunk>)
    requires DistinctIds(a + b)
    ensures forall c :: c in a ==> c.id in ChunkIds(a)
    ensures forall c :: c in b ==> c.id !in ChunkIds(a)
  {
    ChunkIdsMembers(a);
    forall c | c in b ensures c.id !in ChunkIds(a) {
      var j :| 0 <= j < |b| && b[j] == c;
      forall x | x in a ensures x.id != c.id {
        var i :| 0 <= i < |a| && a[i] == x;
        assert (a + b)[i] == x && (a + b)[|a| + j] == c;
      }
    }
  }

  /** Of rows with distinct ids, those not among the first. */
  lemma TailById(a: seq<Chunk>, b: seq<Chunk>)
    requires DistinctIds(a + b)
    ensures Filter(a + b, (c: Chunk) => c.id !in ChunkIds(a)) == b
  {
    var p := (c: Chunk) => c.id !in ChunkIds(a);
    HeadIds(a, b);
    FilterConcat(a, b, p);
    FilterAll(b, p);
    FilterNone(a, p);
    assert [] + b == b;
  }

  /** Deleting the first k rows of an ordering leaves the others. */
  lemma EvictedAndKept(chunks: seq<Chunk>, order: seq<Chunk>, k: nat)
    requires UniqueIds(chunks) && multiset(order) == multiset(chunks) && k <= |order|
    ensures multiset(Filter(chunks, (c: Chunk) => c.id !in ChunkIds(order[..k]))) == multiset(order[k..])
  {
    OrderingUnique(chunks, order);
    assert order[..k] + order[k..] == order;
    TailById(order[..k], order[k..]);
    FilterPermuted(chunks, order, (c: Chunk) => c.id !in ChunkIds(order[..k]));
  }

  lemma {:induction false} FilterNone(s: seq<Chunk>, p: Chunk -> bool)
    requires forall c :: c in s ==> !p(c)
    ensures Filter(s, p) == []
  {
    if s != [] {
      assert s[0] in s;
      FilterNone(s[1..], p);
    }
  }

  lemma OrderingUnique(chunks: seq<Chunk>, order: seq<Chunk>)
    requires UniqueIds(chunks) && multiset(order) == multiset(chunks)
    ensures DistinctIds(order)
  {
    forall i, j | 0 <= i < j < |order| ensures order[i].id != order[j].id {
      if order[i].id == order[j].id {
        assert order[i] in multiset(order) && order[j] in multiset(order);
        assert order[i] in chunks && order[j] in chunks;
        SameChunk(chunks, order[i], order[j]);
        Twice(order, i, j);
        AtMostOnce(chunks, order[i]);
      }
    }
  }

  lemma KeepStep(kept: seq<Chunk>, all: seq<Chunk>, i: nat, keep: Chunk -> bool)
    requires i < |all|
    ensures kept + Filter(all[i..], keep) ==
              (if keep(all[i]) then kept + [all[i]] else kept) + Filter(all[i + 1..], keep)
  {
    assert all[i..][1..] == all[i + 1..] && all[i..][0] == all[i];
    if keep(all[i]) {
      assert kept + ([all[i]] + Filter(all[i + 1..], keep)) == (kept + [all[i]]) + Filter(all[i + 1..], keep);
    }
  }

  /** fts covers the rows kept so far and those still to be looked at. */
  ghost predicate Covers(tok: string -> seq<string>, fts: multiset<Posting>, kept: seq<Chunk>, rest: seq<Chunk>)
  {
    fts == Rebuild(tok, kept) + Rebuild(tok, rest)
  }

  lemma IndexStep(tok: string -> seq<string>, fts: multiset<Posting>, kept: seq<Chunk>, all: seq<Chunk>, i: nat)
    requires i < |all| && Covers(tok, fts, kept, all[i..])
    ensures Covers(tok, fts, kept + [all[i]], all[i + 1..])
    ensures Covers(tok, fts - Postings(tok, all[i]), kept, all[i + 1..])
  {
    RebuildAppend(tok, kept, all[i]);
    assert all[i..][1..] == all[i + 1..] && all[i..][0] == all[i];
    Shuffle(Postings(tok, all[i]), Rebuild(tok, kept), Rebuild(tok, all[i + 1..]));
  }

  lemma CoversEnds(tok: string -> seq<string>, fts: multiset<Posting>, all: seq<Chunk>)
    ensures Covers(tok, fts, [], all) <==> fts == Rebuild(tok, all)
    ensures Covers(tok, fts, all, []) <==> fts == Rebuild(tok, all)
  {
  }

  // ----- The store -----

  /** The content_chunks, artifacts and content_chunks_fts tables; tok is the
      full-text tokenizer and sha the content digest. */
  class Store {
    const tok: string -> seq<string>
    const sha: string -> string
    var chunks: seq<Chunk>
    var artifacts: seq<Artifact>
    var fts: multiset<Posting>

    ghost function View(): DB
      reads this
    {
      DB(chunks, artifacts, fts)
    }

    ghost predicate Valid()
      reads this
    {
      Consistent(tok, View())
    }

    constructor (tok: string -> seq<string>, sha: string -> string)
      ensures Valid() && View() == Run(tok, []) && this.tok == tok && this.sha == sha
    {
      this.tok, this.sha := tok, sha;
      chunks, artifacts, fts := [], [], multiset{};
    }

    /** Inserts a row and its postings. A used id fails and changes nothing. */
    method InsertChunk(n: NewChunk, artifactId: string) returns (ok: bool)
      modifies this
      ensures View() == ChunkTables.InsertChunk(tok, old(View()), n, artifactId) && artifacts == old(artifacts)
      ensures ok <==> !HasId(old(chunks), n.id)
      ensures ok ==>
                var was := old(chunks);
                var rowid := if was == [] then 1 else was[|was| - 1].rowid + 1;
                chunks == was + [Chunk(rowid, n.id, n.content, n.at, n.ttlHours, artifactId)]
      ensures !ok ==> View() == old(View())
      ensures old(Valid()) && ok ==> (Valid() <==> Names(artifacts, artifactId))
    {
      if Consistent(tok, View()) && !HasId(chunks, n.id) {
        InsertConsistent(tok, View(), n.id, n.content, n.at, n.ttlHours, artifactId);
      }
      if exists i :: 0 <= i < |chunks| && chunks[i].id == n.id {
        return false;
      }
      var c := Chunk(NextRowid(chunks), n.id, n.content, n.at, n.ttlHours, artifactId);
      chunks := chunks + [c];
      fts := fts + Postings(tok, c);
      return true;
    }

    /** A DELETE statement: the trigger takes each removed row's postings out. */
    method DeleteWhere(keep: Chunk -> bool)
      modifies this`chunks, this`fts
      ensures chunks == Filter(old(chunks), keep)
      ensures old(fts) == Rebuild(tok, old(chunks)) ==> fts == Rebuild(tok, chunks)
    {
      var kept: seq<Chunk> := [];
      ghost var all, wasCovered := chunks, fts == Rebuild(tok, chunks);
      CoversEnds(tok, fts, all);
      assert all[0..] == all;
      for i := 0 to |chunks|
        invariant chunks == all && kept + Filter(all[i..], keep) == Filter(all, keep)
        invariant wasCovered ==> Covers(tok, fts, kept, all[i..])
        modifies this`fts
      {
        KeepStep(kept, all, i, keep);
        if wasCovered { IndexStep(tok, fts, kept, all, i); }
        if keep(chunks[i]) {
          kept := kept + [chunks[i]];
        } else {
          fts := fts - Postings(tok, chunks[i]);
        }
      }
      assert kept + [] == kept;
      CoversEnds(tok, fts, kept);
      chunks := kept;
    }

    /** Deletes the rows with these ids, one statement each, in one transaction. */
    method DeleteChunks(ids: seq<string>)
      requires Valid()
      modifies this`chunks, this`fts
      ensures Valid() && View() == DeleteIds(tok, old(View()), ids)
    {
      for i := 0 to |ids|
        invariant Valid() && artifacts == old(artifacts)
        invariant DeleteIds(tok, View(), ids[i..]) == DeleteIds(tok, old(View()), ids)
      {
        ghost var before := View();
        var id := ids[i];
        DeleteConsistent(tok, before, (c: Chunk) => c.id != id);
        assert ids[i..][1..] == ids[i + 1..] && ids[i..][0] == id;
        DeleteWhere((c: Chunk) => c.id != id);
        assert View() == Delete(tok, before, (c: Chunk) => c.id != id);
      }
    }

    /** The ids of chunks whose time to live has passed. */
    method GetExpiredChunkIDs(now: int) returns (ids: seq<string>)
      ensures ids == ChunkIds(Filter(chunks, (c: Chunk) => ChunkExpired(c, now)))
    {
      ids := [];
      ghost var p := (c: Chunk) => ChunkExpired(c, now);
      for i := 0 to |chunks|
        invariant ids + ChunkIds(Filter(chunks[i..], p)) == ChunkIds(Filter(chunks, p))
      {
        assert chunks[i..][1..] == chunks[i + 1..] && chunks[i..][0] == chunks[i];
        if ChunkExpired(chunks[i], now) {
          SelectedIdsStep(ids, chunks[i], Filter(chunks[i + 1..], p));
          ids := ids + [chunks[i].id];
        }
      }
    }

    method GetTotalSize() returns (size: int)
      ensures size == Total(chunks)
    {
      size := 0;
      for i := 0 to |chunks|
        invariant size + Total(chunks[i..]) == Total(chunks)
      {
        assert chunks[i..][1..] == chunks[i + 1..] && chunks[i..][0] == chunks[i];
        size := size + Length(chunks[i].content);
      }
    }

    /** Deletes the artifacts whose time has come, each after its chunks. */
    method PruneExpired(now: int) returns (count: int)
      requires Valid()
      modifies this
      ensures Valid() && View() == Apply(tok, old(View()), Prune(now))
      ensures count == |Filter(old(artifacts), (a: Artifact) => Expired(a, now))|
    {
      var ids := ExpiredArtifactIDs(now);
      IdsMembers(Filter(artifacts, (a: Artifact) => Expired(a, now)));
      for i := 0 to |ids|
        invariant Valid() && PruneAll(tok, View(), ids[i..]) == PruneAll(tok, old(View()), ids)
      {
        assert ids[i..][1..] == ids[i + 1..] && ids[i..][0] == ids[i];
        PruneOne(ids[i]);
      }
      return |ids|;
    }

    /** The artifact's chunks first, then the artifact. */
    method PruneOne(id: string)
      requires Valid()
      modifies this
      ensures Valid() && View() == PruneArtifact(tok, old(View()), id)
    {
      ghost var before := View();
      PruneArtifactConsistent(tok, before, id);
      DeleteConsistent(tok, before, (c: Chunk) => c.artifactId != id);
      DeleteWhere((c: Chunk) => c.artifactId != id);
      artifacts := Filter(artifacts, (a: Artifact) => a.id != id);
      assert View() == PruneArtifact(tok, before, id);
    }

    method ExpiredArtifactIDs(now: int) returns (ids: seq<string>)
      ensures ids == Ids(Filter(artifacts, (a: Artifact) => Expired(a, now)))
    {
      ids := [];
      ghost var p := (a: Artifact) => Expired(a, now);
      for i := 0 to |artifacts|
        invariant ids + Ids(Filter(artifacts[i..], p)) == Ids(Filter(artifacts, p))
      {
        assert artifacts[i..][1..] == artifacts[i + 1..] && artifacts[i..][0] == artifacts[i];
        if Expired(artifacts[i], now) {
          var rest := Filter(artifacts[i + 1..], p);
          assert ([artifacts[i]] + rest)[1..] == rest;
          assert ids + ([artifacts[i].id] + Ids(rest)) == (ids + [artifacts[i].id]) + Ids(rest);
          ids := ids + [artifacts[i].id];
        }
      }
    }

    /** Inserts the non-empty parts in turn, up to the first that fails. */
    method InsertAll(parts: seq<NewChunk>, artifactId: string) returns (ok: bool)
      requires Valid() && Names(artifacts, artifactId)
      modifies this
      ensures Valid() && View() == InsertParts(tok, old(View()), parts, artifactId) && artifacts == old(artifacts)
      ensures ok ==> AllIndexed(chunks, parts, |parts|, artifactId)
      ensures ok <==> FreshParts(old(chunks), parts)
    {
      InsertsAllExactlyWhen(tok, View(), parts, artifactId);
      assert parts[0..] == parts;
      for i := 0 to |parts|
        invariant Valid() && artifacts == old(artifacts)
        invariant InsertsAll(tok, View(), parts[i..], artifactId) == InsertsAll(tok, old(View()), parts, artifactId)
        invariant InsertParts(tok, View(), parts[i..], artifactId) == InsertParts(tok, old(View()), parts, artifactId)
        invariant AllIndexed(chunks, parts, i, artifactId)
      {
        PartsStep(tok, View(), parts, i, artifactId);
        if parts[i].content == "" { continue; }
        ghost var was := chunks;
        var inserted := InsertChunk(parts[i], artifactId);
        if !inserted {
          return false;
        }
        IndexedStays(was, chunks, parts, i, artifactId);
      }
      return true;
    }

    /** Adds an artifact and indexes the parts its content was chunked into, or finds
        the artifact that already has this content. partIds and rawId are the ids
        generated for the chunks. A failed insert leaves what came before it. */
    method AddArtifact(newId: string, content: string, ttlHours: int, defaultTTL: int, now: int,
                       contents: seq<string>, partIds: seq<string>, rawId: string)
      returns (r: AddResult)
      requires Valid() && newId != "" && |partIds| == |contents|
      modifies this
      ensures Valid()
      ensures (exists a :: a in old(artifacts) && a.hash == "sha256:" + sha(content)) ==>
                r.Existing? && View() == old(View())
      ensures r.Existing? || r.Added? ==>
                exists a :: a in artifacts && a.id == r.id && a.hash == "sha256:" + sha(content)
      ensures !r.Existing? ==>
                var parts := Parts(content, ChunkTTL(ttlHours, defaultTTL), now, contents, partIds, rawId);
                View() == Apply(tok, old(View()),
                                ChunkTables.AddArtifact(newId, "sha256:" + sha(content), Expiry(ttlHours, now), parts))
      ensures r.Added? ==>
                var parts := Parts(content, ChunkTTL(ttlHours, defaultTTL), now, contents, partIds, rawId);
                AllIndexed(chunks, parts, |parts|, newId)
      ensures r.Existing? || r.Added? ==>
                var parts := Parts(content, ChunkTTL(ttlHours, defaultTTL), now, contents, partIds, rawId);
                AllStored(chunks, parts, r.id) <==>
                  !HasHash(old(artifacts), "sha256:" + sha(content)) || AllStored(old(chunks), parts, r.id)
      ensures r.Added? <==>
                && (forall a :: a in old(artifacts) ==> a.id != newId && a.hash != "sha256:" + sha(content))
                && (var parts := Parts(content, ChunkTTL(ttlHours, defaultTTL), now, contents, partIds, rawId);
                    FreshParts(old(chunks), parts))
      ensures r.Added? ==>
                && Artifact(newId, "sha256:" + sha(content), Expiry(ttlHours, now)) in artifacts
                && ContentIndexed(chunks, newId, content, contents, partIds, rawId, ttlHours, defaultTTL, now)
    {
      var hash := "sha256:" + sha(content);
      var existing := FindByHash(hash);
      if existing != "" {
        return Existing(existing);
      }
      var a := Artifact(newId, hash, Expiry(ttlHours, now));
      if Clashes(artifacts, newId, hash) {
        return Failed;
      }
      NewArtifactConsistent(tok, View(), a);
      artifacts := artifacts + [a];
      assert artifacts[|artifacts| - 1] == a;
      var parts := Parts(content, ChunkTTL(ttlHours, defaultTTL), now, contents, partIds, rawId);
      var ok := InsertAll(parts, newId);
      if ok {
        IndexedIsStored(chunks, parts, newId);
        PartsAreIndexed(chunks, newId, content, contents, partIds, rawId, ttlHours, defaultTTL, now);
      }
      return if ok then Added(newId) else Failed;
    }

    /** The dedup query: the id of an artifact with this hash, or "". */
    method FindByHash(hash: string) returns (id: string)
      requires Valid() && hash != ""
      ensures id != "" ==> exists a :: a in artifacts && a.id == id && a.hash == hash
      ensures id == "" ==> forall a :: a in artifacts ==> a.hash != hash
    {
      for i := 0 to |artifacts|
        invariant forall k :: 0 <= k < i ==> artifacts[k].hash != hash
      {
        if artifacts[i].hash == hash {
          assert artifacts[i] in artifacts;
          return artifacts[i].id;
        }
      }
      return "";
    }
  }

  datatype AddResult = Added(id: string) | Existing(id: string) | Failed

  function Expiry(ttlHours: int, now: int): Option<int>
  {
    if ttlHours > 0 then Some(now + 3600 * ttlHours) else None
  }

  const FALLBACK_TTL_HOURS := 336

  function ChunkTTL(ttlHours: int, defaultTTL: int): int
  {
    if ttlHours > 0 then ttlHours else if defaultTTL > 0 then defaultTTL else FALLBACK_TTL_HOURS
  }

  /** The rows to insert: the chunker's parts, or the raw content if there are none. */
  function Parts(content: string, ttl: int, now: int, contents: seq<string>, partIds: seq<string>,
                 rawId: string): seq<NewChunk>
    requires |partIds| == |contents|
  {
    if contents == [] then (if content == "" then [] else [NewChunk(rawId, content, Utc(now), ttl)])
    else seq(|contents|, i requires 0 <= i < |contents| => NewChunk(partIds[i], contents[i], Utc(now), ttl))
  }

  ghost predicate Indexed(chunks: seq<Chunk>, n: NewChunk, artifactId: string)
  {
    exists c :: c in chunks && c.id == n.id && c.content == n.content && c.indexedAt == n.at
                && c.ttlHours == n.ttlHours && c.artifactId == artifactId
  }

  /** The first `upTo` parts, but for empty ones, are rows of the artifact. */
  ghost predicate AllIndexed(chunks: seq<Chunk>, parts: seq<NewChunk>, upTo: nat, artifactId: string)
    requires upTo <= |parts|
  {
    forall k :: 0 <= k < upTo ==> parts[k].content == "" || Indexed(chunks, parts[k], artifactId)
  }

  /** A row that lives for the given hours, or else the default ones, or else two weeks. */
  ghost predicate IndexedFor(chunks: seq<Chunk>, id: string, content: string, artifactId: string, ttlHours: int,
                             defaultTTL: int, now: int)
  {
    exists c :: c in chunks && c.id == id && c.content == content && c.artifactId == artifactId
                && c.indexedAt.seconds == now && c.indexedAt.zone == 0
                && (ttlHours > 0 ==> c.ttlHours == ttlHours)
                && (ttlHours <= 0 && defaultTTL > 0 ==> c.ttlHours == defaultTTL)
                && (ttlHours <= 0 && defaultTTL <= 0 ==> c.ttlHours == 14 * 24)
  }

  /** Every part of the content that is not empty is a row under its own id, and so is the
      content itself when there are no parts. */
  ghost predicate ContentIndexed(chunks: seq<Chunk>, artifactId: string, content: string, contents: seq<string>,
                                 partIds: seq<string>, rawId: string, ttlHours: int, defaultTTL: int, now: int)
    requires |partIds| == |contents|
  {
    && (contents == [] && content != "" ==>
          IndexedFor(chunks, rawId, content, artifactId, ttlHours, defaultTTL, now))
    && (forall k :: 0 <= k < |contents| && contents[k] != "" ==>
          IndexedFor(chunks, partIds[k], contents[k], artifactId, ttlHours, defaultTTL, now))
  }

  lemma PartIsIndexed(chunks: seq<Chunk>, n: NewChunk, artifactId: string, ttlHours: int, defaultTTL: int, now: int)
    requires Indexed(chunks, n, artifactId) && n.at == Utc(now) && n.ttlHours == ChunkTTL(ttlHours, defaultTTL)
    ensures IndexedFor(chunks, n.id, n.content, artifactId, ttlHours, defaultTTL, now)
  {
    var c :| c in chunks && c.id == n.id && c.content == n.content && c.indexedAt == n.at
             && c.ttlHours == n.ttlHours && c.artifactId == artifactId;
  }

  lemma PartsAreIndexed(chunks: seq<Chunk>, artifactId: string, content: string, contents: seq<string>,
                        partIds: seq<string>, rawId: string, ttlHours: int, defaultTTL: int, now: int)
    requires |partIds| == |contents|
    requires var parts := Parts(content, ChunkTTL(ttlHours, defaultTTL), now, contents, partIds, rawId);
             AllIndexed(chunks, parts, |parts|, artifactId)
    ensures ContentIndexed(chunks, artifactId, content, contents, partIds, rawId, ttlHours, defaultTTL, now)
  {
    var parts := Parts(content, ChunkTTL(ttlHours, defaultTTL), now, contents, partIds, rawId);
    if contents == [] && content != "" {
      PartIsIndexed(chunks, parts[0], artifactId, ttlHours, defaultTTL, now);
    }
    forall k | 0 <= k < |contents| && contents[k] != ""
      ensures IndexedFor(chunks, partIds[k], contents[k], artifactId, ttlHours, defaultTTL, now)
    {
      PartIsIndexed(chunks, parts[k], artifactId, ttlHours, defaultTTL, now);
    }
  }

  lemma IndexedIsStored(chunks: seq<Chunk>, parts: seq<NewChunk>, artifactId: string)
    requires AllIndexed(chunks, parts, |parts|, artifactId)
    ensures AllStored(chunks, parts, artifactId)
  {
    forall n | n in parts && n.content != "" ensures Stored(chunks, n.content, artifactId) {
      var k :| 0 <= k < |parts| && parts[k] == n;
      assert Indexed(chunks, parts[k], artifactId);
    }
  }

  lemma IndexedStays(was: seq<Chunk>, chunks: seq<Chunk>, parts: seq<NewChunk>, i: nat, artifactId: string)
    requires i < |parts| && |chunks| == |was| + 1 && chunks[..|was|] == was
    requires var n, c := parts[i], chunks[|was|];
             && c.id == n.id && c.content == n.content && c.artifactId == artifactId
             && c.indexedAt == n.at && c.ttlHours == n.ttlHours
    requires AllIndexed(was, parts, i, artifactId)
    ensures AllIndexed(chunks, parts, i + 1, artifactId)
  {
    assert forall j :: 0 <= j < |was| ==> was[j] == chunks[j] && was[j] in chunks;
    assert chunks[|was|] in chunks;
    forall k | 0 <= k < i && parts[k].content != "" ensures Indexed(chunks, parts[k], artifactId) {
      assert Indexed(was, parts[k], artifactId);
    }
  }

  lemma PartsStep(tok: string -> seq<string>, db: DB, parts: seq<NewChunk>, i: nat, artifactId: string)
    requires i < |parts|
    ensures InsertParts(tok, db, parts[i..], artifactId) ==
              if parts[i].content == "" then InsertParts(tok, db, parts[i + 1..], artifactId)
              else if HasId(db.chunks, parts[i].id) then db
              else InsertParts(tok, ChunkTables.InsertChunk(tok, db, parts[i], artifactId), parts[i + 1..], artifactId)
    ensures InsertsAll(tok, db, parts[i..], artifactId) ==
              if parts[i].content == "" then InsertsAll(tok, db, parts[i + 1..], artifactId)
              else !HasId(db.chunks, parts[i].id) &&
                   InsertsAll(tok, ChunkTables.InsertChunk(tok, db, parts[i], artifactId), parts[i + 1..], artifactId)
  {
    assert parts[i..][1..] == parts[i + 1..] && parts[i..][0] == parts[i];
  }

  lemma SelectedIdsStep(ids: seq<string>, c: Chunk, rest: seq<Chunk>)
    ensures ids + ChunkIds([c] + rest) == (ids + [c.id]) + ChunkIds(rest)
  {
    assert ([c] + rest)[1..] == rest;
  }

  // ----- The evictor -----

  lemma TotalTake(order: seq<Chunk>, k: nat)
    requires k <= |order|
    ensures Total(order) == Total(order[..k]) + Total(order[k..])
  {
    TotalConcat(order[..k], order[k..]);
    assert order == order[..k] + order[k..];
  }

  /** evicted went in the order of the stored times, until the rest fitted the cap and not before. */
  ghost predicate LruEvicted(before: seq<Chunk>, after: seq<Chunk>, evicted: seq<Chunk>, cap: int)
  {
    && multiset(before) == multiset(after) + multiset(evicted) && InTextOrder(evicted)
    && Total(after) <= cap
    && (forall e, c :: e in evicted && c in after ==> e.indexedAt.WallClock() <= c.indexedAt.WallClock())
    && (evicted != [] ==> Total(after) + Length(evicted[|evicted| - 1].content) > cap)
  }

  lemma OldestGone(after: seq<Chunk>, order: seq<Chunk>, k: nat)
    requires InTextOrder(order) && k <= |order| && multiset(after) == multiset(order[k..])
    ensures InTextOrder(order[..k])
    ensures forall e, c :: e in order[..k] && c in after ==> e.indexedAt.WallClock() <= c.indexedAt.WallClock()
  {
    forall e, c | e in order[..k] && c in after ensures e.indexedAt.WallClock() <= c.indexedAt.WallClock() {
      assert c in multiset(after);
      assert c in order[k..];
    }
  }

  lemma TakeAndDrop(s: seq<Chunk>, k: nat)
    requires k <= |s|
    ensures multiset(s) == multiset(s[k..]) + multiset(s[..k])
  {
    assert s == s[..k] + s[k..];
  }

  lemma OneMoreTaken(order: seq<Chunk>, k: nat)
    requires 0 < k <= |order|
    ensures Total(order[..k]) == Total(order[..k - 1]) + Length(order[k - 1].content)
  {
    assert order[..k] == order[..k - 1] + [order[k - 1]];
    TotalAppend(order[..k - 1], order[k - 1]);
  }

  lemma SizesLeft(before: seq<Chunk>, after: seq<Chunk>, order: seq<Chunk>, k: nat)
    requires multiset(order) == multiset(before) && k <= |order| && multiset(after) == multiset(order[k..])
    ensures Total(after) == Total(before) - Total(order[..k])
    ensures multiset(before) == multiset(after) + multiset(order[..k])
    ensures k > 0 ==> Total(order[..k]) == Total(order[..k - 1]) + Length(order[k - 1].content)
  {
    TotalPermuted(after, order[k..]);
    TotalPermuted(order, before);
    TotalTake(order, k);
    TakeAndDrop(order, k);
    if k > 0 { OneMoreTaken(order, k); }
  }

  /** Once the rows kept are those behind the first k. */
  lemma EvictionCounts(before: seq<Chunk>, after: seq<Chunk>, order: seq<Chunk>, k: nat, cap: int)
    requires Ordering(order, before) && k <= |order| && multiset(after) == multiset(order[k..])
    requires Total(before) - Total(order[..k]) <= cap
    requires k > 0 ==> Total(before) - Total(order[..k - 1]) > cap
    ensures LruEvicted(before, after, order[..k], cap)
  {
    OldestGone(after, order, k);
    SizesLeft(before, after, order, k);
    var evicted := order[..k];
    assert k > 0 ==> evicted[|evicted| - 1] == order[k - 1];
  }

  lemma EvictionResult(before: seq<Chunk>, after: seq<Chunk>, order: seq<Chunk>, k: nat, cap: int)
    requires UniqueIds(before) && Ordering(order, before) && k <= |order|
    requires after == Filter(before, (c: Chunk) => c.id !in ChunkIds(order[..k]))
    requires Total(before) - Total(order[..k]) <= cap
    requires k > 0 ==> Total(before) - Total(order[..k - 1]) > cap
    ensures LruEvicted(before, after, order[..k], cap)
  {
    EvictedAndKept(before, order, k);
    EvictionCounts(before, after, order, k, cap);
  }

  class Evictor {
    const store: Store
    const lruCapBytes: int

    constructor (store: Store, lruCapBytes: int)
      ensures this.store == store && this.lruCapBytes == lruCapBytes
    {
      this.store, this.lruCapBytes := store, lruCapBytes;
    }

    /** The rows by the stored text of their time; rows of one time come in any order. */
    method RowsInTextOrder() returns (rows: seq<Chunk>)
      ensures Ordering(rows, store.chunks) && Total(rows) == Total(store.chunks)
    {
      ghost var someOrder := OrderingExists(store.chunks);
      rows :| Ordering(rows, store.chunks);
      assert Ordering(rows, store.chunks);
      TotalPermuted(rows, store.chunks);
    }

    /** The rows to delete: by stored time, until enough is freed. */
    method PickOldest(currentSize: int) returns (toDelete: seq<string>, ghost order: seq<Chunk>, ghost k: nat)
      requires store.Valid() && currentSize == Total(store.chunks) && lruCapBytes > 0
      ensures Ordering(order, store.chunks) && k <= |order| && toDelete == ChunkIds(order[..k])
      ensures Total(store.chunks) - Total(order[..k]) <= lruCapBytes
      ensures k > 0 ==> Total(store.chunks) - Total(order[..k - 1]) > lruCapBytes
    {
      var rows := RowsInTextOrder();
      toDelete := [];
      var freed := 0;
      var target := currentSize - lruCapBytes;
      var i := 0;
      assert rows[..0] == [];
      while i < |rows| && freed < target
        invariant i <= |rows| && toDelete == ChunkIds(rows[..i]) && freed == Total(rows[..i])
        invariant i > 0 ==> Total(rows[..i - 1]) < target
      {
        PickStep(rows, i);
        toDelete := toDelete + [rows[i].id];
        freed := freed + Length(rows[i].content);
        i := i + 1;
      }
      assert rows[..|rows|] == rows;
      order, k := rows, i;
    }

    /** Deletes chunks by stored time until the total is at or below the cap. */
    method EvictLRU(currentSize: int) returns (deleted: int, ghost evicted: seq<Chunk>)
      requires store.Valid() && currentSize == Total(store.chunks) && lruCapBytes > 0
      modifies store
      ensures store.Valid() && store.artifacts == old(store.artifacts)
      ensures LruEvicted(old(store.chunks), store.chunks, evicted, lruCapBytes)
      ensures deleted == |evicted|
    {
      ghost var before := store.chunks;
      var toDelete, order, k := PickOldest(currentSize);
      ChunkIdsMembers(order[..k]);
      DeleteIdsLeaves(store.tok, store.View(), toDelete);
      if |toDelete| > 0 {
        store.DeleteChunks(toDelete);
      } else {
        FilterAll(before, (c: Chunk) => c.id !in toDelete);
      }
      EvictionResult(before, store.chunks, order, k, lruCapBytes);
      return |toDelete|, order[..k];
    }

    /** The second phase: chunks whose own time has passed. */
    method ExpireChunks(now: int) returns (count: int)
      requires store.Valid()
      modifies store
      ensures store.Valid() && store.artifacts == old(store.artifacts)
      ensures store.chunks == Filter(old(store.chunks), (c: Chunk) => !ChunkExpired(c, now))
      ensures count == |old(store.chunks)| - |store.chunks|
    {
      DeleteExpired(store.tok, store.View(), now);
      var expired := store.GetExpiredChunkIDs(now);
      if |expired| > 0 {
        store.DeleteChunks(expired);
      }
      return |expired|;
    }

    /** The last phase: the cap, when there is one. */
    method EnforceCap() returns (count: int, ghost evicted: seq<Chunk>)
      requires store.Valid()
      modifies store
      ensures store.Valid() && store.artifacts == old(store.artifacts) && count == |evicted|
      ensures if lruCapBytes > 0 then LruEvicted(old(store.chunks), store.chunks, evicted, lruCapBytes)
              else store.chunks == old(store.chunks) && evicted == []
    {
      count, evicted := 0, [];
      if lruCapBytes > 0 {
        var totalSize := store.GetTotalSize();
        if totalSize > lruCapBytes {
          count, evicted := EvictLRU(totalSize);
        }
      }
    }

    /** One cycle: expired artifacts with their chunks, expired chunks, then the cap. */
    method RunEviction(now: int) returns (totalDeleted: int, ghost evicted: seq<Chunk>)
      requires store.Valid()
      modifies store
      ensures store.Valid()
      ensures store.artifacts == Filter(old(store.artifacts), (a: Artifact) => !Expired(a, now))
      ensures var pruned := Apply(store.tok, old(store.View()), Prune(now)).chunks;
              var live := Filter(pruned, (c: Chunk) => !ChunkExpired(c, now));
              && (if lruCapBytes > 0 then LruEvicted(live, store.chunks, evicted, lruCapBytes)
                  else store.chunks == live && evicted == [])
              && totalDeleted == |old(store.artifacts)| - |store.artifacts| + |pruned| - |live| + |evicted|
    {
      PruneLeaves(store.tok, store.View(), now);
      FilterSizes(store.artifacts, (a: Artifact) => Expired(a, now), (a: Artifact) => !Expired(a, now));
      totalDeleted := store.PruneExpired(now);
      var expired := ExpireChunks(now);
      var deleted;
      deleted, evicted := EnforceCap();
      totalDeleted := totalDeleted + expired + deleted;
    }
  }

  // ----- The cap is named in bytes and held against LENGTH -----

  predicate NulFree(s: string)
  {
    '\0' !in s
  }

  /** A lead byte with a continuation byte behind it, which LENGTH counts as one. */
  predicate JoinedAt(s: string, i: int)
  {
    0 <= i < |s| - 1 && s[i] as int >= 0xC0 && Continues(s[i + 1])
  }

  /** LENGTH counts every byte. */
  ghost predicate AllCounted(s: string)
  {
    NulFree(s) && forall i :: !JoinedAt(s, i)
  }

  lemma AllCountedStep(s: string)
    requires s != ""
    ensures AllCounted(s) <==> s[0] != '\0' && !JoinedAt(s, 0) && AllCounted(s[1..])
  {
    assert s == [s[0]] + s[1..];
    forall i ensures JoinedAt(s[1..], i) <==> i >= 0 && JoinedAt(s, i + 1) {
    }
    if forall i :: !JoinedAt(s, i) {
      forall i ensures !JoinedAt(s[1..], i) { assert !JoinedAt(s, i + 1); }
    }
    if !JoinedAt(s, 0) && forall i :: !JoinedAt(s[1..], i) {
      forall i ensures !JoinedAt(s, i) { assert !JoinedAt(s[1..], i - 1); }
    }
  }

  lemma {:induction false} LengthAtMost(s: string)
    ensures Length(s) <= |s| && (Length(s) == |s| <==> AllCounted(s))
    decreases |s|
  {
    if s != "" && s[0] != '\0' {
      AllCountedStep(s);
      if JoinedAt(s, 0) {
        assert |Behind(s[1..])| < |s[1..]|;
        LengthAtMost(Behind(s[1..]));
      } else {
        LengthAtMost(s[1..]);
      }
    }
  }

  /** The bytes from the first NUL on, of which LENGTH counts none. */
  function Hidden(s: string): nat
  {
    if s == "" then 0 else if s[0] == '\0' then |s| else Hidden(s[1..])
  }

  /** No lead byte has more than three continuation bytes behind it, as in UTF-8. */
  predicate ShortRuns(s: string)
  {
    s == "" || ((s[0] as int >= 0xC0 ==> |s[1..]| - |Behind(s[1..])| <= 3) && ShortRuns(s[1..]))
  }

  lemma {:induction false} BehindKeeps(s: string)
    ensures Hidden(Behind(s)) == Hidden(s) && (ShortRuns(s) ==> ShortRuns(Behind(s)))
    ensures Hidden(s) <= |Behind(s)|
  {
    if s != "" && Continues(s[0]) {
      BehindKeeps(s[1..]);
    } else {
      HiddenAtMost(s);
    }
  }

  lemma {:induction false} HiddenAtMost(s: string)
    ensures Hidden(s) <= |s| && (Hidden(s) == 0 <==> NulFree(s))
  {
    if s != "" {
      HiddenAtMost(s[1..]);
      assert s == [s[0]] + s[1..];
    }
  }

  lemma {:induction false} VisibleAtMost(s: string)
    requires ShortRuns(s)
    ensures |s| <= 4 * Length(s) + Hidden(s)
    decreases |s|
  {
    if s != "" && s[0] != '\0' {
      if s[0] as int >= 0xC0 {
        BehindKeeps(s[1..]);
        VisibleAtMost(Behind(s[1..]));
      } else {
        VisibleAtMost(s[1..]);
      }
    }
  }

  function TotalBytes(chunks: seq<Chunk>): nat
  {
    if chunks == [] then 0 else |chunks[0].content| + TotalBytes(chunks[1..])
  }

  function TotalHidden(chunks: seq<Chunk>): nat
  {
    if chunks == [] then 0 else Hidden(chunks[0].content) + TotalHidden(chunks[1..])
  }

  /** The size a cycle holds against the cap is never more than the bytes, and is the bytes
      exactly when no content holds a NUL or a character of more than one byte. */
  lemma {:induction false} SizeInBytesExactlyWhen(chunks: seq<Chunk>)
    ensures Total(chunks) <= TotalBytes(chunks)
    ensures Total(chunks) == TotalBytes(chunks) <==> forall c :: c in chunks ==> AllCounted(c.content)
  {
    if chunks != [] {
      LengthAtMost(chunks[0].content);
      SizeInBytesExactlyWhen(chunks[1..]);
      assert chunks == [chunks[0]] + chunks[1..];
    }
  }

  /** What the cap bounds in bytes: those before the first NULs are at most four times the
      cap, if no character takes more than four. */
  lemma {:induction false} BytesWithinCap(chunks: seq<Chunk>, cap: int)
    requires Total(chunks) <= cap && forall c :: c in chunks ==> ShortRuns(c.content)
    ensures TotalBytes(chunks) <= 4 * cap + TotalHidden(chunks)
    ensures (forall c :: c in chunks ==> NulFree(c.content)) ==> TotalBytes(chunks) <= 4 * cap
  {
    if chunks != [] {
      var c, rest := chunks[0], chunks[1..];
      assert chunks == [c] + rest;
      VisibleAtMost(c.content);
      HiddenAtMost(c.content);
      BytesWithinCap(rest, cap - Length(c.content));
      if forall c :: c in chunks ==> NulFree(c.content) { assert NulFree(c.content); }
    }
  }

  /** One chunk of one two-byte character stays under a cap of one byte. */
  lemma CapExceededInBytes(c: Chunk)
    requires c.content == "\U{C3}\U{A9}"
    ensures LruEvicted([c], [c], [], 1) && TotalBytes([c]) == 2
  {
    assert [c][1..] == [] && c.content[1..] == "\U{A9}" && "\U{A9}"[1..] == "";
    assert Behind("\U{A9}") == "";
    assert Length(c.content) == 1;
    assert Total([c]) == 1;
  }

  /** A chunk of any size stays under any cap when it begins with a NUL. */
  lemma NulHidesAll(c: Chunk, cap: nat)
    requires c.content != "" && c.content[0] == '\0'
    ensures LruEvicted([c], [c], [], cap) && Total([c]) == 0 && TotalBytes([c]) == |c.content|
  {
    assert [c][1..] == [];
  }

  // ----- Stored times and ages -----

  predicate OldestFirst(chunks: seq<Chunk>)
  {
    forall i, j :: 0 <= i < j < |chunks| ==> chunks[i].indexedAt.seconds <= chunks[j].indexedAt.seconds
  }

  /** b is older than a, but its stored time is not earlier. */
  predicate Inverted(a: Chunk, b: Chunk)
  {
    b.indexedAt.seconds < a.indexedAt.seconds && a.indexedAt.WallClock() <= b.indexedAt.WallClock()
  }

  /** The order of the stored times, but a before the others of its time. */
  lemma OrderingWithFirst(chunks: seq<Chunk>, a: Chunk) returns (order: seq<Chunk>)
    ensures Ordering(order, chunks)
    ensures forall i, j :: 0 <= i < j < |order| && order[j] == a && order[i] != a ==>
              order[i].indexedAt.WallClock() < a.indexedAt.WallClock()
  {
    var key := (c: Chunk) => 2 * c.indexedAt.WallClock() + if c == a then 0 else 1;
    order := SortOn(chunks, key);
    SortOnLaws(chunks, key);
    forall i, j | 0 <= i < j < |order|
      ensures order[i].indexedAt.WallClock() <= order[j].indexedAt.WallClock()
      ensures order[j] == a && order[i] != a ==> order[i].indexedAt.WallClock() < a.indexedAt.WallClock()
    {
      assert key(order[i]) <= key(order[j]);
    }
  }

  /** Every order by stored time is one by age exactly when no row is older than another of
      which the stored time is not later, as rows of one zone never are. */
  lemma AgeOrderExactlyWhen(chunks: seq<Chunk>)
    ensures (forall order :: Ordering(order, chunks) ==> OldestFirst(order)) <==>
              forall a, b :: a in chunks && b in chunks ==> !Inverted(a, b)
  {
    if a, b :| a in chunks && b in chunks && Inverted(a, b) {
      var order := OrderingWithFirst(chunks, a);
      assert a in multiset(order) && b in multiset(order);
      var i :| 0 <= i < |order| && order[i] == a;
      var j :| 0 <= j < |order| && order[j] == b;
      assert i < j;
      assert !OldestFirst(order);
    }
    if forall a, b :: a in chunks && b in chunks ==> !Inverted(a, b) {
      forall order: seq<Chunk> | Ordering(order, chunks) ensures OldestFirst(order) {
        forall i, j | 0 <= i < j < |order|
          ensures order[i].indexedAt.seconds <= order[j].indexedAt.seconds
        {
          assert order[i] in multiset(order) && order[j] in multiset(order);
          assert !Inverted(order[i], order[j]);
        }
      }
    }
  }

  /** A row stored in UTC goes before one an hour older that was stored two hours east of it. */
  lemma YoungerEvictedFirst(older: Chunk, young: Chunk, cap: nat)
    requires older.indexedAt == Stamp(0, 7200) && young.indexedAt == Utc(3600)
    requires Length(older.content) == cap && Length(young.content) > 0
    ensures LruEvicted([older, young], [older], [young], cap)
  {
    assert [older, young] == [older] + [young];
    assert Total([older]) == cap by { assert [older][1..] == []; }
  }

  /** The number a cycle reports is that of the chunks it deleted exactly when as many
      artifacts were pruned as chunks went with them. */
  lemma CountExactlyWhen(tok: string -> seq<string>, before: DB, now: int, after: seq<Chunk>, evicted: seq<Chunk>,
                         cap: int)
    requires var live := Filter(Apply(tok, before, Prune(now)).chunks, (c: Chunk) => !ChunkExpired(c, now));
             LruEvicted(live, after, evicted, cap)
    ensures var pruned := Apply(tok, before, Prune(now));
            var live := Filter(pruned.chunks, (c: Chunk) => !ChunkExpired(c, now));
            var count := |before.artifacts| - |pruned.artifacts| + |pruned.chunks| - |live| + |evicted|;
            count == |before.chunks| - |after| <==>
              |before.artifacts| - |pruned.artifacts| == |before.chunks| - |pruned.chunks|
  {
    var live := Filter(Apply(tok, before, Prune(now)).chunks, (c: Chunk) => !ChunkExpired(c, now));
    assert |multiset(live)| == |live| && |multiset(after) + multiset(evicted)| == |after| + |evicted|;
  }

  lemma TwoParts(tok: string -> seq<string>, a: Artifact, n: NewChunk, m: NewChunk)
    requires n.id != m.id && n.content != "" && m.content != ""
    ensures var db := Run(tok, [ChunkTables.AddArtifact(a.id, a.hash, a.expires, [n, m])]);
            |db.chunks| == 2 && db.artifacts == [a] && forall c :: c in db.chunks ==> c.artifactId == a.id
  {
    var op := ChunkTables.AddArtifact(a.id, a.hash, a.expires, [n, m]);
    assert [op][..0] == [] && [] + [a] == [a];
    assert [n, m][1..] == [m] && [m][1..] == [];
    var start := DB([], [a], multiset{});
    var one := ChunkTables.InsertChunk(tok, start, n, a.id);
    assert one.chunks == [Chunk(1, n.id, n.content, n.at, n.ttlHours, a.id)];
    assert !HasId(one.chunks, m.id);
    var two := ChunkTables.InsertChunk(tok, one, m, a.id);
    assert InsertParts(tok, start, [n, m], a.id) == InsertParts(tok, one, [m], a.id) == two;
    assert Run(tok, [op]) == Apply(tok, DB([], [], multiset{}), op) == two;
  }

  /** An expired artifact counts as one, however many chunks went with it: here two. */
  lemma CountMissesChunks(tok: string -> seq<string>, a: Artifact, n: NewChunk, m: NewChunk, now: int)
    requires a.id != "" && Expired(a, now) && n.id != m.id && n.content != "" && m.content != ""
    ensures var db := Run(tok, [ChunkTables.AddArtifact(a.id, a.hash, a.expires, [n, m])]);
            var after := Apply(tok, db, Prune(now));
            |db.chunks| == 2 && (forall c :: c !in after.chunks) && |db.artifacts| - |after.artifacts| == 1
  {
    var op := ChunkTables.AddArtifact(a.id, a.hash, a.expires, [n, m]);
    var db := Run(tok, [op]);
    RunConsistent(tok, [op]);
    TwoParts(tok, a, n, m);
    PruneLeaves(tok, db, now);
    var left := Apply(tok, db, Prune(now));
    assert left.artifacts == [];
  }

  lemma PickStep(rows: seq<Chunk>, i: nat)
    requires i < |rows|
    ensures ChunkIds(rows[..i + 1]) == ChunkIds(rows[..i]) + [rows[i].id]
    ensures Total(rows[..i + 1]) == Total(rows[..i]) + Length(rows[i].content)
  {
    assert rows[..i + 1] == rows[..i] + [rows[i]];
    ChunkIdsConcat(rows[..i], [rows[i]]);
    TotalAppend(rows[..i], rows[i]);
  }

  /** A chunk whose artifact is not among the unexpired ones has an expired one. */
  lemma ExpiredOwner(db: DB, now: int, c: Chunk)
    requires RefsOk(db) && c in db.chunks
    requires !Names(Filter(db.artifacts, (a: Artifact) => !Expired(a, now)), c.artifactId)
    ensures exists a :: a in db.artifacts && a.id == c.artifactId && a.expires.Some? && a.expires.value < now
  {
    FilterMembers(db.artifacts, (a: Artifact) => !Expired(a, now));
    var a :| a in db.artifacts && a.id == c.artifactId;
    assert a !in Filter(db.artifacts, (a: Artifact) => !Expired(a, now));
  }

  /** What a cycle leaves: nothing expired, nothing above the cap, only rows that were
      there, and of those that went unexpired only ones whose stored time is no later than that of
      any that stayed. */
  lemma CycleLeaves(tok: string -> seq<string>, before: DB, now: int, after: seq<Chunk>, evicted: seq<Chunk>,
                    cap: int)
    requires Consistent(tok, before)
    requires var live := Filter(Apply(tok, before, Prune(now)).chunks, (c: Chunk) => !ChunkExpired(c, now));
             LruEvicted(live, after, evicted, cap)
    ensures Total(after) <= cap
    ensures forall c :: c in after ==>
              c in before.chunks && (c.ttlHours > 0 ==> c.indexedAt.seconds + 3600 * c.ttlHours > now)
    ensures forall c :: c in before.chunks && c !in after ==>
              || (c.ttlHours > 0 && c.indexedAt.seconds + 3600 * c.ttlHours <= now)
              || (exists a :: a in before.artifacts && a.id == c.artifactId && a.expires.Some? && a.expires.value < now)
              || (c in evicted && forall s :: s in after ==> c.indexedAt.WallClock() <= s.indexedAt.WallClock())
  {
    PruneLeaves(tok, before, now);
    forall c | c in before.chunks && !Names(Apply(tok, before, Prune(now)).artifacts, c.artifactId)
      ensures exists a :: a in before.artifacts && a.id == c.artifactId && a.expires.Some? && a.expires.value < now
    {
      ExpiredOwner(before, now, c);
    }
    var pruned := Apply(tok, before, Prune(now)).chunks;
    var live := Filter(pruned, (c: Chunk) => !ChunkExpired(c, now));
    FilterMembers(pruned, (c: Chunk) => !ChunkExpired(c, now));
    forall c ensures c in live <==> c in after || c in evicted {
      assert c in multiset(live) <==> c in multiset(after) || c in multiset(evicted);
    }
  }
}
