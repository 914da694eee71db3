/** The tables of the chunk store (pkg/context/migration.go, store.go): rows of
    content_chunks in rowid order, artifacts, and the full-text postings that the
    triggers keep. Times are whole seconds; sizes are what SQLite's LENGTH counts. */
module ChunkTables {
  import opened Collections

  /** A moment, and the offset of the zone in which its text is stored. */
  datatype Stamp = Stamp(seconds: int, zone: int)
  {
    /** What the stored text shows, and sorts by. */
    function WallClock(): int { seconds + zone }
  }

  function Utc(seconds: int): Stamp
  {
    Stamp(seconds, 0)
  }

  datatype Chunk = Chunk(rowid: nat, id: string, content: string, indexedAt: Stamp, ttlHours: int, artifactId: string)

  datatype Artifact = Artifact(id: string, hash: string, expires: Option<int>)

  type Posting = (nat, string)

  /** The rows that satisfy p, in their order. */
  function Filter<T>(s: seq<T>, p: T -> bool): seq<T>
  {
    if s == [] then []
    else if p(s[0]) then [s[0]] + Filter(s[1..], p)
    else Filter(s[1..], p)
  }

  lemma {:induction false} FilterMembers<T>(s: seq<T>, p: T -> bool)
    ensures forall x :: x in Filter(s, p) <==> x in s && p(x)
    ensures |Filter(s, p)| <= |s|
  {
    if s != [] {
      FilterMembers(s[1..], p);
      assert s == [s[0]] + s[1..];
    }
  }

  lemma {:induction false} FilterConcat<T>(a: seq<T>, b: seq<T>, p: T -> bool)
    ensures Filter(a + b, p) == Filter(a, p) + Filter(b, p)
  {
    if a == [] {
      assert a + b == b;
    } else {
      FilterConcat(a[1..], b, p);
      assert (a + b)[1..] == a[1..] + b;
      assert ([a[0]] + Filter(a[1..], p)) + Filter(b, p) == [a[0]] + (Filter(a[1..], p) + Filter(b, p));
    }
  }

  lemma {:induction false} FilterTwice<T>(s: seq<T>, p: T -> bool, q: T -> bool, both: T -> bool)
    requires forall x :: x in s ==> both(x) == (p(x) && q(x))
    ensures Filter(Filter(s, p), q) == Filter(s, both)
  {
    if s != [] {
      assert s[0] in s;
      FilterTwice(s[1..], p, q, both);
      if p(s[0]) { assert ([s[0]] + Filter(s[1..], p))[1..] == Filter(s[1..], p); }
    }
  }

  lemma {:induction false} FilterSame<T>(s: seq<T>, p: T -> bool, q: T -> bool)
    requires forall x :: x in s ==> p(x) == q(x)
    ensures Filter(s, p) == Filter(s, q)
  {
    if s != [] {
      assert s[0] in s;
      FilterSame(s[1..], p, q);
    }
  }

  lemma {:induction false} FilterSizes<T>(s: seq<T>, p: T -> bool, q: T -> bool)
    requires forall x :: x in s ==> q(x) == !p(x)
    ensures |Filter(s, p)| + |Filter(s, q)| == |s|
  {
    if s != [] {
      assert s[0] in s;
      FilterSizes(s[1..], p, q);
    }
  }

  lemma {:induction false} FilterAll<T>(s: seq<T>, p: T -> bool)
    requires forall x :: x in s ==> p(x)
    ensures Filter(s, p) == s
  {
    if s != [] {
      assert s[0] in s;
      FilterAll(s[1..], p);
    }
  }

  // ----- Postings -----

  /** What the index holds for a row. */
  function Postings(tok: string -> seq<string>, c: Chunk): multiset<Posting>
  {
    multiset(seq(|tok(c.content)|, i requires 0 <= i < |tok(c.content)| => (c.rowid, tok(c.content)[i])))
  }

  /** The index built anew from the rows. */
  function Rebuild(tok: string -> seq<string>, chunks: seq<Chunk>): multiset<Posting>
  {
    if chunks == [] then multiset{} else Postings(tok, chunks[0]) + Rebuild(tok, chunks[1..])
  }

  lemma {:induction false} RebuildAppend(tok: string -> seq<string>, chunks: seq<Chunk>, c: Chunk)
    ensures Rebuild(tok, chunks + [c]) == Rebuild(tok, chunks) + Postings(tok, c)
  {
    if chunks == [] {
      assert chunks + [c] == [c] && [c][1..] == [];
    } else {
      RebuildAppend(tok, chunks[1..], c);
      assert (chunks + [c])[1..] == chunks[1..] + [c];
      Shuffle(Postings(tok, chunks[0]), Rebuild(tok, chunks[1..]), Postings(tok, c));
    }
  }

  lemma Shuffle(a: multiset<Posting>, b: multiset<Posting>, c: multiset<Posting>)
    ensures a + (b + c) == (a + b) + c == b + (a + c) == (b + a) + c
    ensures (a + (b + c)) - a == b + c && (b + (a + c)) - a == b + c
  {
  }

  lemma RebuildHead(tok: string -> seq<string>, c: Chunk, rest: seq<Chunk>)
    ensures Rebuild(tok, [c] + rest) == Postings(tok, c) + Rebuild(tok, rest)
  {
    assert ([c] + rest)[1..] == rest;
  }

  /** Rows kept and rows dropped share out the index. */
  lemma {:induction false} RebuildSplit(tok: string -> seq<string>, chunks: seq<Chunk>, keep: Chunk -> bool)
    ensures Rebuild(tok, chunks) == Rebuild(tok, Filter(chunks, keep)) + Rebuild(tok, Filter(chunks, c => !keep(c)))
  {
    if chunks != [] {
      var c, rest := chunks[0], chunks[1..];
      RebuildSplit(tok, rest, keep);
      var kept, dropped := Filter(rest, keep), Filter(rest, c => !keep(c));
      RebuildHead(tok, c, kept);
      RebuildHead(tok, c, dropped);
      Shuffle(Postings(tok, c), Rebuild(tok, kept), Rebuild(tok, dropped));
    }
  }

  // ----- Sizes -----

  predicate Continues(c: char)
  {
    0x80 <= c as int < 0xC0
  }

  /** s behind the continuation bytes at its beginning. */
  function Behind(s: string): (r: string)
    ensures |r| <= |s|
  {
    if s != "" && Continues(s[0]) then Behind(s[1..]) else s
  }

  /** SQLite's LENGTH of a text, byte by byte: it stops at the first NUL, and counts a lead
      byte with the continuation bytes behind it as one. */
  function Length(s: string): nat
    decreases |s|
  {
    if s == "" || s[0] == '\0' then 0
    else 1 + Length(if s[0] as int >= 0xC0 then Behind(s[1..]) else s[1..])
  }

  function Total(chunks: seq<Chunk>): nat
  {
    if chunks == [] then 0 else Length(chunks[0].content) + Total(chunks[1..])
  }

  lemma {:induction false} TotalConcat(a: seq<Chunk>, b: seq<Chunk>)
    ensures Total(a + b) == Total(a) + Total(b)
  {
    if a == [] {
      assert a + b == b;
    } else {
      TotalConcat(a[1..], b);
      assert (a + b)[1..] == a[1..] + b;
    }
  }

  lemma TotalRemove(chunks: seq<Chunk>, i: nat)
    requires i < |chunks|
    ensures Total(chunks) == Total(Without(chunks, i)) + Length(chunks[i].content)
  {
    assert chunks == chunks[..i] + chunks[i..] && chunks[i..][1..] == chunks[i + 1..];
    TotalConcat(chunks[..i], chunks[i..]);
    TotalConcat(chunks[..i], chunks[i + 1..]);
  }

  /** The total does not depend on the order of the rows. */
  lemma {:induction false} TotalPermuted(a: seq<Chunk>, b: seq<Chunk>)
    requires multiset(a) == multiset(b)
    ensures Total(a) == Total(b)
  {
    if a == [] {
      assert |multiset(b)| == |b| == 0;
    } else {
      assert a[0] in multiset(b);
      var i :| 0 <= i < |b| && b[i] == a[0];
      StillPermuted(a, 0, b, i);
      assert Without(a, 0) == a[1..];
      TotalPermuted(a[1..], Without(b, i));
      TotalRemove(b, i);
    }
  }

  lemma TotalAppend(a: seq<Chunk>, c: Chunk)
    ensures Total(a + [c]) == Total(a) + Length(c.content)
  {
    TotalConcat(a, [c]);
    assert Total([c]) == Length(c.content) by { assert [c][1..] == []; }
  }

  // ----- The database -----

  datatype DB = DB(chunks: seq<Chunk>, artifacts: seq<Artifact>, fts: multiset<Posting>)

  ghost predicate UniqueIds(chunks: seq<Chunk>)
  {
    forall i, j :: 0 <= i < j < |chunks| ==> chunks[i].id != chunks[j].id && chunks[i].rowid < chunks[j].rowid
  }

  ghost predicate UniqueArtifacts(artifacts: seq<Artifact>)
  {
    && (forall i, j :: 0 <= i < j < |artifacts| ==> artifacts[i].id != artifacts[j].id)
    && (forall i, j :: 0 <= i < j < |artifacts| && artifacts[i].hash != "" ==> artifacts[i].hash != artifacts[j].hash)
    && (forall a :: a in artifacts ==> a.id != "")
  }

  /** The artifact id names a stored artifact, or none at all. */
  ghost predicate Names(artifacts: seq<Artifact>, artifactId: string)
  {
    artifactId == "" || exists a :: a in artifacts && a.id == artifactId
  }

  ghost predicate RefsOk(db: DB)
  {
    forall c :: c in db.chunks ==> Names(db.artifacts, c.artifactId)
  }

  ghost predicate Consistent(tok: string -> seq<string>, db: DB)
  {
    UniqueIds(db.chunks) && UniqueArtifacts(db.artifacts) && RefsOk(db) && db.fts == Rebuild(tok, db.chunks)
  }

  /** SQLite gives a new row the largest rowid in use plus one, so the rowid of a
      deleted last row comes back. */
  function NextRowid(chunks: seq<Chunk>): nat
  {
    if chunks == [] then 1 else chunks[|chunks| - 1].rowid + 1
  }

  /** INSERT INTO content_chunks, with the trigger chunks_ai. */
  function Insert(tok: string -> seq<string>, db: DB, id: string, content: string, at: Stamp, ttlHours: int,
                  artifactId: string): DB
  {
    var c := Chunk(NextRowid(db.chunks), id, content, at, ttlHours, artifactId);
    db.(chunks := db.chunks + [c], fts := db.fts + Postings(tok, c))
  }

  /** DELETE FROM content_chunks of the rows not kept, with the trigger chunks_ad for each. */
  function Delete(tok: string -> seq<string>, db: DB, keep: Chunk -> bool): DB
  {
    db.(chunks := Filter(db.chunks, keep), fts := db.fts - Rebuild(tok, Filter(db.chunks, c => !keep(c))))
  }

  lemma AppendUnique(chunks: seq<Chunk>, c: Chunk)
    requires UniqueIds(chunks) && c.rowid == NextRowid(chunks) && forall x :: x in chunks ==> x.id != c.id
    ensures UniqueIds(chunks + [c])
  {
    assert forall i :: 0 <= i < |chunks| ==> chunks[i] in chunks;
  }

  lemma AppendRefs(chunks: seq<Chunk>, c: Chunk, artifacts: seq<Artifact>)
    requires forall x :: x in chunks ==> Names(artifacts, x.artifactId)
    ensures (forall x :: x in chunks + [c] ==> Names(artifacts, x.artifactId)) <==> Names(artifacts, c.artifactId)
  {
    assert c in chunks + [c];
  }

  /** An insert keeps the tables consistent exactly when its artifact is stored. */
  lemma InsertConsistent(tok: string -> seq<string>, db: DB, id: string, content: string, at: Stamp, ttlHours: int,
                         artifactId: string)
    requires Consistent(tok, db) && (forall c :: c in db.chunks ==> c.id != id)
    ensures Consistent(tok, Insert(tok, db, id, content, at, ttlHours, artifactId)) <==> Names(db.artifacts, artifactId)
  {
    var c := Chunk(NextRowid(db.chunks), id, content, at, ttlHours, artifactId);
    RebuildAppend(tok, db.chunks, c);
    AppendUnique(db.chunks, c);
    AppendRefs(db.chunks, c, db.artifacts);
  }

  lemma {:induction false} FilterUnique(chunks: seq<Chunk>, keep: Chunk -> bool)
    requires UniqueIds(chunks)
    ensures UniqueIds(Filter(chunks, keep))
  {
    if chunks != [] {
      FilterUnique(chunks[1..], keep);
      FilterMembers(chunks[1..], keep);
      var rest := Filter(chunks[1..], keep);
      forall j | 0 <= j < |rest| ensures chunks[0].id != rest[j].id && chunks[0].rowid < rest[j].rowid {
        assert rest[j] in rest;
        assert rest[j] in chunks[1..];
      }
    }
  }

  lemma DeleteConsistent(tok: string -> seq<string>, db: DB, keep: Chunk -> bool)
    requires Consistent(tok, db)
    ensures Consistent(tok, Delete(tok, db, keep))
  {
    FilterUnique(db.chunks, keep);
    FilterMembers(db.chunks, keep);
    RebuildSplit(tok, db.chunks, keep);
  }

  // ----- Updates -----

  function Edited(chunks: seq<Chunk>, id: string, content: string): seq<Chunk>
  {
    if chunks == [] then []
    else [if chunks[0].id == id then chunks[0].(content := content) else chunks[0]] + Edited(chunks[1..], id, content)
  }

  /** UPDATE content_chunks SET content, with the trigger chunks_au: the old row's
      postings go out before the new row's come in. */
  function Update(tok: string -> seq<string>, db: DB, id: string, content: string): DB
  {
    var before := Filter(db.chunks, (c: Chunk) => c.id == id);
    db.(chunks := Edited(db.chunks, id, content),
        fts := db.fts - Rebuild(tok, before) + Rebuild(tok, Edited(before, id, content)))
  }

  lemma {:induction false} EditedRows(chunks: seq<Chunk>, id: string, content: string)
    ensures var edited := Edited(chunks, id, content);
            && |edited| == |chunks|
            && forall i :: 0 <= i < |chunks| ==>
                 edited[i] == if chunks[i].id == id then chunks[i].(content := content) else chunks[i]
  {
    if chunks != [] { EditedRows(chunks[1..], id, content); }
  }

  lemma Exchange(p: multiset<Posting>, q: multiset<Posting>, all: multiset<Posting>, edited: multiset<Posting>,
                 hit: multiset<Posting>, hitEdited: multiset<Posting>)
    requires edited + hit == all + hitEdited
    ensures (q + edited) + (p + hit) == (p + all) + (q + hitEdited)
    ensures (p + edited) + hit == (p + all) + hitEdited
  {
    assert (q + edited) + (p + hit) == (edited + hit) + (p + q);
    assert (p + all) + (q + hitEdited) == (all + hitEdited) + (p + q);
    assert (p + edited) + hit == (edited + hit) + p;
    assert (p + all) + hitEdited == (all + hitEdited) + p;
  }

  lemma {:induction false} RebuildEdited(tok: string -> seq<string>, chunks: seq<Chunk>, id: string, content: string)
    ensures var hit := Filter(chunks, (c: Chunk) => c.id == id);
            Rebuild(tok, Edited(chunks, id, content)) + Rebuild(tok, hit) ==
              Rebuild(tok, chunks) + Rebuild(tok, Edited(hit, id, content))
  {
    if chunks != [] {
      var c, rest := chunks[0], chunks[1..];
      var hit := Filter(rest, (c: Chunk) => c.id == id);
      RebuildEdited(tok, rest, id, content);
      var d := if c.id == id then c.(content := content) else c;
      RebuildHead(tok, d, Edited(rest, id, content));
      RebuildHead(tok, c, hit);
      RebuildHead(tok, d, Edited(hit, id, content));
      assert ([c] + hit)[1..] == hit;
      Exchange(Postings(tok, c), Postings(tok, d), Rebuild(tok, rest), Rebuild(tok, Edited(rest, id, content)),
               Rebuild(tok, hit), Rebuild(tok, Edited(hit, id, content)));
    }
  }

  lemma EditedUnique(chunks: seq<Chunk>, id: string, content: string)
    requires UniqueIds(chunks)
    ensures UniqueIds(Edited(chunks, id, content))
  {
    EditedRows(chunks, id, content);
    var edited := Edited(chunks, id, content);
    assert forall i :: 0 <= i < |edited| ==> edited[i].id == chunks[i].id && edited[i].rowid == chunks[i].rowid;
  }

  lemma EditedRefs(chunks: seq<Chunk>, id: string, content: string, artifacts: seq<Artifact>)
    requires forall c :: c in chunks ==> Names(artifacts, c.artifactId)
    ensures forall c :: c in Edited(chunks, id, content) ==> Names(artifacts, c.artifactId)
  {
    EditedRows(chunks, id, content);
    var edited := Edited(chunks, id, content);
    forall i | 0 <= i < |edited| ensures Names(artifacts, edited[i].artifactId) {
      assert chunks[i] in chunks && edited[i].artifactId == chunks[i].artifactId;
    }
  }

  lemma EditedIndex(tok: string -> seq<string>, chunks: seq<Chunk>, id: string, content: string)
    ensures var hit := Filter(chunks, (c: Chunk) => c.id == id);
            Rebuild(tok, chunks) - Rebuild(tok, hit) + Rebuild(tok, Edited(hit, id, content)) ==
              Rebuild(tok, Edited(chunks, id, content))
  {
    var hit := Filter(chunks, (c: Chunk) => c.id == id);
    RebuildSplit(tok, chunks, (c: Chunk) => c.id == id);
    RebuildEdited(tok, chunks, id, content);
    TakeOutPutIn(Rebuild(tok, chunks), Rebuild(tok, hit),
                 Rebuild(tok, Edited(hit, id, content)), Rebuild(tok, Edited(chunks, id, content)));
  }

  lemma UpdateConsistent(tok: string -> seq<string>, db: DB, id: string, content: string)
    requires Consistent(tok, db)
    ensures Consistent(tok, Update(tok, db, id, content))
  {
    EditedUnique(db.chunks, id, content);
    EditedRefs(db.chunks, id, content, db.artifacts);
    EditedIndex(tok, db.chunks, id, content);
  }

  lemma TakeOutPutIn(fts: multiset<Posting>, out: multiset<Posting>, added: multiset<Posting>,
                     edited: multiset<Posting>)
    requires out <= fts && edited + out == fts + added
    ensures fts - out + added == edited
  {
    forall x ensures (fts - out + added)[x] == edited[x] {
      assert (edited + out)[x] == (fts + added)[x];
    }
  }

  // ----- Every sequence of operations -----

  /** What each operation gets besides the tables: new ids, content, times and the
      parts its content was chunked into. */
  datatype Op =
    | PlainInsert(id: string, content: string, at: Stamp, ttlHours: int)
    | AddArtifact(artifactId: string, hash: string, expires: Option<int>, parts: seq<NewChunk>)
    | UpdateContent(id: string, content: string)
    | DeleteByIds(ids: seq<string>)
    | Prune(now: int)

  datatype NewChunk = NewChunk(id: string, content: string, at: Stamp, ttlHours: int)

  predicate HasId(chunks: seq<Chunk>, id: string)
  {
    exists i :: 0 <= i < |chunks| && chunks[i].id == id
  }

  /** InsertChunk: a used id violates the primary key and changes nothing. */
  function InsertChunk(tok: string -> seq<string>, db: DB, n: NewChunk, artifactId: string): DB
  {
    if HasId(db.chunks, n.id) then db else Insert(tok, db, n.id, n.content, n.at, n.ttlHours, artifactId)
  }

  /** The parts are inserted in turn; the first that fails ends it. */
  function InsertParts(tok: string -> seq<string>, db: DB, parts: seq<NewChunk>, artifactId: string): DB
    decreases |parts|
  {
    if parts == [] then db
    else if parts[0].content == "" then InsertParts(tok, db, parts[1..], artifactId)
    else if HasId(db.chunks, parts[0].id) then db
    else InsertParts(tok, InsertChunk(tok, db, parts[0], artifactId), parts[1..], artifactId)
  }

  /** The stored text of the time carries an offset, so that in its own second it is
      longer than the text of the current time, and greater. */
  predicate Expired(a: Artifact, now: int)
  {
    a.expires.Some? && a.expires.value < now
  }

  /** An artifact whose id or non-empty hash is taken cannot be inserted. */
  predicate Clashes(artifacts: seq<Artifact>, id: string, hash: string)
  {
    exists i :: 0 <= i < |artifacts| && (artifacts[i].id == id || (hash != "" && artifacts[i].hash == hash))
  }

  function PruneArtifact(tok: string -> seq<string>, db: DB, id: string): DB
  {
    var cleared := Delete(tok, db, (c: Chunk) => c.artifactId != id);
    cleared.(artifacts := Filter(db.artifacts, (a: Artifact) => a.id != id))
  }

  function PruneAll(tok: string -> seq<string>, db: DB, ids: seq<string>): DB
    decreases |ids|
  {
    if ids == [] then db else PruneAll(tok, PruneArtifact(tok, db, ids[0]), ids[1..])
  }

  function Ids(artifacts: seq<Artifact>): seq<string>
  {
    if artifacts == [] then [] else [artifacts[0].id] + Ids(artifacts[1..])
  }

  function DeleteIds(tok: string -> seq<string>, db: DB, ids: seq<string>): DB
    decreases |ids|
  {
    if ids == [] then db else DeleteIds(tok, Delete(tok, db, (c: Chunk) => c.id != ids[0]), ids[1..])
  }

  function Apply(tok: string -> seq<string>, db: DB, op: Op): DB
  {
    match op
    case PlainInsert(id, content, at, ttlHours) => InsertChunk(tok, db, NewChunk(id, content, at, ttlHours), "")
    case AddArtifact(id, hash, expires, parts) =>
      if Clashes(db.artifacts, id, hash) then db
      else InsertParts(tok, db.(artifacts := db.artifacts + [Artifact(id, hash, expires)]), parts, id)
    case UpdateContent(id, content) => Update(tok, db, id, content)
    case DeleteByIds(ids) => DeleteIds(tok, db, ids)
    case Prune(now) => PruneAll(tok, db, Ids(Filter(db.artifacts, (a: Artifact) => Expired(a, now))))
  }

  function Run(tok: string -> seq<string>, ops: seq<Op>): DB
  {
    if ops == [] then DB([], [], multiset{})
    else Apply(tok, Run(tok, ops[..|ops| - 1]), ops[|ops| - 1])
  }

  /** Generated ids are never empty. */
  ghost predicate WellFormed(op: Op)
  {
    op.AddArtifact? ==> op.artifactId != ""
  }

  lemma {:induction false} InsertPartsConsistent(tok: string -> seq<string>, db: DB, parts: seq<NewChunk>,
                                                 artifactId: string)
    requires Consistent(tok, db) && Names(db.artifacts, artifactId)
    ensures Consistent(tok, InsertParts(tok, db, parts, artifactId))
    decreases |parts|
  {
    if parts != [] {
      var n := parts[0];
      if n.content == "" {
        InsertPartsConsistent(tok, db, parts[1..], artifactId);
      } else if !HasId(db.chunks, n.id) {
        InsertConsistent(tok, db, n.id, n.content, n.at, n.ttlHours, artifactId);
        InsertPartsConsistent(tok, InsertChunk(tok, db, n, artifactId), parts[1..], artifactId);
      }
    }
  }

  lemma NewArtifactConsistent(tok: string -> seq<string>, db: DB, a: Artifact)
    requires Consistent(tok, db) && !Clashes(db.artifacts, a.id, a.hash) && a.id != ""
    ensures Consistent(tok, db.(artifacts := db.artifacts + [a])) && Names(db.artifacts + [a], a.id)
  {
    var artifacts := db.artifacts + [a];
    assert a in artifacts;
    forall c | c in db.chunks ensures Names(artifacts, c.artifactId) {
      if c.artifactId != "" {
        var x :| x in db.artifacts && x.id == c.artifactId;
        assert x in artifacts;
      }
    }
  }

  lemma {:induction false} FilterUniqueArtifacts(artifacts: seq<Artifact>, keep: Artifact -> bool)
    requires UniqueArtifacts(artifacts)
    ensures UniqueArtifacts(Filter(artifacts, keep))
  {
    FilterMembers(artifacts, keep);
    if artifacts != [] {
      assert forall a :: a in artifacts[1..] ==> a in artifacts;
      FilterUniqueArtifacts(artifacts[1..], keep);
      FilterMembers(artifacts[1..], keep);
      var rest := Filter(artifacts[1..], keep);
      forall j | 0 <= j < |rest|
        ensures artifacts[0].id != rest[j].id && (artifacts[0].hash != "" ==> artifacts[0].hash != rest[j].hash)
      {
        assert rest[j] in rest;
        assert rest[j] in artifacts[1..];
      }
    }
  }

  lemma PruneArtifactConsistent(tok: string -> seq<string>, db: DB, id: string)
    requires Consistent(tok, db)
    ensures Consistent(tok, PruneArtifact(tok, db, id))
  {
    var keepChunk, keepArtifact := (c: Chunk) => c.artifactId != id, (a: Artifact) => a.id != id;
    DeleteConsistent(tok, db, keepChunk);
    FilterUniqueArtifacts(db.artifacts, keepArtifact);
    FilterMembers(db.artifacts, keepArtifact);
    FilterMembers(db.chunks, keepChunk);
    forall c | c in Filter(db.chunks, keepChunk) ensures Names(Filter(db.artifacts, keepArtifact), c.artifactId) {
      if c.artifactId != "" {
        var a :| a in db.artifacts && a.id == c.artifactId;
        assert a in Filter(db.artifacts, keepArtifact);
      }
    }
  }

  lemma {:induction false} PruneAllConsistent(tok: string -> seq<string>, db: DB, ids: seq<string>)
    requires Consistent(tok, db)
    ensures Consistent(tok, PruneAll(tok, db, ids))
    decreases |ids|
  {
    if ids != [] {
      PruneArtifactConsistent(tok, db, ids[0]);
      PruneAllConsistent(tok, PruneArtifact(tok, db, ids[0]), ids[1..]);
    }
  }

  lemma {:induction false} DeleteIdsConsistent(tok: string -> seq<string>, db: DB, ids: seq<string>)
    requires Consistent(tok, db)
    ensures Consistent(tok, DeleteIds(tok, db, ids))
    decreases |ids|
  {
    if ids != [] {
      DeleteConsistent(tok, db, (c: Chunk) => c.id != ids[0]);
      DeleteIdsConsistent(tok, Delete(tok, db, (c: Chunk) => c.id != ids[0]), ids[1..]);
    }
  }

  lemma ApplyConsistent(tok: string -> seq<string>, db: DB, op: Op)
    requires Consistent(tok, db) && WellFormed(op)
    ensures Consistent(tok, Apply(tok, db, op))
  {
    match op
    case PlainInsert(id, content, at, ttlHours) =>
      if !HasId(db.chunks, id) { InsertConsistent(tok, db, id, content, at, ttlHours, ""); }
    case AddArtifact(id, hash, expires, parts) =>
      if !Clashes(db.artifacts, id, hash) {
        var a := Artifact(id, hash, expires);
        NewArtifactConsistent(tok, db, a);
        InsertPartsConsistent(tok, db.(artifacts := db.artifacts + [a]), parts, id);
      }
    case UpdateContent(id, content) => UpdateConsistent(tok, db, id, content);
    case DeleteByIds(ids) => DeleteIdsConsistent(tok, db, ids);
    case Prune(now) => PruneAllConsistent(tok, db, Ids(Filter(db.artifacts, (a: Artifact) => Expired(a, now))));
  }

  /** After any sequence of operations there is at most one artifact per content
      hash, every chunk's artifact is stored, and the index is the one rebuilt from
      the rows, whatever the tokenizer and however rowids were reused. */
  lemma {:induction false} RunConsistent(tok: string -> seq<string>, ops: seq<Op>)
    requires forall op :: op in ops ==> WellFormed(op)
    ensures Consistent(tok, Run(tok, ops))
  {
    if ops != [] {
      RunConsistent(tok, ops[..|ops| - 1]);
      ApplyConsistent(tok, Run(tok, ops[..|ops| - 1]), ops[|ops| - 1]);
    }
  }

  /** No insert of a part fails: the non-empty parts have new, distinct ids. */
  ghost predicate FreshParts(chunks: seq<Chunk>, parts: seq<NewChunk>)
  {
    forall i :: 0 <= i < |parts| && parts[i].content != "" ==>
      && !HasId(chunks, parts[i].id)
      && forall j :: i < j < |parts| && parts[j].content != "" ==> parts[i].id != parts[j].id
  }

  lemma FreshStep(chunks: seq<Chunk>, parts: seq<NewChunk>)
    requires parts != []
    ensures parts[0].content == "" ==> (FreshParts(chunks, parts) <==> FreshParts(chunks, parts[1..]))
    ensures parts[0].content != "" && FreshParts(chunks, parts) ==> !HasId(chunks, parts[0].id)
  {
    var rest := parts[1..];
    assert forall i :: 0 <= i < |rest| ==> rest[i] == parts[i + 1];
    if parts[0].content == "" && FreshParts(chunks, rest) {
      forall i | 0 <= i < |parts| && parts[i].content != ""
        ensures !HasId(chunks, parts[i].id)
        ensures forall j :: i < j < |parts| && parts[j].content != "" ==> parts[i].id != parts[j].id
      {
        assert rest[i - 1] == parts[i];
      }
    }
  }

  lemma HasIdAppend(chunks: seq<Chunk>, c: Chunk, id: string)
    ensures HasId(chunks + [c], id) <==> HasId(chunks, id) || c.id == id
  {
    if HasId(chunks, id) {
      var i :| 0 <= i < |chunks| && chunks[i].id == id;
      assert (chunks + [c])[i].id == id;
    }
    assert (chunks + [c])[|chunks|] == c;
  }

  lemma FreshWithRow(chunks: seq<Chunk>, c: Chunk, parts: seq<NewChunk>)
    requires parts != [] && parts[0].content != "" && c.id == parts[0].id && !HasId(chunks, c.id)
    ensures FreshParts(chunks, parts) <==> FreshParts(chunks + [c], parts[1..])
  {
    var rest := parts[1..];
    assert forall i :: 0 <= i < |rest| ==> rest[i] == parts[i + 1];
    forall id { HasIdAppend(chunks, c, id); }
    if FreshParts(chunks + [c], rest) {
      forall i | 0 <= i < |parts| && parts[i].content != ""
        ensures !HasId(chunks, parts[i].id)
        ensures forall j :: i < j < |parts| && parts[j].content != "" ==> parts[i].id != parts[j].id
      {
        if i > 0 { assert rest[i - 1] == parts[i]; }
        forall j | i < j < |parts| && parts[j].content != "" ensures parts[i].id != parts[j].id {
          assert rest[j - 1] == parts[j];
        }
      }
    }
  }

  /** No insert of a part fails on the way. */
  predicate InsertsAll(tok: string -> seq<string>, db: DB, parts: seq<NewChunk>, artifactId: string)
    decreases |parts|
  {
    if parts == [] then true
    else if parts[0].content == "" then InsertsAll(tok, db, parts[1..], artifactId)
    else
      && !HasId(db.chunks, parts[0].id)
      && InsertsAll(tok, InsertChunk(tok, db, parts[0], artifactId), parts[1..], artifactId)
  }

  lemma {:induction false} InsertsAllExactlyWhen(tok: string -> seq<string>, db: DB, parts: seq<NewChunk>,
                                                 artifactId: string)
    ensures InsertsAll(tok, db, parts, artifactId) <==> FreshParts(db.chunks, parts)
    decreases |parts|
  {
    if parts != [] {
      FreshStep(db.chunks, parts);
      if parts[0].content == "" {
        InsertsAllExactlyWhen(tok, db, parts[1..], artifactId);
      } else if !HasId(db.chunks, parts[0].id) {
        var next := InsertChunk(tok, db, parts[0], artifactId);
        FreshWithRow(db.chunks, next.chunks[|db.chunks|], parts);
        InsertsAllExactlyWhen(tok, next, parts[1..], artifactId);
      }
    }
  }

  // ----- What is left of a content -----

  /** Some row of the artifact carries the part's content. */
  predicate Stored(chunks: seq<Chunk>, content: string, artifactId: string)
  {
    exists c :: c in chunks && c.content == content && c.artifactId == artifactId
  }

  /** Every non-empty part is stored. */
  ghost predicate AllStored(chunks: seq<Chunk>, parts: seq<NewChunk>, artifactId: string)
  {
    forall n :: n in parts && n.content != "" ==> Stored(chunks, n.content, artifactId)
  }

  ghost predicate HasHash(artifacts: seq<Artifact>, hash: string)
  {
    exists a :: a in artifacts && a.hash == hash
  }
}
