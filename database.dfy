/**
 * The change-detection store of routes/database.py. The three SQLite tables become maps from
 * primary key to row; REPLACE INTO is modelled with SQLite's meaning: every row that clashes
 * with the new one on the primary key or on a unique index is deleted, then the row is
 * inserted.
 */
module Database {
  import opened Wrappers
  import opened Text
  import opened Hashing

  /** Version tags folded into every content hash; raising one invalidates all of them. */
  const TokVer: nat := 1
  const SegVer: nat := 1

  /** A row of `documents` (its key, doc_id, is the map key). */
  datatype DocRow = DocRow(sourcePath: string, title: Option<string>, fileHash: Digest, modifiedAt: int)

  /** A row of `chunks` (its key, chunk_id, is the map key). */
  datatype ChunkRow = ChunkRow(
    docId: string,
    pageStart: Option<int>,
    pageEnd: Option<int>,
    section: Option<string>,
    chunkHash: Digest,
    contentHash: Digest,
    text: string)

  /** A row of `embeddings` (its key, chunk_id, is the map key). */
  datatype EmbeddingRow = EmbeddingRow(model: string, dim: int, vector: seq<byte>)

  // ---------------------------------------------------------------------------------------
  // Derived keys and hashes

  /** Python's int() on a float: truncation toward zero. */
  function Trunc(r: real): (n: int)
    ensures 0.0 <= r ==> 0 <= n && n as real <= r < (n + 1) as real
    ensures r < 0.0 ==> n <= 0 && (n - 1) as real < r <= n as real
  {
    if r >= 0.0 then r.Floor else -((-r).Floor)
  }

  /**
   * f"{doc_id}:{chunk_hash[:12]}": the document id, a ':' and the first twelve hex digits of
   * the chunk hash. ChunkIdDetermines shows the id can be read back.
   */
  function ChunkId(docId: string, chunkHash: Digest): (id: string)
    ensures |id| == |docId| + 13
    ensures id[..|docId|] == docId && id[|docId|] == ':' && id[|docId| + 1..] == chunkHash[..12]
  {
    docId + ":" + chunkHash[..12]
  }

  /**
   * The hash part of a chunk id has a fixed length, so the id determines the document id and
   * the first twelve hex digits of the chunk hash, even when the document id holds a ':'.
   */
  lemma ChunkIdDetermines(docA: string, hashA: Digest, docB: string, hashB: Digest)
    requires ChunkId(docA, hashA) == ChunkId(docB, hashB)
    ensures docA == docB && hashA[..12] == hashB[..12]
  {
    var id := ChunkId(docA, hashA);
    assert |docA| == |id| - 13 == |docB|;
    assert docA == id[..|docA|] && docB == id[..|docB|];
    assert hashA[..12] == id[|docA| + 1..] && hashB[..12] == id[|docB| + 1..];
  }

  /**
   * The text hashed into content_hash: f"{text}|tok={tok}|seg={seg}". It starts with the
   * text; VersionTaggedInjective shows that text and versions can be read back.
   */
  function VersionTagged(text: string, tok: nat, seg: nat): (tagged: string)
    ensures |tagged| >= |text| + 12 && tagged[..|text|] == text
  {
    text + "|tok=" + NatToString(tok) + "|seg=" + NatToString(seg)
  }

  /** With the current versions the tagged text is the text followed by a fixed string. */
  lemma VersionTagIsFixed(text: string)
    ensures VersionTagged(text, TokVer, SegVer) == text + "|tok=1|seg=1"
  {
  }

  /** Tagged texts are equal only for equal texts and equal versions. */
  lemma VersionTaggedInjective(t1: string, tok1: nat, seg1: nat, t2: string, tok2: nat, seg2: nat)
    requires VersionTagged(t1, tok1, seg1) == VersionTagged(t2, tok2, seg2)
    ensures t1 == t2 && tok1 == tok2 && seg1 == seg2
  {
    var x1, x2 := t1 + "|tok=" + NatToString(tok1), t2 + "|tok=" + NatToString(tok2);
    DigitSuffixSplit(x1 + "|seg=", NatToString(seg1), x2 + "|seg=", NatToString(seg2));
    NatToStringInjective(seg1, seg2);
    assert x1 == (x1 + "|seg=")[..|x1|] && x2 == (x2 + "|seg=")[..|x2|];
    DigitSuffixSplit(t1 + "|tok=", NatToString(tok1), t2 + "|tok=", NatToString(tok2));
    NatToStringInjective(tok1, tok2);
    assert t1 == (t1 + "|tok=")[..|t1|] && t2 == (t2 + "|tok=")[..|t2|];
  }

  /** The version-tagged hash of a chunk text. */
  function ContentHash(sha: Sha256, text: string): (h: Digest)
    ensures h == Sha256Text(sha, text + "|tok=1|seg=1")
  {
    VersionTagIsFixed(text);
    Sha256Text(sha, VersionTagged(text, TokVer, SegVer))
  }

  /**
   * Raising either version changes the hashed input of every text, while chunk_hash, the hash
   * of the bare text, does not depend on the versions at all.
   */
  lemma VersionBumpChangesInput(text: string, tok: nat, seg: nat)
    requires tok != TokVer || seg != SegVer
    ensures Utf8(VersionTagged(text, tok, seg)) != Utf8(VersionTagged(text, TokVer, SegVer))
  {
    var bumped, current := VersionTagged(text, tok, seg), VersionTagged(text, TokVer, SegVer);
    if Utf8(bumped) == Utf8(current) {
      Utf8Injective(bumped, current);
      VersionTaggedInjective(text, tok, seg, text, TokVer, SegVer);
    }
  }

  // ---------------------------------------------------------------------------------------
  // Table invariants and REPLACE INTO

  /**
   * Every chunk row is content-addressed: its chunk hash is the hash of its text and it sits
   * under the chunk id made from its document and that hash. This holds whatever versions the
   * content hashes were computed under.
   */
  predicate ChunksAddressed(sha: Sha256, chunks: map<string, ChunkRow>)
  {
    KeyedByDocHash(chunks) &&
    forall id :: id in chunks ==> chunks[id].chunkHash == Sha256Text(sha, chunks[id].text)
  }

  /** Every chunk row sits under the chunk id made from its document and its hash. */
  predicate KeyedByDocHash(chunks: map<string, ChunkRow>)
  {
    forall id :: id in chunks ==> id == ChunkId(chunks[id].docId, chunks[id].chunkHash)
  }

  /**
   * Every content hash was computed under the current versions. Rows written before a
   * version was raised break this, and they are the rows that need their work redone.
   */
  predicate ContentHashesCurrent(sha: Sha256, chunks: map<string, ChunkRow>)
  {
    forall id :: id in chunks ==> chunks[id].contentHash == ContentHash(sha, chunks[id].text)
  }

  /** The unique index idx_chunks_doc_hash: no two chunk rows share (doc_id, chunk_hash). */
  predicate DocHashUnique(chunks: map<string, ChunkRow>)
  {
    forall a, b :: a in chunks && b in chunks && a != b ==>
      (chunks[a].docId, chunks[a].chunkHash) != (chunks[b].docId, chunks[b].chunkHash)
  }

  /** A chunk table keyed by document and hash satisfies the unique index. */
  lemma KeyedIsDocHashUnique(chunks: map<string, ChunkRow>)
    requires KeyedByDocHash(chunks)
    ensures DocHashUnique(chunks)
  {
    forall a, b | a in chunks && b in chunks && a != b
      ensures (chunks[a].docId, chunks[a].chunkHash) != (chunks[b].docId, chunks[b].chunkHash)
    {
      assert a == ChunkId(chunks[a].docId, chunks[a].chunkHash);
      assert b == ChunkId(chunks[b].docId, chunks[b].chunkHash);
    }
  }

  /** Whether an existing row clashes with a new row on the (doc_id, chunk_hash) index. */
  predicate SameDocHash(old_: ChunkRow, row: ChunkRow)
  {
    old_.docId == row.docId && old_.chunkHash == row.chunkHash
  }

  /**
   * REPLACE INTO chunks: rows clashing on chunk_id or on (doc_id, chunk_hash) are deleted,
   * then the new row is inserted under its chunk id.
   */
  function ReplaceChunk(chunks: map<string, ChunkRow>, id: string, row: ChunkRow): (r: map<string, ChunkRow>)
    ensures id in r && r[id] == row
    ensures forall k :: k in r && k != id ==> k in chunks && r[k] == chunks[k] && !SameDocHash(chunks[k], row)
    ensures forall k :: k in chunks && k != id && !SameDocHash(chunks[k], row) ==> k in r
  {
    (map k | k in chunks && k != id && !SameDocHash(chunks[k], row) :: chunks[k])[id := row]
  }

  /**
   * On a content-addressed table, REPLACE of a content-addressed row touches only its own
   * chunk id: the index clash can only come from the row under that very id.
   */
  lemma ReplaceTouchesOnlyKey(chunks: map<string, ChunkRow>, id: string, row: ChunkRow)
    requires KeyedByDocHash(chunks)
    requires id == ChunkId(row.docId, row.chunkHash)
    ensures ReplaceChunk(chunks, id, row) == chunks[id := row]
  {
    forall k | k in chunks && k != id
      ensures !SameDocHash(chunks[k], row)
    {
      assert k == ChunkId(chunks[k].docId, chunks[k].chunkHash);
    }
  }

  /** REPLACE keeps the unique index, whatever the table held before. */
  lemma ReplaceKeepsDocHashUnique(chunks: map<string, ChunkRow>, id: string, row: ChunkRow)
    requires DocHashUnique(chunks)
    ensures DocHashUnique(ReplaceChunk(chunks, id, row))
  {
  }

  /** REPLACE keeps the table content-addressed when the new row is. */
  lemma ReplaceKeepsAddressed(sha: Sha256, chunks: map<string, ChunkRow>, id: string, row: ChunkRow)
    requires ChunksAddressed(sha, chunks) && ChunksAddressed(sha, map[id := row])
    ensures ChunksAddressed(sha, ReplaceChunk(chunks, id, row))
  {
    assert id in map[id := row];
  }

  /** REPLACE of a row hashed under the current versions keeps every content hash current. */
  lemma ReplaceKeepsCurrent(sha: Sha256, chunks: map<string, ChunkRow>, id: string, row: ChunkRow)
    requires ContentHashesCurrent(sha, chunks) && row.contentHash == ContentHash(sha, row.text)
    ensures ContentHashesCurrent(sha, ReplaceChunk(chunks, id, row))
  {
  }

  /** REPLACE of a row stored under its own chunk id keeps every table invariant. */
  lemma PersistKeepsTable(sha: Sha256, chunks: map<string, ChunkRow>, id: string, row: ChunkRow)
    requires ChunksAddressed(sha, chunks)
    requires row.chunkHash == Sha256Text(sha, row.text) && id == ChunkId(row.docId, row.chunkHash)
    ensures ReplaceChunk(chunks, id, row) == chunks[id := row]
    ensures ChunksAddressed(sha, ReplaceChunk(chunks, id, row)) && DocHashUnique(ReplaceChunk(chunks, id, row))
    ensures ContentHashesCurrent(sha, chunks) && row.contentHash == ContentHash(sha, row.text) ==>
              ContentHashesCurrent(sha, ReplaceChunk(chunks, id, row))
  {
    ReplaceTouchesOnlyKey(chunks, id, row);
    ReplaceKeepsAddressed(sha, chunks, id, row);
    if ContentHashesCurrent(sha, chunks) && row.contentHash == ContentHash(sha, row.text) {
      ReplaceKeepsCurrent(sha, chunks, id, row);
    }
    KeyedIsDocHashUnique(ReplaceChunk(chunks, id, row));
  }

  /** Replacing the same row twice leaves the table the first replacement left. */
  lemma ReplaceChunkIdempotent(chunks: map<string, ChunkRow>, id: string, row: ChunkRow)
    ensures ReplaceChunk(ReplaceChunk(chunks, id, row), id, row) == ReplaceChunk(chunks, id, row)
  {
    var once := ReplaceChunk(chunks, id, row);
    var twice := ReplaceChunk(once, id, row);
    assert twice.Keys == once.Keys;
  }

  /** idx_embeddings_chunk_model: the (chunk_id, model) pairs of the embeddings table. */
  function EmbeddingPairs(embeddings: map<string, EmbeddingRow>): (pairs: set<(string, string)>)
    ensures forall id :: id in embeddings ==> (id, embeddings[id].model) in pairs
    ensures forall p :: p in pairs ==> p.0 in embeddings && embeddings[p.0].model == p.1
  {
    set id | id in embeddings :: (id, embeddings[id].model)
  }

  /**
   * chunk_id is the primary key of `embeddings`, so the (chunk_id, model) index can never
   * clash, and a chunk has at most one embedding whatever the model.
   */
  lemma OneEmbeddingPerChunk(embeddings: map<string, EmbeddingRow>, p: (string, string), q: (string, string))
    requires p in EmbeddingPairs(embeddings) && q in EmbeddingPairs(embeddings)
    requires p.0 == q.0
    ensures p == q
  {
  }

  // ---------------------------------------------------------------------------------------
  // The store

  /** The database connection with its three tables; the SHA-256 function is fixed at creation. */
  class Store {
    var documents: map<string, DocRow>
    var chunks: map<string, ChunkRow>
    var embeddings: map<string, EmbeddingRow>
    const sha: Sha256

    /**
     * The chunk table is content-addressed. The unique index on (doc_id, chunk_hash) follows
     * (KeyedIsDocHashUnique); content hashes may date from earlier versions.
     */
    ghost predicate Valid()
      reads this
    {
      ChunksAddressed(sha, chunks)
    }

    /** init_db on a fresh database: the three tables exist and are empty. */
    constructor (sha: Sha256)
      ensures this.sha == sha
      ensures documents == map[] && chunks == map[] && embeddings == map[]
      ensures Valid()
    {
      this.sha := sha;
      documents := map[];
      chunks := map[];
      embeddings := map[];
    }

    /** Whether the stored hash of docId is the hash of normText. */
    predicate HashMatches(docId: string, normText: string)
      reads this
    {
      docId in documents && documents[docId].fileHash == Sha256Text(sha, normText)
    }

    /**
     * upsert_document: a no-op returning false when the stored hash already matches;
     * otherwise the row of docId is replaced (the title becomes NULL) and true is returned.
     * Either way the stored hash matches afterwards, so repeating the call returns false.
     */
    method UpsertDocument(docId: string, sourcePath: string, normText: string, mtime: real)
      returns (changed: bool)
      modifies this
      ensures changed == !old(HashMatches(docId, normText))
      ensures !changed ==> documents == old(documents)
      ensures changed ==> (documents ==
        old(documents)[docId := DocRow(sourcePath, None, Sha256Text(sha, normText), Trunc(mtime))])
      ensures HashMatches(docId, normText)
      ensures chunks == old(chunks) && embeddings == old(embeddings)
      ensures Valid() == old(Valid())
    {
      var fileHash := Sha256Text(sha, normText);
      if docId in documents && documents[docId].fileHash == fileHash {
        return false;
      }
      documents := documents[docId := DocRow(sourcePath, None, fileHash, Trunc(mtime))];
      return true;
    }

    /**
     * persist_chunk: hashes the text, derives the chunk id and REPLACEs the chunk row. On a
     * content-addressed store only the row under the returned chunk id changes, even when
     * other rows carry content hashes of earlier versions.
     */
    method PersistChunk(docId: string, text: string, pageStart: Option<int>, pageEnd: Option<int>,
                        section: Option<string>)
      returns (chunkId: string, contentHash: Digest)
      requires Valid()
      modifies this
      ensures chunkId == ChunkId(docId, Sha256Text(sha, text))
      ensures contentHash == ContentHash(sha, text)
      ensures chunks == old(chunks)[chunkId :=
        ChunkRow(docId, pageStart, pageEnd, section, Sha256Text(sha, text), contentHash, text)]
      ensures documents == old(documents) && embeddings == old(embeddings)
      ensures Valid() && DocHashUnique(chunks)
      ensures old(ContentHashesCurrent(sha, chunks)) ==> ContentHashesCurrent(sha, chunks)
    {
      var chunkHash := Sha256Text(sha, text);
      contentHash := ContentHash(sha, text);
      chunkId := ChunkId(docId, chunkHash);
      var row := ChunkRow(docId, pageStart, pageEnd, section, chunkHash, contentHash, text);
      PersistKeepsTable(sha, chunks, chunkId, row);
      chunks := ReplaceChunk(chunks, chunkId, row);
    }
  }
}
