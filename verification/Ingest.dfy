/** The provisioning transaction of `services/api/internal/ingest/ingest.go`, and what cryptod's
    /prepare (`services/cryptod/src/cryptod/app.py`) returns for it. */
module Ingest {
  import opened Hashing
  import opened Chain
  import opened Tables
  import opened Erasure

  datatype IngestError = SubjectErased | AlreadyProvisioned | KeyConflict

  datatype IngestEnd = Stored | Rejected(err: IngestError)

  /** The head's hash, or no bytes when the log is empty. */
  function HeadBytes(log: seq<LogRow>): Bytes {
    match ChainHead(log) case None => [] case Some(row) => row.hash
  }

  /** /prepare: a fresh subject key wrapped by KMS under the subject's context, a fresh row key wrapped
      under the subject key, and content and vector sealed with the row key over subject || head. */
  datatype Prepared = Prepared(key: KeyRow, memory: MemoryRow)

  function Prepare(call: nat, s: SubjectId, head: Bytes, content: Bytes, vector: Bytes, arn: string, fingerprint: Bytes)
    : Prepared
  {
    var aad := s + head;
    Prepared(KeyRow(KmsBlob(SubjectKey(call), s), arn, GenerateDataKey, fingerprint),
             MemoryRow(s, Sealed(RowKey(call), content, aad), Some(vector), Sealed(RowKey(call), vector, aad),
                       WrappedKey(SubjectKey(call), RowKey(call)), aad))
  }

  /** The two-level envelope of one ingest call: the subject key under the subject's KMS context, the row
      key under the subject key, content and vector under the row key, and the vector in the clear. */
  predicate PreparedBy(call: nat, p: Prepared) {
    && p.key.wrapped == KmsBlob(SubjectKey(call), p.memory.subjectId)
    && p.memory.wrappedKey == WrappedKey(SubjectKey(call), RowKey(call))
    && p.memory.content.key == p.memory.embeddingSealed.key == RowKey(call)
    && p.memory.content.aad == p.memory.embeddingSealed.aad == p.memory.aad
    && p.memory.embedding == Some(p.memory.embeddingSealed.plaintext)
  }

  /** One serializable run of the closure: the resurrection guard, then the two inserts. */
  function IngestTxn(db: Tables, p: Prepared): (Tables, IngestEnd) {
    var s := p.memory.subjectId;
    if s in db.records then (db, Rejected(SubjectErased))
    else if s in db.keys then (db, Rejected(AlreadyProvisioned))
    else
      match ApplyIngest(db, p.key, p.memory)
      case None => (db, Rejected(KeyConflict))
      case Some(db') => (db', Stored)
  }

  /** Each outcome of Ingest names the phase the subject was in; storing moves only that subject, from
      unknown to live, adds exactly the prepared row, and touches neither the log nor the records. */
  lemma IngestOutcome(sha: Sha, db: Tables, p: Prepared)
    requires Inv(sha, db) && p.memory.embedding.Some?
    ensures var s := p.memory.subjectId;
            var (db', end) := IngestTxn(db, p);
            && Inv(sha, db') && Extends(db, db') && db'.log == db.log && db'.records == db.records
            && match PhaseOf(db, s)
               case Erased => end == Rejected(SubjectErased) && db' == db
               case Live => end == Rejected(AlreadyProvisioned) && db' == db
               case Unknown => end == Stored && OnlyMoves(db, db', s, Unknown, Live)
                               && RowsOf(db'.memory, s) == [p.memory] && db'.keys == db.keys[s := p.key]
                               && forall t :: t != s ==> RowsOf(db'.memory, t) == RowsOf(db.memory, t)
  {
    hide LogInv, LifeInv, RecordInv, ProofInv, RowsOf;
    PhaseFacts(db, p.memory.subjectId);
    if PhaseOf(db, p.memory.subjectId) == Unknown {
      IngestCommits(sha, db, p.key, p.memory);
      forall t
        ensures RowsOf(db.memory + [p.memory], t)
             == if p.memory.subjectId == t then RowsOf(db.memory, t) + [p.memory] else RowsOf(db.memory, t)
      {
        RowsOfAppend(db.memory, p.memory, t);
      }
    }
  }

  /** Ingest reads the head before its transaction, so `head` may be older than the log it commits to;
      an AAD other than subject || head is refused before the transaction opens. */
  method Ingest(db: Database, head: Bytes, p: Prepared) returns (end: Option<IngestEnd>)
    modifies db
    ensures if p.memory.aad != p.memory.subjectId + head then end == None && db.View() == old(db.View())
            else end.Some? && (db.View(), end.value) == IngestTxn(old(db.View()), p)
  {
    var s := p.memory.subjectId;
    if p.memory.aad != s + head {
      return None;
    }
    if s in db.records {
      return Some(Rejected(SubjectErased));
    }
    if s in db.keys {
      return Some(Rejected(AlreadyProvisioned));
    }
    db.keys := db.keys[s := p.key];
    db.memory := db.memory + [p.memory];
    return Some(Stored);
  }
}
