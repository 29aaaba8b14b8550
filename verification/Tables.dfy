/** The four tables of `db/migrations`, the statements of `db/queries/erasure.sql` and
    `db/queries/memory.sql` as functions on them, and what the statements keep. */
module Tables {
  import opened Hashing
  import opened Hex
  import opened Merkle
  import opened Chain

  /** A subject id in its canonical 36-character spelling. */
  type SubjectId = Bytes

  /** Key material by name: each ingest call draws one fresh subject key and one fresh row key. */
  datatype Key = SubjectKey(call: nat) | RowKey(call: nat)

  /** A KMS GenerateDataKey blob: usable only with the encryption context it was made with. */
  datatype KmsBlob = KmsBlob(key: Key, context: SubjectId)

  /** An RFC 3394 key wrap. */
  datatype WrappedKey = WrappedKey(under: Key, key: Key)

  /** An AES-GCM ciphertext. */
  datatype Sealed = Sealed(key: Key, plaintext: Bytes, aad: Bytes)

  datatype KeyOrigin = GenerateDataKey | ImportedMaterial

  datatype KeyRow = KeyRow(wrapped: KmsBlob, arn: string, origin: KeyOrigin, fingerprint: Bytes)

  datatype MemoryRow = MemoryRow(subjectId: SubjectId, content: Sealed, embedding: Option<Bytes>,
                                 embeddingSealed: Sealed, wrappedKey: WrappedKey, aad: Bytes)

  /** The signed proof document; hashes are lowercase hexadecimal and occurredAt is in seconds. */
  datatype Doc = Doc(subjectHash: string, occurredAt: nat, seqNo: int, head: string, fingerprint: string,
                     arn: string, keyState: string, merkleRoot: string, treeSize: nat)

  /** proof_body: the canonical bytes of a document, or an empty decoded body. */
  datatype Body = EmptyBody | Canonical(doc: Doc)

  datatype StoredProof = StoredProof(proofRef: string, body: Body, signature: string, signerPem: string)

  datatype RecordRow = RecordRow(seqNo: int, fingerprint: Bytes, arn: string, proof: Option<StoredProof>)

  datatype Tables = Tables(keys: map<SubjectId, KeyRow>, memory: seq<MemoryRow>,
                           log: seq<LogRow>, records: map<SubjectId, RecordRow>)

  const EMPTY: Tables := Tables(map[], [], [], map[])

  // ----- Reads -----

  /** chain_head: the row with the largest seq, or none. */
  function ChainHead(log: seq<LogRow>): Option<LogRow> {
    if |log| == 0 then None
    else
      var last, rest := log[|log| - 1], ChainHead(log[..|log| - 1]);
      if rest.Some? && rest.value.seqNo > last.seqNo then rest else Some(last)
  }

  predicate SeqTaken(log: seq<LogRow>, seqNo: int) {
    exists i :: 0 <= i < |log| && log[i].seqNo == seqNo
  }

  function InsertBySeq(row: LogRow, rows: seq<LogRow>): seq<LogRow> {
    if |rows| == 0 || rows[|rows| - 1].seqNo <= row.seqNo then rows + [row]
    else InsertBySeq(row, rows[..|rows| - 1]) + [rows[|rows| - 1]]
  }

  /** ORDER BY seq. */
  function InSeqOrder(log: seq<LogRow>): seq<LogRow> {
    if |log| == 0 then [] else InsertBySeq(log[|log| - 1], InSeqOrder(log[..|log| - 1]))
  }

  /** decision_log_leaves: the hashes in seq order. */
  function Leaves(log: seq<LogRow>): (leaves: seq<Bytes>) {
    Hashes(InSeqOrder(log))
  }

  function Hashes(rows: seq<LogRow>): (leaves: seq<Bytes>)
    ensures |leaves| == |rows|
  {
    seq(|rows|, i requires 0 <= i < |rows| => rows[i].hash)
  }

  function RowsOf(memory: seq<MemoryRow>, s: SubjectId): seq<MemoryRow> {
    if |memory| == 0 then []
    else
      var rest := RowsOf(memory[..|memory| - 1], s);
      if memory[|memory| - 1].subjectId == s then rest + [memory[|memory| - 1]] else rest
  }

  // ----- Writes -----

  /** null_embeddings. */
  function NullEmbeddings(memory: seq<MemoryRow>, s: SubjectId): (r: seq<MemoryRow>)
    ensures |r| == |memory|
  {
    seq(|memory|, i requires 0 <= i < |memory| =>
      if memory[i].subjectId == s then memory[i].(embedding := None) else memory[i])
  }

  /** insert_decision, delete_subject_key, null_embeddings and insert_erasure_record in one commit;
      None when an insert hits an existing primary key. */
  function ApplyErase(db: Tables, s: SubjectId, row: LogRow, key: KeyRow): Option<Tables> {
    if SeqTaken(db.log, row.seqNo) || s in db.records then None
    else Some(Tables(db.keys - {s}, NullEmbeddings(db.memory, s), db.log + [row],
                     db.records[s := RecordRow(row.seqNo, key.fingerprint, key.arn, None)]))
  }

  /** insert_subject_key and insert_memory in one commit. */
  function ApplyIngest(db: Tables, key: KeyRow, memory: MemoryRow): Option<Tables> {
    if memory.subjectId in db.keys then None
    else Some(db.(keys := db.keys[memory.subjectId := key], memory := db.memory + [memory]))
  }

  /** set_proof_ref; no row is affected when the subject has no record. */
  function ApplyProof(db: Tables, s: SubjectId, proof: StoredProof): Tables {
    if s in db.records then db.(records := db.records[s := db.records[s].(proof := Some(proof))]) else db
  }

  // ----- The log -----

  /** The seqs are 1, 2, ..., in order of insertion, so without gaps. */
  predicate Gapless(log: seq<LogRow>) {
    forall i :: 0 <= i < |log| ==> log[i].seqNo == i + 1
  }

  /** Gapless, linked by Link, and written with the controlled vocabularies. */
  predicate LogInv(sha: Sha, log: seq<LogRow>) {
    && Gapless(log)
    && (forall i :: 0 <= i < |log| ==> WellFormed(log[i]))
    && (forall i :: 0 <= i < |log| ==> RowValid(sha, log, i))
  }

  lemma {:induction false} GaplessHead(log: seq<LogRow>)
    requires Gapless(log)
    ensures ChainHead(log) == if |log| == 0 then None else Some(log[|log| - 1])
  {
    if |log| > 0 {
      GaplessHead(log[..|log| - 1]);
    }
  }

  lemma {:induction false} GaplessOrder(log: seq<LogRow>)
    requires Gapless(log)
    ensures InSeqOrder(log) == log && Leaves(log) == Hashes(log)
  {
    hide Hashes, InsertBySeq;
    if |log| > 0 {
      var front, last := log[..|log| - 1], log[|log| - 1];
      GaplessOrder(front);
      InsertAtEnd(last, front);
      assert log == front + [last];
    }
  }

  lemma InsertAtEnd(row: LogRow, rows: seq<LogRow>)
    requires |rows| > 0 ==> rows[|rows| - 1].seqNo <= row.seqNo
    ensures InsertBySeq(row, rows) == rows + [row]
  {
  }

  lemma GaplessTaken(log: seq<LogRow>, n: int)
    requires Gapless(log)
    ensures SeqTaken(log, n) <==> 1 <= n <= |log|
  {
    if 1 <= n <= |log| {
      assert log[n - 1].seqNo == n;
    }
  }

  /** On any rows the head is one with the largest seq, and there is none exactly when there are no rows. */
  lemma {:induction false} ChainHeadIsMax(log: seq<LogRow>)
    ensures match ChainHead(log)
            case None => |log| == 0
            case Some(head) => head in log && forall i :: 0 <= i < |log| ==> log[i].seqNo <= head.seqNo
  {
    if |log| > 0 {
      ChainHeadIsMax(log[..|log| - 1]);
    }
  }

  predicate Ascending(rows: seq<LogRow>) {
    forall i, j :: 0 <= i < j < |rows| ==> rows[i].seqNo <= rows[j].seqNo
  }

  /** ORDER BY seq sorts: it permutes any rows, ascending by seq. */
  lemma {:induction false} InSeqOrderSorts(log: seq<LogRow>)
    ensures multiset(InSeqOrder(log)) == multiset(log) && Ascending(InSeqOrder(log))
  {
    hide InsertBySeq, Ascending;
    if |log| == 0 {
      NoneAscend();
    } else {
      var front, last := log[..|log| - 1], log[|log| - 1];
      InSeqOrderSorts(front);
      InsertBySeqSorts(last, InSeqOrder(front));
      assert log == front + [last];
    }
  }

  lemma NoneAscend()
    ensures Ascending([])
  {
  }

  lemma {:induction false} InsertBySeqSorts(row: LogRow, rows: seq<LogRow>)
    requires Ascending(rows)
    ensures multiset(InsertBySeq(row, rows)) == multiset(rows) + multiset{row} && Ascending(InsertBySeq(row, rows))
  {
    hide Ascending;
    if |rows| == 0 || rows[|rows| - 1].seqNo <= row.seqNo {
      AscendNext(rows, row);
    } else {
      var front, last := rows[..|rows| - 1], rows[|rows| - 1];
      assert rows == front + [last];
      AscendFront(front, last);
      InsertBySeqSorts(row, front);
      var r := InsertBySeq(row, front);
      AtMost(front, row, last, r);
      AscendNext(r, last);
    }
  }

  lemma AscendFront(front: seq<LogRow>, last: LogRow)
    requires Ascending(front + [last])
    ensures Ascending(front) && forall x :: x in front ==> x.seqNo <= last.seqNo
  {
    assert forall i :: 0 <= i < |front| ==> (front + [last])[i] == front[i];
    assert (front + [last])[|front|] == last;
  }

  lemma AtMost(front: seq<LogRow>, row: LogRow, last: LogRow, r: seq<LogRow>)
    requires multiset(r) == multiset(front) + multiset{row} && row.seqNo <= last.seqNo
    requires forall x :: x in front ==> x.seqNo <= last.seqNo
    ensures |r| > 0 ==> r[|r| - 1].seqNo <= last.seqNo
  {
    if |r| > 0 {
      assert r[|r| - 1] in multiset(r);
    }
  }

  lemma AscendNext(rows: seq<LogRow>, row: LogRow)
    requires Ascending(rows) && (|rows| > 0 ==> rows[|rows| - 1].seqNo <= row.seqNo)
    ensures Ascending(rows + [row])
  {
  }

  /** The row the erasure closure computes from the chain head it read. */
  function NextRow(sha: Sha, head: Option<LogRow>, s: SubjectId, action: Bytes, basis: Bytes, now: nat): LogRow {
    var seqNo := if head.Some? then head.value.seqNo + 1 else 1;
    var prev := if head.Some? then head.value.hash else GenesisPrevHash();
    var subjectHash := SubjectHash(sha, s);
    LogRow(seqNo, subjectHash, action, basis, now, prev, Link(sha, prev, seqNo, action, basis, subjectHash))
  }

  /** Appending the next row keeps the log gapless and linked. */
  lemma {:induction false} AppendKeepsLog(sha: Sha, log: seq<LogRow>, s: SubjectId, action: Bytes, basis: Bytes,
                                          now: nat)
    requires LogInv(sha, log) && BAR !in action
    ensures var row := NextRow(sha, ChainHead(log), s, action, basis, now);
            row.seqNo == |log| + 1 && !SeqTaken(log, row.seqNo) && LogInv(sha, log + [row])
  {
    hide RowValid, GenesisPrevHash, ChainHead, Link;
    GaplessHead(log);
    GaplessTaken(log, |log| + 1);
    var row := NextRow(sha, ChainHead(log), s, action, basis, now);
    NextRowValid(sha, log, s, action, basis, now);
    forall i | 0 <= i < |log|
      ensures RowValid(sha, log + [row], i)
    {
      RowStaysValid(sha, log, row, i);
    }
  }

  lemma RowStaysValid(sha: Sha, log: seq<LogRow>, row: LogRow, i: nat)
    requires i < |log| && RowValid(sha, log, i)
    ensures RowValid(sha, log + [row], i)
  {
    hide LinkInput, GenesisPrevHash;
    assert (log + [row])[i] == log[i] && PrevOf(log + [row], i) == PrevOf(log, i);
  }

  lemma NextRowValid(sha: Sha, log: seq<LogRow>, s: SubjectId, action: Bytes, basis: Bytes, now: nat)
    requires Gapless(log)
    ensures var row := NextRow(sha, ChainHead(log), s, action, basis, now);
            row.seqNo == |log| + 1 && RowValid(sha, log + [row], |log|)
  {
    hide LinkInput, GenesisPrevHash, ChainHead;
    GaplessHead(log);
    var row := NextRow(sha, ChainHead(log), s, action, basis, now);
    assert PrevOf(log + [row], |log|) == row.prevHash;
  }

  // ----- The life of a subject -----

  datatype Phase = Unknown | Live | Erased

  function Rank(p: Phase): nat {
    match p case Unknown => 0 case Live => 1 case Erased => 2
  }

  function PhaseOf(db: Tables, s: SubjectId): Phase {
    if s in db.records then Erased else if s in db.keys then Live else Unknown
  }

  /** What the four tables hold about a subject in each phase. */
  predicate InPhase(db: Tables, s: SubjectId, p: Phase) {
    var rows := RowsOf(db.memory, s);
    match p
    case Unknown => s !in db.keys && |rows| == 0 && s !in db.records
    case Live => s in db.keys && |rows| == 1 && rows[0].embedding.Some? && s !in db.records
    case Erased => s !in db.keys && |rows| == 1 && rows[0].embedding.None? && s in db.records
  }

  ghost predicate LifeInv(db: Tables) {
    forall s :: InPhase(db, s, PhaseOf(db, s))
  }

  lemma {:induction false} RowsOfAppend(memory: seq<MemoryRow>, row: MemoryRow, s: SubjectId)
    ensures RowsOf(memory + [row], s)
         == if row.subjectId == s then RowsOf(memory, s) + [row] else RowsOf(memory, s)
  {
    assert (memory + [row])[..|memory|] == memory;
  }

  /** Purging the vectors of s changes nothing but the vectors of s. */
  lemma {:induction false} RowsOfNulled(memory: seq<MemoryRow>, s: SubjectId, t: SubjectId)
    ensures var before, after := RowsOf(memory, t), RowsOf(NullEmbeddings(memory, s), t);
            |before| == |after|
            && forall i :: 0 <= i < |before| ==> after[i] == if s == t then before[i].(embedding := None) else before[i]
  {
    if |memory| > 0 {
      var front := memory[..|memory| - 1];
      RowsOfNulled(front, s, t);
      assert NullEmbeddings(memory, s)[..|memory| - 1] == NullEmbeddings(front, s);
    }
  }

  // ----- Erasure records -----

  /** The record of s points at the log row of its own erasure. */
  predicate PointsAtOwnRow(sha: Sha, log: seq<LogRow>, s: SubjectId, record: RecordRow) {
    1 <= record.seqNo <= |log| && log[record.seqNo - 1].subjectHash == sha(s)
  }

  predicate Recorded(records: map<SubjectId, RecordRow>, seqNo: int) {
    exists s :: s in records && records[s].seqNo == seqNo
  }

  ghost predicate AllPoint(sha: Sha, log: seq<LogRow>, records: map<SubjectId, RecordRow>) {
    forall s :: s in records ==> PointsAtOwnRow(sha, log, s, records[s])
  }

  ghost predicate OneEach(records: map<SubjectId, RecordRow>) {
    forall s, t :: s in records && t in records && records[s].seqNo == records[t].seqNo ==> s == t
  }

  ghost predicate AllRecorded(records: map<SubjectId, RecordRow>, size: nat) {
    forall n :: 1 <= n <= size ==> Recorded(records, n)
  }

  /** Log rows and erasure records match one to one. */
  ghost predicate RecordInv(sha: Sha, log: seq<LogRow>, records: map<SubjectId, RecordRow>) {
    |records| == |log| && AllPoint(sha, log, records) && OneEach(records) && AllRecorded(records, |log|)
  }

  /** The document states its own row's facts and a tree that contains the row. */
  predicate Truthful(sha: Sha, log: seq<LogRow>, doc: Doc) {
    && 1 <= doc.seqNo <= doc.treeSize <= |log|
    && doc.head == ToHex(log[doc.seqNo - 1].hash)
    && doc.subjectHash == ToHex(log[doc.seqNo - 1].subjectHash)
    && doc.occurredAt == Seconds(log[doc.seqNo - 1].occurredAt)
    && doc.merkleRoot == ToHex(Root(sha, Hashes(log)[..doc.treeSize]))
  }

  /** RFC 3339 text drops the fraction of a second. */
  function Seconds(micros: nat): nat { micros / 1_000_000 }

  /** A recorded non-empty proof body is a truthful document about its own subject's erasure. */
  ghost predicate ProofInv(sha: Sha, db: Tables) {
    forall s :: s in db.records && db.records[s].proof.Some? && db.records[s].proof.value.body.Canonical? ==>
      var record, doc := db.records[s], db.records[s].proof.value.body.doc;
      Truthful(sha, db.log, doc) && DocOf(sha, record, s, doc)
  }

  predicate DocOf(sha: Sha, record: RecordRow, s: SubjectId, doc: Doc) {
    && doc.seqNo == record.seqNo && doc.subjectHash == ToHex(sha(s))
    && doc.fingerprint == ToHex(record.fingerprint) && doc.arn == record.arn
  }

  ghost predicate Inv(sha: Sha, db: Tables) {
    LogInv(sha, db.log) && LifeInv(db) && RecordInv(sha, db.log, db.records) && ProofInv(sha, db)
  }

  // ----- What every commit keeps -----

  /** The log only grows, records stay, phases only move forward. */
  ghost predicate Extends(db: Tables, db': Tables) {
    && db.log <= db'.log
    && (forall s :: s in db.records ==>
          s in db'.records && db'.records[s].seqNo == db.records[s].seqNo
          && db'.records[s].fingerprint == db.records[s].fingerprint && db'.records[s].arn == db.records[s].arn)
    && (forall s :: Rank(PhaseOf(db, s)) <= Rank(PhaseOf(db', s)))
  }

  lemma ExtendsTransitive(a: Tables, b: Tables, c: Tables)
    requires Extends(a, b) && Extends(b, c)
    ensures Extends(a, c)
  {
  }

  /** A truthful document stays truthful as the log grows. */
  lemma TruthfulStays(sha: Sha, log: seq<LogRow>, log': seq<LogRow>, doc: Doc)
    requires Truthful(sha, log, doc) && log <= log'
    ensures Truthful(sha, log', doc)
  {
    assert Hashes(log')[..doc.treeSize] == Hashes(log)[..doc.treeSize];
  }

  lemma EraseCommits(sha: Sha, db: Tables, s: SubjectId, action: Bytes, basis: Bytes, now: nat)
    requires Inv(sha, db) && s in db.keys && BAR !in action
    ensures var row := NextRow(sha, ChainHead(db.log), s, action, basis, now);
            match ApplyErase(db, s, row, db.keys[s])
            case None => false
            case Some(db') => Inv(sha, db') && Extends(db, db') && OnlyMoves(db, db', s, Live, Erased)
  {
    hide LogInv, LifeInv, RecordInv, ProofInv, ChainHead, NullEmbeddings, RowsOf, SeqTaken, Link;
    var row := NextRow(sha, ChainHead(db.log), s, action, basis, now);
    AppendKeepsLog(sha, db.log, s, action, basis, now);
    PhaseFacts(db, s);
    var db' := ApplyErase(db, s, row, db.keys[s]).value;
    EraseKeepsLife(db, s, row);
    RecordAdded(sha, db.log, db.records, s, row, db'.records[s]);
    EraseKeepsProofs(sha, db, s, row);
  }

  /** s moves from one phase to another and every other subject stays where it is. */
  ghost predicate OnlyMoves(db: Tables, db': Tables, s: SubjectId, from: Phase, to: Phase) {
    PhaseOf(db, s) == from && PhaseOf(db', s) == to && forall t :: t != s ==> PhaseOf(db', t) == PhaseOf(db, t)
  }

  lemma PhaseFacts(db: Tables, s: SubjectId)
    requires LifeInv(db)
    ensures InPhase(db, s, PhaseOf(db, s))
    ensures s in db.keys <==> PhaseOf(db, s) == Live
  {
    hide RowsOf;
    assert InPhase(db, s, PhaseOf(db, s));
  }

  lemma EraseKeepsLife(db: Tables, s: SubjectId, row: LogRow)
    requires LifeInv(db) && s in db.keys && ApplyErase(db, s, row, db.keys[s]).Some?
    ensures LifeInv(ApplyErase(db, s, row, db.keys[s]).value)
  {
    hide RowsOf, NullEmbeddings, SeqTaken;
    var db' := ApplyErase(db, s, row, db.keys[s]).value;
    forall t
      ensures InPhase(db', t, PhaseOf(db', t))
    {
      assert InPhase(db, t, PhaseOf(db, t));
      RowsOfNulled(db.memory, s, t);
    }
  }

  lemma RecordAdded(sha: Sha, log: seq<LogRow>, records: map<SubjectId, RecordRow>, s: SubjectId,
                    row: LogRow, record: RecordRow)
    requires RecordInv(sha, log, records) && s !in records
    requires record.seqNo == |log| + 1 && row.subjectHash == sha(s)
    ensures RecordInv(sha, log + [row], records[s := record])
  {
    hide AllPoint, OneEach, AllRecorded;
    AddedPoints(sha, log, records, s, row, record);
    AddedOnce(sha, log, records, s, record);
    AddedIsRecorded(records, s, record, |log|);
  }

  lemma AddedPoints(sha: Sha, log: seq<LogRow>, records: map<SubjectId, RecordRow>, s: SubjectId, row: LogRow,
                    record: RecordRow)
    requires AllPoint(sha, log, records) && record.seqNo == |log| + 1 && row.subjectHash == sha(s)
    ensures AllPoint(sha, log + [row], records[s := record])
  {
    hide PointsAtOwnRow;
    var records' := records[s := record];
    forall t | t in records'
      ensures PointsAtOwnRow(sha, log + [row], t, records'[t])
    {
      assert t != s ==> PointsAtOwnRow(sha, log, t, records[t]);
      PointsAfterAppend(sha, log, row, t, records'[t]);
    }
  }

  lemma AddedOnce(sha: Sha, log: seq<LogRow>, records: map<SubjectId, RecordRow>, s: SubjectId, record: RecordRow)
    requires AllPoint(sha, log, records) && OneEach(records) && record.seqNo == |log| + 1
    ensures OneEach(records[s := record])
  {
    assert forall t :: t in records ==> PointsAtOwnRow(sha, log, t, records[t]) && records[t].seqNo <= |log|;
  }

  lemma AddedIsRecorded(records: map<SubjectId, RecordRow>, s: SubjectId, record: RecordRow, size: nat)
    requires AllRecorded(records, size) && s !in records && record.seqNo == size + 1
    ensures AllRecorded(records[s := record], size + 1) && |records[s := record]| == |records| + 1
  {
    hide Recorded;
    var records' := records[s := record];
    OneMoreRecord(records, records', s);
    forall n | 1 <= n <= size + 1
      ensures Recorded(records', n)
    {
      if n <= size {
        RecordedStays(records, records', n);
      } else {
        IsRecorded(records', s);
      }
    }
  }

  lemma PointsAfterAppend(sha: Sha, log: seq<LogRow>, row: LogRow, s: SubjectId, record: RecordRow)
    requires PointsAtOwnRow(sha, log, s, record)
             || (record.seqNo == |log| + 1 && row.subjectHash == sha(s))
    ensures PointsAtOwnRow(sha, log + [row], s, record)
    ensures PointsAtOwnRow(sha, log, s, record) ==> record.seqNo <= |log|
  {
  }

  lemma IsRecorded(records: map<SubjectId, RecordRow>, s: SubjectId)
    requires s in records
    ensures Recorded(records, records[s].seqNo)
  {
  }

  lemma OneMoreRecord(records: map<SubjectId, RecordRow>, records': map<SubjectId, RecordRow>, s: SubjectId)
    requires s !in records && records'.Keys == records.Keys + {s}
    ensures |records'| == |records| + 1
  {
    assert |records'.Keys| == |records.Keys| + 1;
  }

  lemma RecordedStays(records: map<SubjectId, RecordRow>, records': map<SubjectId, RecordRow>, n: int)
    requires Recorded(records, n)
    requires forall s :: s in records ==> s in records' && records'[s].seqNo == records[s].seqNo
    ensures Recorded(records', n)
  {
    var s: SubjectId :| s in records && records[s].seqNo == n;
    assert s in records' && records'[s].seqNo == n;
  }

  lemma EraseKeepsProofs(sha: Sha, db: Tables, s: SubjectId, row: LogRow)
    requires ProofInv(sha, db) && s in db.keys && ApplyErase(db, s, row, db.keys[s]).Some?
    ensures ProofInv(sha, ApplyErase(db, s, row, db.keys[s]).value)
  {
    hide NullEmbeddings, SeqTaken, Truthful, DocOf;
    var db' := ApplyErase(db, s, row, db.keys[s]).value;
    forall t | t in db'.records && db'.records[t].proof.Some? && db'.records[t].proof.value.body.Canonical?
      ensures var doc := db'.records[t].proof.value.body.doc;
              Truthful(sha, db'.log, doc) && DocOf(sha, db'.records[t], t, doc)
    {
      assert t in db.records && db'.records[t] == db.records[t];
      TruthfulStays(sha, db.log, db'.log, db.records[t].proof.value.body.doc);
    }
  }

  lemma IngestCommits(sha: Sha, db: Tables, key: KeyRow, memory: MemoryRow)
    requires Inv(sha, db) && PhaseOf(db, memory.subjectId) == Unknown && memory.embedding.Some?
    ensures match ApplyIngest(db, key, memory)
            case None => false
            case Some(db') => Inv(sha, db') && Extends(db, db') && OnlyMoves(db, db', memory.subjectId, Unknown, Live)
  {
    hide LogInv, LifeInv, RecordInv, ProofInv, RowsOf;
    PhaseFacts(db, memory.subjectId);
    IngestKeepsLife(db, key, memory);
    var db' := ApplyIngest(db, key, memory).value;
    SameProofs(sha, db, db');
  }

  lemma IngestKeepsLife(db: Tables, key: KeyRow, memory: MemoryRow)
    requires LifeInv(db) && PhaseOf(db, memory.subjectId) == Unknown && memory.embedding.Some?
    ensures match ApplyIngest(db, key, memory)
            case None => false
            case Some(db') => LifeInv(db')
  {
    hide RowsOf;
    PhaseFacts(db, memory.subjectId);
    var db' := ApplyIngest(db, key, memory).value;
    forall t
      ensures InPhase(db', t, PhaseOf(db', t))
    {
      assert InPhase(db, t, PhaseOf(db, t));
      RowsOfAppend(db.memory, memory, t);
    }
  }

  lemma SameProofs(sha: Sha, db: Tables, db': Tables)
    requires ProofInv(sha, db) && db'.log == db.log && db'.records == db.records
    ensures ProofInv(sha, db')
  {
  }

  lemma SameRecords(sha: Sha, log: seq<LogRow>, records: map<SubjectId, RecordRow>, records': map<SubjectId, RecordRow>)
    requires RecordInv(sha, log, records) && records'.Keys == records.Keys
    requires forall s :: s in records ==> records'[s].seqNo == records[s].seqNo
    ensures RecordInv(sha, log, records')
  {
    hide Recorded;
    assert |records'.Keys| == |records.Keys|;
    forall t | t in records'
      ensures PointsAtOwnRow(sha, log, t, records'[t])
    {
      assert PointsAtOwnRow(sha, log, t, records[t]);
    }
    forall n | 1 <= n <= |log|
      ensures Recorded(records', n)
    {
      RecordedStays(records, records', n);
    }
  }

  lemma ProofCommits(sha: Sha, db: Tables, s: SubjectId, proof: StoredProof)
    requires Inv(sha, db) && s in db.records
    requires proof.body.Canonical? ==>
               Truthful(sha, db.log, proof.body.doc) && DocOf(sha, db.records[s], s, proof.body.doc)
    ensures var db' := ApplyProof(db, s, proof);
            Inv(sha, db') && Extends(db, db') && (forall t :: PhaseOf(db', t) == PhaseOf(db, t))
  {
    hide LogInv, Truthful, RowsOf, RecordInv;
    var db' := ApplyProof(db, s, proof);
    assert db'.records.Keys == db.records.Keys;
    forall t
      ensures InPhase(db', t, PhaseOf(db', t))
    {
      assert InPhase(db, t, PhaseOf(db, t));
    }
    SameRecords(sha, db.log, db.records, db'.records);
  }
}
