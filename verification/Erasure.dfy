/** The erasure transaction of `services/api/internal/erasure/erasure.go` and the post-commit anchoring
    and reconciliation of `services/api/internal/erasure/orchestrator.go`. */
module Erasure {
  import opened Hashing
  import opened Hex
  import opened Merkle
  import opened Chain
  import opened Tables

  function Ascii(text: string): Bytes
    requires IsAscii(text)
  {
    seq(|text|, i requires 0 <= i < |text| => text[i] as int)
  }

  predicate ValidAction(action: Bytes) {
    action == Ascii("erasure") || action == Ascii("ingest")
  }

  predicate ValidBasis(basis: Bytes) {
    basis == Ascii("gdpr_art_17") || basis == Ascii("ai_act_art_19") || basis == Ascii("mifid_ii")
  }

  lemma ValidActionHasNoBar(action: Bytes)
    requires ValidAction(action)
    ensures BAR !in action
  {
    assert "erasure" == ['e', 'r', 'a', 's', 'u', 'r', 'e'];
    assert "ingest" == ['i', 'n', 'g', 'e', 's', 't'];
  }

  datatype EraseError = InvalidAction | InvalidBasis | AlreadyErased | SubjectNotFound | InsertConflict | DatabaseError

  datatype Result = Result(seqNo: int, subjectHash: Bytes, fingerprint: Bytes, head: Bytes, arn: string,
                           origin: KeyOrigin, occurredAt: nat)

  function ResultOf(row: LogRow, key: KeyRow): Result {
    Result(row.seqNo, row.subjectHash, key.fingerprint, row.hash, key.arn, key.origin, row.occurredAt)
  }

  datatype EraseEnd = Committed(res: Result) | Refused(err: EraseError)

  /** One serializable run of the closure: the tables it leaves and what Erase returns. */
  function EraseTxn(sha: Sha, db: Tables, s: SubjectId, action: Bytes, basis: Bytes, now: nat): (Tables, EraseEnd) {
    if !ValidAction(action) then (db, Refused(InvalidAction))
    else if !ValidBasis(basis) then (db, Refused(InvalidBasis))
    else if s !in db.keys then (db, Refused(if s in db.records then AlreadyErased else SubjectNotFound))
    else
      var row := NextRow(sha, ChainHead(db.log), s, action, basis, now);
      match ApplyErase(db, s, row, db.keys[s])
      case None => (db, Refused(InsertConflict))
      case Some(db') => (db', Committed(ResultOf(row, db.keys[s])))
  }

  /** The committed result matches the new last row of the log and the new erasure record, the key is
      gone, and the subject's stored memory is what it was, without the vector. */
  ghost predicate ErasedAs(sha: Sha, db: Tables, db': Tables, s: SubjectId, action: Bytes, basis: Bytes, now: nat,
                           res: Result) {
    && |db'.log| == |db.log| + 1 == res.seqNo && db.log <= db'.log
    && (var row := db'.log[|db.log|];
        && row.seqNo == res.seqNo && row.hash == res.head && row.subjectHash == res.subjectHash == sha(s)
        && row.action == action && row.basis == basis && row.occurredAt == res.occurredAt == now)
    && s in db.keys && db'.keys == db.keys - {s}
    && res.fingerprint == db.keys[s].fingerprint && res.arn == db.keys[s].arn && res.origin == db.keys[s].origin
    && db'.records == db.records[s := RecordRow(res.seqNo, res.fingerprint, res.arn, None)]
    && (var before, after := RowsOf(db.memory, s), RowsOf(db'.memory, s);
        |before| == 1 == |after| && before[0].embedding.Some? && after[0] == before[0].(embedding := None))
    && (forall t :: t != s ==> RowsOf(db'.memory, t) == RowsOf(db.memory, t))
  }

  /** Each outcome of Erase names the phase the subject was in; a commit moves only that subject, from
      live to erased; no insert hits an existing primary key; a refusal changes nothing. */
  lemma {:induction false} EraseOutcome(sha: Sha, db: Tables, s: SubjectId, action: Bytes, basis: Bytes, now: nat)
    requires Inv(sha, db) && ValidAction(action) && ValidBasis(basis)
    ensures var (db', end) := EraseTxn(sha, db, s, action, basis, now);
            && Inv(sha, db') && Extends(db, db')
            && match PhaseOf(db, s)
               case Unknown => end == Refused(SubjectNotFound) && db' == db
               case Erased => end == Refused(AlreadyErased) && db' == db
               case Live => end.Committed? && ErasedAs(sha, db, db', s, action, basis, now, end.res)
                            && OnlyMoves(db, db', s, Live, Erased)
  {
    hide LogInv, LifeInv, RecordInv, ProofInv, ChainHead, NullEmbeddings, RowsOf, SeqTaken, ValidAction, ValidBasis,
         Link;
    PhaseFacts(db, s);
    ValidActionHasNoBar(action);
    if s in db.keys {
      EraseCommits(sha, db, s, action, basis, now);
      AppendKeepsLog(sha, db.log, s, action, basis, now);
      RowsOfNulled(db.memory, s, s);
      forall t | t != s
        ensures RowsOf(NullEmbeddings(db.memory, s), t) == RowsOf(db.memory, t)
      {
        RowsOfNulled(db.memory, s, t);
      }
    }
  }

  /** A request outside the vocabularies is refused first, by its action and then by its basis, and
      changes nothing. */
  lemma EraseRefuses(sha: Sha, db: Tables, s: SubjectId, action: Bytes, basis: Bytes, now: nat)
    ensures var (db', end) := EraseTxn(sha, db, s, action, basis, now);
            && (end == Refused(InvalidAction) <==> !ValidAction(action))
            && (end == Refused(InvalidBasis) <==> ValidAction(action) && !ValidBasis(basis))
            && (end.Refused? ==> db' == db)
  {
    hide ValidAction, ValidBasis, NextRow, ChainHead;
  }

  /** The actions: "erasure" and "ingest". */
  lemma ActionBytes(text: Bytes)
    ensures ValidAction(text) <==>
              text == [101, 114, 97, 115, 117, 114, 101] || text == [105, 110, 103, 101, 115, 116]
  {
    assert Ascii("erasure") == [101, 114, 97, 115, 117, 114, 101];
    assert Ascii("ingest") == [105, 110, 103, 101, 115, 116];
  }

  /** The bases: "gdpr_art_17", "ai_act_art_19" and "mifid_ii". */
  lemma BasisBytes(text: Bytes)
    ensures ValidBasis(text) <==>
              || text == [103, 100, 112, 114, 95, 97, 114, 116, 95, 49, 55]
              || text == [97, 105, 95, 97, 99, 116, 95, 97, 114, 116, 95, 49, 57]
              || text == [109, 105, 102, 105, 100, 95, 105, 105]
  {
    assert Ascii("gdpr_art_17") == [103, 100, 112, 114, 95, 97, 114, 116, 95, 49, 55];
    assert Ascii("ai_act_art_19") == [97, 105, 95, 97, 99, 116, 95, 97, 114, 116, 95, 49, 57];
    assert Ascii("mifid_ii") == [109, 105, 102, 105, 100, 95, 105, 105];
  }

  // ----- Anchoring -----

  /** A row of unanchored_erasures: the record joined to its log row. */
  datatype Pending = Pending(subjectId: SubjectId, seqNo: int, fingerprint: Bytes, arn: string,
                             subjectHash: Bytes, hash: Bytes, occurredAt: nat)

  /** proof_ref IS NULL OR proof_body IS NULL OR proof_body = ''. */
  predicate IsPending(record: RecordRow) {
    record.proof.None? || record.proof.value.body.EmptyBody?
  }

  function PendingSet(records: map<SubjectId, RecordRow>): set<SubjectId> {
    set s | s in records && IsPending(records[s])
  }

  function PendingOf(log: seq<LogRow>, s: SubjectId, record: RecordRow): Pending
    requires 1 <= record.seqNo <= |log|
  {
    var row := log[record.seqNo - 1];
    Pending(s, record.seqNo, record.fingerprint, record.arn, row.subjectHash, row.hash, row.occurredAt)
  }

  /** The request sent to cryptod, which is the document it signs. */
  function Request(p: Pending, keyState: string, root: Digest, size: nat): Doc {
    Doc(ToHex(p.subjectHash), Seconds(p.occurredAt), p.seqNo, ToHex(p.hash), ToHex(p.fingerprint), p.arn,
        keyState, ToHex(root), size)
  }

  /** proof_canonical as received: missing, not base64, or decoded. */
  datatype CanonicalField = Missing | Undecodable | Decoded(body: Body)

  datatype Reply =
    | AnchorFailed
    | Anchored(proofRef: string, canonical: CanonicalField, signature: string, signerPem: string)

  /** cryptod signs and returns the document it was asked for; only its encoding may come back empty. */
  predicate Honest(doc: Doc, reply: Reply) {
    reply.Anchored? && reply.canonical.Decoded? && reply.canonical.body.Canonical? ==> reply.canonical.body.doc == doc
  }

  /** The replies anchorProof stores. */
  predicate Complete(reply: Reply) {
    && reply.Anchored? && !reply.canonical.Missing? && reply.signature != "" && reply.signerPem != ""
    && reply.canonical.Decoded?
  }

  function ProofFrom(reply: Reply): StoredProof
    requires Complete(reply)
  {
    StoredProof(reply.proofRef, reply.canonical.body, reply.signature, reply.signerPem)
  }

  /** A request built from a pending row and a tree that contains it is truthful, now and later. */
  lemma RequestTruthful(sha: Sha, log: seq<LogRow>, s: SubjectId, record: RecordRow, keyState: string, size: nat)
    requires PointsAtOwnRow(sha, log, s, record) && record.seqNo <= size <= |log|
    ensures var doc := Request(PendingOf(log, s, record), keyState, Root(sha, Hashes(log)[..size]), size);
            Truthful(sha, log, doc) && DocOf(sha, record, s, doc)
  {
  }

  // ----- The imperative service -----

  /** The database as the operator pool sees it; each method is one statement or transaction. */
  class Database {
    var keys: map<SubjectId, KeyRow>
    var memory: seq<MemoryRow>
    var log: seq<LogRow>
    var records: map<SubjectId, RecordRow>

    function View(): Tables
      reads this
    {
      Tables(keys, memory, log, records)
    }

    constructor ()
      ensures View() == EMPTY
    {
      keys, memory, log, records := map[], [], [], map[];
    }

    /** The closure of Erase under ExecuteTx: statements one by one, rolled back if one fails. */
    method Erase(sha: Sha, s: SubjectId, action: Bytes, basis: Bytes, now: nat) returns (end: EraseEnd)
      modifies this
      ensures (View(), end) == EraseTxn(sha, old(View()), s, action, basis, now)
    {
      hide ChainHead, NullEmbeddings, RowsOf, Link;
      if !ValidAction(action) {
        return Refused(InvalidAction);
      }
      if !ValidBasis(basis) {
        return Refused(InvalidBasis);
      }
      if s !in keys {
        return Refused(if s in records then AlreadyErased else SubjectNotFound);
      }
      var key := keys[s];
      var head := ChainHead(log);
      var row := NextRow(sha, head, s, action, basis, now);
      if SeqTaken(log, row.seqNo) {
        return Refused(InsertConflict);
      }
      var saved := View();
      log := log + [row];
      keys := keys - {s};
      memory := NullEmbeddings(memory, s);
      if s in records {
        keys, memory, log := saved.keys, saved.memory, saved.log;
        return Refused(InsertConflict);
      }
      records := records[s := RecordRow(row.seqNo, key.fingerprint, key.arn, None)];
      return Committed(ResultOf(row, key));
    }

    /** The RFC 6962 head over the log in seq order. */
    method MerkleHead(sha: Sha) returns (root: Digest, size: nat)
      ensures root == Root(sha, Leaves(log)) && size == |Leaves(log)|
    {
      var rows := InSeqOrder(log);
      var leaves: seq<Bytes> := [];
      for i := 0 to |rows|
        invariant |leaves| == i && forall j :: 0 <= j < i ==> leaves[j] == rows[j].hash
      {
        leaves := leaves + [rows[i].hash];
      }
      assert leaves == Hashes(rows);
      return Root(sha, leaves), |leaves|;
    }

    /** Stores the proof exactly when the reply is complete; ok is the nil error. */
    method AnchorProof(s: SubjectId, reply: Reply) returns (ok: bool)
      modifies this`records
      ensures ok <==> Complete(reply) && s in old(records)
      ensures View() == if Complete(reply) then ApplyProof(old(View()), s, ProofFrom(reply)) else old(View())
    {
      if reply.AnchorFailed? {
        return false;
      }
      if reply.canonical.Missing? || reply.signature == "" || reply.signerPem == "" {
        return false;
      }
      if reply.canonical.Undecodable? {
        return false;
      }
      if s !in records {
        return false;
      }
      records := records[s := records[s].(proof := Some(ProofFrom(reply)))];
      return true;
    }

    /** unanchored_erasures, in whatever order the rows arrive. */
    method UnanchoredErasures() returns (todo: seq<Pending>)
      requires InLog(log, records)
      ensures Ids(todo) == PendingSet(records)
      ensures ListsOnce(log, records, todo)
    {
      hide Ids, ListsOnce, PendingOf;
      todo := [];
      ListsNothing(log, records);
      var rest := PendingSet(records);
      while rest != {}
        invariant Ids(todo) + rest == PendingSet(records) && Ids(todo) !! rest
        invariant ListsOnce(log, records, todo)
        decreases rest
      {
        var s :| s in rest;
        ListsOneMore(log, records, todo, s);
        todo := todo + [PendingOf(log, s, records[s])];
        rest := rest - {s};
      }
    }

    /** An uninterrupted sweep, with cryptod answering each document: every pending row whose reply is
        complete gets its proof, and anchored counts those rows. */
    method Reconcile(sha: Sha, cryptod: Doc -> Reply) returns (anchored: nat)
      requires RecordInv(sha, log, records)
      modifies this`records
      ensures records == Swept(sha, log, old(records), cryptod)
      ensures anchored == |Sweepable(sha, log, old(records), cryptod)|
    {
      hide Root, InSeqOrder, Hashes, Ids, SweepRecord, PendingSet, Sweepable, RecordInv;
      RecordsAreInLog(sha, log, records);
      var todo := UnanchoredErasures();
      var root, size := MerkleHead(sha);
      anchored := 0;
      ghost var before := records;
      assert todo[..0] == [];
      SweepStarts(sha, log, before, cryptod);
      for i := 0 to |todo|
        invariant log == old(log) && SweptSoFar(sha, log, before, records, Ids(todo[..i]), anchored, cryptod)
      {
        var p := todo[i];
        var doc := Request(p, "wrapped_key_destroyed", root, size);
        SweepSteps(sha, log, before, records, todo, i, anchored, cryptod);
        var ok := AnchorProof(p.subjectId, cryptod(doc));
        if ok {
          anchored := anchored + 1;
        }
      }
      assert todo[..|todo|] == todo;
      SweepEnds(sha, log, before, records, anchored, cryptod);
    }
  }

  function Ids(todo: seq<Pending>): set<SubjectId> {
    if |todo| == 0 then {} else Ids(todo[..|todo| - 1]) + {todo[|todo| - 1].subjectId}
  }

  /** Entry i is the joined row of a pending record that no earlier entry lists. */
  predicate Listed(log: seq<LogRow>, records: map<SubjectId, RecordRow>, todo: seq<Pending>, i: nat)
    requires InLog(log, records) && i < |todo|
  {
    var s := todo[i].subjectId;
    s !in Ids(todo[..i]) && s in records && IsPending(records[s]) && todo[i] == PendingOf(log, s, records[s])
  }

  /** Every entry is the joined row of a pending record, and no record is listed twice. */
  predicate ListsOnce(log: seq<LogRow>, records: map<SubjectId, RecordRow>, todo: seq<Pending>)
    requires InLog(log, records)
  {
    forall i :: 0 <= i < |todo| ==> Listed(log, records, todo, i)
  }

  lemma ListsNothing(log: seq<LogRow>, records: map<SubjectId, RecordRow>)
    requires InLog(log, records)
    ensures Ids([]) == {} && ListsOnce(log, records, [])
  {
  }

  lemma ListsOneMore(log: seq<LogRow>, records: map<SubjectId, RecordRow>, todo: seq<Pending>, s: SubjectId)
    requires InLog(log, records) && ListsOnce(log, records, todo)
    requires s in records && IsPending(records[s]) && s !in Ids(todo)
    ensures var todo' := todo + [PendingOf(log, s, records[s])];
            Ids(todo') == Ids(todo) + {s} && ListsOnce(log, records, todo')
  {
    hide Ids, PendingOf, IsPending;
    var p := PendingOf(log, s, records[s]);
    var todo' := todo + [p];
    PendingSubject(log, s, records[s]);
    assert todo'[..|todo|] == todo;
    IdsStep(todo', |todo|);
    assert todo'[..|todo'|] == todo';
    forall i | 0 <= i < |todo'|
      ensures Listed(log, records, todo', i)
    {
      if i < |todo| {
        assert todo'[..i] == todo[..i] && todo'[i] == todo[i];
        assert Listed(log, records, todo, i);
      }
    }
  }

  lemma PendingSubject(log: seq<LogRow>, s: SubjectId, record: RecordRow)
    requires 1 <= record.seqNo <= |log|
    ensures PendingOf(log, s, record).subjectId == s
  {
  }

  lemma IdsStep(todo: seq<Pending>, i: nat)
    requires i < |todo|
    ensures Ids(todo[..i + 1]) == Ids(todo[..i]) + {todo[i].subjectId}
  {
    assert todo[..i + 1][..i] == todo[..i];
  }

  /** The records once the rows in seen have been swept. */
  ghost predicate SweptSoFar(sha: Sha, log: seq<LogRow>, before: map<SubjectId, RecordRow>,
                             records: map<SubjectId, RecordRow>, seen: set<SubjectId>, anchored: nat,
                             cryptod: Doc -> Reply) {
    && InLog(log, before) && records.Keys == before.Keys
    && (forall s :: s in before ==>
          records[s] == if s in seen then SweepRecord(sha, log, s, before[s], cryptod) else before[s])
    && anchored == |Sweepable(sha, log, before, cryptod) * seen|
  }

  lemma SweepStarts(sha: Sha, log: seq<LogRow>, before: map<SubjectId, RecordRow>, cryptod: Doc -> Reply)
    requires InLog(log, before)
    ensures SweptSoFar(sha, log, before, before, Ids([]), 0, cryptod)
  {
    assert Sweepable(sha, log, before, cryptod) * {} == {};
  }

  lemma SweepSteps(sha: Sha, log: seq<LogRow>, before: map<SubjectId, RecordRow>, records: map<SubjectId, RecordRow>,
                   todo: seq<Pending>, i: nat, anchored: nat, cryptod: Doc -> Reply)
    requires InLog(log, before) && ListsOnce(log, before, todo) && i < |todo|
    requires SweptSoFar(sha, log, before, records, Ids(todo[..i]), anchored, cryptod)
    ensures var s := todo[i].subjectId;
            var reply := cryptod(Request(todo[i], "wrapped_key_destroyed", Root(sha, Leaves(log)), |Leaves(log)|));
            && s in records
            && SweptSoFar(sha, log, before,
                          if Complete(reply) then records[s := records[s].(proof := Some(ProofFrom(reply)))]
                          else records,
                          Ids(todo[..i + 1]), if Complete(reply) then anchored + 1 else anchored, cryptod)
  {
    var s := todo[i].subjectId;
    assert Listed(log, before, todo, i);
    IdsStep(todo, i);
    SweepDocIs(sha, log, s, before[s]);
    hide Leaves, Root, PendingOf, Request, IsPending, Ids, SweepDoc, SweptSoFar, Complete;
    UnseenIsUnchanged(sha, log, before, records, Ids(todo[..i]), anchored, cryptod, s);
    SweepOne(sha, log, before, records, s, Ids(todo[..i]), anchored, cryptod);
  }

  lemma UnseenIsUnchanged(sha: Sha, log: seq<LogRow>, before: map<SubjectId, RecordRow>,
                          records: map<SubjectId, RecordRow>, seen: set<SubjectId>, anchored: nat,
                          cryptod: Doc -> Reply, s: SubjectId)
    requires SweptSoFar(sha, log, before, records, seen, anchored, cryptod) && s in before && s !in seen
    ensures s in records && records[s] == before[s]
  {
  }

  lemma SweepOne(sha: Sha, log: seq<LogRow>, before: map<SubjectId, RecordRow>, records: map<SubjectId, RecordRow>,
                 s: SubjectId, seen: set<SubjectId>, anchored: nat, cryptod: Doc -> Reply)
    requires SweptSoFar(sha, log, before, records, seen, anchored, cryptod)
    requires s in before && s !in seen && IsPending(before[s]) && s in records
    ensures var reply := cryptod(SweepDoc(sha, log, s, before[s]));
            SweptSoFar(sha, log, before,
                       if Complete(reply) then records[s := records[s].(proof := Some(ProofFrom(reply)))] else records,
                       seen + {s}, if Complete(reply) then anchored + 1 else anchored, cryptod)
  {
    hide SweepDoc, IsPending, Complete;
    var all := Sweepable(sha, log, before, cryptod);
    if s in all {
      assert all * (seen + {s}) == all * seen + {s};
    } else {
      assert all * (seen + {s}) == all * seen;
    }
  }

  lemma SweepEnds(sha: Sha, log: seq<LogRow>, before: map<SubjectId, RecordRow>, records: map<SubjectId, RecordRow>,
                  anchored: nat, cryptod: Doc -> Reply)
    requires SweptSoFar(sha, log, before, records, PendingSet(before), anchored, cryptod)
    ensures records == Swept(sha, log, before, cryptod) && anchored == |Sweepable(sha, log, before, cryptod)|
  {
    hide SweepDoc;
    assert Sweepable(sha, log, before, cryptod) * PendingSet(before) == Sweepable(sha, log, before, cryptod);
  }

  predicate InLog(log: seq<LogRow>, records: map<SubjectId, RecordRow>) {
    forall s :: s in records ==> 1 <= records[s].seqNo <= |log|
  }

  lemma RecordsAreInLog(sha: Sha, log: seq<LogRow>, records: map<SubjectId, RecordRow>)
    requires RecordInv(sha, log, records)
    ensures InLog(log, records)
  {
    forall s | s in records
      ensures 1 <= records[s].seqNo <= |log|
    {
      assert PointsAtOwnRow(sha, log, s, records[s]);
    }
  }

  /** The document a sweep requests for a record, over the whole current log. */
  function SweepDoc(sha: Sha, log: seq<LogRow>, s: SubjectId, record: RecordRow): Doc
    requires 1 <= record.seqNo <= |log|
  {
    Request(PendingOf(log, s, record), "wrapped_key_destroyed", Root(sha, Leaves(log)), |Leaves(log)|)
  }

  lemma SweepDocIs(sha: Sha, log: seq<LogRow>, s: SubjectId, record: RecordRow)
    requires 1 <= record.seqNo <= |log|
    ensures SweepDoc(sha, log, s, record)
         == Request(PendingOf(log, s, record), "wrapped_key_destroyed", Root(sha, Leaves(log)), |Leaves(log)|)
  {
  }

  function SweepRecord(sha: Sha, log: seq<LogRow>, s: SubjectId, record: RecordRow, cryptod: Doc -> Reply): RecordRow
    requires 1 <= record.seqNo <= |log|
  {
    var reply := cryptod(SweepDoc(sha, log, s, record));
    if IsPending(record) && Complete(reply) then record.(proof := Some(ProofFrom(reply))) else record
  }

  function Swept(sha: Sha, log: seq<LogRow>, records: map<SubjectId, RecordRow>, cryptod: Doc -> Reply)
    : map<SubjectId, RecordRow>
    requires InLog(log, records)
  {
    map s | s in records :: SweepRecord(sha, log, s, records[s], cryptod)
  }

  /** The pending subjects whose reply is complete. */
  function Sweepable(sha: Sha, log: seq<LogRow>, records: map<SubjectId, RecordRow>, cryptod: Doc -> Reply)
    : set<SubjectId>
    requires InLog(log, records)
  {
    set s | s in records && IsPending(records[s]) && Complete(cryptod(SweepDoc(sha, log, s, records[s])))
  }

  /** A sweep keeps every invariant, and what stays pending is what was pending less the recorded
      proofs whose decoded body is not empty. */
  lemma {:induction false} ReconcileOutcome(sha: Sha, db: Tables, cryptod: Doc -> Reply)
    requires Inv(sha, db) && forall doc :: Honest(doc, cryptod(doc))
    ensures InLog(db.log, db.records)
    ensures var db' := db.(records := Swept(sha, db.log, db.records, cryptod));
            var filled := set s | s in Sweepable(sha, db.log, db.records, cryptod)
                                  && cryptod(SweepDoc(sha, db.log, s, db.records[s])).canonical.body.Canonical?;
            && Inv(sha, db') && Extends(db, db') && (forall t :: PhaseOf(db', t) == PhaseOf(db, t))
            && PendingSet(db'.records) == PendingSet(db.records) - filled
  {
    hide LogInv, RecordInv, Truthful, DocOf, RowsOf, PointsAtOwnRow, SweepDoc;
    RecordsAreInLog(sha, db.log, db.records);
    var db' := db.(records := Swept(sha, db.log, db.records, cryptod));
    assert db'.records.Keys == db.records.Keys;
    SameRecords(sha, db.log, db.records, db'.records);
    forall t
      ensures InPhase(db', t, PhaseOf(db', t))
    {
      assert InPhase(db, t, PhaseOf(db, t));
    }
    forall s | s in db'.records && db'.records[s].proof.Some? && db'.records[s].proof.value.body.Canonical?
      ensures var doc := db'.records[s].proof.value.body.doc;
              Truthful(sha, db.log, doc) && DocOf(sha, db'.records[s], s, doc)
    {
      SweepDocTruthful(sha, db.log, db.records, s);
      var doc := SweepDoc(sha, db.log, s, db.records[s]);
      assert Honest(doc, cryptod(doc));
      DocOfSameRecord(sha, db.records[s], db'.records[s], s, doc);
    }
  }

  lemma DocOfSameRecord(sha: Sha, record: RecordRow, record': RecordRow, s: SubjectId, doc: Doc)
    requires DocOf(sha, record, s, doc) && record' == record.(proof := record'.proof)
    ensures DocOf(sha, record', s, doc)
  {
  }

  lemma SweepDocTruthful(sha: Sha, log: seq<LogRow>, records: map<SubjectId, RecordRow>, s: SubjectId)
    requires LogInv(sha, log) && RecordInv(sha, log, records) && s in records
    ensures 1 <= records[s].seqNo <= |log|
    ensures var doc := SweepDoc(sha, log, s, records[s]);
            Truthful(sha, log, doc) && DocOf(sha, records[s], s, doc)
  {
    hide Truthful, DocOf;
    assert PointsAtOwnRow(sha, log, s, records[s]);
    GaplessOrder(log);
    PendingRequestTruthful(sha, log, s, records[s], "wrapped_key_destroyed");
  }

  lemma GaplessLog(sha: Sha, log: seq<LogRow>)
    requires LogInv(sha, log)
    ensures Leaves(log) == Hashes(log) && |Leaves(log)| == |log|
  {
    GaplessOrder(log);
  }

  lemma PendingRequestTruthful(sha: Sha, log: seq<LogRow>, s: SubjectId, record: RecordRow, keyState: string)
    requires LogInv(sha, log) && PointsAtOwnRow(sha, log, s, record)
    ensures var doc := Request(PendingOf(log, s, record), keyState, Root(sha, Leaves(log)), |log|);
            Truthful(sha, log, doc) && DocOf(sha, record, s, doc)
  {
    GaplessOrder(log);
    assert Hashes(log)[..|log|] == Hashes(log);
    RequestTruthful(sha, log, s, record, keyState, |log|);
  }
}
