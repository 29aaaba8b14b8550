/** What the retained tables say after any run, in bytes: whose row each log row is and what its hash
    covers, what the signed documents state, and that a proof answered for is stored as it was received. */
module Ledger {
  import opened Hashing
  import opened Hex
  import opened Merkle
  import opened Chain
  import opened Tables
  import opened Erasure
  import opened Ingest
  import opened Runs
  import opened Protocol

  // ----- Rows -----

  /** Row i records the erasure that call c asked for, and its hash covers the hash before it (32 zero
      bytes for the first row) and "seq|action|basis" with the SHA-256 of the subject id. */
  predicate RowSays(sha: Sha, log: seq<LogRow>, i: nat, c: EraseCall)
    requires i < |log|
  {
    var row, prev: Bytes := log[i], if i == 0 then seq(32, k => 0) else log[i - 1].hash;
    && row.seqNo == i + 1 && row.prevHash == prev
    && row.action == c.action && row.basis == c.basis && row.subjectHash == sha(c.subject)
    && row.hash == sha(prev + Decimal(i + 1) + [124] + c.action + [124] + c.basis + sha(c.subject))
  }

  /** The columns of a row that the call behind it gave. */
  predicate RowOf(sha: Sha, row: LogRow, c: EraseCall) {
    row.action == c.action && row.basis == c.basis && row.subjectHash == sha(c.subject)
  }

  predicate RowOfCommit(sha: Sha, w: World, i: nat)
    requires i < |w.db.log|
  {
    i < |w.commits| && w.commits[i] in w.erasers && RowOf(sha, w.db.log[i], w.erasers[w.commits[i]])
  }

  ghost predicate RowsOfCommits(sha: Sha, w: World) {
    forall i :: 0 <= i < |w.db.log| ==> RowOfCommit(sha, w, i)
  }

  // ----- Documents and proofs -----

  /** The document is about a recorded erasure. */
  ghost predicate AboutRecord(sha: Sha, db: Tables, doc: Doc) {
    exists s :: s in db.records && DocOf(sha, db.records[s], s, doc)
  }

  /** Signature and signer are never stored empty. */
  ghost predicate ProofsFull(db: Tables) {
    forall s :: s in db.records && db.records[s].proof.Some? ==>
      db.records[s].proof.value.signature != "" && db.records[s].proof.value.signerPem != ""
  }

  predicate HasProof(db: Tables, s: SubjectId) {
    s in db.records && db.records[s].proof.Some?
  }

  ghost predicate AnsweredAreStored(w: World) {
    forall call :: call in w.erasers && w.erasers[call].pc == Finished(true) ==> HasProof(w.db, w.erasers[call].subject)
  }

  ghost predicate LedgerInv(sha: Sha, w: World) {
    && RowsOfCommits(sha, w) && (forall doc :: doc in w.signed ==> AboutRecord(sha, w.db, doc))
    && ProofsFull(w.db) && AnsweredAreStored(w)
  }

  /** Records stay, and what they hold stays but for a proof that replaces another. */
  predicate RecordsStay(db: Tables, db': Tables) {
    forall s :: s in db.records ==>
      && s in db'.records && db'.records[s] == db.records[s].(proof := db'.records[s].proof)
      && (db.records[s].proof.Some? ==> db'.records[s].proof.Some?)
  }

  /** Calls keep their terms, and no call becomes finished with a proof. */
  predicate CallsStay(w: World, w': World) {
    && (forall call :: call in w.erasers ==>
          var c := w.erasers[call];
          call in w'.erasers && w'.erasers[call] == c.(pc := w'.erasers[call].pc, res := w'.erasers[call].res))
    && (forall call :: call in w'.erasers && w'.erasers[call].pc == Finished(true) ==>
          call in w.erasers && w.erasers[call].pc == Finished(true))
  }

  lemma AboutStays(sha: Sha, db: Tables, db': Tables, doc: Doc)
    requires AboutRecord(sha, db, doc) && RecordsStay(db, db')
    ensures AboutRecord(sha, db', doc)
  {
    var s :| s in db.records && DocOf(sha, db.records[s], s, doc);
    assert s in db'.records && DocOf(sha, db'.records[s], s, doc);
  }

  /** Steps that sign nothing, commit nothing and leave the log and the records alone. */
  lemma QuietKeepsLedger(sha: Sha, w: World, w': World)
    requires LedgerInv(sha, w) && CallsStay(w, w') && w'.signed == w.signed && w'.commits == w.commits
    requires w'.db.log == w.db.log && w'.db.records == w.db.records
    ensures LedgerInv(sha, w')
  {
    hide DocOf;
    forall doc | doc in w'.signed
      ensures AboutRecord(sha, w'.db, doc)
    {
      AboutStays(sha, w.db, w'.db, doc);
    }
    forall i | 0 <= i < |w'.db.log|
      ensures RowOfCommit(sha, w', i)
    {
      assert RowOfCommit(sha, w, i);
    }
  }

  lemma IngestOrSweepIsQuiet(sha: Sha, w: World, e: Event)
    requires EraserOf(e).None? && !e.SweepAnchor?
    ensures var w' := Next(sha, w, e);
            CallsStay(w, w') && w'.signed == w.signed && w'.commits == w.commits
            && w'.db.log == w.db.log && w'.db.records == w.db.records
  {
    hide Next;
    IngestAndSweepEvents(sha, w, e);
    if e.CommitIngest? {
      IngestTouchesNoRecord(sha, w, e);
    } else {
      QuietSteps(sha, w, e);
      NothingSigned(sha, w, e);
    }
  }

  lemma IngestTouchesNoRecord(sha: Sha, w: World, e: Event)
    requires e.CommitIngest?
    ensures var w' := Next(sha, w, e);
            w'.signed == w.signed && w'.db.log == w.db.log && w'.db.records == w.db.records
  {
  }

  lemma NothingSigned(sha: Sha, w: World, e: Event)
    requires e.BeginIngest? || e.BeginSweep? || e.SweepHead?
    ensures Next(sha, w, e).signed == w.signed
  {
    hide Prepare, HeadBytes, Root, Leaves, InLog, ListsOnce, Ids, PendingSet;
  }

  predicate ErasersOnly(w: World, w': World) {
    CallsStay(w, w') && w' == w.(erasers := w'.erasers)
  }

  lemma EraserIsQuiet(sha: Sha, w: World, e: Event)
    requires EraserOf(e).Some? && !e.Commit? && !e.Anchor?
    ensures ErasersOnly(w, Next(sha, w, e))
  {
    hide ErasersOnly, BeginEraseStep, RunClosureStep, GiveUpStep, ReadHeadStep, DeferStep;
    match e
    case BeginErase(_, _, _, _) => BeginIsQuiet(w, e);
    case RunClosure(_, _) => ClosureIsQuiet(sha, w, e);
    case ReadHead(_) => ReadHeadIsQuiet(sha, w, e);
    case _ => EndIsQuiet(w, e);
  }

  lemma BeginIsQuiet(w: World, e: Event)
    requires e.BeginErase?
    ensures ErasersOnly(w, BeginEraseStep(w, e))
  {
    hide ValidAction, ValidBasis;
  }

  lemma ClosureIsQuiet(sha: Sha, w: World, e: Event)
    requires e.RunClosure?
    ensures ErasersOnly(w, RunClosureStep(sha, w, e))
  {
    hide PlannedRow, ReadsOf, ResultOf;
  }

  lemma ReadHeadIsQuiet(sha: Sha, w: World, e: Event)
    requires e.ReadHead?
    ensures ErasersOnly(w, ReadHeadStep(sha, w, e))
  {
    hide Leaves, Root;
  }

  lemma EndIsQuiet(w: World, e: Event)
    ensures e.Abort? || e.Fail? ==> ErasersOnly(w, GiveUpStep(w, e))
    ensures e.Defer? ==> ErasersOnly(w, DeferStep(w, e))
  {
  }

  /** A commit that does not go through. */
  lemma AbortedCommitIsQuiet(sha: Sha, w: World, e: Event)
    requires WorldInv(sha, w) && e.Commit? && Next(sha, w, e).commits == w.commits
    ensures var w' := Next(sha, w, e);
            CallsStay(w, w') && w'.signed == w.signed && w'.db == w.db
  {
    hide Inv, DocsOk, CommitsOk, ErasersOk, SweepsOk, IngestsOk, CommitStep;
    if e.call in w.erasers && w.erasers[e.call].pc.Planned? {
      CommitIffReadsHold(sha, w, e);
    } else {
      UnplannedCommit(sha, w, e);
    }
  }

  lemma UnplannedCommit(sha: Sha, w: World, e: Event)
    requires e.Commit? && !(e.call in w.erasers && w.erasers[e.call].pc.Planned?)
    ensures CommitStep(sha, w, e) == w
  {
    hide PlannedRow, ReadsOf, ApplyErase;
  }

  lemma CommitKeepsLedger(sha: Sha, w: World, e: Event)
    requires WorldInv(sha, w) && LedgerInv(sha, w) && e.Commit? && Next(sha, w, e).commits != w.commits
    ensures LedgerInv(sha, Next(sha, w, e))
  {
    hide Inv, DocsOk, ErasersOk, SweepsOk, IngestsOk, CommitStep, EraseTxn, ErasedAs, OnlyMoves, Extends,
         ValidAction, ValidBasis, LedgerInv;
    if !(e.call in w.erasers && w.erasers[e.call].pc.Planned?) {
      UnplannedCommit(sha, w, e);
    } else {
      var c, w' := w.erasers[e.call], Next(sha, w, e);
      PlannedFacts(sha, w, e.call);
      CommitIsAtomic(sha, w, e);
      EraseOutcome(sha, w.db, c.subject, c.action, c.basis, c.pc.now);
      ErasedKeepsLedger(sha, w, w', e.call);
    }
  }

  lemma ErasedKeepsLedger(sha: Sha, w: World, w': World, call: nat)
    requires LedgerInv(sha, w) && CommitsOk(w) && call in w.erasers && w.erasers[call].pc.Planned?
    requires w'.signed == w.signed && w'.commits == w.commits + [call] && w'.erasers.Keys == w.erasers.Keys
    requires w'.erasers == w.erasers[call := w.erasers[call].(pc := w'.erasers[call].pc)]
    requires !w'.erasers[call].pc.Finished?
    requires var c := w.erasers[call];
             c.res.Some? && ErasedAs(sha, w.db, w'.db, c.subject, c.action, c.basis, c.pc.now, c.res.value)
             && c.subject !in w.db.records
    ensures LedgerInv(sha, w')
  {
    hide RowsOf, DocOf;
    assert RecordsStay(w.db, w'.db);
    forall i | 0 <= i < |w'.db.log|
      ensures RowOfCommit(sha, w', i)
    {
      if i < |w.db.log| {
        assert RowOfCommit(sha, w, i) && w'.db.log[i] == w.db.log[i];
      }
    }
    forall doc | doc in w'.signed
      ensures AboutRecord(sha, w'.db, doc)
    {
      AboutStays(sha, w.db, w'.db, doc);
    }
  }

  // ----- Anchoring -----

  /** A reply is stored when it is complete: decodable, with a signature and a signer, and set_proof_ref
      succeeds. */
  predicate Stores(reply: Reply, recorded: bool) {
    recorded && reply.Anchored? && reply.canonical.Decoded? && reply.signature != "" && reply.signerPem != ""
  }

  /** The document goes out for signing, and a reply that is stored is stored as it came, field by field,
      as the proof of s; nothing else changes in the tables. */
  predicate Anchors(w: World, w': World, s: SubjectId, doc: Doc, reply: Reply, recorded: bool) {
    && w'.signed == w.signed + {doc} && w'.commits == w.commits && w'.ingests == w.ingests
    && if !Stores(reply, recorded) then w'.db == w.db
       else
         && s in w.db.records && s in w'.db.records
         && w'.db == w.db.(records := w.db.records[s := w.db.records[s].(proof := w'.db.records[s].proof)])
         && w'.db.records[s].proof.Some?
         && var proof := w'.db.records[s].proof.value;
            && proof.proofRef == reply.proofRef && proof.body == reply.canonical.body
            && proof.signature == reply.signature && proof.signerPem == reply.signerPem
  }

  lemma AnchorDocAnchors(w: World, s: SubjectId, doc: Doc, reply: Reply, recorded: bool)
    ensures s in w.db.records ==> Anchors(w, AnchorDoc(w, s, doc, reply, recorded), s, doc, reply, recorded)
    ensures var w' := AnchorDoc(w, s, doc, reply, recorded);
            w'.erasers == w.erasers && w'.sweeps == w.sweeps
  {
  }

  /** The document EraseAndAnchor sends: its own result and the head it read, in text. */
  function SentDoc(res: Result, shredded: string, root: Digest, size: nat): Doc {
    Doc(ToHex(res.subjectHash), res.occurredAt / 1_000_000, res.seqNo, ToHex(res.head), ToHex(res.fingerprint), res.arn,
        if res.origin == ImportedMaterial && res.arn != "" then shredded else "wrapped_key_destroyed", ToHex(root),
        size)
  }

  /** An anchor step sends the document of its call's result and head, stores a complete reply as it
      came, and ends the call, with a proof exactly when one is stored. */
  lemma {:induction false} AnchorOutcome(sha: Sha, w: World, e: Event)
    requires WorldInv(sha, w) && e.Anchor? && e.call in w.erasers && w.erasers[e.call].pc.Headed?
    ensures w.erasers[e.call].res.Some?
    ensures var c, w' := w.erasers[e.call], Next(sha, w, e);
            var doc := SentDoc(c.res.value, e.keyState, c.pc.root, c.pc.size);
            if !Honest(doc, e.reply) then w' == w
            else
              && Anchors(w, w', c.subject, doc, e.reply, e.recorded)
              && DocOf(sha, w.db.records[c.subject], c.subject, doc)
              && w'.erasers == w.erasers[e.call := c.(pc := Finished(Stores(e.reply, e.recorded)))]
  {
    hide WorldInv, Next, AnchorDoc, Honest, Complete, Anchors, Stores, DocOf, SentDoc;
    HeadedFacts(sha, w, e.call, e.keyState);
    AnchorStepIs(sha, w, e);
    var c := w.erasers[e.call];
    var doc := SentDoc(c.res.value, e.keyState, c.pc.root, c.pc.size);
    if Honest(doc, e.reply) {
      var asked := AnchorDoc(w, c.subject, doc, e.reply, e.recorded);
      AnchorDocAnchors(w, c.subject, doc, e.reply, e.recorded);
      StaysAnchored(w, asked, Next(sha, w, e), c.subject, doc, e.reply, e.recorded);
    }
  }

  lemma HeadedFacts(sha: Sha, w: World, call: nat, shredded: string)
    requires WorldInv(sha, w) && call in w.erasers && w.erasers[call].pc.Headed?
    ensures var c := w.erasers[call];
            && c.res.Some? && c.subject in w.db.records
            && DocOf(sha, w.db.records[c.subject], c.subject, SentDoc(c.res.value, shredded, c.pc.root, c.pc.size))
  {
    hide Inv, DocsOk, CommitsOk, SweepsOk, IngestsOk, Matches, HeadOf, DocOf, SentDoc, LiveDoc, KeyStateOf;
    var c := w.erasers[call];
    assert EraserOk(sha, w.db, w.commits, call, c);
    SentIsLive(c.subject, c.res.value, shredded, c.pc.root, c.pc.size);
    SoundRecords(sha, w);
    LiveDocTruthful(sha, w.db, c.subject, c.res.value, KeyStateOf(c.res.value, shredded), c.pc.root, c.pc.size);
  }

  lemma AnchorStepIs(sha: Sha, w: World, e: Event)
    requires e.Anchor? && e.call in w.erasers && w.erasers[e.call].pc.Headed? && w.erasers[e.call].res.Some?
    ensures var c := w.erasers[e.call];
            var doc := SentDoc(c.res.value, e.keyState, c.pc.root, c.pc.size);
            Next(sha, w, e) == if !Honest(doc, e.reply) then w
                               else SetEraser(AnchorDoc(w, c.subject, doc, e.reply, e.recorded), e.call,
                                              c.(pc := Finished(Stores(e.reply, e.recorded))))
  {
    hide AnchorDoc, Honest, Complete, Stores, SentDoc, LiveDoc, KeyStateOf;
    var c := w.erasers[e.call];
    SentIsLive(c.subject, c.res.value, e.keyState, c.pc.root, c.pc.size);
    AnchorDocAnchors(w, c.subject, SentDoc(c.res.value, e.keyState, c.pc.root, c.pc.size), e.reply, e.recorded);
    StoresIsComplete(e.reply, e.recorded);
  }

  lemma SoundRecords(sha: Sha, w: World)
    requires WorldInv(sha, w)
    ensures RecordInv(sha, w.db.log, w.db.records)
  {
    hide RecordInv, LogInv, LifeInv, ProofInv, DocsOk, CommitsOk, ErasersOk, SweepsOk, IngestsOk;
  }

  lemma SentIsLive(s: SubjectId, res: Result, shredded: string, root: Digest, size: nat)
    ensures SentDoc(res, shredded, root, size) == LiveDoc(s, res, KeyStateOf(res, shredded), root, size)
  {
  }

  lemma StoresIsComplete(reply: Reply, recorded: bool)
    ensures Stores(reply, recorded) <==> Complete(reply) && recorded
  {
  }

  /** Ending the call or counting the row leaves what was anchored. */
  lemma StaysAnchored(w: World, asked: World, w': World, s: SubjectId, doc: Doc, reply: Reply, recorded: bool)
    requires Anchors(w, asked, s, doc, reply, recorded)
    requires w'.db == asked.db && w'.signed == asked.signed
    requires w'.commits == asked.commits && w'.ingests == asked.ingests
    ensures Anchors(w, w', s, doc, reply, recorded)
  {
  }

  /** The document a sweep sends for a listed row: the row's own columns and the head it read, in text. */
  function SweptText(p: Pending, root: Digest, size: nat): Doc {
    Doc(ToHex(p.subjectHash), p.occurredAt / 1_000_000, p.seqNo, ToHex(p.hash), ToHex(p.fingerprint), p.arn,
        "wrapped_key_destroyed", ToHex(root), size)
  }

  lemma SweptIsRequest(p: Pending, root: Digest, size: nat)
    ensures SweptText(p, root, size) == Request(p, "wrapped_key_destroyed", root, size)
  {
  }

  ghost predicate SweepDue(w: World, e: Event) {
    && e.SweepAnchor? && e.call in w.sweeps && w.sweeps[e.call].head.Some?
    && w.sweeps[e.call].next < |w.sweeps[e.call].todo|
  }

  /** A sweep step sends the document of its next listed row, stores a complete reply as it came, counts
      the row exactly when it is stored, and goes on. */
  lemma {:induction false} SweepAnchorOutcome(sha: Sha, w: World, e: Event)
    requires WorldInv(sha, w) && SweepDue(w, e)
    ensures var c, w' := w.sweeps[e.call], Next(sha, w, e);
            var p := c.todo[c.next];
            var doc := SweptText(p, c.head.value.0, c.head.value.1);
            if !Honest(doc, e.reply) then w' == w
            else
              && Anchors(w, w', p.subjectId, doc, e.reply, e.recorded) && w'.erasers == w.erasers
              && p.subjectId in w.db.records && DocOf(sha, w.db.records[p.subjectId], p.subjectId, doc)
              && w'.sweeps == w.sweeps[e.call := c.(next := c.next + 1,
                   anchored := c.anchored + if Stores(e.reply, e.recorded) then 1 else 0)]
  {
    hide WorldInv, Next, AnchorDoc, Honest, Complete, Anchors, Stores, DocOf, SweptText;
    ListedFacts(sha, w, e);
    SweepStepIs(sha, w, e);
    var c := w.sweeps[e.call];
    var p := c.todo[c.next];
    var doc := SweptText(p, c.head.value.0, c.head.value.1);
    if Honest(doc, e.reply) {
      AnchorDocAnchors(w, p.subjectId, doc, e.reply, e.recorded);
      StaysAnchored(w, AnchorDoc(w, p.subjectId, doc, e.reply, e.recorded), Next(sha, w, e), p.subjectId, doc, e.reply,
                    e.recorded);
    }
  }

  lemma ListedFacts(sha: Sha, w: World, e: Event)
    requires WorldInv(sha, w) && SweepDue(w, e)
    ensures var c := w.sweeps[e.call];
            var p := c.todo[c.next];
            && p.subjectId in w.db.records
            && DocOf(sha, w.db.records[p.subjectId], p.subjectId, SweptText(p, c.head.value.0, c.head.value.1))
  {
    hide Inv, DocsOk, CommitsOk, ErasersOk, IngestsOk, Describes, HeadOf, DocOf, SweptText, Request, Root, Hashes;
    var c := w.sweeps[e.call];
    assert SweepOk(sha, w.db, c);
    SweptIsRequest(c.todo[c.next], c.head.value.0, c.head.value.1);
    ListedDocTruthful(sha, w.db, c.todo[c.next], c.head.value.0, c.head.value.1);
  }

  lemma SweepStepIs(sha: Sha, w: World, e: Event)
    requires SweepDue(w, e)
    ensures var c := w.sweeps[e.call];
            var p := c.todo[c.next];
            var doc := SweptText(p, c.head.value.0, c.head.value.1);
            var asked := AnchorDoc(w, p.subjectId, doc, e.reply, e.recorded);
            Next(sha, w, e) == if !Honest(doc, e.reply) then w
                               else asked.(sweeps := w.sweeps[e.call := c.(next := c.next + 1,
                                      anchored := c.anchored + if Stores(e.reply, e.recorded) then 1 else 0)])
  {
    hide AnchorDoc, Honest, Complete, Stores, SweptText, Request;
    var c := w.sweeps[e.call];
    SweptIsRequest(c.todo[c.next], c.head.value.0, c.head.value.1);
    AnchorDocAnchors(w, c.todo[c.next].subjectId, SweptText(c.todo[c.next], c.head.value.0, c.head.value.1), e.reply,
                     e.recorded);
    StoresIsComplete(e.reply, e.recorded);
  }

  predicate Lists(todo: seq<Pending>, s: SubjectId) {
    exists i :: 0 <= i < |todo| && todo[i].subjectId == s
  }

  /** A sweep that begins lists each record without a proof, or with an empty body, and no other, once. */
  lemma SweepListsPending(sha: Sha, w: World, e: Event)
    requires e.BeginSweep? && Next(sha, w, e) != w
    ensures forall s :: Lists(e.todo, s) <==>
              s in w.db.records && (w.db.records[s].proof.None? || w.db.records[s].proof.value.body.EmptyBody?)
    ensures forall i, j :: 0 <= i < j < |e.todo| ==> e.todo[i].subjectId != e.todo[j].subjectId
  {
    BegunLists(sha, w, e);
    hide Next, Ids, ListsOnce, Listed, Lists;
    forall s
      ensures Lists(e.todo, s) <==> s in PendingSet(w.db.records)
    {
      IdsAre(e.todo, s);
    }
    forall i, j | 0 <= i < j < |e.todo|
      ensures e.todo[i].subjectId != e.todo[j].subjectId
    {
      NotListedBefore(w.db.log, w.db.records, e.todo, i, j);
    }
  }

  lemma BegunLists(sha: Sha, w: World, e: Event)
    requires e.BeginSweep? && Next(sha, w, e) != w
    ensures InLog(w.db.log, w.db.records) && ListsOnce(w.db.log, w.db.records, e.todo)
    ensures Ids(e.todo) == PendingSet(w.db.records)
  {
    hide Ids, PendingSet, Listed;
  }

  lemma {:induction false} IdsAre(todo: seq<Pending>, s: SubjectId)
    ensures s in Ids(todo) <==> Lists(todo, s)
  {
    if |todo| > 0 {
      var front := todo[..|todo| - 1];
      IdsAre(front, s);
      assert forall i :: 0 <= i < |front| ==> front[i] == todo[i];
    }
  }

  lemma NotListedBefore(log: seq<LogRow>, records: map<SubjectId, RecordRow>, todo: seq<Pending>, i: nat, j: nat)
    requires InLog(log, records) && ListsOnce(log, records, todo) && i < j < |todo|
    ensures todo[i].subjectId != todo[j].subjectId
  {
    hide Ids, PendingOf, IsPending;
    assert Listed(log, records, todo, j);
    IdsAre(todo[..j], todo[j].subjectId);
    assert todo[..j][i] == todo[i];
  }

  // ----- Every run -----

  lemma AnchorsKeepsLedger(sha: Sha, w: World, w': World, s: SubjectId, doc: Doc, reply: Reply, recorded: bool)
    requires LedgerInv(sha, w) && Anchors(w, w', s, doc, reply, recorded)
    requires s in w.db.records && DocOf(sha, w.db.records[s], s, doc)
    requires w'.erasers.Keys == w.erasers.Keys
    requires forall call :: call in w.erasers ==>
               && w'.erasers[call] == w.erasers[call].(pc := w'.erasers[call].pc)
               && (w'.erasers[call].pc == Finished(true) ==>
                     w.erasers[call].pc == Finished(true) || (Stores(reply, recorded) && w.erasers[call].subject == s))
    ensures LedgerInv(sha, w')
  {
    hide DocOf;
    assert RecordsStay(w.db, w'.db);
    forall i | 0 <= i < |w'.db.log|
      ensures RowOfCommit(sha, w', i)
    {
      assert RowOfCommit(sha, w, i);
    }
    forall d | d in w'.signed
      ensures AboutRecord(sha, w'.db, d)
    {
      assert d == doc ==> AboutRecord(sha, w.db, d);
      AboutStays(sha, w.db, w'.db, d);
    }
  }

  lemma {:induction false} NextKeepsLedger(sha: Sha, w: World, e: Event)
    requires WorldInv(sha, w) && LedgerInv(sha, w)
    ensures LedgerInv(sha, Next(sha, w, e))
  {
    hide WorldInv, LedgerInv, Next, Anchors, Stores, DocOf, Honest, CallsStay, SentDoc, SweptText;
    var w' := Next(sha, w, e);
    if e.Commit? {
      if w'.commits == w.commits {
        AbortedCommitIsQuiet(sha, w, e);
        QuietKeepsLedger(sha, w, w');
      } else {
        CommitKeepsLedger(sha, w, e);
      }
    } else if e.Anchor? {
      AnchorKeepsLedger(sha, w, e);
    } else if e.SweepAnchor? {
      SweepKeepsLedger(sha, w, e);
    } else if EraserOf(e).Some? {
      EraserIsQuiet(sha, w, e);
      QuietKeepsLedger(sha, w, w');
    } else {
      IngestOrSweepIsQuiet(sha, w, e);
      QuietKeepsLedger(sha, w, w');
    }
  }

  lemma AnchorKeepsLedger(sha: Sha, w: World, e: Event)
    requires WorldInv(sha, w) && LedgerInv(sha, w) && e.Anchor?
    ensures LedgerInv(sha, Next(sha, w, e))
  {
    hide WorldInv, LedgerInv, Next, Anchors, Stores, DocOf, Honest, SentDoc;
    if e.call in w.erasers && w.erasers[e.call].pc.Headed? {
      AnchorOutcome(sha, w, e);
      var c := w.erasers[e.call];
      var doc := SentDoc(c.res.value, e.keyState, c.pc.root, c.pc.size);
      if Honest(doc, e.reply) {
        HeadedFacts(sha, w, e.call, e.keyState);
        AnchorsKeepsLedger(sha, w, Next(sha, w, e), c.subject, doc, e.reply, e.recorded);
      }
    } else {
      AnchorNotDue(sha, w, e);
    }
  }

  lemma AnchorNotDue(sha: Sha, w: World, e: Event)
    requires e.Anchor? && !(e.call in w.erasers && w.erasers[e.call].pc.Headed?)
    ensures Next(sha, w, e) == w
  {
    hide AnchorDoc, LiveDoc, Honest, KeyStateOf;
  }

  lemma SweepKeepsLedger(sha: Sha, w: World, e: Event)
    requires WorldInv(sha, w) && LedgerInv(sha, w) && e.SweepAnchor?
    ensures LedgerInv(sha, Next(sha, w, e))
  {
    hide WorldInv, LedgerInv, Next, Anchors, Stores, DocOf, Honest, SweptText;
    if SweepDue(w, e) {
      SweepAnchorOutcome(sha, w, e);
      var c := w.sweeps[e.call];
      var p := c.todo[c.next];
      var doc := SweptText(p, c.head.value.0, c.head.value.1);
      if Honest(doc, e.reply) {
        AnchorsKeepsLedger(sha, w, Next(sha, w, e), p.subjectId, doc, e.reply, e.recorded);
      }
    } else {
      SweepNotDue(sha, w, e);
    }
  }

  lemma SweepNotDue(sha: Sha, w: World, e: Event)
    requires e.SweepAnchor? && !SweepDue(w, e)
    ensures Next(sha, w, e) == w
  {
    hide AnchorDoc, Request, Honest;
  }

  lemma {:induction false} RunKeepsLedger(sha: Sha, events: seq<Event>)
    ensures LedgerInv(sha, Run(sha, START, events))
  {
    hide WorldInv, Next;
    if |events| > 0 {
      RunKeepsLedger(sha, events[..|events| - 1]);
      RunKeeps(sha, events[..|events| - 1]);
      hide LedgerInv;
      NextKeepsLedger(sha, Run(sha, START, events[..|events| - 1]), events[|events| - 1]);
    }
  }

  // ----- What the log says -----

  /** In every run each log row says, in bytes, what the erase call behind it asked for. */
  lemma {:induction false} RowsSayWhatWasAsked(sha: Sha, events: seq<Event>)
    ensures var w := Run(sha, START, events);
            |w.commits| == |w.db.log| && forall i :: 0 <= i < |w.db.log| ==>
              w.commits[i] in w.erasers && RowSays(sha, w.db.log, i, w.erasers[w.commits[i]])
  {
    hide Run, WorldInv, LinkedAt, RowSays;
    RunKeepsLedger(sha, events);
    GaplessUnderContention(sha, events);
    var w := Run(sha, START, events);
    forall i | 0 <= i < |w.db.log|
      ensures w.commits[i] in w.erasers && RowSays(sha, w.db.log, i, w.erasers[w.commits[i]])
    {
      assert RowOfCommit(sha, w, i);
      LinkedRowSays(sha, w.db.log, i, w.erasers[w.commits[i]]);
    }
  }

  lemma LinkedRowSays(sha: Sha, log: seq<LogRow>, i: nat, c: EraseCall)
    requires i < |log| && LinkedAt(sha, log, i) && RowOf(sha, log[i], c)
    ensures RowSays(sha, log, i, c)
  {
    var prev: Bytes := if i == 0 then seq(32, k => 0) else log[i - 1].hash;
    assert prev == if i == 0 then GenesisPrevHash() else log[i - 1].hash;
    assert prev + (Decimal(i + 1) + [BAR] + c.action + [BAR] + c.basis + sha(c.subject))
        == prev + Decimal(i + 1) + [124] + c.action + [124] + c.basis + sha(c.subject);
  }

  /** In every run the row of each erased subject carries the SHA-256 of its id, so two subjects share a
      subject hash only if they are one or their ids collide. */
  lemma {:induction false} RecordsNameTheirSubjects(sha: Sha, events: seq<Event>, s: SubjectId, t: SubjectId)
    ensures var db := Run(sha, START, events).db;
            s in db.records && t in db.records ==>
              && 1 <= db.records[s].seqNo <= |db.log| && 1 <= db.records[t].seqNo <= |db.log|
              && (var a, b := db.log[db.records[s].seqNo - 1].subjectHash, db.log[db.records[t].seqNo - 1].subjectHash;
                  && a == sha(s) && b == sha(t) && (a == b ==> s == t || IsCollision(sha, Clash(s, t))))
  {
    hide Run, WorldInv, RecordInv;
    RunKeeps(sha, events);
    var w := Run(sha, START, events);
    SoundRecords(sha, w);
    if s in w.db.records && t in w.db.records {
      RecordPoints(sha, w.db, s);
      RecordPoints(sha, w.db, t);
    }
  }

  lemma RecordPoints(sha: Sha, db: Tables, s: SubjectId)
    requires RecordInv(sha, db.log, db.records) && s in db.records
    ensures 1 <= db.records[s].seqNo <= |db.log| && db.log[db.records[s].seqNo - 1].subjectHash == sha(s)
  {
    hide Recorded;
    assert PointsAtOwnRow(sha, db.log, s, db.records[s]);
  }

  // ----- What the documents say -----

  /** The document states, in text, the erasure of s: its row, the key it destroyed, and the tree of the
      first rows of the log, built level by level. */
  predicate Tells(sha: Sha, db: Tables, s: SubjectId, doc: Doc) {
    && s in db.records && doc.seqNo == db.records[s].seqNo && 1 <= doc.seqNo <= doc.treeSize <= |db.log|
    && (var row := db.log[doc.seqNo - 1];
        && doc.subjectHash == ToHex(sha(s)) && doc.head == ToHex(row.hash)
        && doc.occurredAt * 1_000_000 <= row.occurredAt < (doc.occurredAt + 1) * 1_000_000)
    && doc.fingerprint == ToHex(db.records[s].fingerprint) && doc.arn == db.records[s].arn
    && doc.merkleRoot == ToHex(TopOf(sha, Bottom(sha, Hashes(db.log)[..doc.treeSize])))
  }

  /** In every run each document ever sent for signing tells, then and later, of exactly one recorded
      subject, and two documents share a subject hash only if they are about one subject or the ids of
      the two collide. */
  lemma {:induction false} SignedDocsTell(sha: Sha, events: seq<Event>, more: seq<Event>, doc: Doc)
    returns (s: SubjectId)
    requires doc in Run(sha, START, events).signed
    ensures var db, later := Run(sha, START, events).db, Run(sha, START, events + more).db;
            Tells(sha, db, s, doc) && Tells(sha, later, s, doc) && forall t :: Tells(sha, db, t, doc) ==> t == s
  {
    hide Run, WorldInv, Tells, Extends, DocOf, Truthful;
    RunKeepsLedger(sha, events);
    RunKeeps(sha, events);
    var w := Run(sha, START, events);
    assert AboutRecord(sha, w.db, doc);
    s :| s in w.db.records && DocOf(sha, w.db.records[s], s, doc);
    SignedIsTruthful(sha, w, doc);
    TruthTells(sha, w.db, s, doc);
    RunInTwoParts(sha, START, events, more);
    RunMovesForward(sha, w, more);
    TellsStays(sha, w.db, Run(sha, START, events + more).db, s, doc);
    OnlyOneTold(sha, w, s, doc);
  }

  lemma TruthTells(sha: Sha, db: Tables, s: SubjectId, doc: Doc)
    requires Truthful(sha, db.log, doc) && s in db.records && DocOf(sha, db.records[s], s, doc)
    ensures Tells(sha, db, s, doc)
  {
    hide Root, TopOf, Bottom, ToHex;
    RootByLevels(sha, Hashes(db.log)[..doc.treeSize]);
  }

  lemma TellsStays(sha: Sha, db: Tables, db': Tables, s: SubjectId, doc: Doc)
    requires Tells(sha, db, s, doc) && Extends(db, db')
    ensures Tells(sha, db', s, doc)
  {
    hide TopOf, Bottom, ToHex, PhaseOf;
    assert Hashes(db'.log)[..doc.treeSize] == Hashes(db.log)[..doc.treeSize];
  }

  lemma OnlyOneTold(sha: Sha, w: World, s: SubjectId, doc: Doc)
    requires WorldInv(sha, w) && Tells(sha, w.db, s, doc)
    ensures forall t :: Tells(sha, w.db, t, doc) ==> t == s
  {
    hide LogInv, LifeInv, ProofInv, DocsOk, CommitsOk, ErasersOk, SweepsOk, IngestsOk, Recorded, PointsAtOwnRow, TopOf,
         Bottom, ToHex;
  }

  lemma SameSubjectHash(sha: Sha, db: Tables, s: SubjectId, t: SubjectId, a: Doc, b: Doc)
    requires Tells(sha, db, s, a) && Tells(sha, db, t, b) && a.subjectHash == b.subjectHash
    ensures s == t || IsCollision(sha, Clash(s, t))
  {
    hide TopOf, Bottom, ToHex;
    ToHexIsHex(sha(s));
    ToHexIsHex(sha(t));
  }

  // ----- What an answer with a proof means -----

  /** In every run a call answered with a proof has its subject's proof stored, signed and with a signer,
      then and at every later point. */
  lemma {:induction false} ProofAnswerIsStored(sha: Sha, events: seq<Event>, more: seq<Event>, call: nat)
    ensures var w, later := Run(sha, START, events), Run(sha, START, events + more);
            call in w.erasers && Over(w.erasers[call]) && AnswerTo(w.erasers[call]) == ErasedWithProof ==>
              && call in later.erasers && later.erasers[call] == w.erasers[call]
              && StoredProofOf(w.db, w.erasers[call].subject) && StoredProofOf(later.db, w.erasers[call].subject)
  {
    hide Run, WorldInv, Next;
    RunKeepsLedger(sha, events);
    RunKeepsLedger(sha, events + more);
    var w := Run(sha, START, events);
    RunInTwoParts(sha, START, events, more);
    if call in w.erasers && Over(w.erasers[call]) && AnswerTo(w.erasers[call]) == ErasedWithProof {
      OverStays(sha, w, more, call);
    }
  }

  predicate StoredProofOf(db: Tables, s: SubjectId) {
    && s in db.records && db.records[s].proof.Some?
    && db.records[s].proof.value.signature != "" && db.records[s].proof.value.signerPem != ""
  }

  lemma {:induction false} OverStays(sha: Sha, w: World, events: seq<Event>, call: nat)
    requires call in w.erasers && Over(w.erasers[call])
    ensures var w' := Run(sha, w, events);
            call in w'.erasers && w'.erasers[call] == w.erasers[call]
  {
    hide Next, Over;
    if |events| > 0 {
      OverStays(sha, w, events[..|events| - 1], call);
      OverIsFinal(sha, Run(sha, w, events[..|events| - 1]), events[|events| - 1], call);
    }
  }

  // ----- What the answers name -----

  /** At the step that ends a call: "already erased" and "unknown subject" name the phase its closure
      found, and "erased" with a proof is the answer exactly when this step stores one. */
  lemma {:induction false} AnswerNamesCause(sha: Sha, w: World, e: Event, call: nat)
    requires WorldInv(sha, w) && call in w.erasers && !Over(w.erasers[call])
    ensures var s, w' := w.erasers[call].subject, Next(sha, w, e);
            && call in w'.erasers && w'.erasers[call].subject == s
            && (Over(w'.erasers[call]) ==> AnswerFits(AnswerTo(w'.erasers[call]), w, e, s))
  {
    hide Next, WorldInv, Over, Stores, AnswerFits;
    if EraserOf(e) != Some(call) {
      OtherCallsUntouched(sha, w, e, call);
    } else if e.RunClosure? {
      ClosureAnswer(sha, w, e);
    } else if e.Anchor? {
      AnchorAnswer(sha, w, e);
    } else if e.Commit? {
      CommitAnswer(sha, w, e);
    } else {
      EndAnswer(sha, w, e);
    }
  }

  predicate AnswerFits(answer: Answer, w: World, e: Event, s: SubjectId) {
    && (answer == Conflict <==> e.RunClosure? && PhaseOf(w.db, s) == Erased)
    && (answer == NotFound <==> e.RunClosure? && PhaseOf(w.db, s) == Unknown)
    && (answer == ErasedWithProof <==> e.Anchor? && Stores(e.reply, e.recorded))
  }

  lemma ClosureAnswer(sha: Sha, w: World, e: Event)
    requires WorldInv(sha, w) && e.RunClosure? && e.call in w.erasers && !Over(w.erasers[e.call])
    ensures var s, w' := w.erasers[e.call].subject, Next(sha, w, e);
            && e.call in w'.erasers && w'.erasers[e.call].subject == s
            && (Over(w'.erasers[e.call]) ==> AnswerFits(AnswerTo(w'.erasers[e.call]), w, e, s))
  {
    hide WorldInv, PlannedRow, ReadsOf, ResultOf, PhaseOf, Stores;
    if w.erasers[e.call].pc.Start? {
      ClosureNamesPhase(sha, w, e);
    }
    ClosureIsQuiet(sha, w, e);
  }

  lemma AnchorAnswer(sha: Sha, w: World, e: Event)
    requires WorldInv(sha, w) && e.Anchor? && e.call in w.erasers && !Over(w.erasers[e.call])
    ensures var s, w' := w.erasers[e.call].subject, Next(sha, w, e);
            && e.call in w'.erasers && w'.erasers[e.call].subject == s
            && (Over(w'.erasers[e.call]) ==> AnswerFits(AnswerTo(w'.erasers[e.call]), w, e, s))
  {
    hide WorldInv, Next, Anchors, Stores, SentDoc, Honest, DocOf;
    if w.erasers[e.call].pc.Headed? {
      AnchorOutcome(sha, w, e);
    } else {
      AnchorNotDue(sha, w, e);
    }
  }

  lemma CommitAnswer(sha: Sha, w: World, e: Event)
    requires WorldInv(sha, w) && e.Commit? && e.call in w.erasers && !Over(w.erasers[e.call])
    ensures var s, w' := w.erasers[e.call].subject, Next(sha, w, e);
            && e.call in w'.erasers && w'.erasers[e.call].subject == s
            && (Over(w'.erasers[e.call]) ==> AnswerFits(AnswerTo(w'.erasers[e.call]), w, e, s))
  {
    hide PlannedRow, ReadsOf, ApplyErase, WorldInv, PhaseOf, Stores;
  }

  lemma EndAnswer(sha: Sha, w: World, e: Event)
    requires e.BeginErase? || e.Abort? || e.Fail? || e.ReadHead? || e.Defer?
    requires e.call in w.erasers && !Over(w.erasers[e.call])
    ensures var s, w' := w.erasers[e.call].subject, Next(sha, w, e);
            && e.call in w'.erasers && w'.erasers[e.call].subject == s
            && (Over(w'.erasers[e.call]) ==> AnswerFits(AnswerTo(w'.erasers[e.call]), w, e, s))
  {
    hide Leaves, Root, PhaseOf, Stores, ValidAction, ValidBasis;
  }

  /** In every run: a call that is over ended at some event, and its answer names what that event found. */
  lemma {:induction false} AnswerInRun(sha: Sha, events: seq<Event>, call: nat) returns (n: nat)
    requires IsOver(sha, events, call)
    ensures n < |events| && EraserOf(events[n]) == Some(call)
    ensures var c := Run(sha, START, events).erasers[call];
            AnswerFits(AnswerTo(c), Run(sha, START, events[..n]), events[n], c.subject)
  {
    hide WorldInv, Next, Over, AnswerFits;
    if |events| == 0 {
      NobodyAtStart(call);
      assert false;
    }
    n := |events| - 1;
    var front, e := events[..n], events[n];
    var w := Run(sha, START, front);
    if IsOver(sha, front, call) {
      n := AnswerInRun(sha, front, call);
      OverIsFinal(sha, w, e, call);
      assert front[..n] == events[..n];
    } else {
      RunKeeps(sha, front);
      if call in w.erasers {
        if EraserOf(e) != Some(call) {
          OtherCallsUntouched(sha, w, e, call);
        }
        AnswerNamesCause(sha, w, e, call);
      } else {
        if EraserOf(e) != Some(call) {
          NotYetBegun(sha, w, e, call);
        }
        BegunAnswer(sha, w, e);
      }
    }
  }

  /** A call with an action or a basis outside the vocabularies fails at once. */
  lemma BegunAnswer(sha: Sha, w: World, e: Event)
    requires EraserOf(e).Some? && e.call !in w.erasers && e.call in Next(sha, w, e).erasers
    ensures e.BeginErase?
    ensures var c := Next(sha, w, e).erasers[e.call];
            && c.subject == e.subject
            && (Over(c) <==> !(ValidAction(e.action) && ValidBasis(e.basis)))
            && (Over(c) ==> AnswerTo(c) == ErasureFailed && AnswerFits(AnswerTo(c), w, e, c.subject)
                            && c.pc == Failed(if ValidAction(e.action) then InvalidBasis else InvalidAction))
  {
    hide ValidAction, ValidBasis, PhaseOf, Stores;
  }

  // ----- From a request to a stored proof -----

  /** A call that begins, plans, is aborted and plans again is due to commit. */
  lemma PlansAgain(sha: Sha, w: World, call: nat, s: SubjectId, action: Bytes, basis: Bytes, early: nat, now: nat)
    requires call !in w.erasers && s in w.db.keys && ValidAction(action) && ValidBasis(basis)
    ensures var w' := Run(sha, w, [BeginErase(call, s, action, basis), RunClosure(call, early)]
                                  + [Abort(call), RunClosure(call, now)]);
            && w' == w.(erasers := w'.erasers) && DueToCommit(w', call)
            && (var c := w'.erasers[call];
                c.subject == s && c.action == action && c.basis == basis && c.pc.now == now)
  {
    hide Run, Next, DueToCommit, ValidAction, ValidBasis;
    var a, b := BeginErase(call, s, action, basis), RunClosure(call, early);
    var c, d := Abort(call), RunClosure(call, now);
    RunInTwoParts(sha, w, [a, b], [c, d]);
    RunOfTwo(sha, w, a, b);
    RunOfTwo(sha, Run(sha, w, [a, b]), c, d);
    EraseBegins(sha, w, a);
    var w1 := Next(sha, w, a);
    ClosureIsDue(sha, w1, call, early);
    var w2 := Next(sha, w1, b);
    AbortRestarts(sha, w2, call);
    ClosureIsDue(sha, Next(sha, w2, c), call, now);
  }

  lemma AbortRestarts(sha: Sha, w: World, call: nat)
    requires DueToCommit(w, call)
    ensures Next(sha, w, Abort(call)) == SetEraser(w, call, w.erasers[call].(pc := Start))
  {
    hide ReadsOf;
  }

  /** A due call commits and reads the head of the whole log. */
  lemma CommitsAndReads(sha: Sha, w: World, call: nat)
    requires WorldInv(sha, w) && DueToCommit(w, call)
    ensures var c, w' := w.erasers[call], Run(sha, w, [Commit(call, true), ReadHead(call)]);
            && WorldInv(sha, w') && c.res.Some? && call in w'.erasers
            && ErasedAs(sha, w.db, w'.db, c.subject, c.action, c.basis, c.pc.now, c.res.value)
            && w'.erasers[call] == c.(pc := Headed(Root(sha, Hashes(w'.db.log)), |w'.db.log|))
            && w'.commits == w.commits + [call]
  {
    hide Run, Next, Inv, DocsOk, CommitsOk, ErasersOk, SweepsOk, IngestsOk, EraserOk, ReadsOf, EraseTxn, ErasedAs,
         OnlyMoves, Extends, CommitStep, Root, Hashes, ValidAction, ValidBasis;
    var c, e := w.erasers[call], Commit(call, true);
    PlannedFacts(sha, w, call);
    CommitIffReadsHold(sha, w, e);
    CommitIsAtomic(sha, w, e);
    CommitKeeps(sha, w, e);
    EraseOutcome(sha, w.db, c.subject, c.action, c.basis, c.pc.now);
    CommitStepIs(sha, w, e);
    var w1 := Next(sha, w, e);
    RunOfTwo(sha, w, e, ReadHead(call));
    HeadReadIs(sha, w1, call);
    NextKeeps(sha, w1, ReadHead(call));
  }

  lemma CommitStepIs(sha: Sha, w: World, e: Event)
    requires e.Commit?
    ensures Next(sha, w, e) == CommitStep(sha, w, e)
  {
    hide CommitStep;
  }

  lemma HeadReadIs(sha: Sha, w: World, call: nat)
    requires WorldInv(sha, w) && call in w.erasers && w.erasers[call].pc.Returned?
    ensures Next(sha, w, ReadHead(call))
         == SetEraser(w, call, w.erasers[call].(pc := Headed(Root(sha, Hashes(w.db.log)), |w.db.log|)))
  {
    hide LifeInv, RecordInv, ProofInv, DocsOk, CommitsOk, ErasersOk, SweepsOk, IngestsOk, WellFormed, RowValid, Root;
    GaplessOrder(w.db.log);
  }

  /** What one erasure with a stored proof has done to the tables, in bytes. */
  ghost predicate ErasedWithProofStored(sha: Sha, db: Tables, w': World, s: SubjectId, c: EraseCall, now: nat, doc: Doc,
                                        reply: Reply) {
    var db', n := w'.db, |db.log|;
    && |db'.log| == n + 1 && db.log <= db'.log && RowSays(sha, db'.log, n, c) && db'.log[n].occurredAt == now
    && s in db.keys && db'.keys == db.keys - {s} && s in db'.records && db'.records - {s} == db.records - {s}
    && (var record := db'.records[s];
        && record.seqNo == n + 1 && record.fingerprint == db.keys[s].fingerprint && record.arn == db.keys[s].arn
        && reply.Anchored? && reply.canonical.Decoded?
        && record.proof == Some(StoredProof(reply.proofRef, reply.canonical.body, reply.signature, reply.signerPem)))
    && doc in w'.signed && Tells(sha, db', s, doc) && doc.treeSize == n + 1
  }

  /** From every reachable state a live subject's erasure can run to the answer with a proof, through an
      aborted attempt: the handler then answers with a proof, one row is appended, the key is gone, and
      the signer was sent a document of the whole tree and its reply is stored as it came. */
  lemma {:induction false} EraseReachesProof(sha: Sha, events: seq<Event>, call: nat, s: SubjectId, action: Bytes,
                                             basis: Bytes, early: nat, now: nat, shredded: string,
                                             cryptod: Doc -> Reply)
    returns (doc: Doc)
    requires var w := Run(sha, START, events); call !in w.erasers && s in w.db.keys
    requires ValidAction(action) && ValidBasis(basis)
    requires forall d :: Honest(d, cryptod(d)) && Stores(cryptod(d), true)
    ensures var plan := [BeginErase(call, s, action, basis), RunClosure(call, early)]
                        + [Abort(call), RunClosure(call, now)];
            var w := Run(sha, START, events);
            var w' := Run(sha, w, plan + [Commit(call, true), ReadHead(call)]
                                  + [Anchor(call, shredded, cryptod(doc), true)]);
            && call in w'.erasers && Over(w'.erasers[call]) && AnswerTo(w'.erasers[call]) == ErasedWithProof
            && (var c := w'.erasers[call];
                && c.subject == s && c.action == action && c.basis == basis
                && ErasedWithProofStored(sha, w.db, w', s, c, now, doc, cryptod(doc)))
  {
    hide Run, Next, WorldInv, DueToCommit, ErasedAs, Anchors, Stores, SentDoc, Honest, DocOf, ErasedWithProofStored,
         Root, Hashes, ValidAction, ValidBasis;
    var w := Run(sha, START, events);
    var plan := [BeginErase(call, s, action, basis), RunClosure(call, early)] + [Abort(call), RunClosure(call, now)];
    RunKeeps(sha, events);
    PlansAgain(sha, w, call, s, action, basis, early, now);
    RunMovesForward(sha, w, plan);
    var w1 := Run(sha, w, plan);
    CommitsAndReads(sha, w1, call);
    var w2 := Run(sha, w1, [Commit(call, true), ReadHead(call)]);
    RunInTwoParts(sha, w, plan, [Commit(call, true), ReadHead(call)]);
    var c := w2.erasers[call];
    doc := SentDoc(c.res.value, shredded, c.pc.root, c.pc.size);
    var e := Anchor(call, shredded, cryptod(doc), true);
    RunInTwoParts(sha, w, plan + [Commit(call, true), ReadHead(call)], [e]);
    RunOfOne(sha, w2, e);
    HeadedFacts(sha, w2, call, shredded);
    SentSize(c.res.value, shredded, c.pc.root, c.pc.size);
    AnchorOutcome(sha, w2, e);
    NextKeeps(sha, w2, e);
    SoundRows(sha, w2);
    ProofStored(sha, w.db, w2, Next(sha, w2, e), c, now, doc, cryptod(doc));
  }

  lemma SentSize(res: Result, shredded: string, root: Digest, size: nat)
    ensures SentDoc(res, shredded, root, size).treeSize == size
  {
  }

  lemma SoundRows(sha: Sha, w: World)
    requires WorldInv(sha, w)
    ensures LogInv(sha, w.db.log)
  {
    hide LogInv, LifeInv, RecordInv, ProofInv, DocsOk, CommitsOk, ErasersOk, SweepsOk, IngestsOk;
  }

  lemma ProofStored(sha: Sha, db: Tables, w: World, w': World, c: EraseCall, now: nat, doc: Doc, reply: Reply)
    requires c.res.Some? && ErasedAs(sha, db, w.db, c.subject, c.action, c.basis, now, c.res.value)
    requires c.pc == Headed(Root(sha, Hashes(w.db.log)), |w.db.log|) && LogInv(sha, w.db.log)
    requires Anchors(w, w', c.subject, doc, reply, true) && Stores(reply, true) && WorldInv(sha, w')
    requires c.subject in w.db.records && DocOf(sha, w.db.records[c.subject], c.subject, doc)
    requires doc.treeSize == |w.db.log|
    ensures ErasedWithProofStored(sha, db, w', c.subject, c.(pc := Finished(true)), now, doc, reply)
  {
    hide RowsOf, LogInv, WorldInv, Tells, RowSays, DocOf, Truthful, Root, Hashes;
    RowsAreLinked(sha, w.db.log);
    LinkedRowSays(sha, w.db.log, |db.log|, c.(pc := Finished(true)));
    SignedIsTruthful(sha, w', doc);
    DocOfSameRecord(sha, w.db.records[c.subject], w'.db.records[c.subject], c.subject, doc);
    TruthTells(sha, w'.db, c.subject, doc);
  }

  /** Before its commit a call can end in an error, and after it without a proof, which is then pending. */
  lemma CallsCanEnd(sha: Sha, w: World, call: nat)
    requires WorldInv(sha, w) && call in w.erasers
    ensures var c, failed, deferred := w.erasers[call], Next(sha, w, Fail(call)), Next(sha, w, Defer(call));
            && (c.pc.Start? || c.pc.Planned? ==> failed == SetEraser(w, call, c.(pc := Failed(DatabaseError))))
            && (c.pc.Returned? || c.pc.Headed? ==>
                  && call in deferred.erasers && deferred == SetEraser(w, call, deferred.erasers[call])
                  && Over(deferred.erasers[call]) && AnswerTo(deferred.erasers[call]) == ErasedProofPending)
  {
    hide Inv, DocsOk, CommitsOk, SweepsOk, IngestsOk, Matches, HeadOf;
    assert EraserOk(sha, w.db, w.commits, call, w.erasers[call]);
    if w.erasers[call].pc.Returned? || w.erasers[call].pc.Headed? {
      ResultSeqPositive(w.db, w.erasers[call]);
    }
  }
}
