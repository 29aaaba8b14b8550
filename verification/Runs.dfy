/** The destroy-and-retain protocol as interleaved steps of any number of erasers, ingesters and
    reconcilers over the shared tables, and what every run of it keeps. */
module Runs {
  import opened Hashing
  import opened Merkle
  import opened Chain
  import opened Tables
  import opened Erasure
  import opened Ingest

  /** What the erasure closure reads; the commit goes through only if a re-read would give the same. */
  datatype Reads = Reads(key: Option<KeyRow>, recorded: bool, head: Option<LogRow>)

  function ReadsOf(db: Tables, s: SubjectId): Reads {
    Reads(if s in db.keys then Some(db.keys[s]) else None, s in db.records, ChainHead(db.log))
  }

  /** Where a call of EraseAndAnchor stands. */
  datatype ErasePc =
    | Start                                   // about to run the closure, first time or on a retry
    | Planned(seen: Reads, now: nat)         // the closure has run, its commit is pending
    | Failed(err: EraseError)                 // Erase returned an error
    | Returned                                // Erase returned nil
    | Headed(root: Digest, size: nat)         // the Merkle head is read, the anchor is pending
    | Finished(ok: bool)                      // EraseAndAnchor returned

  /** res is the variable the closure assigns; it survives an aborted attempt. */
  datatype EraseCall = EraseCall(subject: SubjectId, action: Bytes, basis: Bytes, res: Option<Result>, pc: ErasePc)

  /** content and vector are what the caller asked to store. */
  datatype IngestCall = IngestCall(content: Bytes, vector: Bytes, prepared: Prepared, end: Option<IngestEnd>)

  /** A reconciler: the rows it listed, the head it read once, and how far it has got. */
  datatype SweepCall = SweepCall(todo: seq<Pending>, head: Option<(Digest, nat)>, next: nat, anchored: nat)

  /** signed: every document ever sent to cryptod; confirmed: those answered with a complete reply;
      commits: the erase call behind each committed log row, acknowledged or not. */
  datatype World = World(db: Tables, erasers: map<nat, EraseCall>, ingests: map<nat, IngestCall>,
                         sweeps: map<nat, SweepCall>, signed: set<Doc>, confirmed: set<Doc>, commits: seq<nat>)

  const START: World := World(EMPTY, map[], map[], map[], {}, {}, [])

  datatype Event =
    | BeginErase(call: nat, subject: SubjectId, action: Bytes, basis: Bytes)
    | RunClosure(call: nat, now: nat)
    | Commit(call: nat, acknowledged: bool)
    | Abort(call: nat)
    | Fail(call: nat)
    | ReadHead(call: nat)
    | Anchor(call: nat, keyState: string, reply: Reply, recorded: bool)
    | Defer(call: nat)
    | BeginIngest(call: nat, subject: SubjectId, content: Bytes, vector: Bytes, arn: string, fingerprint: Bytes)
    | CommitIngest(call: nat)
    | BeginSweep(call: nat, todo: seq<Pending>)
    | SweepHead(call: nat)
    | SweepAnchor(call: nat, reply: Reply, recorded: bool)

  function SetEraser(w: World, call: nat, c: EraseCall): World { w.(erasers := w.erasers[call := c]) }

  /** The row and result that the closure computed from its reads. */
  function PlannedRow(sha: Sha, c: EraseCall): LogRow
    requires c.pc.Planned?
  {
    NextRow(sha, c.pc.seen.head, c.subject, c.action, c.basis, c.pc.now)
  }

  function BeginEraseStep(w: World, e: Event): World
    requires e.BeginErase?
  {
    if e.call in w.erasers then w
    else SetEraser(w, e.call, EraseCall(e.subject, e.action, e.basis, None,
                     if !ValidAction(e.action) then Failed(InvalidAction)
                     else if !ValidBasis(e.basis) then Failed(InvalidBasis) else Start))
  }

  /** One attempt: without a key row Erase returns at once, otherwise res is set and a commit is due. */
  function RunClosureStep(sha: Sha, w: World, e: Event): World
    requires e.RunClosure?
  {
    if e.call !in w.erasers || !w.erasers[e.call].pc.Start? then w
    else
      var c, seen := w.erasers[e.call], ReadsOf(w.db, w.erasers[e.call].subject);
      match seen.key
      case None => SetEraser(w, e.call, c.(pc := Failed(if seen.recorded then AlreadyErased else SubjectNotFound)))
      case Some(key) =>
        var planned := c.(pc := Planned(seen, e.now));
        SetEraser(w, e.call, planned.(res := Some(ResultOf(PlannedRow(sha, planned), key))))
  }

  /** Serializable commit: stale reads abort with 40001 and the closure runs again. The commit can go
      through without the caller learning of it. */
  function CommitStep(sha: Sha, w: World, e: Event): World
    requires e.Commit?
  {
    if e.call !in w.erasers || !w.erasers[e.call].pc.Planned? then w
    else
      var c := w.erasers[e.call];
      if ReadsOf(w.db, c.subject) != c.pc.seen || c.pc.seen.key.None? then SetEraser(w, e.call, c.(pc := Start))
      else
        match ApplyErase(w.db, c.subject, PlannedRow(sha, c), c.pc.seen.key.value)
        case None => SetEraser(w, e.call, c.(pc := Failed(InsertConflict)))
        case Some(db') =>
          SetEraser(w.(db := db', commits := w.commits + [e.call]), e.call,
                    c.(pc := if e.acknowledged then Returned else Failed(DatabaseError)))
  }

  /** A spurious 40001, or another error that ends the call; either way res keeps its value. */
  function GiveUpStep(w: World, e: Event): World
    requires e.Abort? || e.Fail?
  {
    if e.call !in w.erasers || !(w.erasers[e.call].pc.Start? || w.erasers[e.call].pc.Planned?) then w
    else SetEraser(w, e.call, w.erasers[e.call].(pc := if e.Abort? then Start else Failed(DatabaseError)))
  }

  function ReadHeadStep(sha: Sha, w: World, e: Event): World
    requires e.ReadHead?
  {
    if e.call !in w.erasers || !w.erasers[e.call].pc.Returned? then w
    else
      var leaves := Leaves(w.db.log);
      SetEraser(w, e.call, w.erasers[e.call].(pc := Headed(Root(sha, leaves), |leaves|)))
  }

  /** An error after the commit (the shred, or reading the tree head) leaves the proof to the reconciler. */
  function DeferStep(w: World, e: Event): World
    requires e.Defer?
  {
    if e.call !in w.erasers || !(w.erasers[e.call].pc.Returned? || w.erasers[e.call].pc.Headed?) then w
    else SetEraser(w, e.call, w.erasers[e.call].(pc := Finished(false)))
  }

  /** Sending a document to cryptod and storing a complete reply, unless set_proof_ref fails; a
      dishonest reply is not a step. */
  function AnchorDoc(w: World, s: SubjectId, doc: Doc, reply: Reply, recorded: bool): World {
    var asked := w.(signed := w.signed + {doc});
    if !Complete(reply) then asked
    else if !recorded then asked.(confirmed := w.confirmed + {doc})
    else asked.(confirmed := w.confirmed + {doc}, db := ApplyProof(w.db, s, ProofFrom(reply)))
  }

  function LiveDoc(s: SubjectId, res: Result, keyState: string, root: Digest, size: nat): Doc {
    Request(Pending(s, res.seqNo, res.fingerprint, res.arn, res.subjectHash, res.head, res.occurredAt), keyState, root,
            size)
  }

  /** The key state the document states: only imported material named in KMS is shredded there. */
  function KeyStateOf(res: Result, shredded: string): string {
    if res.origin == ImportedMaterial && res.arn != "" then shredded else "wrapped_key_destroyed"
  }

  function AnchorStep(w: World, e: Event): World
    requires e.Anchor?
  {
    if e.call !in w.erasers || !w.erasers[e.call].pc.Headed? || w.erasers[e.call].res.None? then w
    else
      var c := w.erasers[e.call];
      var doc := LiveDoc(c.subject, c.res.value, KeyStateOf(c.res.value, e.keyState), c.pc.root, c.pc.size);
      if !Honest(doc, e.reply) then w
      else SetEraser(AnchorDoc(w, c.subject, doc, e.reply, e.recorded), e.call,
                     c.(pc := Finished(Complete(e.reply) && e.recorded)))
  }

  /** The head is read and the keys are drawn before the transaction. */
  function BeginIngestStep(w: World, e: Event): World
    requires e.BeginIngest?
  {
    if e.call in w.ingests then w
    else
      var p := Prepare(e.call, e.subject, HeadBytes(w.db.log), e.content, e.vector, e.arn, e.fingerprint);
      w.(ingests := w.ingests[e.call := IngestCall(e.content, e.vector, p, None)])
  }

  function CommitIngestStep(w: World, e: Event): World
    requires e.CommitIngest?
  {
    if e.call !in w.ingests || w.ingests[e.call].end.Some? then w
    else
      var c := w.ingests[e.call];
      var (db', end) := IngestTxn(w.db, c.prepared);
      w.(db := db', ingests := w.ingests[e.call := c.(end := Some(end))])
  }

  function BeginSweepStep(w: World, e: Event): World
    requires e.BeginSweep?
  {
    if e.call in w.sweeps || !InLog(w.db.log, w.db.records) || !ListsOnce(w.db.log, w.db.records, e.todo)
       || Ids(e.todo) != PendingSet(w.db.records) then w
    else w.(sweeps := w.sweeps[e.call := SweepCall(e.todo, None, 0, 0)])
  }

  function SweepHeadStep(sha: Sha, w: World, e: Event): World
    requires e.SweepHead?
  {
    if e.call !in w.sweeps || w.sweeps[e.call].head.Some? then w
    else
      var leaves := Leaves(w.db.log);
      w.(sweeps := w.sweeps[e.call := w.sweeps[e.call].(head := Some((Root(sha, leaves), |leaves|)))])
  }

  function SweepAnchorStep(w: World, e: Event): World
    requires e.SweepAnchor?
  {
    if e.call !in w.sweeps || w.sweeps[e.call].head.None? || w.sweeps[e.call].next >= |w.sweeps[e.call].todo| then w
    else
      var c := w.sweeps[e.call];
      var p := c.todo[c.next];
      var doc := Request(p, "wrapped_key_destroyed", c.head.value.0, c.head.value.1);
      if !Honest(doc, e.reply) then w
      else
        var w' := AnchorDoc(w, p.subjectId, doc, e.reply, e.recorded);
        var c' := c.(next := c.next + 1,
                     anchored := if Complete(e.reply) && e.recorded then c.anchored + 1 else c.anchored);
        w'.(sweeps := w'.sweeps[e.call := c'])
  }

  function Next(sha: Sha, w: World, e: Event): World {
    match e
    case BeginErase(_, _, _, _) => BeginEraseStep(w, e)
    case RunClosure(_, _) => RunClosureStep(sha, w, e)
    case Commit(_, _) => CommitStep(sha, w, e)
    case Abort(_) => GiveUpStep(w, e)
    case Fail(_) => GiveUpStep(w, e)
    case ReadHead(_) => ReadHeadStep(sha, w, e)
    case Anchor(_, _, _, _) => AnchorStep(w, e)
    case Defer(_) => DeferStep(w, e)
    case BeginIngest(_, _, _, _, _, _) => BeginIngestStep(w, e)
    case CommitIngest(_) => CommitIngestStep(w, e)
    case BeginSweep(_, _) => BeginSweepStep(w, e)
    case SweepHead(_) => SweepHeadStep(sha, w, e)
    case SweepAnchor(_, _, _) => SweepAnchorStep(w, e)
  }

  function Run(sha: Sha, w: World, events: seq<Event>): World {
    if |events| == 0 then w else Next(sha, Run(sha, w, events[..|events| - 1]), events[|events| - 1])
  }

  // ----- Invariants -----

  /** The nil-error result of a call on s is the committed row, record and phase. */
  predicate Matches(db: Tables, s: SubjectId, res: Result) {
    && 1 <= res.seqNo <= |db.log|
    && (var row := db.log[res.seqNo - 1];
        row.hash == res.head && row.subjectHash == res.subjectHash && row.occurredAt == res.occurredAt)
    && PhaseOf(db, s) == Erased && s in db.records
    && db.records[s].seqNo == res.seqNo && db.records[s].fingerprint == res.fingerprint && db.records[s].arn == res.arn
  }

  /** root is the head over the first size leaves of the log. */
  predicate HeadOf(sha: Sha, log: seq<LogRow>, root: Digest, size: nat) {
    size <= |log| && root == Root(sha, Hashes(log)[..size])
  }

  predicate EraserOk(sha: Sha, db: Tables, commits: seq<nat>, call: nat, c: EraseCall) {
    match c.pc
    case Start => ValidAction(c.action) && ValidBasis(c.basis) && call !in commits
    case Planned(seen, now) =>
      ValidAction(c.action) && ValidBasis(c.basis) && call !in commits && seen.key.Some?
      && c.res == Some(ResultOf(PlannedRow(sha, c), seen.key.value))
    case Failed(err) =>
      && err != InsertConflict
      && (err == AlreadyErased ==> PhaseOf(db, c.subject) == Erased)
      && (call in commits ==> err == DatabaseError && c.res.Some? && Matches(db, c.subject, c.res.value)
                              && CommittedAs(commits, call, c.res.value.seqNo))
    case Returned => Successful(db, commits, call, c)
    case Headed(root, size) =>
      Successful(db, commits, call, c) && HeadOf(sha, db.log, root, size) && c.res.value.seqNo <= size
    case Finished(_) => Successful(db, commits, call, c)
  }

  predicate CommittedAs(commits: seq<nat>, call: nat, seqNo: int) {
    1 <= seqNo <= |commits| && commits[seqNo - 1] == call
  }

  predicate Successful(db: Tables, commits: seq<nat>, call: nat, c: EraseCall) {
    c.res.Some? && Matches(db, c.subject, c.res.value) && CommittedAs(commits, call, c.res.value.seqNo)
  }

  /** A listed row still describes its record, and the head a sweep read covers its row. */
  predicate SweepOk(sha: Sha, db: Tables, c: SweepCall) {
    && (forall i :: 0 <= i < |c.todo| ==> Describes(sha, db, c.todo[i]))
    && (c.head.Some? ==> HeadOf(sha, db.log, c.head.value.0, c.head.value.1)
                         && forall i :: 0 <= i < |c.todo| ==> c.todo[i].seqNo <= c.head.value.1)
  }

  predicate Describes(sha: Sha, db: Tables, p: Pending) {
    && p.subjectId in db.records && PointsAtOwnRow(sha, db.log, p.subjectId, db.records[p.subjectId])
    && p == PendingOf(db.log, p.subjectId, db.records[p.subjectId])
  }

  ghost predicate ProofsConfirmed(db: Tables, confirmed: set<Doc>) {
    forall s :: s in db.records && db.records[s].proof.Some? && db.records[s].proof.value.body.Canonical?
                ==> db.records[s].proof.value.body.doc in confirmed
  }

  ghost predicate DocsOk(sha: Sha, w: World) {
    && w.confirmed <= w.signed
    && (forall doc :: doc in w.signed ==> Truthful(sha, w.db.log, doc))
    && ProofsConfirmed(w.db, w.confirmed)
  }

  predicate CommitsOk(w: World) {
    && |w.commits| == |w.db.log|
    && (forall i :: 0 <= i < |w.commits| ==> w.commits[i] in w.erasers)
    && (forall i, j :: 0 <= i < j < |w.commits| ==> w.commits[i] != w.commits[j])
  }

  ghost predicate ErasersOk(sha: Sha, w: World) {
    forall call :: call in w.erasers ==> EraserOk(sha, w.db, w.commits, call, w.erasers[call])
  }

  ghost predicate SweepsOk(sha: Sha, w: World) {
    forall call :: call in w.sweeps ==> SweepOk(sha, w.db, w.sweeps[call])
  }

  ghost predicate IngestsOk(w: World) {
    forall call :: call in w.ingests ==>
      var c := w.ingests[call];
      && PreparedBy(call, c.prepared) && c.end != Some(Rejected(KeyConflict))
      && c.prepared.memory.content.plaintext == c.content && c.prepared.memory.embeddingSealed.plaintext == c.vector
  }

  ghost predicate WorldInv(sha: Sha, w: World) {
    && Inv(sha, w.db) && DocsOk(sha, w) && CommitsOk(w) && ErasersOk(sha, w) && SweepsOk(sha, w) && IngestsOk(w)
  }

  // ----- Facts that survive other calls' commits -----

  lemma MatchesStays(db: Tables, db': Tables, s: SubjectId, res: Result)
    requires Matches(db, s, res) && Extends(db, db')
    ensures Matches(db', s, res)
  {
    assert Rank(PhaseOf(db, s)) <= Rank(PhaseOf(db', s));
  }

  lemma HeadOfStays(sha: Sha, log: seq<LogRow>, log': seq<LogRow>, root: Digest, size: nat)
    requires HeadOf(sha, log, root, size) && log <= log'
    ensures HeadOf(sha, log', root, size)
  {
    assert Hashes(log')[..size] == Hashes(log)[..size];
  }

  lemma EraserStays(sha: Sha, db: Tables, db': Tables, commits: seq<nat>, commits': seq<nat>, call: nat, c: EraseCall)
    requires EraserOk(sha, db, commits, call, c) && Extends(db, db') && commits <= commits'
    requires call in commits' ==> call in commits
    ensures EraserOk(sha, db', commits', call, c)
  {
    hide Matches, HeadOf, PlannedRow, ValidAction;
    assert Rank(PhaseOf(db, c.subject)) <= Rank(PhaseOf(db', c.subject));
    if c.res.Some? && Matches(db, c.subject, c.res.value) {
      MatchesStays(db, db', c.subject, c.res.value);
    }
    if c.pc.Headed? {
      HeadOfStays(sha, db.log, db'.log, c.pc.root, c.pc.size);
    }
  }

  lemma DescribesStays(sha: Sha, db: Tables, db': Tables, p: Pending)
    requires Describes(sha, db, p) && Extends(db, db')
    ensures Describes(sha, db', p)
  {
    assert db'.log[p.seqNo - 1] == db.log[p.seqNo - 1];
  }

  lemma SweepStays(sha: Sha, db: Tables, db': Tables, c: SweepCall)
    requires SweepOk(sha, db, c) && Extends(db, db')
    ensures SweepOk(sha, db', c)
  {
    hide Describes, HeadOf;
    forall i | 0 <= i < |c.todo|
      ensures Describes(sha, db', c.todo[i])
    {
      DescribesStays(sha, db, db', c.todo[i]);
    }
    if c.head.Some? {
      HeadOfStays(sha, db.log, db'.log, c.head.value.0, c.head.value.1);
    }
  }

  /** After a commit that extends the tables, every call other than the committing one, every sweep and
      every signed document is as sound as before. */
  lemma OthersStay(sha: Sha, w: World, db': Tables, commits': seq<nat>)
    requires WorldInv(sha, w) && Extends(w.db, db') && w.commits <= commits'
    ensures forall call :: call in w.erasers && (call in commits' ==> call in w.commits)
                           ==> EraserOk(sha, db', commits', call, w.erasers[call])
    ensures forall call :: call in w.sweeps ==> SweepOk(sha, db', w.sweeps[call])
    ensures forall doc :: doc in w.signed ==> Truthful(sha, db'.log, doc)
  {
    hide Inv, Extends, EraserOk, SweepOk, Truthful, ProofsConfirmed;
    forall call | call in w.erasers && (call in commits' ==> call in w.commits)
      ensures EraserOk(sha, db', commits', call, w.erasers[call])
    {
      EraserStays(sha, w.db, db', w.commits, commits', call, w.erasers[call]);
    }
    forall call | call in w.sweeps
      ensures SweepOk(sha, db', w.sweeps[call])
    {
      SweepStays(sha, w.db, db', w.sweeps[call]);
    }
    LogGrows(w.db, db');
    forall doc | doc in w.signed
      ensures Truthful(sha, db'.log, doc)
    {
      TruthfulStays(sha, w.db.log, db'.log, doc);
    }
  }

  lemma LogGrows(db: Tables, db': Tables)
    requires Extends(db, db')
    ensures db.log <= db'.log
  {
  }

  // ----- Every step keeps the invariants -----

  lemma ExtendsReflexive(db: Tables)
    ensures Extends(db, db)
  {
  }

  /** A step that only changes one eraser's state. */
  lemma EraserStep(sha: Sha, w: World, call: nat, c: EraseCall)
    requires WorldInv(sha, w) && EraserOk(sha, w.db, w.commits, call, c)
    ensures WorldInv(sha, SetEraser(w, call, c))
  {
    hide Inv, EraserOk, SweepOk, Truthful, ProofsConfirmed;
  }

  lemma BeginEraseKeeps(sha: Sha, w: World, e: Event)
    requires WorldInv(sha, w) && e.BeginErase?
    ensures WorldInv(sha, BeginEraseStep(w, e))
  {
    hide Inv, SweepOk, Truthful, ProofsConfirmed, ValidAction, ValidBasis;
    if e.call !in w.erasers {
      assert e.call !in w.commits;
      EraserStep(sha, w, e.call, BeginEraseStep(w, e).erasers[e.call]);
    }
  }

  lemma RunClosureKeeps(sha: Sha, w: World, e: Event)
    requires WorldInv(sha, w) && e.RunClosure?
    ensures WorldInv(sha, RunClosureStep(sha, w, e))
  {
    hide Inv, SweepOk, Truthful, ProofsConfirmed, ValidAction, ValidBasis, ChainHead, NextRow;
    if e.call in w.erasers && w.erasers[e.call].pc.Start? {
      assert EraserOk(sha, w.db, w.commits, e.call, w.erasers[e.call]);
      EraserStep(sha, w, e.call, RunClosureStep(sha, w, e).erasers[e.call]);
    }
  }

  lemma GiveUpKeeps(sha: Sha, w: World, e: Event)
    requires WorldInv(sha, w) && (e.Abort? || e.Fail?)
    ensures WorldInv(sha, GiveUpStep(w, e))
  {
    hide Inv, SweepOk, Truthful, ProofsConfirmed, ValidAction, ValidBasis;
    if e.call in w.erasers && (w.erasers[e.call].pc.Start? || w.erasers[e.call].pc.Planned?) {
      assert EraserOk(sha, w.db, w.commits, e.call, w.erasers[e.call]);
      EraserStep(sha, w, e.call, GiveUpStep(w, e).erasers[e.call]);
    }
  }

  lemma ReadHeadKeeps(sha: Sha, w: World, e: Event)
    requires WorldInv(sha, w) && e.ReadHead?
    ensures WorldInv(sha, ReadHeadStep(sha, w, e))
  {
    hide SweepOk, Truthful, ProofsConfirmed, ValidAction, ValidBasis, LifeInv, RecordInv, ProofInv, Root, Matches;
    if e.call in w.erasers && w.erasers[e.call].pc.Returned? {
      var c := w.erasers[e.call];
      assert EraserOk(sha, w.db, w.commits, e.call, c);
      CurrentHead(sha, w.db.log);
      SuccessInLog(w.db, w.commits, e.call, c);
      EraserStep(sha, w, e.call, ReadHeadStep(sha, w, e).erasers[e.call]);
    }
  }

  lemma SuccessInLog(db: Tables, commits: seq<nat>, call: nat, c: EraseCall)
    requires Successful(db, commits, call, c)
    ensures 1 <= c.res.value.seqNo <= |db.log|
  {
  }

  lemma CurrentHead(sha: Sha, log: seq<LogRow>)
    requires LogInv(sha, log)
    ensures HeadOf(sha, log, Root(sha, Leaves(log)), |Leaves(log)|) && |Leaves(log)| == |log|
  {
    hide LogInv, Root;
    GaplessLog(sha, log);
    assert Hashes(log)[..|log|] == Hashes(log);
  }

  /** A commit that goes through is one atomic run of Erase on the tables of that moment, whatever
      happened since the closure read them. */
  lemma {:induction false} CommitIsAtomic(sha: Sha, w: World, e: Event)
    requires WorldInv(sha, w) && e.Commit? && e.call in w.erasers && CommitStep(sha, w, e).commits != w.commits
    ensures var c, w' := w.erasers[e.call], CommitStep(sha, w, e);
            && c.pc.Planned? && c.res.Some? && w'.commits == w.commits + [e.call]
            && EraseTxn(sha, w.db, c.subject, c.action, c.basis, c.pc.now) == (w'.db, Committed(c.res.value))
            && w'.erasers == w.erasers[e.call := c.(pc := if e.acknowledged then Returned else Failed(DatabaseError))]
            && w' == w.(db := w'.db, commits := w'.commits, erasers := w'.erasers)
  {
    hide Inv, DocsOk, CommitsOk, SweepsOk, ChainHead, NextRow, ValidAction, ValidBasis, Matches, HeadOf;
    assert EraserOk(sha, w.db, w.commits, e.call, w.erasers[e.call]);
  }

  lemma PlannedFacts(sha: Sha, w: World, call: nat)
    requires WorldInv(sha, w) && call in w.erasers && w.erasers[call].pc.Planned?
    ensures var c := w.erasers[call];
            && EraserOk(sha, w.db, w.commits, call, c) && ValidAction(c.action) && ValidBasis(c.basis)
            && call !in w.commits && c.pc.seen.key.Some? && EraserOk(sha, w.db, w.commits, call, c.(pc := Start))
  {
    hide Inv, DocsOk, CommitsOk, SweepsOk, ChainHead, NextRow, ValidAction, ValidBasis, Matches, HeadOf;
  }

  /** The commit goes through exactly when a re-read would give what the closure saw; otherwise the
      call is back at the start, and never at a primary-key conflict. */
  lemma {:induction false} CommitIffReadsHold(sha: Sha, w: World, e: Event)
    requires WorldInv(sha, w) && e.Commit? && e.call in w.erasers && w.erasers[e.call].pc.Planned?
    ensures var c, w' := w.erasers[e.call], CommitStep(sha, w, e);
            && (w'.commits != w.commits <==> ReadsOf(w.db, c.subject) == c.pc.seen)
            && (w'.commits == w.commits ==> w' == SetEraser(w, e.call, c.(pc := Start)))
  {
    hide LogInv, LifeInv, RecordInv, ProofInv, DocsOk, CommitsOk, SweepsOk, ChainHead, NextRow, ValidAction, ValidBasis,
         ApplyErase, Extends, OnlyMoves, EraserOk;
    PlannedFacts(sha, w, e.call);
    var c := w.erasers[e.call];
    if ReadsOf(w.db, c.subject) == c.pc.seen {
      ValidActionHasNoBar(c.action);
      EraseCommits(sha, w.db, c.subject, c.action, c.basis, c.pc.now);
    }
  }

  lemma NowCommitted(sha: Sha, db: Tables, commits: seq<nat>, call: nat, c: EraseCall)
    requires c.pc == Returned || c.pc == Failed(DatabaseError)
    requires c.res.Some? && Matches(db, c.subject, c.res.value)
    requires |commits| == c.res.value.seqNo > 0 && commits[|commits| - 1] == call
    ensures EraserOk(sha, db, commits, call, c)
  {
    hide Matches;
  }

  lemma CommittedMatches(sha: Sha, db: Tables, db': Tables, s: SubjectId, action: Bytes, basis: Bytes, now: nat,
                         res: Result)
    requires ErasedAs(sha, db, db', s, action, basis, now, res) && OnlyMoves(db, db', s, Live, Erased)
    ensures Matches(db', s, res)
  {
    hide RowsOf;
  }

  lemma EraseKeepsConfirmed(sha: Sha, db: Tables, db': Tables, s: SubjectId, action: Bytes, basis: Bytes, now: nat,
                            res: Result, confirmed: set<Doc>)
    requires ErasedAs(sha, db, db', s, action, basis, now, res) && ProofsConfirmed(db, confirmed)
    ensures ProofsConfirmed(db', confirmed) && |db'.log| == |db.log| + 1 == res.seqNo
  {
    hide RowsOf;
  }

  lemma {:induction false} CommitKeeps(sha: Sha, w: World, e: Event)
    requires WorldInv(sha, w) && e.Commit?
    ensures WorldInv(sha, CommitStep(sha, w, e)) && Extends(w.db, CommitStep(sha, w, e).db)
  {
    hide Inv, EraserOk, SweepOk, Truthful, ProofsConfirmed, Extends, EraseTxn, ErasedAs, OnlyMoves, Matches,
         ValidAction, ValidBasis;
    ExtendsReflexive(w.db);
    var w' := CommitStep(sha, w, e);
    if e.call in w.erasers && w.erasers[e.call].pc.Planned? {
      var c := w.erasers[e.call];
      PlannedFacts(sha, w, e.call);
      CommitIffReadsHold(sha, w, e);
      if w'.commits == w.commits {
        EraserStep(sha, w, e.call, c.(pc := Start));
      } else {
        CommitIsAtomic(sha, w, e);
        EraseOutcome(sha, w.db, c.subject, c.action, c.basis, c.pc.now);
        CommittedMatches(sha, w.db, w'.db, c.subject, c.action, c.basis, c.pc.now, c.res.value);
        EraseKeepsConfirmed(sha, w.db, w'.db, c.subject, c.action, c.basis, c.pc.now, c.res.value, w.confirmed);
        OthersStay(sha, w, w'.db, w'.commits);
        NowCommitted(sha, w'.db, w'.commits, e.call, w'.erasers[e.call]);
      }
    }
  }

  /** Asking cryptod to sign a truthful document about s, and storing its reply. */
  lemma AnchorDocKeeps(sha: Sha, w: World, s: SubjectId, doc: Doc, reply: Reply, recorded: bool)
    requires WorldInv(sha, w) && s in w.db.records && Honest(doc, reply)
    requires Truthful(sha, w.db.log, doc) && DocOf(sha, w.db.records[s], s, doc)
    ensures var w' := AnchorDoc(w, s, doc, reply, recorded);
            WorldInv(sha, w') && Extends(w.db, w'.db)
            && w' == w.(db := w'.db, signed := w'.signed, confirmed := w'.confirmed)
  {
    hide LogInv, LifeInv, RecordInv, ProofInv, EraserOk, SweepOk, Truthful, DocOf, Extends;
    ExtendsReflexive(w.db);
    if Complete(reply) && recorded {
      ProofCommits(sha, w.db, s, ProofFrom(reply));
      OthersStay(sha, w, AnchorDoc(w, s, doc, reply, recorded).db, w.commits);
    }
  }

  /** The document of a returned call is truthful about its subject. */
  lemma LiveDocTruthful(sha: Sha, db: Tables, s: SubjectId, res: Result, keyState: string, root: Digest, size: nat)
    requires RecordInv(sha, db.log, db.records) && Matches(db, s, res)
    requires HeadOf(sha, db.log, root, size) && res.seqNo <= size
    ensures var doc := LiveDoc(s, res, keyState, root, size);
            s in db.records && Truthful(sha, db.log, doc) && DocOf(sha, db.records[s], s, doc)
  {
    hide Truthful, DocOf, Hashes;
    assert PointsAtOwnRow(sha, db.log, s, db.records[s]);
    RequestTruthful(sha, db.log, s, db.records[s], keyState, size);
  }

  lemma {:induction false} AnchorKeeps(sha: Sha, w: World, e: Event)
    requires WorldInv(sha, w) && e.Anchor?
    ensures WorldInv(sha, AnchorStep(w, e)) && Extends(w.db, AnchorStep(w, e).db)
  {
    hide LogInv, LifeInv, ProofInv, RecordInv, SweepOk, Truthful, DocOf, Extends, Matches, HeadOf, LiveDoc, Honest,
         KeyStateOf, DocsOk, CommitsOk, SweepsOk;
    ExtendsReflexive(w.db);
    if e.call in w.erasers && w.erasers[e.call].pc.Headed? && w.erasers[e.call].res.Some? {
      var c := w.erasers[e.call];
      assert EraserOk(sha, w.db, w.commits, e.call, c);
      var doc := LiveDoc(c.subject, c.res.value, KeyStateOf(c.res.value, e.keyState), c.pc.root, c.pc.size);
      LiveDocTruthful(sha, w.db, c.subject, c.res.value, KeyStateOf(c.res.value, e.keyState), c.pc.root, c.pc.size);
      if Honest(doc, e.reply) {
        var asked := AnchorDoc(w, c.subject, doc, e.reply, e.recorded);
        AnchorDocKeeps(sha, w, c.subject, doc, e.reply, e.recorded);
        assert EraserOk(sha, asked.db, asked.commits, e.call, asked.erasers[e.call]);
        EraserStep(sha, asked, e.call, c.(pc := Finished(Complete(e.reply) && e.recorded)));
      }
    }
  }

  lemma BeginIngestKeeps(sha: Sha, w: World, e: Event)
    requires WorldInv(sha, w) && e.BeginIngest?
    ensures WorldInv(sha, BeginIngestStep(w, e))
  {
    hide Inv, EraserOk, SweepOk, Truthful, ProofsConfirmed, HeadBytes;
  }

  lemma {:induction false} CommitIngestKeeps(sha: Sha, w: World, e: Event)
    requires WorldInv(sha, w) && e.CommitIngest?
    ensures WorldInv(sha, CommitIngestStep(w, e)) && Extends(w.db, CommitIngestStep(w, e).db)
  {
    hide Inv, EraserOk, SweepOk, Truthful, Extends, IngestTxn;
    ExtendsReflexive(w.db);
    if e.call in w.ingests && w.ingests[e.call].end.None? {
      var p := w.ingests[e.call].prepared;
      assert PreparedBy(e.call, p);
      IngestOutcome(sha, w.db, p);
      OthersStay(sha, w, IngestTxn(w.db, p).0, w.commits);
    }
  }

  /** A step that only changes one sweep's state. */
  lemma SweepStep(sha: Sha, w: World, call: nat, c: SweepCall)
    requires WorldInv(sha, w) && SweepOk(sha, w.db, c)
    ensures WorldInv(sha, w.(sweeps := w.sweeps[call := c]))
  {
    hide Inv, EraserOk, SweepOk, Truthful, ProofsConfirmed;
  }

  lemma BeginSweepKeeps(sha: Sha, w: World, e: Event)
    requires WorldInv(sha, w) && e.BeginSweep?
    ensures WorldInv(sha, BeginSweepStep(w, e))
  {
    hide LogInv, LifeInv, ProofInv, EraserOk, Truthful, ProofsConfirmed, PendingOf, Ids, IsPending, PendingSet,
         PointsAtOwnRow, DocsOk, ErasersOk;
    if e.call !in w.sweeps && InLog(w.db.log, w.db.records) && ListsOnce(w.db.log, w.db.records, e.todo) {
      forall i | 0 <= i < |e.todo|
        ensures Describes(sha, w.db, e.todo[i])
      {
        assert Listed(w.db.log, w.db.records, e.todo, i);
      }
      SweepStep(sha, w, e.call, SweepCall(e.todo, None, 0, 0));
    }
  }

  lemma DescribesInLog(sha: Sha, db: Tables, p: Pending)
    requires Describes(sha, db, p)
    ensures 1 <= p.seqNo <= |db.log|
  {
  }

  lemma SweepHeadKeeps(sha: Sha, w: World, e: Event)
    requires WorldInv(sha, w) && e.SweepHead?
    ensures WorldInv(sha, SweepHeadStep(sha, w, e))
  {
    hide LogInv, LifeInv, ProofInv, RecordInv, EraserOk, DocsOk, ErasersOk, Describes, HeadOf, Leaves, Root;
    if e.call in w.sweeps && w.sweeps[e.call].head.None? {
      var c := w.sweeps[e.call];
      assert SweepOk(sha, w.db, c);
      CurrentHead(sha, w.db.log);
      forall i | 0 <= i < |c.todo|
        ensures c.todo[i].seqNo <= |w.db.log|
      {
        DescribesInLog(sha, w.db, c.todo[i]);
      }
      SweepStep(sha, w, e.call, SweepHeadStep(sha, w, e).sweeps[e.call]);
    }
  }

  /** The document of a listed row and a head that covers it is truthful about its subject. */
  lemma ListedDocTruthful(sha: Sha, db: Tables, p: Pending, root: Digest, size: nat)
    requires Describes(sha, db, p) && HeadOf(sha, db.log, root, size) && p.seqNo <= size
    ensures var doc := Request(p, "wrapped_key_destroyed", root, size);
            && p.subjectId in db.records && Truthful(sha, db.log, doc)
            && DocOf(sha, db.records[p.subjectId], p.subjectId, doc)
  {
    hide Truthful, DocOf, Hashes;
    RequestTruthful(sha, db.log, p.subjectId, db.records[p.subjectId], "wrapped_key_destroyed", size);
  }

  lemma SweepFacts(sha: Sha, w: World, call: nat)
    requires WorldInv(sha, w) && call in w.sweeps
    ensures SweepOk(sha, w.db, w.sweeps[call])
  {
    hide Inv, EraserOk, SweepOk, Truthful, ProofsConfirmed;
  }

  lemma {:induction false} SweepAnchorKeeps(sha: Sha, w: World, e: Event)
    requires WorldInv(sha, w) && e.SweepAnchor?
    ensures WorldInv(sha, SweepAnchorStep(w, e)) && Extends(w.db, SweepAnchorStep(w, e).db)
  {
    hide WorldInv, Truthful, DocOf, Extends, HeadOf, Honest, Describes, Request, Root, Hashes, AnchorDoc, Complete;
    ExtendsReflexive(w.db);
    if e.call in w.sweeps && w.sweeps[e.call].head.Some? && w.sweeps[e.call].next < |w.sweeps[e.call].todo| {
      var c := w.sweeps[e.call];
      SweepFacts(sha, w, e.call);
      var p := c.todo[c.next];
      var doc := Request(p, "wrapped_key_destroyed", c.head.value.0, c.head.value.1);
      ListedDocTruthful(sha, w.db, p, c.head.value.0, c.head.value.1);
      if Honest(doc, e.reply) {
        var asked := AnchorDoc(w, p.subjectId, doc, e.reply, e.recorded);
        AnchorDocKeeps(sha, w, p.subjectId, doc, e.reply, e.recorded);
        SweepFacts(sha, asked, e.call);
        SweepStep(sha, asked, e.call,
                  c.(next := c.next + 1,
                     anchored := if Complete(e.reply) && e.recorded then c.anchored + 1 else c.anchored));
      }
    }
  }

  lemma DeferKeeps(sha: Sha, w: World, e: Event)
    requires WorldInv(sha, w) && e.Defer?
    ensures WorldInv(sha, DeferStep(w, e))
  {
    hide Inv, SweepOk, Truthful, ProofsConfirmed, Matches, HeadOf;
    if e.call in w.erasers && (w.erasers[e.call].pc.Returned? || w.erasers[e.call].pc.Headed?) {
      assert EraserOk(sha, w.db, w.commits, e.call, w.erasers[e.call]);
      EraserStep(sha, w, e.call, DeferStep(w, e).erasers[e.call]);
    }
  }

  lemma {:induction false} NextKeeps(sha: Sha, w: World, e: Event)
    requires WorldInv(sha, w)
    ensures WorldInv(sha, Next(sha, w, e)) && Extends(w.db, Next(sha, w, e).db)
  {
    hide WorldInv, Extends, BeginEraseStep, RunClosureStep, CommitStep, GiveUpStep, ReadHeadStep, AnchorStep, DeferStep,
         BeginIngestStep, CommitIngestStep, BeginSweepStep, SweepHeadStep, SweepAnchorStep;
    ExtendsReflexive(w.db);
    if !e.Commit? && !e.Anchor? && !e.CommitIngest? && !e.SweepAnchor? {
      QuietSteps(sha, w, e);
    }
    match e
    case BeginErase(_, _, _, _) => BeginEraseKeeps(sha, w, e);
    case RunClosure(_, _) => RunClosureKeeps(sha, w, e);
    case Commit(_, _) => CommitKeeps(sha, w, e);
    case Abort(_) => GiveUpKeeps(sha, w, e);
    case Fail(_) => GiveUpKeeps(sha, w, e);
    case ReadHead(_) => ReadHeadKeeps(sha, w, e);
    case Anchor(_, _, _, _) => AnchorKeeps(sha, w, e);
    case Defer(_) => DeferKeeps(sha, w, e);
    case BeginIngest(_, _, _, _, _, _) => BeginIngestKeeps(sha, w, e);
    case CommitIngest(_) => CommitIngestKeeps(sha, w, e);
    case BeginSweep(_, _) => BeginSweepKeeps(sha, w, e);
    case SweepHead(_) => SweepHeadKeeps(sha, w, e);
    case SweepAnchor(_, _, _) => SweepAnchorKeeps(sha, w, e);
  }

  /** Only commits and recorded proofs touch the tables. */
  lemma QuietSteps(sha: Sha, w: World, e: Event)
    requires !e.Commit? && !e.Anchor? && !e.CommitIngest? && !e.SweepAnchor?
    ensures Next(sha, w, e).db == w.db
  {
    hide Inv, InLog, ListsOnce, Ids, PendingSet, Root, Leaves, NextRow, ReadsOf, HeadBytes, ValidAction, ValidBasis;
  }

  lemma StartIsSound(sha: Sha)
    ensures WorldInv(sha, START)
  {
    assert Hashes([]) == [];
  }

  /** Along every run the log only grows, records stay and phases only move forward. */
  lemma {:induction false} RunMovesForward(sha: Sha, w: World, events: seq<Event>)
    requires WorldInv(sha, w)
    ensures WorldInv(sha, Run(sha, w, events)) && Extends(w.db, Run(sha, w, events).db)
  {
    hide WorldInv, Next, Extends;
    if |events| == 0 {
      ExtendsReflexive(w.db);
    } else {
      var before := Run(sha, w, events[..|events| - 1]);
      RunMovesForward(sha, w, events[..|events| - 1]);
      NextKeeps(sha, before, events[|events| - 1]);
      ExtendsTransitive(w.db, before.db, Run(sha, w, events).db);
    }
  }

  /** Every reachable state is sound. */
  lemma RunKeeps(sha: Sha, events: seq<Event>)
    ensures WorldInv(sha, Run(sha, START, events))
  {
    StartIsSound(sha);
    RunMovesForward(sha, START, events);
  }

  lemma SignedIsTruthful(sha: Sha, w: World, doc: Doc)
    requires WorldInv(sha, w) && doc in w.signed
    ensures Truthful(sha, w.db.log, doc)
  {
    hide Inv, CommitsOk, ErasersOk, SweepsOk, IngestsOk, Truthful, ProofsConfirmed;
  }

  lemma {:induction false} RunInTwoParts(sha: Sha, w: World, before: seq<Event>, after: seq<Event>)
    ensures Run(sha, w, before + after) == Run(sha, Run(sha, w, before), after)
  {
    hide Next;
    if |after| == 0 {
      assert before + after == before;
    } else {
      assert (before + after)[..|before + after| - 1] == before + after[..|after| - 1];
      RunInTwoParts(sha, w, before, after[..|after| - 1]);
    }
  }
}
