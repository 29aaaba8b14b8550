/** What every run of the protocol guarantees to the callers of Erase, Ingest and the proof readers. */
module Protocol {
  import opened Hashing
  import opened Merkle
  import opened Chain
  import opened Tables
  import opened Erasure
  import opened Ingest
  import opened Runs

  predicate NilError(c: EraseCall) {
    c.pc.Returned? || c.pc.Headed? || c.pc.Finished?
  }

  predicate LinkedAt(sha: Sha, log: seq<LogRow>, i: nat)
    requires i < |log|
  {
    var row := log[i];
    && row.seqNo == i + 1 && row.prevHash == (if i == 0 then GenesisPrevHash() else log[i - 1].hash)
    && row.hash == Link(sha, row.prevHash, row.seqNo, row.action, row.basis, row.subjectHash)
  }

  lemma RowsAreLinked(sha: Sha, log: seq<LogRow>)
    requires LogInv(sha, log)
    ensures forall i :: 0 <= i < |log| ==> LinkedAt(sha, log, i)
  {
    forall i | 0 <= i < |log|
      ensures LinkedAt(sha, log, i)
    {
      assert RowValid(sha, log, i);
    }
  }

  /** Under any interleaving, with aborts, retries and lost acknowledgements: the log's seqs are 1..N and
      its rows are linked, rows, records and committed calls match one to one, and every nil-error
      result is its own committed row and record, its subject's key gone. */
  lemma {:induction false} GaplessUnderContention(sha: Sha, events: seq<Event>)
    ensures var w := Run(sha, START, events);
            && |w.db.log| == |w.db.records| == |w.commits|
            && (forall i :: 0 <= i < |w.db.log| ==> LinkedAt(sha, w.db.log, i))
            && (forall i :: 0 <= i < |w.commits| ==>
                  w.commits[i] in w.erasers && CommittedAt(w.db, w.erasers[w.commits[i]], i))
            && (forall call :: call in w.erasers && NilError(w.erasers[call]) ==> call in w.commits)
            && (forall a, b :: a in w.erasers && b in w.erasers && a != b
                               && NilError(w.erasers[a]) && NilError(w.erasers[b])
                  ==> ResultSeq(w.erasers[a]) != ResultSeq(w.erasers[b]))
  {
    hide Run, Matches, HeadOf, LogInv, LifeInv, ProofInv, DocsOk, SweepsOk, IngestsOk, RecordInv, ErasersOk,
         LinkedAt, CommittedAt;
    RunKeeps(sha, events);
    var w := Run(sha, START, events);
    RecordsMatchLog(sha, w.db);
    RowsAreLinked(sha, w.db.log);
    forall i | 0 <= i < |w.commits|
      ensures w.commits[i] in w.erasers && CommittedAt(w.db, w.erasers[w.commits[i]], i)
    {
      CommittedFacts(sha, w, w.commits[i], i);
    }
    forall call | call in w.erasers && NilError(w.erasers[call])
      ensures 1 <= ResultSeq(w.erasers[call]) <= |w.commits| && w.commits[ResultSeq(w.erasers[call]) - 1] == call
    {
      NilErrorFacts(sha, w, call);
    }
  }

  lemma RecordsMatchLog(sha: Sha, db: Tables)
    requires RecordInv(sha, db.log, db.records)
    ensures |db.records| == |db.log|
  {
  }

  /** The seq of a result, and 0, the zero value of the source's struct, without one. */
  function ResultSeq(c: EraseCall): int {
    if c.res.Some? then c.res.value.seqNo else 0
  }

  predicate CommittedAt(db: Tables, c: EraseCall, i: nat) {
    c.res.Some? && c.res.value.seqNo == i + 1 && Matches(db, c.subject, c.res.value) && c.subject !in db.keys
  }

  lemma MatchedKeyIsGone(db: Tables, s: SubjectId, res: Result)
    requires LifeInv(db) && Matches(db, s, res)
    ensures s !in db.keys
  {
    hide LifeInv;
    PhaseFacts(db, s);
  }

  lemma CommittedFacts(sha: Sha, w: World, call: nat, i: nat)
    requires WorldInv(sha, w) && i < |w.commits| && w.commits[i] == call
    ensures call in w.erasers && CommittedAt(w.db, w.erasers[call], i)
  {
    hide LogInv, LifeInv, RecordInv, ProofInv, Matches, HeadOf, DocsOk, SweepsOk, IngestsOk;
    assert EraserOk(sha, w.db, w.commits, call, w.erasers[call]);
    MatchedKeyIsGone(w.db, w.erasers[call].subject, w.erasers[call].res.value);
  }

  lemma NilErrorFacts(sha: Sha, w: World, call: nat)
    requires WorldInv(sha, w) && call in w.erasers && NilError(w.erasers[call])
    ensures var c := w.erasers[call];
            c.res.Some? && 1 <= c.res.value.seqNo <= |w.commits| && w.commits[c.res.value.seqNo - 1] == call
            && Matches(w.db, c.subject, c.res.value)
  {
    hide Inv, Matches, HeadOf, DocsOk, SweepsOk, IngestsOk;
    assert EraserOk(sha, w.db, w.commits, call, w.erasers[call]);
  }

  // ----- Phases -----

  /** At every point of every run each subject is in exactly one phase, from there on it only moves
      forward, and no insert of Erase or Ingest has hit a primary-key conflict. */
  lemma LifeCycle(sha: Sha, events: seq<Event>, more: seq<Event>, s: SubjectId)
    ensures var w, later := Run(sha, START, events), Run(sha, START, events + more);
            && (forall p :: InPhase(w.db, s, p) <==> p == PhaseOf(w.db, s))
            && Rank(PhaseOf(w.db, s)) <= Rank(PhaseOf(later.db, s))
            && (forall call :: call in w.erasers ==> w.erasers[call].pc != Failed(InsertConflict))
            && (forall call :: call in w.ingests ==> w.ingests[call].end != Some(Rejected(KeyConflict)))
  {
    hide Run, RowsOf, LogInv, RecordInv, ProofInv, DocsOk, SweepsOk, Matches, HeadOf, CommitsOk;
    RunKeeps(sha, events);
    var w := Run(sha, START, events);
    RunInTwoParts(sha, START, events, more);
    RunMovesForward(sha, w, more);
    PhaseFacts(w.db, s);
    forall call | call in w.erasers
      ensures w.erasers[call].pc != Failed(InsertConflict)
    {
      assert EraserOk(sha, w.db, w.commits, call, w.erasers[call]);
    }
  }

  /** One run of the closure names the phase it found. */
  lemma {:induction false} ClosureNamesPhase(sha: Sha, w: World, e: Event)
    requires WorldInv(sha, w) && e.RunClosure? && e.call in w.erasers && w.erasers[e.call].pc.Start?
    ensures var c := RunClosureStep(sha, w, e).erasers[e.call];
            match PhaseOf(w.db, c.subject)
            case Unknown => c.pc == Failed(SubjectNotFound)
            case Erased => c.pc == Failed(AlreadyErased)
            case Live => c.pc.Planned? && c.res.Some? && c.res.value.seqNo == |w.db.log| + 1
  {
    hide RecordInv, ProofInv, DocsOk, SweepsOk, CommitsOk, ErasersOk, RowsOf, ChainHead, Link, WellFormed, RowValid;
    PhaseFacts(w.db, w.erasers[e.call].subject);
    GaplessHead(w.db.log);
  }

  // ----- Proofs -----

  /** Every document ever sent for signing tells the truth, then and in every later state; every
      recorded proof body is such a document about its own subject, confirmed by cryptod. */
  lemma {:induction false} ProofsTellTheTruth(sha: Sha, events: seq<Event>, more: seq<Event>)
    ensures var w, later := Run(sha, START, events), Run(sha, START, events + more);
            && (forall doc :: doc in w.signed ==> Truthful(sha, w.db.log, doc) && Truthful(sha, later.db.log, doc))
            && (forall s :: s in w.db.records && w.db.records[s].proof.Some?
                            && w.db.records[s].proof.value.body.Canonical? ==>
                  var doc := w.db.records[s].proof.value.body.doc;
                  doc in w.confirmed && doc in w.signed && DocOf(sha, w.db.records[s], s, doc))
  {
    hide Run, LogInv, LifeInv, RecordInv, SweepsOk, CommitsOk, ErasersOk, IngestsOk, Truthful, DocOf;
    RunKeeps(sha, events);
    var w := Run(sha, START, events);
    RunInTwoParts(sha, START, events, more);
    RunMovesForward(sha, w, more);
    var later := Run(sha, START, events + more);
    LogGrows(w.db, later.db);
    forall doc | doc in w.signed
      ensures Truthful(sha, later.db.log, doc)
    {
      TruthfulStays(sha, w.db.log, later.db.log, doc);
    }
  }

  // ----- What the HTTP handler may conclude from a failed call -----

  /** The handler's answers to a call that is over. */
  datatype Answer = Conflict | NotFound | ErasureFailed | ErasedProofPending | ErasedWithProof

  predicate Over(c: EraseCall) {
    c.pc.Failed? || c.pc.Finished?
  }

  function AnswerTo(c: EraseCall): Answer
    requires Over(c)
  {
    match c.pc
    case Failed(AlreadyErased) => Conflict
    case Failed(SubjectNotFound) => NotFound
    case Finished(true) => ErasedWithProof
    case _ => if ResultSeq(c) == 0 then ErasureFailed else ErasedProofPending
  }

  /** An "erasure failed" answer is true: this call erased nothing. */
  lemma {:induction false} FailedMeansNotErased(sha: Sha, events: seq<Event>, call: nat)
    ensures var w := Run(sha, START, events);
            call in w.erasers && Over(w.erasers[call])
            && AnswerTo(w.erasers[call]) in {Conflict, NotFound, ErasureFailed}
            ==> call !in w.commits
  {
    hide Run, Inv, Matches, HeadOf, DocsOk, SweepsOk, IngestsOk, CommitsOk;
    RunKeeps(sha, events);
    var w := Run(sha, START, events);
    if call in w.erasers && call in w.commits && Over(w.erasers[call]) {
      assert EraserOk(sha, w.db, w.commits, call, w.erasers[call]);
      ResultSeqPositive(w.db, w.erasers[call]);
    }
  }

  lemma ResultSeqPositive(db: Tables, c: EraseCall)
    requires c.res.Some? && Matches(db, c.subject, c.res.value)
    ensures ResultSeq(c) > 0
  {
  }

  predicate ClaimsErased(c: EraseCall) {
    Over(c) && AnswerTo(c) in {ErasedProofPending, ErasedWithProof}
  }

  /** The erase call an event belongs to. */
  function EraserOf(e: Event): Option<nat> {
    if e.BeginErase? || e.RunClosure? || e.Commit? || e.Abort? || e.Fail? || e.ReadHead? || e.Anchor? || e.Defer?
    then Some(e.call) else None
  }

  /** A call changes only by its own events. */
  lemma OtherCallsUntouched(sha: Sha, w: World, e: Event, call: nat)
    requires call in w.erasers && EraserOf(e) != Some(call)
    ensures var w' := Next(sha, w, e);
            call in w'.erasers && w'.erasers[call] == w.erasers[call] && (call in w'.commits <==> call in w.commits)
  {
    hide Next;
    if EraserOf(e).None? {
      IngestAndSweepEvents(sha, w, e);
    } else if e.Commit? {
      CommitTouchesOne(sha, w, e);
    } else {
      EraserEvents(sha, w, e);
    }
  }

  lemma IngestAndSweepEvents(sha: Sha, w: World, e: Event)
    requires EraserOf(e).None?
    ensures Next(sha, w, e).erasers == w.erasers && Next(sha, w, e).commits == w.commits
  {
    hide ApplyProof, IngestTxn, Prepare, Request, Complete, Honest, InLog, ListsOnce, Leaves, Root, HeadBytes,
         PendingSet, Ids;
  }

  predicate TouchesOne(w: World, w': World, call: nat) {
    && w'.commits == w.commits
    && forall c :: c in w.erasers && c != call ==> c in w'.erasers && w'.erasers[c] == w.erasers[c]
  }

  lemma EraserEvents(sha: Sha, w: World, e: Event)
    requires EraserOf(e).Some? && !e.Commit?
    ensures TouchesOne(w, Next(sha, w, e), e.call)
  {
    hide TouchesOne, BeginEraseStep, RunClosureStep, GiveUpStep, ReadHeadStep, DeferStep, AnchorStep;
    match e
    case RunClosure(_, _) => ClosureTouchesOne(sha, w, e);
    case Anchor(_, _, _, _) => AnchorTouchesOne(w, e);
    case ReadHead(_) => ReadHeadTouchesOne(sha, w, e);
    case _ => EndsTouchOne(w, e);
  }

  lemma ClosureTouchesOne(sha: Sha, w: World, e: Event)
    requires e.RunClosure?
    ensures TouchesOne(w, RunClosureStep(sha, w, e), e.call)
  {
    hide PlannedRow, ReadsOf, ResultOf;
  }

  lemma AnchorTouchesOne(w: World, e: Event)
    requires e.Anchor?
    ensures TouchesOne(w, AnchorStep(w, e), e.call)
  {
    hide ApplyProof, LiveDoc, Complete, Honest, KeyStateOf;
  }

  lemma ReadHeadTouchesOne(sha: Sha, w: World, e: Event)
    requires e.ReadHead?
    ensures TouchesOne(w, ReadHeadStep(sha, w, e), e.call)
  {
    hide Leaves, Root;
  }

  lemma EndsTouchOne(w: World, e: Event)
    ensures e.BeginErase? ==> TouchesOne(w, BeginEraseStep(w, e), e.call)
    ensures e.Abort? || e.Fail? ==> TouchesOne(w, GiveUpStep(w, e), e.call)
    ensures e.Defer? ==> TouchesOne(w, DeferStep(w, e), e.call)
  {
    hide ValidAction, ValidBasis;
  }

  lemma CommitTouchesOne(sha: Sha, w: World, e: Event)
    requires e.Commit?
    ensures var w' := Next(sha, w, e);
            (w'.commits == w.commits || w'.commits == w.commits + [e.call])
            && forall call :: call in w.erasers && call != e.call ==>
                 call in w'.erasers && w'.erasers[call] == w.erasers[call]
  {
    hide PlannedRow, ReadsOf, ApplyErase;
  }

  /** An "erased" answer is true exactly when the call did not end in an error before its commit: res
      may then be left over from an attempt that was rolled back. */
  lemma {:induction false} ErasedClaimIsTrueIff(sha: Sha, w: World, e: Event, call: nat)
    requires WorldInv(sha, w) && call in w.erasers && !Over(w.erasers[call])
    ensures var w' := Next(sha, w, e);
            call in w'.erasers && (ClaimsErased(w'.erasers[call]) ==> (call in w'.commits <==> !e.Fail?))
  {
    hide WorldInv, Next, EraserOk;
    if EraserOf(e) != Some(call) {
      OtherCallsUntouched(sha, w, e, call);
    } else {
      EraserAfter(sha, w, e, call);
      OwnEvent(sha, w, e, call);
    }
  }

  lemma EraserAfter(sha: Sha, w: World, e: Event, call: nat)
    requires WorldInv(sha, w) && call in w.erasers
    ensures EraserOk(sha, w.db, w.commits, call, w.erasers[call])
    ensures var w' := Next(sha, w, e);
            call in w'.erasers ==> EraserOk(sha, w'.db, w'.commits, call, w'.erasers[call])
  {
    hide Next, Inv, DocsOk, SweepsOk, IngestsOk, CommitsOk, EraserOk;
    NextKeeps(sha, w, e);
  }

  lemma OwnEvent(sha: Sha, w: World, e: Event, call: nat)
    requires call in w.erasers && !Over(w.erasers[call]) && EraserOf(e) == Some(call)
    requires EraserOk(sha, w.db, w.commits, call, w.erasers[call])
    requires call in Next(sha, w, e).erasers ==>
               EraserOk(sha, Next(sha, w, e).db, Next(sha, w, e).commits, call, Next(sha, w, e).erasers[call])
    ensures var w' := Next(sha, w, e);
            call in w'.erasers && (ClaimsErased(w'.erasers[call]) ==> (call in w'.commits <==> !e.Fail?))
  {
    hide PlannedRow, ReadsOf, ApplyErase, ApplyProof, LiveDoc, Request, Complete, Honest, Leaves, Root,
         ValidAction, ValidBasis, Matches, HeadOf;
  }

  /** Once a call is over neither its answer nor its being committed changes. */
  lemma {:induction false} OverIsFinal(sha: Sha, w: World, e: Event, call: nat)
    requires call in w.erasers && Over(w.erasers[call])
    ensures var w' := Next(sha, w, e);
            call in w'.erasers && w'.erasers[call] == w.erasers[call] && (call in w'.commits <==> call in w.commits)
  {
    hide Next;
    if EraserOf(e) != Some(call) {
      OtherCallsUntouched(sha, w, e, call);
    } else {
      OverIgnores(sha, w, e, call);
    }
  }

  lemma OverIgnores(sha: Sha, w: World, e: Event, call: nat)
    requires call in w.erasers && Over(w.erasers[call]) && EraserOf(e) == Some(call)
    ensures Next(sha, w, e) == w
  {
    hide PlannedRow, ReadsOf, ApplyErase, LiveDoc, Complete, Honest, Leaves, Root, ValidAction, ValidBasis;
  }

  // ----- The same over whole runs -----

  /** The state of a call at the end of a run: over or not. */
  predicate IsOver(sha: Sha, events: seq<Event>, call: nat) {
    call in Run(sha, START, events).erasers && Over(Run(sha, START, events).erasers[call])
  }

  /** The event that ended a call. */
  function EndingEvent(sha: Sha, events: seq<Event>, call: nat): Event
    requires |events| > 0
  {
    var front := events[..|events| - 1];
    if |front| > 0 && IsOver(sha, front, call) then EndingEvent(sha, front, call) else events[|events| - 1]
  }

  /** Some attempt of the call got as far as a pending commit, so set res. */
  predicate Attempted(sha: Sha, events: seq<Event>, call: nat) {
    |events| > 0
    && (Attempted(sha, events[..|events| - 1], call)
        || (call in Run(sha, START, events).erasers && Run(sha, START, events).erasers[call].pc.Planned?))
  }

  /** res is set exactly when some attempt set it, to a positive seq. */
  lemma {:induction false} ResultIsAttempt(sha: Sha, events: seq<Event>, call: nat)
    ensures var w := Run(sha, START, events);
            if call in w.erasers
            then (w.erasers[call].res.Some? <==> Attempted(sha, events, call)) && SoundResult(w.erasers[call])
            else !Attempted(sha, events, call)
  {
    hide WorldInv, Next, SoundResult;
    if |events| > 0 {
      var front, e := events[..|events| - 1], events[|events| - 1];
      ResultIsAttempt(sha, front, call);
      RunKeeps(sha, front);
      StepSetsResult(sha, Run(sha, START, front), e, call);
    }
  }

  predicate SoundResult(c: EraseCall) {
    (c.res.Some? ==> c.res.value.seqNo > 0) && (c.pc.Planned? ==> c.res.Some?)
  }

  lemma StepSetsResult(sha: Sha, w: World, e: Event, call: nat)
    requires WorldInv(sha, w) && (call in w.erasers ==> SoundResult(w.erasers[call]))
    ensures var w' := Next(sha, w, e);
            && (call in w.erasers ==> call in w'.erasers)
            && (call in w'.erasers ==>
                  var c' := w'.erasers[call];
                  && SoundResult(c')
                  && (c'.res.Some? <==> (call in w.erasers && w.erasers[call].res.Some?) || c'.pc.Planned?))
  {
    hide Next;
    if call in w.erasers && EraserOf(e) != Some(call) {
      OtherCallsUntouched(sha, w, e, call);
    } else if EraserOf(e) == Some(call) {
      OwnEventSetsResult(sha, w, e);
    } else {
      NotYetBegun(sha, w, e, call);
    }
  }

  lemma NotYetBegun(sha: Sha, w: World, e: Event, call: nat)
    requires call !in w.erasers && EraserOf(e) != Some(call)
    ensures call !in Next(sha, w, e).erasers
  {
    hide PlannedRow, ReadsOf, ResultOf, ApplyErase, ApplyProof, IngestTxn, Prepare, LiveDoc, Request, Complete, Honest,
         InLog, ListsOnce, Leaves, Root, HeadBytes, PendingSet, Ids, ValidAction, ValidBasis;
  }

  lemma OwnEventSetsResult(sha: Sha, w: World, e: Event)
    requires WorldInv(sha, w) && EraserOf(e).Some? && (e.call in w.erasers ==> SoundResult(w.erasers[e.call]))
    ensures var w' := Next(sha, w, e);
            && (e.call in w.erasers ==> e.call in w'.erasers)
            && (e.call in w'.erasers ==>
                  var c' := w'.erasers[e.call];
                  && SoundResult(c')
                  && (c'.res.Some? <==> (e.call in w.erasers && w.erasers[e.call].res.Some?) || c'.pc.Planned?))
  {
    hide LifeInv, RecordInv, ProofInv, DocsOk, CommitsOk, ErasersOk, SweepsOk, IngestsOk, ReadsOf, ApplyErase,
         ApplyProof, LiveDoc, Complete, Honest, Leaves, Root, ValidAction, ValidBasis, PlannedRow, WellFormed, RowValid;
    if e.RunClosure? && e.call in w.erasers && w.erasers[e.call].pc.Start? {
      PlannedSeq(sha, w, e);
    }
  }

  lemma PlannedSeq(sha: Sha, w: World, e: Event)
    requires WorldInv(sha, w) && e.RunClosure? && e.call in w.erasers && w.erasers[e.call].pc.Start?
    ensures var c' := RunClosureStep(sha, w, e).erasers[e.call];
            if c'.pc.Planned? then c'.res.Some? && c'.res.value.seqNo > 0 else c'.res == w.erasers[e.call].res
  {
    hide LifeInv, RecordInv, ProofInv, DocsOk, SweepsOk, CommitsOk, ErasersOk, RowsOf, ChainHead, Link, WellFormed,
         RowValid;
    GaplessHead(w.db.log);
  }

  /** In every run: a call that is over was ended by an event of its own; its "erased" answer is true
      exactly when that event is not a failure before the commit; and the answer is false exactly when
      the call failed after some attempt of it had set res. */
  lemma {:induction false} ErasedAnswerInRun(sha: Sha, events: seq<Event>, call: nat)
    requires |events| > 0 && IsOver(sha, events, call)
    ensures var w, end := Run(sha, START, events), EndingEvent(sha, events, call);
            && EraserOf(end) == Some(call)
            && (ClaimsErased(w.erasers[call]) ==> (call in w.commits <==> !end.Fail?))
            && (ClaimsErased(w.erasers[call]) && call !in w.commits <==> end.Fail? && Attempted(sha, events, call))
  {
    hide WorldInv, Next, ClaimsErased, Over;
    ResultIsAttempt(sha, events, call);
    EndedBy(sha, events, call);
    FailedClaims(Run(sha, START, events).erasers[call]);
  }

  /** Only the Fail event leaves a call failed with the database error and not committed. */
  lemma {:induction false} EndedBy(sha: Sha, events: seq<Event>, call: nat)
    requires |events| > 0 && IsOver(sha, events, call)
    ensures var w, end := Run(sha, START, events), EndingEvent(sha, events, call);
            && EraserOf(end) == Some(call)
            && (ClaimsErased(w.erasers[call]) ==> (call in w.commits <==> !end.Fail?))
            && (end.Fail? ==> w.erasers[call].pc == Failed(DatabaseError))
  {
    hide WorldInv, Next, ClaimsErased, Over;
    var front, e := events[..|events| - 1], events[|events| - 1];
    var w := Run(sha, START, front);
    if |front| > 0 && IsOver(sha, front, call) {
      EndedBy(sha, front, call);
      OverIsFinal(sha, w, e, call);
    } else {
      RunKeeps(sha, front);
      NobodyAtStart(call);
      EndsNow(sha, w, e, call);
    }
  }

  lemma NobodyAtStart(call: nat)
    ensures call !in START.erasers
  {
  }

  lemma EndsNow(sha: Sha, w: World, e: Event, call: nat)
    requires WorldInv(sha, w) && !(call in w.erasers && Over(w.erasers[call]))
    requires call in Next(sha, w, e).erasers && Over(Next(sha, w, e).erasers[call])
    ensures var w' := Next(sha, w, e);
            && EraserOf(e) == Some(call)
            && (ClaimsErased(w'.erasers[call]) ==> (call in w'.commits <==> !e.Fail?))
            && (e.Fail? ==> w'.erasers[call].pc == Failed(DatabaseError))
  {
    hide WorldInv, Next, ClaimsErased;
    if call in w.erasers {
      if EraserOf(e) != Some(call) {
        OtherCallsUntouched(sha, w, e, call);
      }
      ErasedClaimIsTrueIff(sha, w, e, call);
      FailFails(sha, w, e);
    } else {
      if EraserOf(e) != Some(call) {
        NotYetBegun(sha, w, e, call);
      }
      BegunOver(sha, w, e);
    }
  }

  lemma FailFails(sha: Sha, w: World, e: Event)
    ensures e.Fail? && e.call in w.erasers && !Over(w.erasers[e.call]) && Over(Next(sha, w, e).erasers[e.call])
            ==> Next(sha, w, e).erasers[e.call].pc == Failed(DatabaseError)
  {
  }

  /** A call that is over as soon as it is begun claims nothing. */
  lemma BegunOver(sha: Sha, w: World, e: Event)
    requires EraserOf(e).Some? && e.call !in w.erasers
    requires e.call in Next(sha, w, e).erasers && Over(Next(sha, w, e).erasers[e.call])
    ensures e.BeginErase? && !ClaimsErased(Next(sha, w, e).erasers[e.call])
  {
    hide ValidAction, ValidBasis;
  }

  lemma FailedClaims(c: EraseCall)
    requires SoundResult(c)
    ensures c.pc == Failed(DatabaseError) ==> (ClaimsErased(c) <==> c.res.Some?)
  {
  }

  /** An attempt that set res and then failed before its commit: the handler answers that the erasure
      is done, with the subject still live and the log empty. */
  lemma ErasedClaimCanBeFalse(sha: Sha, s: SubjectId, content: Bytes, vector: Bytes, arn: string, fingerprint: Bytes)
    ensures var w := Run(sha, START, [BeginIngest(0, s, content, vector, arn, fingerprint), CommitIngest(0)]
                                     + [BeginErase(0, s, Ascii("erasure"), Ascii("gdpr_art_17")), RunClosure(0, 0),
                                        Fail(0)]);
            && 0 in w.erasers && Over(w.erasers[0]) && AnswerTo(w.erasers[0]) == ErasedProofPending
            && w.db.log == [] && PhaseOf(w.db, s) == Live && w.commits == []
  {
    hide Run, Next;
    var e0, e1 := BeginIngest(0, s, content, vector, arn, fingerprint), CommitIngest(0);
    var e2, e3, e4 := BeginErase(0, s, Ascii("erasure"), Ascii("gdpr_art_17")), RunClosure(0, 0), Fail(0);
    RunInTwoParts(sha, START, [e0, e1], [e2, e3, e4]);
    RunOfTwo(sha, START, e0, e1);
    FirstIngest(sha, e0, e1);
    var w := Run(sha, START, [e0, e1]);
    RunInTwoParts(sha, w, [e2], [e3, e4]);
    assert [e2] + [e3, e4] == [e2, e3, e4];
    RunOfOne(sha, w, e2);
    RunOfTwo(sha, Next(sha, w, e2), e3, e4);
    FailedAttempt(sha, w, e2, e3, e4);
  }

  lemma RunOfOne(sha: Sha, w: World, e: Event)
    ensures Run(sha, w, [e]) == Next(sha, w, e)
  {
    hide Next;
    assert [e][..0] == [];
  }

  lemma RunOfTwo(sha: Sha, w: World, e: Event, f: Event)
    ensures Run(sha, w, [e, f]) == Next(sha, Next(sha, w, e), f)
  {
    hide Next;
    assert [e, f][..1] == [e];
    RunOfOne(sha, w, e);
  }

  lemma FirstIngest(sha: Sha, e0: Event, e1: Event)
    requires e0.BeginIngest? && e1 == CommitIngest(e0.call)
    ensures var w := Next(sha, Next(sha, START, e0), e1);
            && w == START.(db := w.db, ingests := w.ingests) && e0.subject in w.db.keys
            && w.db.log == [] && w.db.records == map[]
  {
    hide HeadBytes;
  }

  lemma FailedAttempt(sha: Sha, w: World, e2: Event, e3: Event, e4: Event)
    requires e2.BeginErase? && e3.RunClosure? && e4.Fail? && e2.call == e3.call == e4.call && e2.call !in w.erasers
    requires ValidAction(e2.action) && ValidBasis(e2.basis)
    requires e2.subject in w.db.keys && w.db.log == []
    ensures var w' := Next(sha, Next(sha, Next(sha, w, e2), e3), e4);
            w'.db == w.db && w'.commits == w.commits && e2.call in w'.erasers
            && w'.erasers[e2.call].pc == Failed(DatabaseError) && ResultSeq(w'.erasers[e2.call]) == 1
  {
    hide Link, SubjectHash, ValidAction, ValidBasis;
  }

  // ----- The log during a sweep -----

  /** The erasure of call has run its closure and nothing it read has changed since. */
  predicate DueToCommit(w: World, call: nat) {
    && call in w.erasers && w.erasers[call].pc.Planned?
    && w.erasers[call].pc.seen == ReadsOf(w.db, w.erasers[call].subject)
  }

  lemma {:induction false} DueCommits(sha: Sha, w: World, call: nat)
    requires WorldInv(sha, w) && DueToCommit(w, call)
    ensures var s, w' := w.erasers[call].subject, Next(sha, w, Commit(call, true));
            && WorldInv(sha, w') && Extends(w.db, w'.db) && |w'.db.log| == |w.db.log| + 1
            && OnlyMoves(w.db, w'.db, s, Live, Erased)
            && (exists record: RecordRow :: record.proof.None? && record.seqNo == |w'.db.log|
                                 && w'.db.records == w.db.records[s := record])
            && w' == w.(db := w'.db, commits := w'.commits, erasers := w'.erasers)
            && w'.erasers.Keys == w.erasers.Keys
  {
    hide Inv, DocsOk, CommitsOk, ErasersOk, SweepsOk, IngestsOk, EraserOk, ReadsOf, EraseTxn, OnlyMoves, Extends,
         CommitStep, RowsOf, ValidAction, ValidBasis;
    var e, c := Commit(call, true), w.erasers[call];
    PlannedFacts(sha, w, call);
    CommitIffReadsHold(sha, w, e);
    CommitIsAtomic(sha, w, e);
    CommitKeeps(sha, w, e);
    EraseOutcome(sha, w.db, c.subject, c.action, c.basis, c.pc.now);
  }

  lemma RunOfThree(sha: Sha, w: World, a: Event, b: Event, c: Event)
    ensures Run(sha, w, [a, b, c]) == Next(sha, Next(sha, Next(sha, w, a), b), c)
  {
    hide Next;
    assert [a, b, c][..2] == [a, b];
    RunOfTwo(sha, w, a, b);
  }

  /** What a sweep that reads the head now will ask for next. */
  function SweptDoc(sha: Sha, w: World, sweep: nat): (doc: Doc)
    requires sweep in w.sweeps && w.sweeps[sweep].next < |w.sweeps[sweep].todo|
    ensures doc.treeSize == |Leaves(w.db.log)|
  {
    Request(w.sweeps[sweep].todo[w.sweeps[sweep].next], "wrapped_key_destroyed", Root(sha, Leaves(w.db.log)),
            |Leaves(w.db.log)|)
  }

  lemma HeadIsRead(sha: Sha, w: World, sweep: nat)
    requires WorldInv(sha, w) && sweep in w.sweeps && w.sweeps[sweep].head.None?
    ensures var c, leaves := w.sweeps[sweep], Leaves(w.db.log);
            && |leaves| == |w.db.log|
            && Next(sha, w, SweepHead(sweep))
            == w.(sweeps := w.sweeps[sweep := c.(head := Some((Root(sha, leaves), |leaves|)))])
  {
    hide LifeInv, RecordInv, ProofInv, DocsOk, CommitsOk, ErasersOk, SweepsOk, IngestsOk, WellFormed, RowValid, Root;
    GaplessOrder(w.db.log);
  }

  lemma DocIsAsked(sha: Sha, w: World, w2: World, sweep: nat, reply: Reply, recorded: bool)
    requires sweep in w.sweeps && w.sweeps[sweep].next < |w.sweeps[sweep].todo|
    requires sweep in w2.sweeps
             && w2.sweeps[sweep] == w.sweeps[sweep].(head := Some((Root(sha, Leaves(w.db.log)), |Leaves(w.db.log)|)))
    requires Honest(SweptDoc(sha, w, sweep), reply)
    ensures var w' := Next(sha, w2, SweepAnchor(sweep, reply, recorded));
            && SweptDoc(sha, w, sweep) in w'.signed && |w'.db.log| == |w2.db.log|
            && sweep in w'.sweeps && w'.sweeps[sweep].next == w.sweeps[sweep].next + 1
  {
    hide Request, Root, Leaves, Honest, Complete;
  }

  lemma StaysDue(w: World, w': World, call: nat)
    requires DueToCommit(w, call) && w'.db == w.db && w'.erasers == w.erasers
    ensures DueToCommit(w', call)
  {
  }

  /** An erasure can commit between a sweep's reading of the head and its next anchor: the log is then
      longer than the tree of the document the sweep asks for, which is truthful all the same. */
  lemma {:induction false} SweepUnderCommit(sha: Sha, w: World, sweep: nat, call: nat, reply: Reply, recorded: bool)
    requires WorldInv(sha, w) && DueToCommit(w, call)
    requires sweep in w.sweeps && w.sweeps[sweep].head.None? && w.sweeps[sweep].next < |w.sweeps[sweep].todo|
    requires Honest(SweptDoc(sha, w, sweep), reply)
    ensures var doc := SweptDoc(sha, w, sweep);
            var w' := Run(sha, w, [SweepHead(sweep), Commit(call, true), SweepAnchor(sweep, reply, recorded)]);
            && doc in w'.signed && Truthful(sha, w'.db.log, doc) && doc.treeSize == |w.db.log| == |w'.db.log| - 1
            && sweep in w'.sweeps && w'.sweeps[sweep].next == w.sweeps[sweep].next + 1
  {
    hide WorldInv, Next, Truthful, Extends, DueToCommit, Request, OnlyMoves;
    var a, b, c := SweepHead(sweep), Commit(call, true), SweepAnchor(sweep, reply, recorded);
    RunOfThree(sha, w, a, b, c);
    var w1 := Next(sha, w, a);
    var w2 := Next(sha, w1, b);
    NextKeeps(sha, w, a);
    HeadIsRead(sha, w, sweep);
    StaysDue(w, w1, call);
    DueCommits(sha, w1, call);
    NextKeeps(sha, w2, c);
    DocIsAsked(sha, w, w2, sweep, reply, recorded);
    SignedIsTruthful(sha, Next(sha, w2, c), SweptDoc(sha, w, sweep));
  }

  /** Ingesting a subject and running its erasure up to the pending commit. */
  function Attempt(call: nat, s: SubjectId, content: Bytes, vector: Bytes, arn: string, fingerprint: Bytes)
    : seq<Event>
  {
    [BeginIngest(call, s, content, vector, arn, fingerprint), CommitIngest(call)]
    + [BeginErase(call, s, Ascii("erasure"), Ascii("gdpr_art_17")), RunClosure(call, 0)]
  }

  predicate Unused(w: World, call: nat) {
    call !in w.ingests && call !in w.erasers
  }

  /** w' is w but for the calls begun and the key and row of s. */
  ghost predicate AttemptedIn(w: World, w': World, call: nat, s: SubjectId) {
    && DueToCommit(w', call) && w'.erasers[call].subject == s
    && w'.db.log == w.db.log && w'.db.records == w.db.records && OnlyMoves(w.db, w'.db, s, Unknown, Live)
    && w'.sweeps == w.sweeps && w'.erasers.Keys == w.erasers.Keys + {call} && w'.ingests.Keys == w.ingests.Keys + {call}
  }

  lemma AttemptIsDue(sha: Sha, w: World, call: nat, s: SubjectId, content: Bytes, vector: Bytes, arn: string,
                     fingerprint: Bytes)
    requires WorldInv(sha, w) && Unused(w, call) && PhaseOf(w.db, s) == Unknown
    ensures var w' := Run(sha, w, Attempt(call, s, content, vector, arn, fingerprint));
            WorldInv(sha, w') && AttemptedIn(w, w', call, s)
  {
    hide WorldInv, Next, Extends;
    var a, b := BeginIngest(call, s, content, vector, arn, fingerprint), CommitIngest(call);
    var c, d := BeginErase(call, s, Ascii("erasure"), Ascii("gdpr_art_17")), RunClosure(call, 0);
    RunInTwoParts(sha, w, [a, b], [c, d]);
    RunOfTwo(sha, w, a, b);
    RunMovesForward(sha, w, [a, b]);
    var w2 := Run(sha, w, [a, b]);
    RunOfTwo(sha, w2, c, d);
    RunMovesForward(sha, w2, [c, d]);
    IngestStores(sha, w, a);
    EraseBegins(sha, w2, c);
    ClosureIsDue(sha, Next(sha, w2, c), call, 0);
  }

  lemma IngestStores(sha: Sha, w: World, a: Event)
    requires WorldInv(sha, w) && a.BeginIngest? && a.call !in w.ingests && PhaseOf(w.db, a.subject) == Unknown
    ensures var w' := Next(sha, Next(sha, w, a), CommitIngest(a.call));
            && w' == w.(db := w'.db, ingests := w'.ingests) && w'.ingests.Keys == w.ingests.Keys + {a.call}
            && w'.db.log == w.db.log && w'.db.records == w.db.records
            && OnlyMoves(w.db, w'.db, a.subject, Unknown, Live)
  {
    hide Inv, DocsOk, CommitsOk, ErasersOk, SweepsOk, IngestsOk, Extends, OnlyMoves, IngestTxn, RowsOf, HeadBytes;
    var p := Prepare(a.call, a.subject, HeadBytes(w.db.log), a.content, a.vector, a.arn, a.fingerprint);
    IngestOutcome(sha, w.db, p);
  }

  lemma EraseBegins(sha: Sha, w: World, c: Event)
    requires c.BeginErase? && c.call !in w.erasers && ValidAction(c.action) && ValidBasis(c.basis)
    ensures Next(sha, w, c) == SetEraser(w, c.call, EraseCall(c.subject, c.action, c.basis, None, Start))
  {
    hide ValidAction, ValidBasis;
  }

  lemma ClosureIsDue(sha: Sha, w: World, call: nat, now: nat)
    requires call in w.erasers && w.erasers[call].pc.Start? && w.erasers[call].subject in w.db.keys
    ensures var c, w' := w.erasers[call], Next(sha, w, RunClosure(call, now));
            && w' == w.(erasers := w'.erasers) && w'.erasers.Keys == w.erasers.Keys
            && DueToCommit(w', call) && w'.erasers[call].pc.now == now
            && w'.erasers[call] == c.(pc := w'.erasers[call].pc, res := w'.erasers[call].res)
  {
    hide PlannedRow, ResultOf, ChainHead;
  }

  /** s is erased and its row the only one in the log, without a proof; the erasure of call 1 is due. */
  ghost predicate OneErasedOneDue(w: World, s: SubjectId) {
    && |w.db.log| == 1 && w.db.records.Keys == {s} && w.db.records[s].proof.None? && w.db.records[s].seqNo == 1
    && w.sweeps == map[] && DueToCommit(w, 1)
  }

  lemma TwoAttempts(sha: Sha, s: SubjectId, t: SubjectId, content: Bytes, vector: Bytes, arn: string,
                    fingerprint: Bytes)
    requires s != t
    ensures var w := Run(sha, START, Attempt(0, s, content, vector, arn, fingerprint) + [Commit(0, true)]
                                     + Attempt(1, t, content, vector, arn, fingerprint));
            WorldInv(sha, w) && OneErasedOneDue(w, s)
  {
    hide Run, Next, WorldInv, Attempt, DueToCommit, Extends, PhaseOf;
    var first := Attempt(0, s, content, vector, arn, fingerprint);
    var second := Attempt(1, t, content, vector, arn, fingerprint);
    NothingAtStart(s, t);
    StartIsSound(sha);
    AttemptIsDue(sha, START, 0, s, content, vector, arn, fingerprint);
    var w1 := Run(sha, START, first);
    DueCommits(sha, w1, 0);
    var w2 := Next(sha, w1, Commit(0, true));
    RunInTwoParts(sha, START, first, [Commit(0, true)]);
    RunOfOne(sha, w1, Commit(0, true));
    AttemptIsDue(sha, w2, 1, t, content, vector, arn, fingerprint);
    RunInTwoParts(sha, START, first + [Commit(0, true)], second);
  }

  lemma NothingAtStart(s: SubjectId, t: SubjectId)
    ensures PhaseOf(START.db, s) == PhaseOf(START.db, t) == Unknown && Unused(START, 0)
    ensures START.ingests.Keys == START.erasers.Keys == {} && START.sweeps == map[]
    ensures START.db.log == [] && START.db.records == map[]
  {
  }

  lemma SweepListsOne(sha: Sha, w: World, s: SubjectId)
    requires WorldInv(sha, w) && OneErasedOneDue(w, s)
    ensures var todo := [PendingOf(w.db.log, s, w.db.records[s])];
            Next(sha, w, BeginSweep(0, todo)) == w.(sweeps := map[0 := SweepCall(todo, None, 0, 0)])
  {
    hide LogInv, LifeInv, ProofInv, DocsOk, CommitsOk, ErasersOk, SweepsOk, IngestsOk, DueToCommit, Recorded;
    RecordsAreInLog(sha, w.db.log, w.db.records);
    ListsNothing(w.db.log, w.db.records);
    ListsOneMore(w.db.log, w.db.records, [], s);
    assert PendingSet(w.db.records) == {s};
  }

  /** Such a run from the empty tables: the sweep lists one row and reads a head of size one, a second
      erasure commits, and the document asked for is of a tree of one leaf while the log has two rows. */
  lemma LogGrowsDuringSweep(sha: Sha, s: SubjectId, t: SubjectId, content: Bytes, vector: Bytes, arn: string,
                            fingerprint: Bytes)
    requires s != t
    ensures var w := Run(sha, START, Attempt(0, s, content, vector, arn, fingerprint) + [Commit(0, true)]
                                     + Attempt(1, t, content, vector, arn, fingerprint));
            && s in w.db.records && 1 <= w.db.records[s].seqNo <= |w.db.log|
            && var todo := [PendingOf(w.db.log, s, w.db.records[s])];
               var w' := Run(sha, w, [BeginSweep(0, todo)]
                                     + [SweepHead(0), Commit(1, true), SweepAnchor(0, AnchorFailed, false)]);
               |w'.db.log| == 2 && exists doc :: doc in w'.signed && doc.treeSize == 1
  {
    hide Run, Next, WorldInv, Attempt, Truthful, Request, SweptDoc, AttemptedIn, Extends;
    RunKeeps(sha, []);
    TwoAttempts(sha, s, t, content, vector, arn, fingerprint);
    var w := Run(sha, START, Attempt(0, s, content, vector, arn, fingerprint) + [Commit(0, true)]
                             + Attempt(1, t, content, vector, arn, fingerprint));
    var todo := [PendingOf(w.db.log, s, w.db.records[s])];
    var rest := [SweepHead(0), Commit(1, true), SweepAnchor(0, AnchorFailed, false)];
    RunInTwoParts(sha, w, [BeginSweep(0, todo)], rest);
    RunOfOne(sha, w, BeginSweep(0, todo));
    SweepListsOne(sha, w, s);
    var w1 := Next(sha, w, BeginSweep(0, todo));
    NextKeeps(sha, w, BeginSweep(0, todo));
    StaysDue(w, w1, 1);
    SweepUnderCommit(sha, w1, 0, 1, AnchorFailed, false);
  }
}
