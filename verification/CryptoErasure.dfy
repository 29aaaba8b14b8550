/** Crypto-erasure by reachability: what the current tables and the KMS let anyone read, over every run.
    The envelope is that of `services/cryptod/src/cryptod/app.py` (prepare), `envelope.py` and `kms.py`. */
module CryptoErasure {
  import opened Hashing
  import opened Merkle
  import opened Chain
  import opened Tables
  import opened Erasure
  import opened Ingest
  import opened Runs

  // ----- The primitives, symbolically -----

  /** KMS Decrypt refuses a context other than the one the blob was made with. */
  function KmsDecrypt(blob: KmsBlob, context: SubjectId): Option<Key> {
    if context == blob.context then Some(blob.key) else None
  }

  /** AES key unwrap fails under any other key. */
  function Unwrap(kek: Key, wrapped: WrappedKey): Option<Key> {
    if kek == wrapped.under then Some(wrapped.key) else None
  }

  /** AES-GCM decryption fails under any other key or associated data. */
  function Open(key: Key, ct: Sealed, aad: Bytes): Option<Bytes> {
    if key == ct.key && aad == ct.aad then Some(ct.plaintext) else None
  }

  /** The envelope opens from the key row under the subject's context, down to what was ingested, with
      exactly subject || head as associated data, and under no other context, key or data. */
  lemma EnvelopeRoundTrip(call: nat, s: SubjectId, head: Bytes, content: Bytes, vector: Bytes, arn: string,
                          fingerprint: Bytes, context: SubjectId, kek: Key, rowKey: Key, aad: Bytes)
    ensures var p := Prepare(call, s, head, content, vector, arn, fingerprint);
            && p.memory.subjectId == s && p.memory.aad == s + head && p.memory.embedding == Some(vector)
            && p.key.arn == arn && p.key.fingerprint == fingerprint && p.key.origin == GenerateDataKey
            && KmsDecrypt(p.key.wrapped, s).Some?
            && (var subjectKey := KmsDecrypt(p.key.wrapped, s).value;
                && Unwrap(subjectKey, p.memory.wrappedKey).Some?
                && (var k := Unwrap(subjectKey, p.memory.wrappedKey).value;
                    && Open(k, p.memory.content, p.memory.aad) == Some(content)
                    && Open(k, p.memory.embeddingSealed, p.memory.aad) == Some(vector)
                    && (KmsDecrypt(p.key.wrapped, context).Some? ==> context == s)
                    && (Unwrap(kek, p.memory.wrappedKey).Some? ==> kek == subjectKey)
                    && (Open(rowKey, p.memory.content, aad).Some? || Open(rowKey, p.memory.embeddingSealed, aad).Some?
                        ==> rowKey == k && aad == s + head)))
  {
  }

  // ----- What can be derived from the current tables -----

  /** One use of the KMS on a key row under a context, or of a known key on a row's wrapped key. */
  datatype Step = Decrypt(subject: SubjectId, context: SubjectId) | UnwrapRow(row: nat, kek: Key)

  function KeyFrom(db: Tables, known: set<Key>, step: Step): Option<Key> {
    match step
    case Decrypt(s, context) => if s in db.keys then KmsDecrypt(db.keys[s].wrapped, context) else None
    case UnwrapRow(i, kek) => if i < |db.memory| && kek in known then Unwrap(kek, db.memory[i].wrappedKey) else None
  }

  function Known(db: Tables, steps: seq<Step>): set<Key> {
    if |steps| == 0 then {}
    else
      var before := Known(db, steps[..|steps| - 1]);
      match KeyFrom(db, before, steps[|steps| - 1]) case None => before case Some(k) => before + {k}
  }

  ghost predicate Derivable(db: Tables, k: Key) {
    exists steps :: k in Known(db, steps)
  }

  /** Some derivable key opens the ciphertext under some associated data. */
  ghost predicate Readable(db: Tables, ct: Sealed) {
    exists k, aad :: Derivable(db, k) && Open(k, ct, aad).Some?
  }

  // ----- The key invariant -----

  predicate IsStored(ingests: map<nat, IngestCall>, call: nat) {
    call in ingests && ingests[call].end == Some(Stored)
  }

  /** A stored row is the one its ingest call prepared, but for the purged vector. */
  predicate RowOfCall(ingests: map<nat, IngestCall>, m: MemoryRow) {
    && m.wrappedKey.key.RowKey? && IsStored(ingests, m.wrappedKey.key.call)
    && (var stored := ingests[m.wrappedKey.key.call].prepared.memory; m == stored || m == stored.(embedding := None))
  }

  predicate KeyOfCall(ingests: map<nat, IngestCall>, s: SubjectId, key: KeyRow) {
    && key.wrapped.key.SubjectKey? && IsStored(ingests, key.wrapped.key.call)
    && key == ingests[key.wrapped.key.call].prepared.key
    && ingests[key.wrapped.key.call].prepared.memory.subjectId == s
  }

  ghost predicate RowsFromCalls(db: Tables, ingests: map<nat, IngestCall>) {
    forall i :: 0 <= i < |db.memory| ==> RowOfCall(ingests, db.memory[i])
  }

  ghost predicate KeysFromCalls(db: Tables, ingests: map<nat, IngestCall>) {
    forall s :: s in db.keys ==> KeyOfCall(ingests, s, db.keys[s])
  }

  ghost predicate StoredAreKnown(db: Tables, ingests: map<nat, IngestCall>) {
    forall call :: IsStored(ingests, call) ==> PhaseOf(db, ingests[call].prepared.memory.subjectId) != Unknown
  }

  ghost predicate StoredOnce(ingests: map<nat, IngestCall>) {
    forall a, b :: IsStored(ingests, a) && IsStored(ingests, b) && SameSubject(ingests, a, b) ==> a == b
  }

  predicate SameSubject(ingests: map<nat, IngestCall>, a: nat, b: nat)
    requires a in ingests && b in ingests
  {
    ingests[a].prepared.memory.subjectId == ingests[b].prepared.memory.subjectId
  }

  /** Rows and keys come from stored ingest calls, at most one for each subject. */
  ghost predicate CryptoInv(db: Tables, ingests: map<nat, IngestCall>) {
    RowsFromCalls(db, ingests) && KeysFromCalls(db, ingests) && StoredAreKnown(db, ingests) && StoredOnce(ingests)
  }

  /** No key row and no memory row appears, and rows only lose their vector. */
  predicate OnlyPurges(db: Tables, db': Tables) {
    && (forall s :: s in db'.keys ==> s in db.keys && db'.keys[s] == db.keys[s])
    && |db'.memory| == |db.memory|
    && (forall i :: 0 <= i < |db.memory| ==>
          db'.memory[i] == db.memory[i] || db'.memory[i] == db.memory[i].(embedding := None))
  }

  lemma PurgeKeepsCrypto(db: Tables, db': Tables, ingests: map<nat, IngestCall>)
    requires CryptoInv(db, ingests) && OnlyPurges(db, db')
    requires forall s :: Rank(PhaseOf(db, s)) <= Rank(PhaseOf(db', s))
    ensures CryptoInv(db', ingests)
  {
    hide IsStored, PhaseOf;
    forall i | 0 <= i < |db'.memory|
      ensures RowOfCall(ingests, db'.memory[i])
    {
      assert RowOfCall(ingests, db.memory[i]);
    }
    StoredStayKnown(db, db', ingests);
  }

  lemma StoredStayKnown(db: Tables, db': Tables, ingests: map<nat, IngestCall>)
    requires StoredAreKnown(db, ingests) && forall s :: Rank(PhaseOf(db, s)) <= Rank(PhaseOf(db', s))
    ensures StoredAreKnown(db', ingests)
  {
    hide PhaseOf;
    forall call | IsStored(ingests, call)
      ensures PhaseOf(db', ingests[call].prepared.memory.subjectId) != Unknown
    {
      var s := ingests[call].prepared.memory.subjectId;
      assert Rank(PhaseOf(db, s)) <= Rank(PhaseOf(db', s));
    }
  }

  /** Every event but the two of Ingest only purges. */
  lemma OtherEventsPurge(sha: Sha, w: World, e: Event)
    requires !e.BeginIngest? && !e.CommitIngest?
    ensures Next(sha, w, e).ingests == w.ingests && OnlyPurges(w.db, Next(sha, w, e).db)
  {
    hide Next, OnlyPurges;
    if e.Commit? {
      CommitPurges(sha, w, e);
    } else if e.Anchor? || e.SweepAnchor? {
      AnchorPurgesNothing(sha, w, e);
    } else {
      QuietSteps(sha, w, e);
      NoIngest(sha, w, e);
      SameTables(w.db);
    }
  }

  lemma SameTables(db: Tables)
    ensures OnlyPurges(db, db)
  {
  }

  lemma CommitPurges(sha: Sha, w: World, e: Event)
    requires e.Commit?
    ensures Next(sha, w, e).ingests == w.ingests && OnlyPurges(w.db, Next(sha, w, e).db)
  {
    hide PlannedRow, ReadsOf, SeqTaken;
  }

  lemma AnchorPurgesNothing(sha: Sha, w: World, e: Event)
    requires e.Anchor? || e.SweepAnchor?
    ensures Next(sha, w, e).ingests == w.ingests && OnlyPurges(w.db, Next(sha, w, e).db)
  {
    hide LiveDoc, Request, Complete, Honest, ProofFrom;
  }

  lemma NoIngest(sha: Sha, w: World, e: Event)
    requires !e.BeginIngest? && !e.CommitIngest? && !e.Commit? && !e.Anchor? && !e.SweepAnchor?
    ensures Next(sha, w, e).ingests == w.ingests
  {
    hide PlannedRow, ReadsOf, ResultOf, Leaves, Root, InLog, ListsOnce, PendingSet, Ids, ValidAction, ValidBasis;
  }

  /** What a call's end does to the calls' table. */
  function Ended(ingests: map<nat, IngestCall>, call: nat, end: IngestEnd): map<nat, IngestCall>
    requires call in ingests
  {
    ingests[call := ingests[call].(end := Some(end))]
  }

  lemma RefusedKeepsCrypto(db: Tables, ingests: map<nat, IngestCall>, call: nat, end: IngestEnd)
    requires CryptoInv(db, ingests) && call in ingests && ingests[call].end.None? && end != Stored
    ensures CryptoInv(db, Ended(ingests, call, end))
  {
    hide PhaseOf;
    var ingests' := Ended(ingests, call, end);
    forall c | IsStored(ingests, c) || IsStored(ingests', c)
      ensures IsStored(ingests, c) && IsStored(ingests', c) && ingests'[c] == ingests[c]
    {
    }
    SameStoredRows(db, ingests, ingests');
  }

  lemma SameStoredRows(db: Tables, ingests: map<nat, IngestCall>, ingests': map<nat, IngestCall>)
    requires RowsFromCalls(db, ingests) && KeysFromCalls(db, ingests)
    requires forall c :: IsStored(ingests, c) ==> IsStored(ingests', c) && ingests'[c].prepared == ingests[c].prepared
    ensures RowsFromCalls(db, ingests') && KeysFromCalls(db, ingests')
  {
    hide IsStored;
    forall i | 0 <= i < |db.memory|
      ensures RowOfCall(ingests', db.memory[i])
    {
      assert RowOfCall(ingests, db.memory[i]);
    }
    forall s | s in db.keys
      ensures KeyOfCall(ingests', s, db.keys[s])
    {
      assert KeyOfCall(ingests, s, db.keys[s]);
    }
  }

  lemma StoredKeepsCrypto(db: Tables, db': Tables, ingests: map<nat, IngestCall>, call: nat)
    requires CryptoInv(db, ingests) && call in ingests && ingests[call].end.None?
    requires PreparedBy(call, ingests[call].prepared)
    requires var p := ingests[call].prepared;
             db' == db.(keys := db.keys[p.memory.subjectId := p.key], memory := db.memory + [p.memory])
    requires PhaseOf(db, ingests[call].prepared.memory.subjectId) == Unknown
    requires forall s :: Rank(PhaseOf(db, s)) <= Rank(PhaseOf(db', s))
    ensures CryptoInv(db', Ended(ingests, call, Stored))
  {
    hide RowOfCall, KeyOfCall, Rank;
    var ingests' := Ended(ingests, call, Stored);
    forall c | IsStored(ingests, c)
      ensures IsStored(ingests', c) && ingests'[c].prepared == ingests[c].prepared
    {
    }
    forall c | IsStored(ingests', c) && c != call
      ensures IsStored(ingests, c) && ingests'[c] == ingests[c] && !SameSubject(ingests', c, call)
    {
    }
    SameStoredRows(db, ingests, ingests');
    NewRowAndKey(ingests', call);
    StoredStayKnown(db, db', ingests);
  }

  lemma NewRowAndKey(ingests: map<nat, IngestCall>, call: nat)
    requires IsStored(ingests, call) && PreparedBy(call, ingests[call].prepared)
    ensures var p := ingests[call].prepared;
            RowOfCall(ingests, p.memory) && KeyOfCall(ingests, p.memory.subjectId, p.key)
  {
  }

  lemma StoreKeepsCrypto(sha: Sha, db: Tables, ingests: map<nat, IngestCall>, call: nat)
    requires Inv(sha, db) && CryptoInv(db, ingests) && call in ingests && ingests[call].end.None?
    requires PreparedBy(call, ingests[call].prepared)
    ensures var (db', end) := IngestTxn(db, ingests[call].prepared);
            CryptoInv(db', Ended(ingests, call, end))
  {
    hide Inv, RowsOf, CryptoInv, PreparedBy, Ended;
    var p := ingests[call].prepared;
    IngestHasVector(call, p);
    var (db', end) := IngestTxn(db, p);
    IngestOutcome(sha, db, p);
    if end == Stored {
      StoredKeepsCrypto(db, db', ingests, call);
    } else {
      RefusedKeepsCrypto(db, ingests, call, end);
    }
  }

  lemma IngestHasVector(call: nat, p: Prepared)
    requires PreparedBy(call, p)
    ensures p.memory.embedding.Some?
  {
  }

  lemma {:induction false} NextKeepsCrypto(sha: Sha, w: World, e: Event)
    requires WorldInv(sha, w) && CryptoInv(w.db, w.ingests)
    ensures CryptoInv(Next(sha, w, e).db, Next(sha, w, e).ingests)
  {
    hide CryptoInv, OnlyPurges, Inv, DocsOk, CommitsOk, ErasersOk, SweepsOk, PreparedBy;
    if e.BeginIngest? {
      BeginKeepsCrypto(w, e);
    } else if e.CommitIngest? {
      if e.call in w.ingests && w.ingests[e.call].end.None? {
        StoreKeepsCrypto(sha, w.db, w.ingests, e.call);
      }
    } else {
      hide Next;
      OtherEventsPurge(sha, w, e);
      NextKeeps(sha, w, e);
      PurgeKeepsCrypto(w.db, Next(sha, w, e).db, w.ingests);
    }
  }

  lemma BeginKeepsCrypto(w: World, e: Event)
    requires CryptoInv(w.db, w.ingests) && e.BeginIngest?
    ensures CryptoInv(BeginIngestStep(w, e).db, BeginIngestStep(w, e).ingests)
  {
    hide HeadBytes, PhaseOf, Prepare;
    var w' := BeginIngestStep(w, e);
    forall c | IsStored(w.ingests, c) || IsStored(w'.ingests, c)
      ensures IsStored(w.ingests, c) && IsStored(w'.ingests, c) && w'.ingests[c] == w.ingests[c]
    {
    }
    SameStoredRows(w.db, w.ingests, w'.ingests);
  }

  lemma {:induction false} RunKeepsCrypto(sha: Sha, events: seq<Event>)
    ensures CryptoInv(Run(sha, START, events).db, Run(sha, START, events).ingests)
  {
    hide WorldInv, Next;
    if |events| > 0 {
      RunKeepsCrypto(sha, events[..|events| - 1]);
      RunKeeps(sha, events[..|events| - 1]);
      NextKeepsCrypto(sha, Run(sha, START, events[..|events| - 1]), events[|events| - 1]);
    }
  }

  // ----- Readable exactly while live -----

  /** A key that may be derivable: that of a call whose subject still has its key row. */
  predicate OfLiveCall(db: Tables, ingests: map<nat, IngestCall>, k: Key) {
    k.call in ingests && ingests[k.call].prepared.memory.subjectId in db.keys
  }

  /** Nothing outside the envelopes of live subjects can be derived. */
  lemma {:induction false} KnownIsLive(db: Tables, ingests: map<nat, IngestCall>, steps: seq<Step>, k: Key)
    requires RowsFromCalls(db, ingests) && KeysFromCalls(db, ingests) && k in Known(db, steps)
    requires forall call :: call in ingests ==> PreparedBy(call, ingests[call].prepared)
    ensures OfLiveCall(db, ingests, k)
  {
    hide RowsFromCalls, KeysFromCalls, OfLiveCall, PreparedBy;
    var front, last := steps[..|steps| - 1], steps[|steps| - 1];
    if k in Known(db, front) {
      KnownIsLive(db, ingests, front, k);
    } else if last.Decrypt? {
      DecryptedIsLive(db, ingests, last.subject, k);
    } else {
      KnownIsLive(db, ingests, front, last.kek);
      UnwrappedIsLive(db, ingests, last.row, last.kek);
    }
  }

  lemma DecryptedIsLive(db: Tables, ingests: map<nat, IngestCall>, s: SubjectId, k: Key)
    requires KeysFromCalls(db, ingests) && s in db.keys && k == db.keys[s].wrapped.key
    ensures OfLiveCall(db, ingests, k)
  {
    assert KeyOfCall(ingests, s, db.keys[s]);
  }

  lemma UnwrappedIsLive(db: Tables, ingests: map<nat, IngestCall>, i: nat, kek: Key)
    requires RowsFromCalls(db, ingests) && i < |db.memory| && db.memory[i].wrappedKey.under == kek
    requires OfLiveCall(db, ingests, kek)
    requires forall call :: call in ingests ==> PreparedBy(call, ingests[call].prepared)
    ensures OfLiveCall(db, ingests, db.memory[i].wrappedKey.key)
  {
    assert RowOfCall(ingests, db.memory[i]);
    var call := db.memory[i].wrappedKey.key.call;
    assert PreparedBy(call, ingests[call].prepared);
  }

  /** The way back to the row's content while the subject is live. */
  function Recover(db: Tables, m: MemoryRow, ct: Sealed): Option<Bytes> {
    if m.subjectId !in db.keys then None
    else
      match KmsDecrypt(db.keys[m.subjectId].wrapped, m.subjectId)
      case None => None
      case Some(subjectKey) =>
        match Unwrap(subjectKey, m.wrappedKey) case None => None case Some(rowKey) => Open(rowKey, ct, m.aad)
  }

  /** A row of a live subject opens with its stored wrapped key and associated data to what was ingested. */
  lemma LiveRowRecovers(db: Tables, ingests: map<nat, IngestCall>, i: nat)
    requires CryptoInv(db, ingests) && i < |db.memory| && db.memory[i].subjectId in db.keys
    requires forall call :: call in ingests ==> PreparedBy(call, ingests[call].prepared)
    ensures var m := db.memory[i];
            && m.wrappedKey.key.call in ingests
            && Recover(db, m, m.content) == Some(ingests[m.wrappedKey.key.call].prepared.memory.content.plaintext)
            && Recover(db, m, m.embeddingSealed)
               == Some(ingests[m.wrappedKey.key.call].prepared.memory.embeddingSealed.plaintext)
            && db.keys[m.subjectId].wrapped == KmsBlob(m.wrappedKey.under, m.subjectId)
  {
    hide StoredAreKnown;
    var m := db.memory[i];
    assert RowOfCall(ingests, m) && KeyOfCall(ingests, m.subjectId, db.keys[m.subjectId]);
    var a, b := m.wrappedKey.key.call, db.keys[m.subjectId].wrapped.key.call;
    assert PreparedBy(a, ingests[a].prepared) && PreparedBy(b, ingests[b].prepared);
    assert SameSubject(ingests, a, b);
  }

  lemma RowKeyDerivable(db: Tables, i: nat)
    requires i < |db.memory| && db.memory[i].subjectId in db.keys
    requires db.keys[db.memory[i].subjectId].wrapped == KmsBlob(db.memory[i].wrappedKey.under, db.memory[i].subjectId)
    ensures Derivable(db, db.memory[i].wrappedKey.key)
  {
    var m := db.memory[i];
    var decrypt, unwrap := Decrypt(m.subjectId, m.subjectId), UnwrapRow(i, m.wrappedKey.under);
    assert [decrypt, unwrap][..1] == [decrypt] && [decrypt][..0] == [];
    assert m.wrappedKey.under in Known(db, [decrypt]);
    assert m.wrappedKey.key in Known(db, [decrypt, unwrap]);
  }

  /** The key of a stored row can be derived, and its content and sealed vector read, exactly while its
      subject has a key row. */
  lemma ReadableIffKeyed(db: Tables, ingests: map<nat, IngestCall>, i: nat)
    requires CryptoInv(db, ingests) && i < |db.memory|
    requires forall call :: call in ingests ==> PreparedBy(call, ingests[call].prepared)
    ensures var m := db.memory[i];
            && (Derivable(db, m.wrappedKey.key) <==> m.subjectId in db.keys)
            && (Readable(db, m.content) <==> m.subjectId in db.keys)
            && (Readable(db, m.embeddingSealed) <==> m.subjectId in db.keys)
  {
    hide StoredAreKnown, StoredOnce, Known;
    var m := db.memory[i];
    assert RowOfCall(ingests, m);
    var call := m.wrappedKey.key.call;
    assert PreparedBy(call, ingests[call].prepared);
    var k := m.wrappedKey.key;
    if m.subjectId in db.keys {
      LiveRowRecovers(db, ingests, i);
      RowKeyDerivable(db, i);
      assert Open(k, m.content, m.aad).Some? && Open(k, m.embeddingSealed, m.aad).Some?;
    }
    if Derivable(db, k) {
      var steps :| k in Known(db, steps);
      KnownIsLive(db, ingests, steps, k);
    }
    assert forall k', aad :: Open(k', m.content, aad).Some? || Open(k', m.embeddingSealed, aad).Some? ==> k' == k;
  }

  lemma {:induction false} RowIsListed(memory: seq<MemoryRow>, i: nat)
    requires i < |memory|
    ensures memory[i] in RowsOf(memory, memory[i].subjectId)
  {
    if i < |memory| - 1 {
      RowIsListed(memory[..|memory| - 1], i);
    }
  }

  lemma PlainVectorIffLive(db: Tables, i: nat)
    requires LifeInv(db) && i < |db.memory|
    ensures db.memory[i].embedding.Some? <==> PhaseOf(db, db.memory[i].subjectId) == Live
    ensures db.memory[i].subjectId in db.keys <==> PhaseOf(db, db.memory[i].subjectId) == Live
  {
    hide RowsOf;
    RowIsListed(db.memory, i);
    PhaseFacts(db, db.memory[i].subjectId);
    assert InPhase(db, db.memory[i].subjectId, PhaseOf(db, db.memory[i].subjectId));
  }

  /** In every reachable state, the content, the sealed vector and the plain vector of a stored row can
      be read exactly while its subject is live, and then what is read is what was ingested. */
  lemma {:induction false} ReadableIffLive(sha: Sha, events: seq<Event>, i: nat)
    ensures var w := Run(sha, START, events);
            i < |w.db.memory| ==>
              var m := w.db.memory[i];
              var live := PhaseOf(w.db, m.subjectId) == Live;
              && (Derivable(w.db, m.wrappedKey.key) <==> live)
              && (Readable(w.db, m.content) <==> live)
              && (Readable(w.db, m.embeddingSealed) <==> live)
              && (m.embedding.Some? <==> live)
              && (live ==> m.wrappedKey.key.call in w.ingests
                           && Recover(w.db, m, m.content) == Some(w.ingests[m.wrappedKey.key.call].content)
                           && Recover(w.db, m, m.embeddingSealed) == m.embedding
                              == Some(w.ingests[m.wrappedKey.key.call].vector))
  {
    hide Run, LogInv, RecordInv, ProofInv, DocsOk, CommitsOk, ErasersOk, SweepsOk, CryptoInv, PreparedBy, Derivable,
         Readable, LifeInv, Recover;
    RunKeeps(sha, events);
    RunKeepsCrypto(sha, events);
    var w := Run(sha, START, events);
    if i < |w.db.memory| {
      ReadableIffKeyed(w.db, w.ingests, i);
      PlainVectorIffLive(w.db, i);
      if w.db.memory[i].subjectId in w.db.keys {
        LiveRowRecovers(w.db, w.ingests, i);
        RecoversOwnVector(w.db, w.ingests, i);
      }
    }
  }

  lemma RecoversOwnVector(db: Tables, ingests: map<nat, IngestCall>, i: nat)
    requires CryptoInv(db, ingests) && i < |db.memory| && db.memory[i].embedding.Some?
    requires db.memory[i].subjectId in db.keys
    requires forall call :: call in ingests ==> PreparedBy(call, ingests[call].prepared)
    ensures Recover(db, db.memory[i], db.memory[i].embeddingSealed) == db.memory[i].embedding
  {
    LiveRowRecovers(db, ingests, i);
    assert RowOfCall(ingests, db.memory[i]);
  }

  /** A commit that goes through makes exactly its own subject's rows unreadable. */
  lemma {:induction false} ErasureCutsOnlyItsSubject(sha: Sha, events: seq<Event>, e: Event, i: nat)
    requires e.Commit?
    ensures var w, w' := Run(sha, START, events), Run(sha, START, events + [e]);
            && |w'.db.memory| == |w.db.memory|
            && (w'.commits != w.commits && e.call in w.erasers && i < |w.db.memory| ==>
                  var m, m' := w.db.memory[i], w'.db.memory[i];
                  && m'.subjectId == m.subjectId && m'.content == m.content && m'.embeddingSealed == m.embeddingSealed
                  && (Readable(w'.db, m'.content) <==>
                        Readable(w.db, m.content) && m.subjectId != w.erasers[e.call].subject)
                  && (Readable(w'.db, m'.embeddingSealed) <==>
                        Readable(w.db, m.embeddingSealed) && m.subjectId != w.erasers[e.call].subject))
  {
    hide Run, Inv, DocsOk, CommitsOk, ErasersOk, SweepsOk, IngestsOk, Readable, EraseTxn, Next, CommitStep,
         Derivable, Recover, ErasedAs, ValidAction, ValidBasis;
    var w := Run(sha, START, events);
    assert (events + [e])[..|events|] == events;
    StepOfRun(sha, events, e);
    OtherEventsPurge(sha, w, e);
    if Next(sha, w, e).commits != w.commits && e.call in w.erasers && i < |w.db.memory| {
      RunKeeps(sha, events);
      CommitMoves(sha, w, e);
      ReadableIffLive(sha, events, i);
      ReadableIffLive(sha, events + [e], i);
    }
  }

  lemma StepOfRun(sha: Sha, events: seq<Event>, e: Event)
    ensures Run(sha, START, events + [e]) == Next(sha, Run(sha, START, events), e)
  {
    hide Next;
    assert (events + [e])[..|events|] == events;
  }

  lemma CommitMoves(sha: Sha, w: World, e: Event)
    requires WorldInv(sha, w) && e.Commit? && e.call in w.erasers && Next(sha, w, e).commits != w.commits
    ensures OnlyMoves(w.db, Next(sha, w, e).db, w.erasers[e.call].subject, Live, Erased)
  {
    hide Inv, DocsOk, CommitsOk, SweepsOk, IngestsOk, CommitStep, EraseTxn, ErasersOk, OnlyMoves, ErasedAs,
         ValidAction, ValidBasis;
    var c := w.erasers[e.call];
    CommitIsAtomic(sha, w, e);
    PlannedFacts(sha, w, e.call);
    EraseOutcome(sha, w.db, c.subject, c.action, c.basis, c.pc.now);
  }

  // ----- What a stored row is bound to -----

  /** An ingest call keeps what it prepared and was asked to store. */
  predicate SameRequest(ingests: map<nat, IngestCall>, ingests': map<nat, IngestCall>, call: nat) {
    call in ingests ==> call in ingests' && ingests'[call] == ingests[call].(end := ingests'[call].end)
  }

  lemma RequestStays(sha: Sha, w: World, e: Event, call: nat)
    ensures SameRequest(w.ingests, Next(sha, w, e).ingests, call)
  {
    hide Prepare, HeadBytes, IngestTxn;
    if !e.BeginIngest? && !e.CommitIngest? {
      hide Next;
      OtherEventsPurge(sha, w, e);
    }
  }

  lemma {:induction false} RequestStaysInRun(sha: Sha, w: World, events: seq<Event>, call: nat)
    ensures SameRequest(w.ingests, Run(sha, w, events).ingests, call)
  {
    hide Next;
    if |events| > 0 {
      RequestStaysInRun(sha, w, events[..|events| - 1], call);
      RequestStays(sha, Run(sha, w, events[..|events| - 1]), events[|events| - 1], call);
    }
  }

  /** The row an ingest call stores, at any later point of any run, is bound to its subject and to the
      chain head of the moment it prepared: the hash of the log's last row, or nothing for an empty log. */
  lemma {:induction false} StoredRowIsBound(sha: Sha, events: seq<Event>, e: Event, more: seq<Event>, i: nat)
    requires e.BeginIngest? && e.call !in Run(sha, START, events).ingests
    ensures var w, later := Run(sha, START, events), Run(sha, START, events + [e] + more);
            i < |later.db.memory| && later.db.memory[i].wrappedKey.key == RowKey(e.call) ==>
              var m, head := later.db.memory[i], if |w.db.log| == 0 then [] else w.db.log[|w.db.log| - 1].hash;
              && m.subjectId == e.subject && m.aad == m.content.aad == m.embeddingSealed.aad == e.subject + head
              && (m.subjectId in later.db.keys ==>
                    && later.db.keys[m.subjectId].arn == e.arn
                    && later.db.keys[m.subjectId].fingerprint == e.fingerprint
                    && Recover(later.db, m, m.content) == Some(e.content)
                    && Recover(later.db, m, m.embeddingSealed) == Some(e.vector))
  {
    hide Run, Next, WorldInv, Recover, CryptoInv;
    var w := Run(sha, START, events);
    var w1 := Run(sha, START, events + [e]);
    var later := Run(sha, START, events + [e] + more);
    StepOfRun(sha, events, e);
    RunKeeps(sha, events);
    PreparedNow(sha, w, e);
    RunInTwoParts(sha, START, events + [e], more);
    RequestStaysInRun(sha, w1, more, e.call);
    RunKeepsCrypto(sha, events + [e] + more);
    RunKeeps(sha, events + [e] + more);
    if i < |later.db.memory| && later.db.memory[i].wrappedKey.key == RowKey(e.call) {
      AllPrepared(sha, later);
      RowFromCall(later.db, later.ingests, i);
      if later.db.memory[i].subjectId in later.db.keys {
        LiveRowRecovers(later.db, later.ingests, i);
      }
    }
  }

  lemma AllPrepared(sha: Sha, w: World)
    requires WorldInv(sha, w)
    ensures forall call :: call in w.ingests ==> PreparedBy(call, w.ingests[call].prepared)
  {
    hide Inv, DocsOk, CommitsOk, ErasersOk, SweepsOk, PreparedBy;
  }

  lemma RowFromCall(db: Tables, ingests: map<nat, IngestCall>, i: nat)
    requires CryptoInv(db, ingests) && i < |db.memory|
    requires forall call :: call in ingests ==> PreparedBy(call, ingests[call].prepared)
    ensures var m := db.memory[i];
            && m.wrappedKey.key.call in ingests
            && (var p := ingests[m.wrappedKey.key.call].prepared;
                && m == p.memory.(embedding := m.embedding)
                && (m.subjectId in db.keys ==> db.keys[m.subjectId] == p.key))
  {
    hide StoredAreKnown;
    var m := db.memory[i];
    assert RowOfCall(ingests, m);
    if m.subjectId in db.keys {
      assert KeyOfCall(ingests, m.subjectId, db.keys[m.subjectId]);
      assert SameSubject(ingests, m.wrappedKey.key.call, db.keys[m.subjectId].wrapped.key.call);
    }
  }

  lemma PreparedNow(sha: Sha, w: World, e: Event)
    requires WorldInv(sha, w) && e.BeginIngest? && e.call !in w.ingests
    ensures var head := if |w.db.log| == 0 then [] else w.db.log[|w.db.log| - 1].hash;
            var w' := Next(sha, w, e);
            && e.call in w'.ingests
            && w'.ingests[e.call].prepared
               == Prepare(e.call, e.subject, head, e.content, e.vector, e.arn, e.fingerprint)
  {
    hide LifeInv, RecordInv, ProofInv, DocsOk, CommitsOk, ErasersOk, SweepsOk, IngestsOk, WellFormed, RowValid, Prepare,
         ChainHead;
    GaplessHead(w.db.log);
  }
}
