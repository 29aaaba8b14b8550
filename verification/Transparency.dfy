/** The join of the tree and the protocol: `checkTransparency` of `web/src/pages/ProofVerifier.tsx`,
    answered by Inclusion, TreeHead and Consistency of `services/api/internal/demo/demo.go`. */
module Transparency {
  import opened Hashing
  import opened Hex
  import opened Merkle
  import opened Consistency
  import opened ConsistencyRefinement
  import opened ConsistencyTheorems
  import opened Browser
  import opened BrowserSizes
  import opened Chain
  import opened Tables
  import opened Erasure
  import opened Runs

  /** Sizes and indices are whatever integers a server sends. */
  datatype TreeHead = TreeHead(size: int, root: string)

  datatype InclusionView = InclusionView(seqNo: int, leafIndex: int, treeSize: int, leafHash: string,
                                         auditPath: seq<string>, root: string)

  datatype ConsistencyView = ConsistencyView(sizeFrom: int, sizeTo: int, proof: seq<string>, rootFrom: string,
                                             rootTo: string)

  // ----- The server's answers -----

  function AllToHex(hashes: seq<Bytes>): (texts: seq<string>)
    ensures |texts| == |hashes|
  {
    seq(|hashes|, i requires 0 <= i < |hashes| => ToHex(hashes[i]))
  }

  method EncodeAll(hashes: seq<Bytes>) returns (texts: seq<string>)
    ensures texts == AllToHex(hashes)
  {
    texts := [];
    for i := 0 to |hashes|
      invariant |texts| == i && forall j :: 0 <= j < i ==> texts[j] == ToHex(hashes[j])
    {
      texts := texts + [ToHex(hashes[i])];
    }
  }

  lemma AllToHexRoundTrip(hashes: seq<Bytes>)
    ensures AllHex(AllToHex(hashes)) && FromAll(AllToHex(hashes)) == hashes
  {
    forall i | 0 <= i < |hashes|
      ensures IsHex(AllToHex(hashes)[i]) && FromHex(AllToHex(hashes)[i]) == hashes[i]
    {
      ToHexIsHex(hashes[i]);
    }
  }

  /** Where the last row with that seq stands, or -1. */
  function IndexOfSeq(rows: seq<LogRow>, seqNo: int): (index: int)
    ensures -1 <= index < |rows|
  {
    if |rows| == 0 then -1
    else if rows[|rows| - 1].seqNo == seqNo then |rows| - 1
    else IndexOfSeq(rows[..|rows| - 1], seqNo)
  }

  function TreeHeadAt(sha: Sha, log: seq<LogRow>): TreeHead {
    TreeHead(|Leaves(log)|, ToHex(Root(sha, Leaves(log))))
  }

  /** None is ErrNotFound. */
  function InclusionAt(sha: Sha, log: seq<LogRow>, seqNo: int, treeSize: int): Option<InclusionView> {
    var rows := InSeqOrder(log);
    var index := IndexOfSeq(rows, seqNo);
    if index < 0 || (treeSize > 0 && (treeSize > |rows| || index >= treeSize)) then None
    else
      var leaves := if treeSize > 0 then Hashes(rows)[..treeSize] else Hashes(rows);
      Some(InclusionView(seqNo, index, |leaves|, ToHex(LeafHash(sha, leaves[index])),
                         AllToHex(InclusionProof(sha, leaves, index)), ToHex(Root(sha, leaves))))
  }

  function ConsistencyAt(sha: Sha, log: seq<LogRow>, sizeFrom: int, sizeTo: int): Option<ConsistencyView> {
    var all := Leaves(log);
    var to := if sizeTo <= 0 || sizeTo > |all| then |all| else sizeTo;
    if sizeFrom <= 0 || sizeFrom > to then None
    else Some(ConsistencyView(sizeFrom, to, AllToHex(ConsistencyProof(sha, all[..to], sizeFrom)),
                              ToHex(Root(sha, all[..sizeFrom])), ToHex(Root(sha, all[..to]))))
  }

  method ServeInclusion(sha: Sha, db: Database, seqNo: int, treeSize: int) returns (view: Option<InclusionView>)
    ensures view == InclusionAt(sha, db.log, seqNo, treeSize)
  {
    hide Root, InclusionProof, InSeqOrder;
    var rows := InSeqOrder(db.log);
    var leaves: seq<Bytes> := [];
    var index := -1;
    for i := 0 to |rows|
      invariant |leaves| == i && forall j :: 0 <= j < i ==> leaves[j] == rows[j].hash
      invariant index == IndexOfSeq(rows[..i], seqNo)
    {
      assert rows[..i + 1][..i] == rows[..i];
      if rows[i].seqNo == seqNo {
        index := |leaves|;
      }
      leaves := leaves + [rows[i].hash];
    }
    assert rows[..|rows|] == rows && leaves == Hashes(rows);
    if treeSize > 0 {
      if treeSize > |leaves| || index < 0 || index >= treeSize {
        return None;
      }
      leaves := leaves[..treeSize];
    }
    if index < 0 {
      return None;
    }
    var auditPath := EncodeAll(InclusionProof(sha, leaves, index));
    return Some(InclusionView(seqNo, index, |leaves|, ToHex(LeafHash(sha, leaves[index])), auditPath,
                              ToHex(Root(sha, leaves))));
  }

  method ServeConsistency(sha: Sha, db: Database, sizeFrom: int, sizeTo: int) returns (view: Option<ConsistencyView>)
    ensures view == ConsistencyAt(sha, db.log, sizeFrom, sizeTo)
  {
    hide Root, ConsistencyProof, InSeqOrder;
    var all := Leaves(db.log);
    var to := sizeTo;
    if to <= 0 || to > |all| {
      to := |all|;
    }
    if sizeFrom <= 0 || sizeFrom > to {
      return None;
    }
    var upTo := all[..to];
    var proof := EncodeAll(ConsistencyProof(sha, upTo, sizeFrom));
    return Some(ConsistencyView(sizeFrom, to, proof, ToHex(Root(sha, all[..sizeFrom])), ToHex(Root(sha, upTo))));
  }

  lemma {:induction false} IndexInGapless(rows: seq<LogRow>, seqNo: int)
    requires Gapless(rows)
    ensures IndexOfSeq(rows, seqNo) == if 1 <= seqNo <= |rows| then seqNo - 1 else -1
  {
    if |rows| > 0 {
      IndexInGapless(rows[..|rows| - 1], seqNo);
    }
  }

  /** Over a gapless log the answer exists exactly for a row inside the requested tree, and proves that
      row's own hash against the root of that tree. */
  lemma InclusionAnswers(sha: Sha, log: seq<LogRow>, seqNo: int, treeSize: int)
    requires Gapless(log)
    ensures var size := if treeSize > 0 then treeSize else |log|;
            match InclusionAt(sha, log, seqNo, treeSize)
            case None => !(1 <= seqNo <= size <= |log|)
            case Some(v) =>
              && 1 <= seqNo <= size <= |log| && v.seqNo == seqNo && v.leafIndex == seqNo - 1 && v.treeSize == size
              && v.leafHash == ToHex(sha([0] + log[seqNo - 1].hash))
              && v.root == ToHex(Root(sha, Hashes(log)[..size])) && AllHex(v.auditPath)
              && VerifyInclusion(sha, LeafHash(sha, log[seqNo - 1].hash), v.leafIndex, size, FromAll(v.auditPath),
                                 Root(sha, Hashes(log)[..size]))
  {
    hide Root, InclusionProof, InSeqOrder, ComputeRoot, ToHex, FromHex, IsHex, LeafHash;
    GaplessOrder(log);
    IndexInGapless(log, seqNo);
    assert Hashes(log)[..|log|] == Hashes(log);
    var size := if treeSize > 0 then treeSize else |log|;
    if 1 <= seqNo <= size <= |log| {
      var leaves := Hashes(log)[..size];
      ComputeRootOfProof(sha, leaves, seqNo - 1);
      LeafHashBytes(sha, leaves[seqNo - 1]);
      AllToHexRoundTrip(InclusionProof(sha, leaves, seqNo - 1));
    }
  }

  // ----- The browser's check -----

  /** The signed fields the check reads; a missing one is "" or 0. */
  datatype SignedFields = SignedFields(merkleRoot: string, head: string, treeSize: int, seqNo: int)

  function FieldsOf(doc: Doc): SignedFields {
    SignedFields(doc.merkleRoot, doc.head, doc.treeSize, doc.seqNo)
  }

  /** What the server would answer to each request; None is a failed fetch. */
  datatype Api = Api(inclusion: (int, int) -> Option<InclusionView>, treeHead: Option<TreeHead>,
                     consistency: (int, int) -> Option<ConsistencyView>)

  datatype State =
    | Unavailable
    | Error
    | NeverSettles
    | Done(inclusionOk: bool, consistencyOk: bool, signedSize: int, currentSize: int, grew: bool)

  predicate HasTree(body: SignedFields) {
    body.merkleRoot != "" && body.head != "" && body.treeSize > 0 && body.seqNo > 0
  }

  /** Every hash the check decodes is hexadecimal. */
  predicate HexReplies(body: SignedFields, api: Api) {
    && IsHex(body.merkleRoot) && IsHex(body.head)
    && (var inc := api.inclusion(body.seqNo, body.treeSize); inc.Some? ==> AllHex(inc.value.auditPath))
    && (api.treeHead.Some? && api.treeHead.value.size > body.treeSize ==>
          var cons := api.consistency(body.treeSize, api.treeHead.value.size);
          cons.Some? ==> AllHex(cons.value.proof) && IsHex(cons.value.rootTo))
  }

  function InclusionVerdictOf(sha: Sha, body: SignedFields, inc: InclusionView): bool
    requires IsHex(body.merkleRoot) && IsHex(body.head) && AllHex(inc.auditPath)
  {
    VerifyInclusion(sha, LeafHash(sha, FromHex(body.head)), inc.leafIndex, body.treeSize, FromAll(inc.auditPath),
                    FromHex(body.merkleRoot))
  }

  function ConsistencyVerdictOf(sha: Sha, body: SignedFields, head: TreeHead, cons: ConsistencyView): bool
    requires IsHex(body.merkleRoot) && AllHex(cons.proof) && IsHex(cons.rootTo)
  {
    cons.rootTo == head.root
    && Accepts(sha, body.treeSize, head.size, FromAll(cons.proof), FromHex(body.merkleRoot), FromHex(cons.rootTo))
  }

  /** The verdict in terms of the Go verifiers. */
  function TransparencyOf(sha: Sha, body: SignedFields, api: Api): State
    requires HexReplies(body, api)
  {
    if !HasTree(body) then Unavailable
    else
      var inc := api.inclusion(body.seqNo, body.treeSize);
      if inc.None? || api.treeHead.None? then Error
      else
        var inclusionOk := InclusionVerdictOf(sha, body, inc.value);
        var head := api.treeHead.value;
        if head.size < body.treeSize then Done(inclusionOk, false, body.treeSize, head.size, false)
        else if head.size > body.treeSize then
          var cons := api.consistency(body.treeSize, head.size);
          if cons.None? then Error
          else Done(inclusionOk, ConsistencyVerdictOf(sha, body, head, cons.value), body.treeSize, head.size, true)
        else Done(inclusionOk, head.root == body.merkleRoot, body.treeSize, head.size, false)
  }

  /** When there is nothing to check and when the check cannot be made; else the three verdicts stand. */
  lemma WhenUndecided(sha: Sha, body: SignedFields, api: Api)
    requires HexReplies(body, api)
    ensures var out := TransparencyOf(sha, body, api);
            var fetched := api.inclusion(body.seqNo, body.treeSize).Some? && api.treeHead.Some?
                           && (api.treeHead.value.size > body.treeSize ==>
                                 api.consistency(body.treeSize, api.treeHead.value.size).Some?);
            && (out == Unavailable <==> body.merkleRoot == "" || body.head == "" || body.treeSize < 1 || body.seqNo < 1)
            && (out == Error <==> out != Unavailable && !fetched)
            && (out.Done? <==> out != Unavailable && fetched)
            && (out.Done? ==> out.signedSize == body.treeSize && out.currentSize == api.treeHead.value.size
                              && (out.grew <==> out.currentSize > out.signedSize))
  {
    hide VerifyInclusion, Accepts, IsHex, FromHex, LeafHash;
  }

  /** What the browser concludes, for every size: its loops may not stop, and consistency is judged in
      32-bit arithmetic. */
  function BrowserStateOf(sha: Sha, body: SignedFields, api: Api): State
    requires HexReplies(body, api)
  {
    if !HasTree(body) then Unavailable
    else
      var inc := api.inclusion(body.seqNo, body.treeSize);
      if inc.None? then Error
      else if InclusionHangs(ToHex(LeafHash(sha, FromHex(body.head))), inc.value.leafIndex, body.treeSize,
                             inc.value.auditPath)
      then NeverSettles
      else if api.treeHead.None? then Error
      else
        var inclusionOk := InclusionVerdictOf(sha, body, inc.value);
        var head := api.treeHead.value;
        if head.size < body.treeSize then Done(inclusionOk, false, body.treeSize, head.size, false)
        else if head.size == body.treeSize then
          Done(inclusionOk, head.root == body.merkleRoot, body.treeSize, head.size, false)
        else
          var cons := api.consistency(body.treeSize, head.size);
          if cons.None? then Error
          else if cons.value.rootTo != head.root then Done(inclusionOk, false, body.treeSize, head.size, true)
          else if ConsistencyHangs(body.treeSize, head.size, cons.value.proof, body.merkleRoot, cons.value.rootTo)
          then NeverSettles
          else Done(inclusionOk, Accepts32(sha, body.treeSize, head.size, FromAll(cons.value.proof),
                                           FromHex(body.merkleRoot), FromHex(cons.value.rootTo)),
                    body.treeSize, head.size, true)
  }

  /** The presented size is one that the browser judges as Go does. */
  predicate SizesFit(body: SignedFields, api: Api) {
    api.treeHead.Some? ==> SizesAgree(body.treeSize, api.treeHead.value.size)
  }

  /** For sizes that agree that is the Go verdict, or the inclusion loop never stops; and a check passes
      only for signed trees up to 2^30, for which it does stop. */
  lemma {:induction false} BrowserIsGo(sha: Sha, body: SignedFields, api: Api)
    requires HexReplies(body, api)
    ensures SizesFit(body, api) ==>
              var out := BrowserStateOf(sha, body, api);
              out == TransparencyOf(sha, body, api) || (out == NeverSettles && body.treeSize > TWO_30)
    ensures var out := BrowserStateOf(sha, body, api); out.Done? && out.inclusionOk ==> body.treeSize <= TWO_30
  {
    hide Accepts32, Accepts, ToHex, FromHex, IsHex, LeafHash, SizesAgree;
    if HasTree(body) && api.inclusion(body.seqNo, body.treeSize).Some? {
      var inc := api.inclusion(body.seqNo, body.treeSize).value;
      var leafHash := LeafHash(sha, FromHex(body.head));
      ToHexIsHex(leafHash);
      WidthsAgree(inc.auditPath);
      if api.treeHead.Some? && body.treeSize < api.treeHead.value.size && SizesFit(body, api) {
        var size := api.treeHead.value.size;
        var cons := api.consistency(body.treeSize, size);
        if cons.Some? {
          AgreeOnSizes(sha, body.treeSize, size, FromAll(cons.value.proof), FromHex(body.merkleRoot),
                       FromHex(cons.value.rootTo));
        }
      }
    }
  }

  method CheckTransparency(sha: Sha, body: SignedFields, api: Api) returns (out: State)
    ensures HexReplies(body, api) ==> out == BrowserStateOf(sha, body, api)
    ensures out.Done? && out.inclusionOk && out.consistencyOk ==> HexReplies(body, api)
  {
    hide VerifyInclusion, Accepts32, IsHex, FromHex, ToHex, LeafHash, InclusionHangs, ConsistencyHangs;
    if body.merkleRoot == "" || body.head == "" || body.treeSize <= 0 || body.seqNo <= 0 {
      return Unavailable;
    }
    var inc := api.inclusion(body.seqNo, body.treeSize);
    if inc.None? || !IsHex(body.head) {
      return Error;
    }
    var leafHash := LeafHash(sha, FromHex(body.head));
    ToHexIsHex(leafHash);
    var inclusion := VerifyInclusion32(sha, ToHex(leafHash), inc.value.leafIndex, body.treeSize, inc.value.auditPath,
                                       body.merkleRoot);
    if inclusion == Hangs {
      return NeverSettles;
    }
    if inclusion.Throws? || api.treeHead.None? {
      return Error;
    }
    var head := api.treeHead.value;
    var consistencyOk: bool;
    var grew := head.size > body.treeSize;
    if head.size < body.treeSize {
      consistencyOk := false;
    } else if grew {
      var cons := api.consistency(body.treeSize, head.size);
      if cons.None? {
        return Error;
      }
      consistencyOk := false;
      if cons.value.rootTo == head.root {
        var appended := VerifyConsistency32(sha, body.treeSize, head.size, cons.value.proof, body.merkleRoot,
                                            cons.value.rootTo);
        if appended == Hangs {
          return NeverSettles;
        }
        if appended.Throws? {
          return Error;
        }
        consistencyOk := appended.ok;
      }
    } else {
      consistencyOk := head.root == body.merkleRoot;
    }
    return Done(inclusion.ok, consistencyOk, body.treeSize, head.size, grew);
  }

  // ----- Completeness: the service's own answers -----

  /** The service answering the three fetches from three states of the log. */
  function HonestApi(sha: Sha, atInclusion: seq<LogRow>, atHead: seq<LogRow>, atConsistency: seq<LogRow>): Api {
    Api((seqNo, size) => InclusionAt(sha, atInclusion, seqNo, size), Some(TreeHeadAt(sha, atHead)),
        (from, to) => ConsistencyAt(sha, atConsistency, from, to))
  }

  lemma TreeHeadIs(sha: Sha, log: seq<LogRow>)
    requires Gapless(log)
    ensures TreeHeadAt(sha, log) == TreeHead(|log|, ToHex(Root(sha, Hashes(log))))
  {
    GaplessOrder(log);
  }

  /** For any two sizes: a newer size that is not positive or lies beyond the log stands for the whole
      log; there is no answer exactly for an older size that is not positive or larger; and a proof,
      however long the log is by the time it is served, joins the roots of the two sizes. */
  lemma ConsistencyAnswers(sha: Sha, log: seq<LogRow>, from: int, to: int)
    requires Gapless(log)
    ensures var newer := if 0 < to <= |log| then to else |log|;
            match ConsistencyAt(sha, log, from, to)
            case None => !(0 < from <= newer)
            case Some(v) =>
              && 0 < from <= newer && v.sizeFrom == from && v.sizeTo == newer && AllHex(v.proof)
              && v.rootTo == ToHex(Root(sha, Hashes(log)[..newer]))
              && v.rootFrom == ToHex(Root(sha, Hashes(log)[..from]))
              && Accepts(sha, from, newer, FromAll(v.proof), Root(sha, Hashes(log)[..from]),
                         Root(sha, Hashes(log)[..newer]))
  {
    hide Root, ConsistencyProof, Accepts, InSeqOrder, ToHex, FromHex, IsHex;
    GaplessOrder(log);
    var newer := if 0 < to <= |log| then to else |log|;
    if 0 < from <= newer {
      var upTo := Hashes(log)[..newer];
      assert upTo[..from] == Hashes(log)[..from];
      ConsistencyComplete(sha, upTo, from);
      AllToHexRoundTrip(ConsistencyProof(sha, upTo, from));
    }
  }

  lemma SamePrefix(log: seq<LogRow>, log': seq<LogRow>, size: nat)
    requires log <= log' && size <= |log|
    ensures |Hashes(log)| == |log| && Hashes(log)[..size] == Hashes(log')[..size] && Hashes(log)[..|log|] == Hashes(log)
  {
  }

  lemma HashIsDigest(sha: Sha, log: seq<LogRow>, i: nat)
    requires LogInv(sha, log) && i < |log|
    ensures |log[i].hash| == DIGEST_SIZE
  {
    assert RowValid(sha, log, i);
  }

  /** A truthful document checks out even when the log grows before and between the three fetches. */
  lemma TruthfulChecksOut(sha: Sha, atInclusion: seq<LogRow>, atHead: seq<LogRow>, atConsistency: seq<LogRow>, doc: Doc)
    requires LogInv(sha, atInclusion) && Gapless(atHead) && Gapless(atConsistency)
    requires atInclusion <= atHead <= atConsistency && Truthful(sha, atInclusion, doc)
    ensures var api := HonestApi(sha, atInclusion, atHead, atConsistency);
            HexReplies(FieldsOf(doc), api)
            && TransparencyOf(sha, FieldsOf(doc), api)
               == Done(true, true, doc.treeSize, |atHead|, |atHead| > doc.treeSize)
  {
    hide Root, Accepts, InclusionAt, ConsistencyAt, TreeHeadAt, VerifyInclusion, LeafHash, ToHex, FromHex, IsHex,
         Hashes, Gapless, WellFormed, RowValid;
    var body := FieldsOf(doc);
    InclusionAnswers(sha, atInclusion, doc.seqNo, doc.treeSize);
    var root, head := Root(sha, Hashes(atInclusion)[..doc.treeSize]), atInclusion[doc.seqNo - 1].hash;
    ToHexIsHex(root);
    ToHexIsHex(head);
    HashIsDigest(sha, atInclusion, doc.seqNo - 1);
    TreeHeadIs(sha, atHead);
    SamePrefix(atInclusion, atHead, doc.treeSize);
    SamePrefix(atHead, atConsistency, doc.treeSize);
    SamePrefix(atHead, atConsistency, |atHead|);
    if |atHead| > doc.treeSize {
      ConsistencyAnswers(sha, atConsistency, doc.treeSize, |atHead|);
      ToHexIsHex(Root(sha, Hashes(atHead)));
    }
  }

  /** In every run, every document ever sent for signing checks out against the service's own answers,
      even when erasures commit before and between the three fetches; in the browser, for signed trees of
      up to 2^30 leaves and sizes that agree. */
  lemma {:induction false} EverySignedDocChecksOut(sha: Sha, events: seq<Event>, e1: seq<Event>, e2: seq<Event>,
                                                   e3: seq<Event>, doc: Doc)
    requires doc in Run(sha, START, events).signed
    ensures var log1 := Run(sha, START, events + e1).db.log;
            var log2 := Run(sha, START, events + e1 + e2).db.log;
            var log3 := Run(sha, START, events + e1 + e2 + e3).db.log;
            var api := HonestApi(sha, log1, log2, log3);
            var done := Done(true, true, doc.treeSize, |log2|, |log2| > doc.treeSize);
            && HexReplies(FieldsOf(doc), api) && TransparencyOf(sha, FieldsOf(doc), api) == done
            && (doc.treeSize <= TWO_30 && SizesAgree(doc.treeSize, |log2|) ==>
                  BrowserStateOf(sha, FieldsOf(doc), api) == done)
  {
    hide Run, WorldInv, TransparencyOf, BrowserStateOf, HexReplies, Truthful, TreeHeadAt, InclusionAt, ConsistencyAt;
    GrownRun(sha, events, e1);
    GrownRun(sha, events + e1, e2);
    GrownRun(sha, events + e1 + e2, e3);
    SignedIsTruthful(sha, Run(sha, START, events), doc);
    var log1 := Run(sha, START, events + e1).db.log;
    TruthfulStays(sha, Run(sha, START, events).db.log, log1, doc);
    var log2, log3 := Run(sha, START, events + e1 + e2).db.log, Run(sha, START, events + e1 + e2 + e3).db.log;
    TruthfulChecksOut(sha, log1, log2, log3, doc);
    BrowserIsGo(sha, FieldsOf(doc), HonestApi(sha, log1, log2, log3));
    TruthfulFits(sha, log1, doc);
    TreeHeadIs(sha, log2);
  }

  lemma TruthfulFits(sha: Sha, log: seq<LogRow>, doc: Doc)
    requires Truthful(sha, log, doc)
    ensures doc.treeSize <= |log|
  {
  }

  lemma GrownRun(sha: Sha, events: seq<Event>, more: seq<Event>)
    ensures var w, w' := Run(sha, START, events), Run(sha, START, events + more);
            WorldInv(sha, w) && w.db.log <= w'.db.log && LogInv(sha, w'.db.log) && Gapless(w'.db.log)
  {
    hide Run, DocsOk, CommitsOk, ErasersOk, SweepsOk, IngestsOk, LifeInv, RecordInv, ProofInv;
    RunKeeps(sha, events);
    RunKeeps(sha, events + more);
    RunInTwoParts(sha, START, events, more);
    RunMovesForward(sha, Run(sha, START, events), more);
    LogGrows(Run(sha, START, events).db, Run(sha, START, events + more).db);
  }

  // ----- Soundness: any server -----

  /** A collision hidden behind a passed check against a server that presents the head of D, or None. */
  function TransparencyClash(sha: Sha, body: SignedFields, api: Api, d: seq<Bytes>): Option<Clash>
    requires HexReplies(body, api) && 0 < body.treeSize <= |d|
    requires api.inclusion(body.seqNo, body.treeSize).Some?
    requires 0 <= api.inclusion(body.seqNo, body.treeSize).value.leafIndex < body.treeSize
    requires api.treeHead.Some? && api.treeHead.value.size == |d|
    requires |d| > body.treeSize ==> api.consistency(body.treeSize, |d|).Some?
  {
    var inc := api.inclusion(body.seqNo, body.treeSize).value;
    var head, leaf := FromHex(body.head), d[inc.leafIndex];
    var replay := if |d| == body.treeSize then None
                  else
                    var proof := FromAll(api.consistency(body.treeSize, |d|).value.proof);
                    ReplayClash(sha, body.treeSize, d, true, proof, FromHex(body.merkleRoot));
    if replay.Some? then replay
    else
      var path := InclusionClash(sha, d[..body.treeSize], LeafHash(sha, head), inc.leafIndex, FromAll(inc.auditPath));
      if path.Some? then path
      else if head != leaf then Some(Clash(LeafInput(head), LeafInput(leaf)))
      else None
  }

  /** Whatever a server answers: if the check passes against a presented head that is the root of some
      leaf list D, then the signed root is that of D's first signed-size leaves and the signed head is
      one of them, at the index the server named, or TransparencyClash computes a collision. */
  lemma {:induction false} PassedCheckMeans(sha: Sha, body: SignedFields, api: Api, d: seq<Bytes>)
    requires HexReplies(body, api) && api.treeHead == Some(TreeHead(|d|, ToHex(Root(sha, d))))
    requires var out := TransparencyOf(sha, body, api); out.Done? && out.inclusionOk && out.consistencyOk
    ensures 0 < body.treeSize <= |d|
    ensures var inc := api.inclusion(body.seqNo, body.treeSize);
            && inc.Some? && 0 <= inc.value.leafIndex < body.treeSize
            && (|d| > body.treeSize ==> api.consistency(body.treeSize, |d|).Some?)
            && match TransparencyClash(sha, body, api, d)
               case Some(c) => IsCollision(sha, c)
               case None =>
                 && FromHex(body.merkleRoot) == Root(sha, d[..body.treeSize])
                 && FromHex(body.head) == d[inc.value.leafIndex]
  {
    hide Root, ReplayClash, InclusionClash, ComputeRoot, Accepts, ToHex, FromHex, IsHex, LeafHash, LeafInput, Replay;
    var inc := api.inclusion(body.seqNo, body.treeSize).value;
    var root, head := FromHex(body.merkleRoot), FromHex(body.head);
    ToHexIsHex(Root(sha, d));
    if |d| > body.treeSize {
      var proof := FromAll(api.consistency(body.treeSize, |d|).value.proof);
      ConsistencyExact(sha, body.treeSize, d, proof, root);
    } else {
      assert d[..body.treeSize] == d;
    }
    if root == Root(sha, d[..body.treeSize]) {
      InclusionExact(sha, d[..body.treeSize], LeafHash(sha, head), inc.leafIndex, FromAll(inc.auditPath));
      if LeafHash(sha, head) == LeafHash(sha, d[inc.leafIndex]) {
        LeafBinding(sha, head, d[inc.leafIndex]);
      }
    }
  }

  /** The same for the browser's own check, for sizes that agree. */
  lemma {:induction false} PassedInBrowserMeans(sha: Sha, body: SignedFields, api: Api, d: seq<Bytes>)
    requires HexReplies(body, api) && api.treeHead == Some(TreeHead(|d|, ToHex(Root(sha, d))))
    requires var out := BrowserStateOf(sha, body, api); out.Done? && out.inclusionOk && out.consistencyOk
    requires SizesAgree(body.treeSize, |d|)
    ensures 0 < body.treeSize <= |d| && body.treeSize <= TWO_30
    ensures var inc := api.inclusion(body.seqNo, body.treeSize);
            && inc.Some? && 0 <= inc.value.leafIndex < body.treeSize
            && (|d| > body.treeSize ==> api.consistency(body.treeSize, |d|).Some?)
            && match TransparencyClash(sha, body, api, d)
               case Some(c) => IsCollision(sha, c)
               case None =>
                 && FromHex(body.merkleRoot) == Root(sha, d[..body.treeSize])
                 && FromHex(body.head) == d[inc.value.leafIndex]
  {
    hide BrowserStateOf, TransparencyOf, HexReplies, TransparencyClash, Root, ToHex, FromHex, SizesAgree;
    BrowserIsGo(sha, body, api);
    PassedCheckMeans(sha, body, api, d);
  }

  // ----- Whose leaf the signed head is -----

  /** Rows of one log have different hashes, or their two inputs collide. */
  lemma SameHashSameRow(sha: Sha, log: seq<LogRow>, i: nat, j: nat)
    requires LogInv(sha, log) && i < |log| && j < |log| && log[i].hash == log[j].hash
    ensures i == j || IsCollision(sha, Clash(RowInput(log, i), RowInput(log, j)))
  {
    hide LinkInput, GenesisPrevHash;
    assert RowValid(sha, log, i) && RowValid(sha, log, j);
    PrevIsDigest(sha, log, i);
    PrevIsDigest(sha, log, j);
    LinkInputSameIff(PrevOf(log, i), log[i], PrevOf(log, j), log[j]);
  }

  lemma PrevIsDigest(sha: Sha, log: seq<LogRow>, i: nat)
    requires LogInv(sha, log) && i < |log|
    ensures |PrevOf(log, i)| == DIGEST_SIZE
  {
    if i > 0 {
      HashIsDigest(sha, log, i - 1);
    }
  }

  /** TransparencyClash, and the rows of the named index and of the signed seq if they are two rows with
      one hash. */
  function SeqClash(sha: Sha, body: SignedFields, api: Api, log: seq<LogRow>): Option<Clash>
    requires HexReplies(body, api) && 0 < body.treeSize <= |log| && 1 <= body.seqNo <= |log|
    requires api.inclusion(body.seqNo, body.treeSize).Some?
    requires 0 <= api.inclusion(body.seqNo, body.treeSize).value.leafIndex < body.treeSize
    requires api.treeHead.Some? && api.treeHead.value.size == |log|
    requires |log| > body.treeSize ==> api.consistency(body.treeSize, |log|).Some?
  {
    var i, j := api.inclusion(body.seqNo, body.treeSize).value.leafIndex, body.seqNo - 1;
    if TransparencyClash(sha, body, api, Hashes(log)).Some? then TransparencyClash(sha, body, api, Hashes(log))
    else if i != j && log[i].hash == log[j].hash then Some(Clash(RowInput(log, i), RowInput(log, j)))
    else None
  }

  /** The guard the check lacks. When it passes in the browser against the head of the service's log, the
      signed head is the hash of the row of the signed seq if and only if the named index is that seq
      less 1, or SeqClash computes a collision. */
  lemma {:induction false} IndexGuardIsExact(sha: Sha, body: SignedFields, api: Api, log: seq<LogRow>)
    requires LogInv(sha, log) && 1 <= body.seqNo <= |log|
    requires HexReplies(body, api) && api.treeHead == Some(TreeHeadAt(sha, log)) && SizesAgree(body.treeSize, |log|)
    requires var out := BrowserStateOf(sha, body, api); out.Done? && out.inclusionOk && out.consistencyOk
    ensures 0 < body.treeSize <= |log| == api.treeHead.value.size
    ensures var inc := api.inclusion(body.seqNo, body.treeSize);
            && inc.Some? && 0 <= inc.value.leafIndex < body.treeSize
            && (|log| > body.treeSize ==> api.consistency(body.treeSize, |log|).Some?)
            && match SeqClash(sha, body, api, log)
               case Some(c) => IsCollision(sha, c)
               case None => FromHex(body.head) == log[body.seqNo - 1].hash <==> inc.value.leafIndex == body.seqNo - 1
  {
    hide BrowserStateOf, HexReplies, TransparencyClash, TreeHeadAt, Root, ToHex, FromHex, SizesAgree, RowInput,
         RowValid, WellFormed;
    TreeHeadIs(sha, log);
    PassedInBrowserMeans(sha, body, api, Hashes(log));
    var i, j := api.inclusion(body.seqNo, body.treeSize).value.leafIndex, body.seqNo - 1;
    assert Hashes(log)[i] == log[i].hash;
    if log[i].hash == log[j].hash {
      SameHashSameRow(sha, log, i, j);
    }
  }

  /** Without that guard a document passes whose head is not the leaf of its seq: row 1's hash under
      seq 2, with a server naming index 0. */
  lemma {:induction false} WrongSeqPasses(sha: Sha, a: Bytes, b: Bytes)
    requires |a| > 0 && a != b
    ensures var root := ToHex(Root(sha, [a, b]));
            var body := SignedFields(root, ToHex(a), 2, 2);
            var inc := InclusionView(2, 0, 2, "", [ToHex(LeafHash(sha, b))], root);
            var api := Api((seqNo, size) => Some(inc), Some(TreeHead(2, root)), (from, to) => None);
            && HexReplies(body, api) && FromHex(body.head) != [a, b][body.seqNo - 1]
            && TransparencyOf(sha, body, api) == BrowserStateOf(sha, body, api) == Done(true, true, 2, 2, false)
  {
    hide Root, LeafHash, ToHex, FromHex, IsHex, ComputeRoot, BrowserStateOf;
    var root, leafB := Root(sha, [a, b]), LeafHash(sha, b);
    var body := SignedFields(ToHex(root), ToHex(a), 2, 2);
    var inc := InclusionView(2, 0, 2, "", [ToHex(leafB)], ToHex(root));
    var api := Api((seqNo, size) => Some(inc), Some(TreeHead(2, ToHex(root))), (from, to) => None);
    ToHexIsHex(root);
    ToHexIsHex(a);
    ToHexIsHex(leafB);
    PathOfTwo(sha, a, b);
    ComputeRootOfProof(sha, [a, b], 0);
    assert FromAll(inc.auditPath) == [leafB];
    BrowserIsGo(sha, body, api);
  }

  lemma PathOfTwo(sha: Sha, a: Bytes, b: Bytes)
    ensures InclusionProof(sha, [a, b], 0) == [LeafHash(sha, b)]
  {
    assert Split(2) == 1;
    assert [a, b][..1] == [a] && [a, b][1..] == [b];
    RootOfLeaf(sha, b);
  }
}
