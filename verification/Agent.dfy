/** The forensic audit of `services/api/internal/agent/agent.go` and the evidence tools of
    `services/api/internal/demo/forensics_tools.go`, whose reads interleave with everyone's commits. */
module Agent {
  import opened Hashing
  import opened Hex
  import opened Chain
  import opened Tables
  import opened Erasure
  import opened Runs
  import opened CryptoErasure

  // ----- Evidence -----

  /** Text is its UTF-8 bytes. */
  datatype Value = Flag(on: bool) | Number(n: int) | Text(bytes: Bytes)

  /** A tool's input or output: a JSON object. */
  type Json = map<string, Value>

  datatype ToolUse = ToolUse(name: string, input: Json)

  datatype ToolCall = ToolCall(name: string, input: Json, output: Json)

  const CONFIRM := "confirm_key_destroyed"
  const CHECK := "check_erasure_proof"
  const VERIFY := "verify_hash_chain"

  /** A comma-ok type assertion to bool. */
  function FlagOf(out: Json, key: string): Option<bool> {
    if key in out && out[key].Flag? then Some(out[key].on) else None
  }

  /** The last confirm_key_destroyed call shows destroyed = true. */
  ghost predicate ShowsDestroyed(calls: seq<ToolCall>) {
    exists i :: 0 <= i < |calls| && calls[i].name == CONFIRM && FlagOf(calls[i].output, "destroyed") == Some(true)
                && forall j :: i < j < |calls| ==> calls[j].name != CONFIRM
  }

  predicate ChecksChain(call: ToolCall) {
    call.name == VERIFY && FlagOf(call.output, "intact").Some?
  }

  /** The last chain check that returned a verdict, if any, found the chain intact. */
  ghost predicate ChainNotBroken(calls: seq<ToolCall>) {
    forall i :: 0 <= i < |calls| && ChecksChain(calls[i]) && (forall j :: i < j < |calls| ==> !ChecksChain(calls[j]))
                ==> FlagOf(calls[i].output, "intact") == Some(true)
  }

  /** The evidence one call later: a confirm call and a chain verdict replace what was shown before, and
      any other call changes nothing. */
  lemma EvidenceByCall(calls: seq<ToolCall>, call: ToolCall)
    ensures !ShowsDestroyed([]) && ChainNotBroken([])
    ensures ShowsDestroyed(calls + [call]) <==>
              if call.name == CONFIRM then FlagOf(call.output, "destroyed") == Some(true) else ShowsDestroyed(calls)
    ensures ChainNotBroken(calls + [call]) <==>
              if call.name == VERIFY && FlagOf(call.output, "intact").Some?
              then FlagOf(call.output, "intact") == Some(true) else ChainNotBroken(calls)
  {
    hide FlagOf;
    var all := calls + [call];
    assert all[|calls|] == call && forall i :: 0 <= i < |calls| ==> all[i] == calls[i];
  }

  method EvidenceProven(calls: seq<ToolCall>) returns (proven: bool)
    ensures proven <==> ShowsDestroyed(calls) && ChainNotBroken(calls)
  {
    var destroyed, seenDestroyed, chainOk := false, false, true;
    ghost var lastConfirm, lastCheck := -1, -1;
    for i := 0 to |calls|
      invariant -1 <= lastConfirm < i && -1 <= lastCheck < i
      invariant seenDestroyed <==> lastConfirm >= 0
      invariant forall j :: lastConfirm < j < i ==> calls[j].name != CONFIRM
      invariant forall j :: lastCheck < j < i ==> !ChecksChain(calls[j])
      invariant lastConfirm >= 0 ==> calls[lastConfirm].name == CONFIRM
                                     && destroyed == (FlagOf(calls[lastConfirm].output, "destroyed") == Some(true))
      invariant if lastCheck < 0 then chainOk
                else ChecksChain(calls[lastCheck])
                     && chainOk == (FlagOf(calls[lastCheck].output, "intact") == Some(true))
    {
      var c := calls[i];
      if c.name == CONFIRM {
        seenDestroyed := true;
        destroyed := FlagOf(c.output, "destroyed") == Some(true);
        lastConfirm := i;
      } else if c.name == VERIFY {
        var intact := FlagOf(c.output, "intact");
        if intact.Some? {
          chainOk := intact.value;
          lastCheck := i;
        }
      }
    }
    return seenDestroyed && destroyed && chainOk;
  }

  // ----- The tools -----

  /** What the reads of an audit see: the tables at the n-th read, and whether that read fails. */
  datatype Env = Env(at: nat -> Tables, fails: nat -> bool)

  /** Later reads see later states. */
  ghost predicate Grows(env: Env) {
    forall i, j :: i <= j ==> Extends(env.at(i), env.at(j))
  }

  /** Every state read is sound. */
  ghost predicate Sound(sha: Sha, env: Env) {
    forall i :: LogInv(sha, env.at(i).log) && LifeInv(env.at(i))
  }

  const ERROR: Json := map["error" := Text(Ascii("query failed"))]

  /** The memory row, then the key's fingerprint, then the erasure record: up to three separate reads,
      the first of them number k and the last number next - 1. */
  method ConfirmKeyDestroyed(env: Env, k: nat, s: SubjectId) returns (out: Json, next: nat)
    requires Grows(env)
    ensures k < next <= k + 3 && "scope_override" !in out
    ensures FlagOf(out, "destroyed") == Some(true) ==> PhaseOf(env.at(next - 1), s) == Erased
    ensures out != ERROR ==>
              && FlagOf(out, "erasure_recorded") == Some(PhaseOf(env.at(next - 1), s) == Erased)
              && FlagOf(out, "key_row_present").Some?
              && (FlagOf(out, "key_row_present").value ==> next == k + 3 && s in env.at(k + 1).keys)
              && FlagOf(out, "destroyed")
                 == Some(!FlagOf(out, "key_row_present").value && PhaseOf(env.at(next - 1), s) == Erased)
    ensures PhaseOf(env.at(k), s) == Erased && (forall i :: LifeInv(env.at(i))) && (forall i :: !env.fails(i))
            ==> FlagOf(out, "destroyed") == Some(true)
    ensures out == ERROR <==> exists i :: k <= i < next && env.fails(i)
    ensures out != ERROR ==>
              (FlagOf(out, "key_row_present") == Some(true) <==>
                 && |RowsOf(env.at(k).memory, s)| > 0 && s in env.at(k + 1).keys
                 && env.at(k + 1).keys[s].fingerprint != [])
  {
    hide Extends, LifeInv, RowsOf;
    if env.fails(k) {
      return ERROR, k + 1;
    }
    next := k + 1;
    var keyPresent := false;
    if |RowsOf(env.at(k).memory, s)| > 0 {
      if env.fails(k + 1) {
        return ERROR, k + 2;
      }
      var keys := env.at(k + 1).keys;
      keyPresent := s in keys && ToHex(keys[s].fingerprint) != "";
      next := k + 2;
      ErasedStays(env, k, k + 1, s);
    }
    if env.fails(next) {
      return ERROR, next + 1;
    }
    var recorded := s in env.at(next).records;
    ErasedStays(env, k, next, s);
    out := map["key_row_present" := Flag(keyPresent), "erasure_recorded" := Flag(recorded),
               "destroyed" := Flag(!keyPresent && recorded)];
    next := next + 1;
  }

  /** An erased subject stays erased, and then has no key row. */
  lemma ErasedStays(env: Env, i: nat, j: nat, s: SubjectId)
    requires Grows(env) && i <= j
    ensures PhaseOf(env.at(i), s) == Erased ==> PhaseOf(env.at(j), s) == Erased
    ensures PhaseOf(env.at(i), s) == Erased && LifeInv(env.at(j)) ==> s !in env.at(j).keys
  {
    hide RowsOf;
    assert Rank(PhaseOf(env.at(i), s)) <= Rank(PhaseOf(env.at(j), s));
    assert LifeInv(env.at(j)) ==> InPhase(env.at(j), s, PhaseOf(env.at(j), s));
  }

  /** The MCP server's tool reads the key count, then the record count. */
  method CountKeysThenRecords(env: Env, k: nat, s: SubjectId)
    returns (keyRowPresent: bool, recorded: bool, destroyed: bool)
    requires Grows(env)
    ensures destroyed ==> PhaseOf(env.at(k + 1), s) == Erased
    ensures PhaseOf(env.at(k), s) == Erased && LifeInv(env.at(k)) ==> destroyed && !keyRowPresent && recorded
  {
    hide Extends, LifeInv, RowsOf;
    ErasedStays(env, k, k, s);
    ErasedStays(env, k, k + 1, s);
    keyRowPresent := s in env.at(k).keys;
    recorded := s in env.at(k + 1).records;
    destroyed := !keyRowPresent && recorded;
  }

  /** The columns of the record, and whether a proof is stored. */
  method CheckErasureProof(env: Env, k: nat, s: SubjectId) returns (out: Json, next: nat)
    ensures next == k + 1 && "scope_override" !in out
    ensures FlagOf(out, "erasure_recorded") == Some(true) ==>
              && PhaseOf(env.at(k), s) == Erased
              && var record := env.at(k).records[s];
                 && "decision_log_seq" in out && out["decision_log_seq"] == Number(record.seqNo)
                 && FlagOf(out, "proof_signed") == Some(record.proof.Some?)
                 && "wrapped_key_fingerprint" in out && IsAscii(ToHex(record.fingerprint))
                 && out["wrapped_key_fingerprint"] == Text(Ascii(ToHex(record.fingerprint)))
    ensures FlagOf(out, "erasure_recorded") == if env.fails(k) then None else Some(PhaseOf(env.at(k), s) == Erased)
  {
    hide ToHex, FromHex, IsHex, Ascii, IsAscii;
    next := k + 1;
    if env.fails(k) {
      out := ERROR;
    } else if s in env.at(k).records {
      var record := env.at(k).records[s];
      ToHexIsHex(record.fingerprint);
      HexIsAscii(ToHex(record.fingerprint));
      out := map["erasure_recorded" := Flag(true), "decision_log_seq" := Number(record.seqNo),
                 "wrapped_key_fingerprint" := Text(Ascii(ToHex(record.fingerprint))),
                 "proof_signed" := Flag(record.proof.Some?)];
    } else {
      out := map["erasure_recorded" := Flag(false)];
    }
  }

  /** How far the check went, and at which seq it first broke, if it did. */
  ghost predicate ChecksRows(sha: Sha, rows: seq<LogRow>, out: Json) {
    && "checked" in out
    && if Intact(sha, rows) then out["checked"] == Number(|rows|) && "break_at_seq" !in out
       else exists i :: 0 <= i < |rows| && BreaksAt(sha, rows, i) && out["checked"] == Number(i + 1)
                        && "break_at_seq" in out && out["break_at_seq"] == Number(rows[i].seqNo)
  }

  method VerifyHashChain(sha: Sha, env: Env, k: nat) returns (out: Json, next: nat)
    ensures next == k + 1 && "scope_override" !in out
    ensures FlagOf(out, "intact") == if env.fails(k) then None else Some(Intact(sha, InSeqOrder(env.at(k).log)))
    ensures !env.fails(k) ==> ChecksRows(sha, InSeqOrder(env.at(k).log), out)
  {
    hide Intact, InSeqOrder, BreaksAt;
    next := k + 1;
    if env.fails(k) {
      return ERROR, next;
    }
    var r := VerifyChain(sha, InSeqOrder(env.at(k).log));
    out := map["intact" := Flag(r.intact), "checked" := Number(r.checked)];
    if r.breakAtSeq.Some? {
      out := out["break_at_seq" := Number(r.breakAtSeq.value)];
    }
  }

  /** The tool runs on the audited subject whatever the model asked; the override is only noted. */
  function WithScopeNote(input: Json, s: SubjectId, out: Json): (noted: Json)
    ensures forall key :: key != "scope_override" ==> FlagOf(noted, key) == FlagOf(out, key)
    ensures noted - {"scope_override"} == out - {"scope_override"}
  {
    if "subject_id" in input && input["subject_id"].Text? && input["subject_id"].bytes !in {[], s}
    then out["scope_override" := input["subject_id"]] else out
  }

  // ----- The audit -----

  /** One reply of the model. */
  datatype Turn = Turn(stopReason: string, text: string, toolUses: seq<ToolUse>)

  /** The model: any reply, or an error, to its n-th call with the evidence so far. */
  type Converser = (nat, seq<ToolCall>) -> Option<Turn>

  datatype AuditResult = AuditResult(verdict: string, toolCalls: seq<ToolCall>, rounds: nat, evidenceProven: bool)

  /** No read fails, every state is sound, and the subject was erased before the audit began. */
  ghost predicate ErasedThroughout(sha: Sha, env: Env, s: SubjectId) {
    Sound(sha, env) && (forall i :: !env.fails(i)) && PhaseOf(env.at(0), s) == Erased
  }

  /** What an output, complete after the reads before the n-th, says about s is true: "destroyed" only
      of an erased subject, and of one erased throughout nothing but "destroyed" and "intact". */
  ghost predicate Genuine(sha: Sha, env: Env, s: SubjectId, call: ToolCall, n: nat) {
    && (call.name == CONFIRM && FlagOf(call.output, "destroyed") == Some(true) ==>
          n > 0 && PhaseOf(env.at(n - 1), s) == Erased)
    && (call.name == CONFIRM && ErasedThroughout(sha, env, s) ==> FlagOf(call.output, "destroyed") == Some(true))
    && (call.name == VERIFY && ErasedThroughout(sha, env, s) ==> FlagOf(call.output, "intact") == Some(true))
  }

  lemma GenuineStays(sha: Sha, env: Env, s: SubjectId, call: ToolCall, n: nat, n': nat)
    requires Grows(env) && Genuine(sha, env, s, call, n) && n <= n'
    ensures Genuine(sha, env, s, call, n')
  {
    hide Extends;
    if n > 0 {
      ErasedStays(env, n - 1, n' - 1, s);
    }
  }

  lemma SoundLogIsIntact(sha: Sha, log: seq<LogRow>)
    requires LogInv(sha, log)
    ensures Intact(sha, InSeqOrder(log))
  {
    hide Linked, PrevOf;
    GaplessOrder(log);
    forall i | 0 <= i < |log|
      ensures Linked(sha, log, i)
    {
      assert RowValid(sha, log, i);
    }
  }

  /** What an output that took the reads from k up to next tells of the tables it read, whatever they
      hold: the chain's verdict, the record, or the key row and the record. */
  ghost predicate Reports(sha: Sha, env: Env, s: SubjectId, call: ToolCall, k: nat, next: nat) {
    && k < next <= k + 3
    && (call.name == VERIFY ==>
          FlagOf(call.output, "intact") == if env.fails(k) then None else Some(Intact(sha, InSeqOrder(env.at(k).log))))
    && (call.name == CHECK ==>
          FlagOf(call.output, "erasure_recorded")
          == if env.fails(k) then None else Some(PhaseOf(env.at(k), s) == Erased))
    && (call.name == CONFIRM ==>
          if exists i :: k <= i < next && env.fails(i) then FlagOf(call.output, "destroyed") == None
          else FlagOf(call.output, "destroyed")
               == Some(!KeyRowSeen(env, k, s) && PhaseOf(env.at(next - 1), s) == Erased))
    && (call.name !in {VERIFY, CHECK, CONFIRM} ==> call.output == UNKNOWN_TOOL)
  }

  /** A memory row at the k-th read and a key row with a fingerprint at the next. */
  predicate KeyRowSeen(env: Env, k: nat, s: SubjectId) {
    |RowsOf(env.at(k).memory, s)| > 0 && s in env.at(k + 1).keys && env.at(k + 1).keys[s].fingerprint != []
  }

  const UNKNOWN_TOOL: Json := map["error" := Text(Ascii("unknown tool"))]

  method Dispatch(sha: Sha, env: Env, k: nat, use: ToolUse, s: SubjectId) returns (out: Json, next: nat)
    requires Grows(env)
    ensures k < next <= k + 3 && Reports(sha, env, s, ToolCall(use.name, use.input, out), k, next)
    ensures Genuine(sha, env, s, ToolCall(use.name, use.input, out), next)
    ensures "scope_override" in out <==>
              && use.name in {CHECK, CONFIRM} && "subject_id" in use.input && use.input["subject_id"].Text?
              && use.input["subject_id"].bytes !in {[], s}
  {
    hide Extends, Intact, LogInv, LifeInv, InSeqOrder, RowsOf;
    if use.name == VERIFY {
      out, next := VerifyHashChain(sha, env, k);
      if LogInv(sha, env.at(k).log) {
        SoundLogIsIntact(sha, env.at(k).log);
      }
    } else if use.name == CHECK {
      out, next := CheckErasureProof(env, k, s);
      out := WithScopeNote(use.input, s, out);
    } else if use.name == CONFIRM {
      ErasedStays(env, 0, k, s);
      out, next := ConfirmKeyDestroyed(env, k, s);
      out := WithScopeNote(use.input, s, out);
    } else {
      out, next := UNKNOWN_TOOL, k + 1;
    }
  }

  ghost predicate AllGenuine(sha: Sha, env: Env, s: SubjectId, calls: seq<ToolCall>, n: nat) {
    forall i :: 0 <= i < |calls| ==> Genuine(sha, env, s, calls[i], n)
  }

  predicate Confirms(calls: seq<ToolCall>) {
    exists i :: 0 <= i < |calls| && calls[i].name == CONFIRM
  }

  lemma OneMoreGenuine(sha: Sha, env: Env, s: SubjectId, calls: seq<ToolCall>, n: nat, call: ToolCall, n': nat)
    requires Grows(env) && AllGenuine(sha, env, s, calls, n) && n <= n' && Genuine(sha, env, s, call, n')
    ensures AllGenuine(sha, env, s, calls + [call], n')
  {
    hide Extends, Genuine;
    forall i | 0 <= i < |calls|
      ensures Genuine(sha, env, s, calls[i], n')
    {
      GenuineStays(sha, env, s, calls[i], n, n');
    }
  }

  lemma LastConfirm(calls: seq<ToolCall>) returns (i: nat)
    requires Confirms(calls)
    ensures i < |calls| && calls[i].name == CONFIRM && forall j :: i < j < |calls| ==> calls[j].name != CONFIRM
  {
    var some :| 0 <= some < |calls| && calls[some].name == CONFIRM;
    i := |calls| - 1;
    while calls[i].name != CONFIRM
      invariant some <= i < |calls| && forall j :: i < j < |calls| ==> calls[j].name != CONFIRM
      decreases i
    {
      i := i - 1;
    }
  }

  /** Genuine evidence that proves destruction proves erasure, and evidence about a subject erased
      throughout proves destruction as soon as the tool was used at all. */
  lemma {:induction false} EvidenceMeans(sha: Sha, env: Env, s: SubjectId, calls: seq<ToolCall>, n: nat)
    requires AllGenuine(sha, env, s, calls, n)
    ensures ShowsDestroyed(calls) ==> n > 0 && PhaseOf(env.at(n - 1), s) == Erased
    ensures ErasedThroughout(sha, env, s) && Confirms(calls) ==> ShowsDestroyed(calls) && ChainNotBroken(calls)
  {
    hide ErasedThroughout, PhaseOf;
    if Confirms(calls) {
      var last := LastConfirm(calls);
    }
    forall i | 0 <= i < |calls|
      ensures Genuine(sha, env, s, calls[i], n)
    {
    }
  }

  /** NewForensicsAgent: a bound below 1 becomes 4. */
  function RoundsFor(maxRounds: int): (rounds: nat)
    ensures rounds == if maxRounds >= 1 then maxRounds else 4
  {
    if maxRounds < 1 then 4 else maxRounds
  }

  /** From the n-th read on the subject is erased, and in sound states has no key row. */
  ghost predicate ErasedFrom(sha: Sha, env: Env, s: SubjectId, n: nat) {
    forall k :: k >= n ==> PhaseOf(env.at(k), s) == Erased && (Sound(sha, env) ==> s !in env.at(k).keys)
  }

  /** What an audit did: its tool calls, where in them each tool round starts (and, last, where the last
      one ends), and the number of the first read of each call (and, last, of all reads made). */
  datatype Trail = Trail(calls: seq<ToolCall>, starts: seq<nat>, readAt: seq<nat>)

  predicate AsksForTools(reply: Option<Turn>) {
    reply.Some? && reply.value.stopReason == "tool_use" && |reply.value.toolUses| > 0
  }

  /** The calls are the tool uses, one by one, in name and input. */
  predicate Carries(uses: seq<ToolUse>, calls: seq<ToolCall>) {
    && |calls| == |uses|
    && forall i :: 0 <= i < |uses| ==> calls[i].name == uses[i].name && calls[i].input == uses[i].input
  }

  /** Round j shows the model the calls so far, and what it then asks for are the calls that follow. */
  ghost predicate Follows(converse: Converser, calls: seq<ToolCall>, starts: seq<nat>) {
    && |starts| > 0 && starts[0] == 0 && starts[|starts| - 1] == |calls|
    && (forall j :: 0 <= j < |starts| - 1 ==> RoundOk(converse, calls, starts, j))
  }

  ghost predicate RoundOk(converse: Converser, calls: seq<ToolCall>, starts: seq<nat>, j: nat)
    requires j < |starts| - 1
  {
    && starts[j] <= starts[j + 1] <= |calls| && AsksForTools(converse(j, calls[..starts[j]]))
    && Carries(converse(j, calls[..starts[j]]).value.toolUses, calls[starts[j]..starts[j + 1]])
  }

  /** Each output reports its own reads, which follow on each other. */
  ghost predicate AllReport(sha: Sha, env: Env, s: SubjectId, calls: seq<ToolCall>, readAt: seq<nat>) {
    && |readAt| == |calls| + 1 && readAt[0] == 0
    && forall i :: 0 <= i < |calls| ==> Reports(sha, env, s, calls[i], readAt[i], readAt[i + 1])
  }

  lemma OneMoreReport(sha: Sha, env: Env, s: SubjectId, calls: seq<ToolCall>, readAt: seq<nat>, call: ToolCall,
                      next: nat)
    requires AllReport(sha, env, s, calls, readAt) && Reports(sha, env, s, call, readAt[|calls|], next)
    ensures AllReport(sha, env, s, calls + [call], readAt + [next])
  {
    hide Reports;
  }

  lemma OneMoreRound(converse: Converser, calls: seq<ToolCall>, starts: seq<nat>, more: seq<ToolCall>)
    requires Follows(converse, calls, starts) && AsksForTools(converse(|starts| - 1, calls))
    requires Carries(converse(|starts| - 1, calls).value.toolUses, more)
    ensures Follows(converse, calls + more, starts + [|calls + more|])
  {
    hide AsksForTools, Carries;
    var calls', starts' := calls + more, starts + [|calls + more|];
    forall j | 0 <= j < |starts'| - 1
      ensures RoundOk(converse, calls', starts', j)
    {
      if j < |starts| - 1 {
        assert RoundOk(converse, calls, starts, j);
        assert calls'[..starts[j]] == calls[..starts[j]];
        assert calls'[starts[j]..starts[j + 1]] == calls[starts[j]..starts[j + 1]];
      } else {
        assert calls'[..|calls|] == calls && calls'[|calls|..|calls'|] == more;
      }
    }
  }

  /** The end of an audit: it stops at the first reply that asks for no tool, with that reply's text, or
      after the last round, with the text of one more reply; an error of the model ends it without one. */
  ghost predicate Ends(converse: Converser, rounds: nat, t: Trail, result: Option<AuditResult>)
    requires |t.starts| > 0
  {
    var n := |t.starts| - 1;
    && n <= rounds
    && match converse(n, t.calls)
       case None => result.None?
       case Some(turn) =>
         && (n < rounds ==> !AsksForTools(Some(turn)))
         && result.Some? && result.value.toolCalls == t.calls
         && result.value.rounds == (if n < rounds then n + 1 else rounds)
         && result.value.verdict == (if n == rounds && turn.text == "" then NO_VERDICT else turn.text)
         && (result.value.evidenceProven <==> ShowsDestroyed(t.calls) && ChainNotBroken(t.calls))
  }

  const NO_VERDICT := "NOT PROVEN: the audit did not reach a text verdict within the tool-call budget."

  /** The trail accounts for the result: the tool calls are what the model's tool rounds asked for, in
      order, each with what it read about the audited subject; a proven verdict means the subject was
      erased by the last read, so at every later one too, without a key row; and with no failing read, one
      use of confirm_key_destroyed on a subject erased before the audit proves it. */
  ghost predicate Accounts(sha: Sha, converse: Converser, env: Env, s: SubjectId, rounds: nat, t: Trail,
                           result: Option<AuditResult>) {
    && Follows(converse, t.calls, t.starts) && AllReport(sha, env, s, t.calls, t.readAt)
    && Ends(converse, rounds, t, result)
    && (result.Some? ==>
          var r, n := result.value, t.readAt[|t.calls|];
          && (r.evidenceProven ==> n > 0 && ErasedFrom(sha, env, s, n - 1))
          && (ErasedThroughout(sha, env, s) && Confirms(r.toolCalls) ==> r.evidenceProven))
  }

  /** The bounded tool-use loop, whatever the model replies. */
  method Audit(sha: Sha, converse: Converser, env: Env, maxRounds: int, s: SubjectId)
    returns (result: Option<AuditResult>)
    requires Grows(env)
    ensures exists t :: Accounts(sha, converse, env, s, RoundsFor(maxRounds), t, result)
  {
    hide Extends, Genuine, ErasedThroughout, ShowsDestroyed, ChainNotBroken, Grows, ErasedFrom, Reports, AllReport,
         Follows, AllGenuine, Confirms;
    var calls: seq<ToolCall> := [];
    var k, rounds := 0, RoundsFor(maxRounds);
    ghost var t := Trail([], [0], [0]);
    NothingYet(sha, converse, env, s);
    for round := 0 to rounds
      invariant |t.starts| == round + 1 && t.calls == calls && |t.readAt| == |calls| + 1 && t.readAt[|calls|] == k
      invariant AllGenuine(sha, env, s, calls, k)
      invariant Follows(converse, calls, t.starts) && AllReport(sha, env, s, calls, t.readAt)
    {
      var reply := converse(round, calls);
      if reply.None? {
        assert Accounts(sha, converse, env, s, rounds, t, None);
        return None;
      }
      var turn := reply.value;
      if turn.stopReason != "tool_use" || |turn.toolUses| == 0 {
        var proven := EvidenceProven(calls);
        Verdict(sha, env, s, calls, k);
        result := Some(AuditResult(turn.text, calls, round + 1, proven));
        assert Accounts(sha, converse, env, s, rounds, t, result);
        return;
      }
      ghost var shown, starts := calls, t.starts;
      for i := 0 to |turn.toolUses|
        invariant AllGenuine(sha, env, s, calls, k)
        invariant |t.readAt| == |calls| + 1 && t.readAt[|calls|] == k && AllReport(sha, env, s, calls, t.readAt)
        invariant t.starts == starts && |starts| == round + 1
        invariant shown <= calls && Carries(turn.toolUses[..i], calls[|shown|..])
      {
        var use := turn.toolUses[i];
        var out, next := Dispatch(sha, env, k, use, s);
        var call := ToolCall(use.name, use.input, out);
        OneMoreGenuine(sha, env, s, calls, k, call, next);
        OneMoreReport(sha, env, s, calls, t.readAt, call, next);
        calls, k, t := calls + [call], next, t.(readAt := t.readAt + [next]);
      }
      assert turn.toolUses[..|turn.toolUses|] == turn.toolUses && shown + calls[|shown|..] == calls;
      OneMoreRound(converse, shown, t.starts, calls[|shown|..]);
      t := t.(calls := calls, starts := t.starts + [|calls|]);
    }
    var final := converse(rounds, calls);
    if final.None? {
      assert Accounts(sha, converse, env, s, rounds, t, None);
      return None;
    }
    var proven := EvidenceProven(calls);
    Verdict(sha, env, s, calls, k);
    var verdict := if final.value.text == "" then NO_VERDICT else final.value.text;
    result := Some(AuditResult(verdict, calls, rounds, proven));
    assert Accounts(sha, converse, env, s, rounds, t, result);
  }

  lemma NothingYet(sha: Sha, converse: Converser, env: Env, s: SubjectId)
    ensures Follows(converse, [], [0]) && AllReport(sha, env, s, [], [0]) && AllGenuine(sha, env, s, [], 0)
  {
  }

  /** A proven verdict rests on what the tables held: the last chain check that gave a verdict, if any,
      read a log whose rows, by seq, all link. */
  lemma ProvenMeansLinked(sha: Sha, env: Env, s: SubjectId, calls: seq<ToolCall>, readAt: seq<nat>, i: nat)
    requires AllReport(sha, env, s, calls, readAt) && ChainNotBroken(calls)
    requires i < |calls| && ChecksChain(calls[i]) && forall j :: i < j < |calls| ==> !ChecksChain(calls[j])
    ensures var rows := InSeqOrder(env.at(readAt[i]).log);
            !env.fails(readAt[i]) && forall k :: 0 <= k < |rows| ==> Linked(sha, rows, k)
  {
    hide InSeqOrder, Linked, RowsOf;
    assert Reports(sha, env, s, calls[i], readAt[i], readAt[i + 1]);
  }

  lemma {:induction false} Verdict(sha: Sha, env: Env, s: SubjectId, calls: seq<ToolCall>, n: nat)
    requires Grows(env) && AllGenuine(sha, env, s, calls, n)
    ensures ShowsDestroyed(calls) ==> n > 0 && ErasedFrom(sha, env, s, n - 1)
    ensures ErasedThroughout(sha, env, s) && Confirms(calls) ==> ShowsDestroyed(calls) && ChainNotBroken(calls)
  {
    hide Extends, Genuine, ErasedThroughout, ShowsDestroyed, ChainNotBroken, PhaseOf, Grows, LogInv, LifeInv;
    EvidenceMeans(sha, env, s, calls, n);
    if ShowsDestroyed(calls) {
      forall k | k >= n - 1
        ensures PhaseOf(env.at(k), s) == Erased && (Sound(sha, env) ==> s !in env.at(k).keys)
      {
        ErasedStays(env, n - 1, k, s);
      }
    }
  }

  // ----- Runs provide such reads -----

  /** The tables after the first n events of a run, or at its end. */
  function StateAfter(sha: Sha, events: seq<Event>, n: nat): Tables {
    Run(sha, START, if n < |events| then events[..n] else events).db
  }

  /** The reads of an audit during a run: the n-th sees the state after schedule(n) of the events. */
  function EnvOf(sha: Sha, events: seq<Event>, schedule: nat -> nat, fails: nat -> bool): Env {
    Env((n: nat) => StateAfter(sha, events, schedule(n)), fails)
  }

  lemma LaterState(sha: Sha, events: seq<Event>, a: nat, b: nat)
    requires a <= b
    ensures Extends(StateAfter(sha, events, a), StateAfter(sha, events, b))
    ensures LogInv(sha, StateAfter(sha, events, a).log) && LifeInv(StateAfter(sha, events, a))
  {
    hide Run, Extends, DocsOk, CommitsOk, ErasersOk, SweepsOk, IngestsOk, LogInv, LifeInv, RecordInv, ProofInv;
    var early := if a < |events| then events[..a] else events;
    var late := if b < |events| then events[..b] else events;
    var between := late[|early|..];
    assert late == early + between;
    RunKeeps(sha, early);
    RunInTwoParts(sha, START, early, between);
    RunMovesForward(sha, Run(sha, START, early), between);
  }

  /** Reads made in order during any run see sound states that only move forward. */
  lemma {:induction false} RunsProvide(sha: Sha, events: seq<Event>, schedule: nat -> nat, fails: nat -> bool)
    requires forall i, j :: i <= j ==> schedule(i) <= schedule(j)
    ensures Grows(EnvOf(sha, events, schedule, fails)) && Sound(sha, EnvOf(sha, events, schedule, fails))
  {
    hide StateAfter, Extends, LogInv, LifeInv;
    var env := EnvOf(sha, events, schedule, fails);
    forall i: nat, j: nat | i <= j
      ensures Extends(env.at(i), env.at(j))
    {
      LaterState(sha, events, schedule(i), schedule(j));
    }
    forall i: nat
      ensures LogInv(sha, env.at(i).log) && LifeInv(env.at(i))
    {
      LaterState(sha, events, schedule(i), schedule(i));
    }
  }

  /** So a proven verdict of an audit made during a run is final: from its last read on, at every later
      point of the run, no stored ciphertext of the subject can be read and no vector of it is left. */
  lemma {:induction false} ProvenMeansUnreadable(sha: Sha, events: seq<Event>, schedule: nat -> nat, fails: nat -> bool,
                                                 s: SubjectId, n: nat, later: nat, i: nat)
    requires ErasedFrom(sha, EnvOf(sha, events, schedule, fails), s, n) && schedule(n) <= later
    ensures var db := StateAfter(sha, events, later);
            i < |db.memory| && db.memory[i].subjectId == s ==>
              && !Readable(db, db.memory[i].content) && !Readable(db, db.memory[i].embeddingSealed)
              && db.memory[i].embedding.None? && !Derivable(db, db.memory[i].wrappedKey.key)
  {
    hide Run, Extends, LogInv, LifeInv, Readable, Derivable, Recover;
    assert PhaseOf(EnvOf(sha, events, schedule, fails).at(n), s) == Erased;
    LaterState(sha, events, schedule(n), later);
    LaterPhase(StateAfter(sha, events, schedule(n)), StateAfter(sha, events, later), s);
    ReadableIffLive(sha, if later < |events| then events[..later] else events, i);
  }

  lemma LaterPhase(db: Tables, db': Tables, s: SubjectId)
    requires Extends(db, db') && PhaseOf(db, s) == Erased
    ensures PhaseOf(db', s) == Erased
  {
    assert Rank(PhaseOf(db, s)) <= Rank(PhaseOf(db', s));
  }
}
