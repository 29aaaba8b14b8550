/** The background live inversion of `services/api/internal/demo/demo.go`: one job at a time, polled by id. */
module Jobs {
  import opened Hashing

  /** A result of the inverter, with the embedding it was computed from. */
  datatype Inversion = Inversion(of: string, payload: string)

  datatype JobState = Idle | Running | Done(result: Inversion) | Failed(message: string) | Superseded

  datatype Job = Job(id: string, state: JobState)

  datatype WorkerEnd = GpuBusy | OverBudget | Unavailable | Inverted(payload: string)

  datatype StartEnd = Malformed | Busy | Accepted(job: Job)

  /** job and input are the service's fields; started maps each id handed out to the embedding it was
      started with, and workers are the ids whose background run has not finished. */
  datatype Jobs = Jobs(job: Job, input: string, started: map<string, string>, workers: set<string>)

  const INITIAL: Jobs := Jobs(Job("", Idle), "", map[], {})

  /** An id as uuid.NewString gives one: not empty and never handed out before. */
  predicate Fresh(s: Jobs, id: string) {
    id != "" && id !in s.started
  }

  function StartStep(s: Jobs, embedding: string, wellFormed: bool, id: string): (Jobs, StartEnd) {
    if !wellFormed then (s, Malformed)
    else if s.job.state == Running then (s, if s.input == embedding then Accepted(s.job) else Busy)
    else
      var job := Job(id, Running);
      (Jobs(job, embedding, s.started[id := embedding], s.workers + {id}), Accepted(job))
  }

  function EndState(embedding: string, end: WorkerEnd): JobState {
    match end
    case GpuBusy => Failed("the GPU is busy")
    case OverBudget => Failed("the hourly budget is used up")
    case Unavailable => Failed("live inversion unavailable")
    case Inverted(payload) => Done(Inversion(embedding, payload))
  }

  /** A worker knows the id and the embedding it was started with, and overwrites the job field. */
  function CompleteStep(s: Jobs, id: string, embedding: string, end: WorkerEnd): Jobs {
    s.(job := Job(id, EndState(embedding, end)), workers := s.workers - {id})
  }

  function StatusOf(s: Jobs, id: string): Job {
    if id != "" && s.job.id != "" && s.job.id != id then Job(id, Superseded) else s.job
  }

  // ----- The service -----

  class LiveInversion {
    var job: Job
    var input: string
    ghost var started: map<string, string>
    ghost var workers: set<string>

    ghost function View(): Jobs
      reads this
    {
      Jobs(job, input, started, workers)
    }

    constructor ()
      ensures View() == INITIAL
    {
      job, input, started, workers := Job("", Idle), "", map[], {};
    }

    method Start(embedding: string, wellFormed: bool, id: string) returns (end: StartEnd)
      requires JobsInv(View()) && Fresh(View(), id)
      modifies this
      ensures JobsInv(View()) && (View(), end) == StartStep(old(View()), embedding, wellFormed, id)
    {
      if !wellFormed {
        return Malformed;
      }
      if job.state == Running {
        if input == embedding {
          return Accepted(job);
        }
        return Busy;
      }
      job := Job(id, Running);
      input := embedding;
      started, workers := started[id := embedding], workers + {id};
      return Accepted(job);
    }

    /** The deferred part of the goroutine. It never overwrites another job. */
    method Complete(id: string, embedding: string, end: WorkerEnd)
      requires JobsInv(View()) && id in workers && embedding == started[id]
      modifies this`job, this`workers
      ensures JobsInv(View()) && View() == CompleteStep(old(View()), id, embedding, end)
      ensures old(job) == Job(id, Running)
    {
      workers := workers - {id};
      match end {
        case GpuBusy => job := Job(id, Failed("the GPU is busy"));
        case OverBudget => job := Job(id, Failed("the hourly budget is used up"));
        case Unavailable => job := Job(id, Failed("live inversion unavailable"));
        case Inverted(payload) => job := Job(id, Done(Inversion(embedding, payload)));
      }
    }

    method Status(id: string) returns (r: Job)
      requires JobsInv(View())
      ensures r == StatusOf(View(), id)
      ensures r.state.Done? && id != "" ==> id in started && r.state.result.of == started[id]
    {
      if id != "" && job.id != "" && job.id != id {
        return Job(id, Superseded);
      }
      return job;
    }
  }

  // ----- Every interleaving -----

  /** Exactly one worker is outstanding while the job runs, none otherwise, and the current job carries
      the inversion of its own embedding. */
  ghost predicate JobsInv(s: Jobs) {
    && s.workers == (if s.job.state == Running then {s.job.id} else {})
    && s.job.state != Superseded && "" !in s.started
    && (s.job.id == "" ==> s.job.state == Idle)
    && (s.job.id != "" ==> s.job.state != Idle && s.job.id in s.started && s.started[s.job.id] == s.input)
    && (s.job.state.Done? ==> s.job.state.result.of == s.input)
  }

  datatype Event = Start(embedding: string, wellFormed: bool, id: string) | Complete(id: string, end: WorkerEnd)

  ghost function Step(s: Jobs, e: Event): Jobs {
    match e
    case Start(embedding, wellFormed, id) => if Fresh(s, id) then StartStep(s, embedding, wellFormed, id).0 else s
    case Complete(id, end) => if id in s.workers && id in s.started then CompleteStep(s, id, s.started[id], end) else s
  }

  ghost function After(s: Jobs, events: seq<Event>): Jobs {
    if |events| == 0 then s else Step(After(s, events[..|events| - 1]), events[|events| - 1])
  }

  lemma StepKeeps(s: Jobs, e: Event)
    requires JobsInv(s)
    ensures JobsInv(Step(s, e)) && s.started.Keys <= Step(s, e).started.Keys
    ensures forall id :: id in s.started ==> Step(s, e).started[id] == s.started[id]
    ensures forall id :: id in s.started && id != s.job.id ==> id != Step(s, e).job.id
  {
  }

  lemma {:induction false} JobsMoveForward(s: Jobs, events: seq<Event>)
    requires JobsInv(s)
    ensures var s' := After(s, events);
            && JobsInv(s') && s.started.Keys <= s'.started.Keys
            && (forall id :: id in s.started ==> s'.started[id] == s.started[id])
            && (forall id :: id in s.started && id != s.job.id ==> id != s'.job.id)
  {
    hide JobsInv, Step;
    if |events| > 0 {
      JobsMoveForward(s, events[..|events| - 1]);
      StepKeeps(After(s, events[..|events| - 1]), events[|events| - 1]);
    }
  }

  /** In any interleaving of starts and completions: one worker is outstanding exactly while the job
      runs; whoever polls with an id it was given sees its own job or "superseded", "done" only with the
      inversion of the embedding it started, and once superseded it stays so. */
  lemma Attribution(events: seq<Event>, more: seq<Event>, id: string)
    ensures var s, later := After(INITIAL, events), After(After(INITIAL, events), more);
            && s.workers == (if s.job.state == Running then {s.job.id} else {})
            && (id in s.started ==>
                  var r := StatusOf(s, id);
                  && ((r == s.job && r.id == id) || r == Job(id, Superseded))
                  && (r.state.Done? ==> r.state.result.of == s.started[id])
                  && (r.state == Superseded ==> StatusOf(later, id) == r))
  {
    JobsMoveForward(INITIAL, events);
    JobsMoveForward(After(INITIAL, events), more);
  }

  // ----- What a poll answers -----

  /** Who is accepted: malformed input is refused, and a running job refuses every other embedding. An
      accepted caller holds the id of a running job for its own embedding; only a new job changes the
      service. */
  lemma StartMeans(s: Jobs, embedding: string, wellFormed: bool, id: string)
    requires JobsInv(s) && Fresh(s, id)
    ensures var (s', end) := StartStep(s, embedding, wellFormed, id);
            && (end == Malformed <==> !wellFormed)
            && (end == Busy <==> wellFormed && s.job.state == Running && s.started[s.job.id] != embedding)
            && (end.Accepted? ==> s'.job == end.job && end.job.state == Running
                                  && end.job.id in s'.started && s'.started[end.job.id] == embedding)
            && (if wellFormed && s.job.state != Running
                then end == Accepted(Job(id, Running)) && s'.started == s.started[id := embedding] else s' == s)
  {
  }

  /** The event starts a new job. */
  ghost predicate StartsJob(s: Jobs, e: Event) {
    e.Start? && e.wellFormed && e.id != "" && e.id !in s.started && s.job.state != Running
  }

  /** Some later start was accepted. */
  ghost predicate Replaced(s: Jobs, events: seq<Event>) {
    exists k :: 0 <= k < |events| && StartsJob(After(s, events[..k]), events[k])
  }

  /** How the worker of a job first ended, if it has. */
  ghost function FirstEnd(events: seq<Event>, id: string): (end: Option<WorkerEnd>) {
    if |events| == 0 then None
    else
      var front, last := FirstEnd(events[..|events| - 1], id), events[|events| - 1];
      if front.None? && last.Complete? && last.id == id then Some(last.end) else front
  }

  /** The poll of a job that was not replaced: running until its worker ends, then done with the payload
      its worker computed from its own embedding, or failed after any other end. */
  ghost predicate ShowsEnd(state: JobState, embedding: string, end: Option<WorkerEnd>) {
    match end
    case None => state == Running
    case Some(Inverted(payload)) => state == Done(Inversion(embedding, payload))
    case Some(_) => state.Failed?
  }

  lemma {:induction false} PollFrom(s: Jobs, id: string, embedding: string, events: seq<Event>)
    requires JobsInv(s) && s.job == Job(id, Running) && s.started[id] == embedding
    ensures var s', r := After(s, events), StatusOf(After(s, events), id);
            && r.id == id && (r.state == Superseded <==> Replaced(s, events))
            && (!Replaced(s, events) ==> r == s'.job && ShowsEnd(r.state, embedding, FirstEnd(events, id)))
            && StatusOf(s', "") == s'.job
  {
    hide Step;
    if |events| > 0 {
      var front, e := events[..|events| - 1], events[|events| - 1];
      PollFrom(s, id, embedding, front);
      JobsMoveForward(s, front);
      ReplacedNext(s, events);
      OneMoreEvent(After(s, front), id, embedding, e);
    }
  }

  lemma ReplacedNext(s: Jobs, events: seq<Event>)
    requires |events| > 0
    ensures var front, e := events[..|events| - 1], events[|events| - 1];
            Replaced(s, events) <==> Replaced(s, front) || StartsJob(After(s, front), e)
  {
    hide After, StartsJob;
    var front := events[..|events| - 1];
    assert forall k :: 0 <= k < |front| ==> front[..k] == events[..k] && front[k] == events[k];
  }

  lemma OneMoreEvent(s: Jobs, id: string, embedding: string, e: Event)
    requires JobsInv(s) && id != "" && id in s.started && s.started[id] == embedding
    requires s.job.id == id ==> s.input == embedding
    requires StatusOf(s, id).id == id
    ensures var r, r' := StatusOf(s, id), StatusOf(Step(s, e), id);
            && r.id == r'.id == id && r.state != Idle
            && (r'.state == Superseded <==> r.state == Superseded || StartsJob(s, e))
            && (r'.state != Superseded ==>
                  && r' == Step(s, e).job && r == s.job
                  && if r.state == Running && e.Complete? && e.id == id
                     then ShowsEnd(r'.state, embedding, Some(e.end)) else r' == r)
  {
  }

  /** What a poll answers in any interleaving in which its job was started: "superseded" if and only if a
      later start was accepted, and otherwise the current job, which is its own, as its worker ended. A
      poll without an id gets the current job. */
  lemma {:induction false} PollTellsFate(before: seq<Event>, id: string, embedding: string, later: seq<Event>)
    requires StartsJob(After(INITIAL, before), Start(embedding, true, id))
    ensures var s := Step(After(INITIAL, before), Start(embedding, true, id));
            var s' := After(s, later);
            && StatusOf(s', "") == s'.job
            && var r := StatusOf(s', id);
               && r.id == id && (r.state == Superseded <==> Replaced(s, later))
               && (!Replaced(s, later) ==> r == s'.job && ShowsEnd(r.state, embedding, FirstEnd(later, id)))
  {
    hide Replaced;
    JobsMoveForward(INITIAL, before);
    StepKeeps(After(INITIAL, before), Start(embedding, true, id));
    PollFrom(Step(After(INITIAL, before), Start(embedding, true, id)), id, embedding, later);
  }
}
