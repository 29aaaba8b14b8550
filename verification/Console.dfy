/** A console session: the handler of `services/api/internal/httpapi/server.go` subscribes and then
    snapshots, and `web/src/useDemo.ts` merges what arrives; the log and the feed run on meanwhile. */
module Console {
  import opened Hashing
  import opened Chain
  import opened Tables
  import opened Stream

  /** mergeRow: a row whose seq is shown already is dropped, another is added and the rows sorted. */
  function MergeRow(rows: seq<LogRow>, row: LogRow): seq<LogRow> {
    if SeqTaken(rows, row.seqNo) then rows else InSeqOrder(rows + [row])
  }

  function MergeAll(rows: seq<LogRow>, events: seq<LogRow>): seq<LogRow> {
    if |events| == 0 then rows else MergeRow(MergeAll(rows, events[..|events| - 1]), events[|events| - 1])
  }

  // ----- Merging rows of one gapless log -----

  predicate Sorted(rows: seq<LogRow>) {
    forall i, j :: 0 <= i < j < |rows| ==> rows[i].seqNo < rows[j].seqNo
  }

  /** Rows of the log, sorted by seq without duplicates. */
  predicate SortedPart(rows: seq<LogRow>, log: seq<LogRow>) {
    Sorted(rows) && forall i :: 0 <= i < |rows| ==> rows[i] in log
  }

  lemma SortedFront(rows: seq<LogRow>)
    requires Sorted(rows) && |rows| > 0
    ensures Sorted(rows[..|rows| - 1])
    ensures |rows| > 1 ==> rows[|rows| - 2].seqNo < rows[|rows| - 1].seqNo
  {
  }

  lemma {:induction false} SortedStays(rows: seq<LogRow>)
    requires Sorted(rows)
    ensures InSeqOrder(rows) == rows
  {
    hide Sorted, InsertBySeq;
    if |rows| > 0 {
      var front, last := rows[..|rows| - 1], rows[|rows| - 1];
      SortedFront(rows);
      SortedStays(front);
      InsertAtEnd(last, front);
      assert rows == front + [last];
    }
  }

  /** Inserting a row with a new seq keeps the rows sorted and adds exactly that row. */
  lemma {:induction false} InsertSorted(row: LogRow, rows: seq<LogRow>)
    requires Sorted(rows) && !SeqTaken(rows, row.seqNo)
    ensures Sorted(InsertBySeq(row, rows))
    ensures forall x :: x in InsertBySeq(row, rows) <==> x in rows || x == row
  {
    if |rows| > 0 && rows[|rows| - 1].seqNo > row.seqNo {
      var front, last := rows[..|rows| - 1], rows[|rows| - 1];
      assert forall i :: 0 <= i < |front| ==> front[i] == rows[i];
      assert !SeqTaken(front, row.seqNo);
      InsertSorted(row, front);
      var r := InsertBySeq(row, front);
      assert rows == front + [last];
      assert forall i :: 0 <= i < |r| ==> r[i] in front || r[i] == row;
      assert forall i :: 0 <= i < |front| ==> front[i].seqNo < last.seqNo;
    }
  }

  lemma MergeSorted(rows: seq<LogRow>, row: LogRow, log: seq<LogRow>)
    requires Gapless(log) && SortedPart(rows, log) && row in log
    ensures SortedPart(MergeRow(rows, row), log)
    ensures forall x :: x in MergeRow(rows, row) <==> x in rows || x == row
  {
    hide InSeqOrder, Sorted, InsertBySeq;
    if SeqTaken(rows, row.seqNo) {
      var i :| 0 <= i < |rows| && rows[i].seqNo == row.seqNo;
      SameSeqSameRow(log, rows[i], row);
    } else {
      SortedStays(rows);
      InsertSorted(row, rows);
      OrderOfAppend(rows, row);
      var r := MergeRow(rows, row);
      forall i | 0 <= i < |r|
        ensures r[i] in log
      {
        assert r[i] in r;
      }
    }
  }

  lemma OrderOfAppend(rows: seq<LogRow>, row: LogRow)
    ensures InSeqOrder(rows + [row]) == InsertBySeq(row, InSeqOrder(rows))
  {
    assert (rows + [row])[..|rows|] == rows;
  }

  lemma SameSeqSameRow(log: seq<LogRow>, a: LogRow, b: LogRow)
    requires Gapless(log) && a in log && b in log && a.seqNo == b.seqNo
    ensures a == b
  {
  }

  lemma {:induction false} MergeAllSorted(rows: seq<LogRow>, events: seq<LogRow>, log: seq<LogRow>)
    requires Gapless(log) && SortedPart(rows, log) && forall i :: 0 <= i < |events| ==> events[i] in log
    ensures SortedPart(MergeAll(rows, events), log)
    ensures forall x :: x in MergeAll(rows, events) <==> x in rows || x in events
  {
    hide MergeRow, SortedPart;
    if |events| > 0 {
      var front, last := events[..|events| - 1], events[|events| - 1];
      MergeAllSorted(rows, front, log);
      MergeSorted(MergeAll(rows, front), last, log);
      assert events == front + [last];
    }
  }

  lemma {:induction false} SeqAtLeast(rows: seq<LogRow>, log: seq<LogRow>, i: nat)
    requires Gapless(log) && SortedPart(rows, log) && i < |rows|
    ensures i + 1 <= rows[i].seqNo <= |log|
  {
    assert rows[i] in log;
    if i > 0 {
      SeqAtLeast(rows, log, i - 1);
    }
  }

  lemma {:induction false} RowInPlace(rows: seq<LogRow>, log: seq<LogRow>, i: nat)
    requires Gapless(log) && SortedPart(rows, log) && i < |log| && forall j :: 0 <= j < |log| ==> log[j] in rows
    ensures i < |rows| && rows[i] == log[i]
  {
    assert log[i] in rows;
    var k :| 0 <= k < |rows| && rows[k] == log[i];
    SeqAtLeast(rows, log, k);
    if i > 0 {
      RowInPlace(rows, log, i - 1);
    }
  }

  /** Sorted rows of a gapless log that leave none out are the log. */
  lemma WholePartIsLog(rows: seq<LogRow>, log: seq<LogRow>)
    requires Gapless(log) && SortedPart(rows, log) && forall i :: 0 <= i < |log| ==> log[i] in rows
    ensures rows == log
  {
    hide Gapless, SortedPart;
    if |rows| > 0 {
      SeqAtLeast(rows, log, |rows| - 1);
    }
    forall i | 0 <= i < |log|
      ensures i < |rows| && rows[i] == log[i]
    {
      RowInPlace(rows, log, i);
    }
    if |log| > 0 {
      RowInPlace(rows, log, |log| - 1);
    }
  }

  // ----- The session -----

  /** The snapshot query: how long the log was, and whether the query answered; when it fails the handler
      sends no rows and streams on. */
  datatype SnapshotRead = SnapshotRead(taken: nat, ok: bool)

  /** The log, the rows the feed has published, those among them published since the session subscribed,
      and the session: its channel, its snapshot and the rows it shows. */
  datatype Session = Session(log: seq<LogRow>, published: set<int>, heard: set<int>, subscribed: bool,
                             snapshot: Option<SnapshotRead>, channel: ChannelState, rows: seq<LogRow>)

  const IDLE: Session := Session([], {}, {}, false, None, ChannelState([], [], []), [])

  /** Publish(i): the feed publishes log row i, for the first time or again. */
  datatype Event = Append(row: LogRow) | Publish(i: nat) | DropOldest | Subscribe | Snapshot(ok: bool) | Read

  ghost function Step(s: Session, e: Event): Session {
    match e
    case Append(row) => if row.seqNo != |s.log| + 1 then s else s.(log := s.log + [row])
    case Publish(i) =>
      if i >= |s.log| then s
      else
        var s' := s.(published := s.published + {i});
        if !s.subscribed then s' else s'.(heard := s.heard + {i}, channel := OpStep(s.channel, Push(s.log[i])))
    case DropOldest => s.(channel := OpStep(s.channel, Drop))
    case Subscribe => if s.subscribed then s else s.(subscribed := true)
    case Snapshot(ok) =>
      if !s.subscribed || s.snapshot.Some? then s
      else s.(snapshot := Some(SnapshotRead(|s.log|, ok)), rows := if ok then InSeqOrder(s.log) else [])
    case Read =>
      if s.snapshot.None? || |s.channel.queue| == 0 then s
      else s.(channel := OpStep(s.channel, Take(1)), rows := MergeRow(s.rows, s.channel.queue[0]))
  }

  ghost function Steps(s: Session, events: seq<Event>): Session {
    if |events| == 0 then s else Step(Steps(s, events[..|events| - 1]), events[|events| - 1])
  }

  /** The rows of the snapshot. */
  ghost function Base(s: Session): seq<LogRow>
    requires s.snapshot.Some? && s.snapshot.value.taken <= |s.log|
  {
    if s.snapshot.value.ok then s.log[..s.snapshot.value.taken] else []
  }

  ghost predicate ChannelOk(c: ChannelState) {
    StreamOk(c.queue, c.since, c.picked)
  }

  /** The events owed are exactly the rows heard. */
  ghost predicate HeardOk(log: seq<LogRow>, since: seq<LogRow>, heard: set<int>) {
    && (forall k :: 0 <= k < |since| ==> IsHeard(log, heard, since[k]))
    && (forall i :: i in heard ==> 0 <= i < |log| && log[i] in since)
  }

  predicate IsHeard(log: seq<LogRow>, heard: set<int>, row: LogRow) {
    row.seqNo - 1 in heard && 1 <= row.seqNo <= |log| && log[row.seqNo - 1] == row
  }

  /** Everything published from the snapshot on has been heard, and what the session shows is its
      snapshot merged with what it has received. */
  ghost predicate SessionInv(s: Session) {
    && Gapless(s.log) && ChannelOk(s.channel) && HeardOk(s.log, s.channel.since, s.heard)
    && (forall i :: i in s.published ==> 0 <= i < |s.log|)
    && (s.snapshot.None? ==> s.channel.picked == []) && (!s.subscribed ==> s.channel.since == [] && s.snapshot.None?)
    && (s.snapshot.Some? ==>
          && s.snapshot.value.taken <= |s.log|
          && (forall i :: s.snapshot.value.taken <= i < |s.log| && i in s.published ==> i in s.heard)
          && ChannelFits(s.channel) && s.rows == MergeAll(Base(s), Received(s.channel.since, s.channel.picked)))
  }

  ghost predicate ChannelFits(c: ChannelState) {
    |c.queue| <= |c.since| && forall k :: 0 <= k < |c.picked| ==> c.picked[k] < |c.since|
  }

  lemma ChannelOkFits(c: ChannelState)
    requires ChannelOk(c)
    ensures ChannelFits(c)
  {
  }

  lemma ReceivedGrows(since: seq<LogRow>, picked: seq<nat>, ev: LogRow)
    requires forall k :: 0 <= k < |picked| ==> picked[k] < |since|
    ensures Received(since + [ev], picked) == Received(since, picked)
  {
  }

  lemma ReceivedOneMore(since: seq<LogRow>, picked: seq<nat>, place: nat)
    requires place < |since| && forall k :: 0 <= k < |picked| ==> picked[k] < |since|
    ensures Received(since, picked + Places(place, 1)) == Received(since, picked) + [since[place]]
  {
  }

  lemma MergeOneMore(rows: seq<LogRow>, events: seq<LogRow>, ev: LogRow)
    ensures MergeAll(rows, events + [ev]) == MergeRow(MergeAll(rows, events), ev)
  {
    assert (events + [ev])[..|events|] == events;
  }

  lemma {:induction false} StepKeeps(s: Session, e: Event)
    requires SessionInv(s)
    ensures SessionInv(Step(s, e))
  {
    match e
    case Append(row) => AppendKeeps(s, row);
    case Publish(i) => PublishKeeps(s, i);
    case DropOldest => DropOldestKeeps(s);
    case Subscribe =>
    case Snapshot(ok) => SnapshotKeeps(s, ok);
    case Read => ReadKeeps(s);
  }

  lemma AppendKeeps(s: Session, row: LogRow)
    requires SessionInv(s)
    ensures SessionInv(Step(s, Append(row)))
  {
    hide StreamOk, MergeAll, Received, HeardOk;
    var s' := Step(s, Append(row));
    if row.seqNo == |s.log| + 1 {
      HeardInLongerLog(s.log, s.channel.since, s.heard, row);
    }
    if s.snapshot.Some? {
      assert s'.log[..s.snapshot.value.taken] == s.log[..s.snapshot.value.taken];
    }
  }

  lemma HeardInLongerLog(log: seq<LogRow>, since: seq<LogRow>, heard: set<int>, row: LogRow)
    requires HeardOk(log, since, heard)
    ensures HeardOk(log + [row], since, heard)
  {
    forall k | 0 <= k < |since|
      ensures IsHeard(log + [row], heard, since[k])
    {
      assert IsHeard(log, heard, since[k]);
    }
  }

  lemma OneMoreHeard(log: seq<LogRow>, since: seq<LogRow>, heard: set<int>, i: nat)
    requires HeardOk(log, since, heard) && i < |log| && log[i].seqNo == i + 1
    ensures HeardOk(log, since + [log[i]], heard + {i})
  {
    var since', heard' := since + [log[i]], heard + {i};
    forall k | 0 <= k < |since'|
      ensures IsHeard(log, heard', since'[k])
    {
      assert k < |since| ==> IsHeard(log, heard, since[k]);
    }
    forall j | j in heard'
      ensures 0 <= j < |log| && log[j] in since'
    {
      assert j == i ==> since'[|since|] == log[i];
    }
  }

  lemma PublishKeeps(s: Session, i: nat)
    requires SessionInv(s)
    ensures SessionInv(Step(s, Publish(i)))
  {
    hide StreamOk, MergeAll, Received, HeardOk;
    var c := s.channel;
    if i < |s.log| && s.subscribed {
      OneMoreHeard(s.log, c.since, s.heard, i);
      ChannelOkFits(c);
      PushKeeps(c.queue, c.since, c.picked, s.log[i]);
      ReceivedGrows(c.since, c.picked, s.log[i]);
      ChannelOkFits(OpStep(c, Push(s.log[i])));
    }
  }

  lemma DropOldestKeeps(s: Session)
    requires SessionInv(s)
    ensures SessionInv(Step(s, DropOldest))
  {
    hide ChannelOk, ChannelFits, MergeAll, Received, HeardOk, OpStep;
    DropFacts(s.channel);
  }

  lemma DropFacts(c: ChannelState)
    requires ChannelOk(c)
    ensures var c' := OpStep(c, Drop);
            c'.since == c.since && c'.picked == c.picked && ChannelOk(c') && ChannelFits(c')
  {
    hide StreamOk;
    ChannelOkFits(c);
    if |c.queue| > 0 {
      DropKeeps(c.queue, c.since, c.picked);
    }
  }

  lemma SnapshotKeeps(s: Session, ok: bool)
    requires SessionInv(s)
    ensures SessionInv(Step(s, Snapshot(ok)))
  {
    hide StreamOk, InSeqOrder, HeardOk, MergeAll, Received;
    GaplessOrder(s.log);
    assert s.log[..|s.log|] == s.log;
    ChannelOkFits(s.channel);
    if s.snapshot.None? {
      NothingReceived(if ok then s.log else [], s.channel.since);
    }
  }

  lemma NothingReceived(rows: seq<LogRow>, since: seq<LogRow>)
    ensures MergeAll(rows, Received(since, [])) == rows
  {
  }

  lemma ReadKeeps(s: Session)
    requires SessionInv(s)
    ensures SessionInv(Step(s, Read))
  {
    hide StreamOk, MergeAll, MergeRow, Received, Places, HeardOk;
    var c := s.channel;
    if s.snapshot.Some? && |c.queue| > 0 {
      var place := |c.since| - |c.queue|;
      TakeKeeps(c.queue, c.since, c.picked, 1);
      OldestIsNext(c.queue, c.since, c.picked);
      ReceivedOneMore(c.since, c.picked, place);
      MergeOneMore(Base(s), Received(c.since, c.picked), c.queue[0]);
      ChannelOkFits(OpStep(c, Take(1)));
    }
  }

  lemma OldestIsNext(queue: seq<LogRow>, since: seq<LogRow>, picked: seq<nat>)
    requires StreamOk(queue, since, picked) && |queue| > 0
    ensures queue[0] == since[|since| - |queue|]
  {
  }

  lemma {:induction false} RunKeeps(events: seq<Event>)
    ensures SessionInv(Steps(IDLE, events))
  {
    hide SessionInv, Step;
    if |events| == 0 {
      IdleIsSound();
    } else {
      RunKeeps(events[..|events| - 1]);
      StepKeeps(Steps(IDLE, events[..|events| - 1]), events[|events| - 1]);
    }
  }

  lemma IdleIsSound()
    ensures SessionInv(IDLE)
  {
  }

  /** Log row i is in the snapshot, or was published after the session subscribed. */
  ghost predicate Reached(s: Session, i: int)
    requires s.snapshot.Some?
  {
    (s.snapshot.value.ok && i < s.snapshot.value.taken) || i in s.heard
  }

  /** A session that lost no event and has read all it was sent. */
  ghost predicate Drained(s: Session) {
    s.snapshot.Some? && s.channel.queue == [] && Lost(s.channel.queue, s.channel.since, s.channel.picked) == 0
  }

  /** In any interleaving a session shows a sorted part of the log. Drained and without loss, it shows
      exactly the log if and only if every row is in a snapshot that succeeded or was published after
      the subscription; so, once every row committed after the snapshot has been published, if and only
      if the snapshot succeeded or all the earlier rows were published again. */
  lemma {:induction false} DrainedSessionShowsLog(events: seq<Event>)
    ensures var s := Steps(IDLE, events);
            && (s.snapshot.Some? ==> SortedPart(s.rows, s.log))
            && (Drained(s) ==>
                  && (s.rows == s.log <==> forall i :: 0 <= i < |s.log| ==> Reached(s, i))
                  && ((forall i :: s.snapshot.value.taken <= i < |s.log| ==> i in s.published) ==>
                        (s.rows == s.log <==>
                           s.snapshot.value.ok || forall i :: 0 <= i < s.snapshot.value.taken ==> i in s.heard)))
  {
    hide Steps, StreamOk, MergeAll, SortedPart, Received;
    RunKeeps(events);
    var s := Steps(IDLE, events);
    if s.snapshot.Some? {
      ShownRows(s);
      if Drained(s) {
        NoLossMeansAll(s.channel.queue, s.channel.since, s.channel.picked);
        assert Received(s.channel.since, s.channel.picked) == s.channel.since;
        WholeIffReached(s);
        if forall i :: s.snapshot.value.taken <= i < |s.log| ==> i in s.published {
          ReachedOnceLaterRowsAre(s);
        }
      }
    }
  }

  /** What is shown: a sorted part of the log, made of the snapshot and the events received. */
  lemma ShownRows(s: Session)
    requires SessionInv(s) && s.snapshot.Some?
    ensures SortedPart(s.rows, s.log)
    ensures forall x :: x in s.rows <==> x in Base(s) || x in Received(s.channel.since, s.channel.picked)
  {
    hide SortedPart, MergeAll, StreamOk;
    PrefixIsPart(s.log, s.snapshot.value.taken);
    NoneIsPart(s.log);
    MergeAllSorted(Base(s), Received(s.channel.since, s.channel.picked), s.log);
  }

  lemma WholeIffReached(s: Session)
    requires SessionInv(s) && s.snapshot.Some? && SortedPart(s.rows, s.log)
    requires forall x :: x in s.rows <==> x in Base(s) || x in s.channel.since
    ensures s.rows == s.log <==> forall i :: 0 <= i < |s.log| ==> Reached(s, i)
  {
    hide SortedPart, MergeAll, Received, ChannelOk;
    forall i | 0 <= i < |s.log|
      ensures s.log[i] in s.rows <==> Reached(s, i)
    {
      RowReached(s, i);
    }
    if forall i :: 0 <= i < |s.log| ==> Reached(s, i) {
      WholePartIsLog(s.rows, s.log);
    }
  }

  lemma ReachedOnceLaterRowsAre(s: Session)
    requires SessionInv(s) && s.snapshot.Some?
    requires forall i :: s.snapshot.value.taken <= i < |s.log| ==> i in s.published
    ensures (forall i :: 0 <= i < |s.log| ==> Reached(s, i))
       <==> s.snapshot.value.ok || forall i :: 0 <= i < s.snapshot.value.taken ==> i in s.heard
  {
    hide MergeAll, Received, ChannelOk, HeardOk;
    if forall i :: 0 <= i < |s.log| ==> Reached(s, i) {
      forall i | 0 <= i < s.snapshot.value.taken && !s.snapshot.value.ok
        ensures i in s.heard
      {
        assert Reached(s, i);
      }
    }
  }

  lemma RowReached(s: Session, i: nat)
    requires SessionInv(s) && s.snapshot.Some? && i < |s.log|
    ensures s.log[i] in Base(s) || s.log[i] in s.channel.since <==> Reached(s, i)
  {
    hide MergeAll, Received, ChannelOk, HeardOk, ChannelFits;
    InPrefix(s.log, s.snapshot.value.taken, i);
    HeardIff(s.log, s.channel.since, s.heard, i);
  }

  lemma InPrefix(log: seq<LogRow>, n: nat, i: nat)
    requires Gapless(log) && n <= |log| && i < |log|
    ensures log[i] in log[..n] <==> i < n
  {
    if i < n {
      assert log[..n][i] == log[i];
    }
  }

  lemma HeardIff(log: seq<LogRow>, since: seq<LogRow>, heard: set<int>, i: nat)
    requires Gapless(log) && HeardOk(log, since, heard) && i < |log|
    ensures log[i] in since <==> i in heard
  {
    if log[i] in since {
      var k :| 0 <= k < |since| && since[k] == log[i];
      assert IsHeard(log, heard, since[k]);
    }
  }

  lemma PrefixIsPart(log: seq<LogRow>, n: nat)
    requires Gapless(log) && n <= |log|
    ensures SortedPart(log[..n], log)
  {
  }

  lemma NoneIsPart(log: seq<LogRow>)
    ensures SortedPart([], log)
  {
  }

  /** A successful snapshot shows exactly the log of that moment, in any interleaving. */
  lemma {:induction false} SnapshotShowsLog(events: seq<Event>)
    ensures var s := Steps(IDLE, events);
            s.subscribed && s.snapshot.None? ==>
              var s' := Step(s, Snapshot(true));
              s'.rows == s.log && s'.snapshot == Some(SnapshotRead(|s.log|, true)) && s'.channel == s.channel
  {
    hide Steps, StreamOk, InSeqOrder, HeardOk, MergeAll, Received;
    RunKeeps(events);
    GaplessOrder(Steps(IDLE, events).log);
  }

  /** A failed snapshot is not made good: a session that subscribes after the only row was published,
      and whose snapshot query fails, is drained and lossless and shows nothing. */
  lemma FailedSnapshotMisses(row: LogRow)
    requires row.seqNo == 1
    ensures var s := Steps(IDLE, [Append(row), Publish(0), Subscribe, Snapshot(false)]);
            Drained(s) && s.log == [row] && s.published == {0} && s.rows == []
  {
    hide InSeqOrder;
    var e0, e1, e2, e3 := Append(row), Publish(0), Subscribe, Snapshot(false);
    assert [e0, e1, e2, e3][..3] == [e0, e1, e2] && [e0, e1, e2][..2] == [e0, e1];
    assert [e0, e1][..1] == [e0] && [e0][..0] == [];
    var s1 := Step(IDLE, e0);
    assert Steps(IDLE, [e0]) == s1;
    var s2 := Step(s1, e1);
    assert Steps(IDLE, [e0, e1]) == s2;
    var s3 := Step(s2, e2);
    assert Steps(IDLE, [e0, e1, e2]) == s3;
  }

  // ----- The hub's channel is the session's -----

  /** The session events that make up a channel operation on which log row i is sent. */
  ghost function EventsOf(op: ChannelOp, i: nat): seq<Event> {
    match op case Take(n) => seq(n, k => Read) case Drop => [DropOldest] case Push(_) => [Publish(i)]
  }

  ghost function AllEventsOf(ops: seq<ChannelOp>, i: nat): seq<Event> {
    if |ops| == 0 then [] else AllEventsOf(ops[..|ops| - 1], i) + EventsOf(ops[|ops| - 1], i)
  }

  lemma {:induction false} StepsInTwoParts(s: Session, before: seq<Event>, after: seq<Event>)
    ensures Steps(s, before + after) == Steps(Steps(s, before), after)
  {
    hide Step;
    if |after| == 0 {
      assert before + after == before;
    } else {
      assert (before + after)[..|before + after| - 1] == before + after[..|after| - 1];
      StepsInTwoParts(s, before, after[..|after| - 1]);
    }
  }

  /** A session whose handler is reading. */
  ghost predicate Reading(s: Session, log: seq<LogRow>) {
    SessionInv(s) && s.subscribed && s.snapshot.Some? && s.log == log
  }

  lemma {:induction false} ReadsAreTake(s: Session, n: nat)
    requires Reading(s, s.log)
    ensures var s' := Steps(s, seq(n, k => Read));
            Reading(s', s.log) && s'.channel == OpStep(s.channel, Take(n))
  {
    hide SessionInv, MergeRow, OpStep;
    var turns := seq(n, k => Read);
    if n == 0 {
      TakeNone(s.channel);
      SessionFits(s);
    } else {
      assert turns[..n - 1] == seq(n - 1, k => Read);
      ReadsAreTake(s, n - 1);
      var t := Steps(s, seq(n - 1, k => Read));
      StepKeeps(t, Read);
      SessionFits(s);
      TakeOneMore(s.channel, n - 1);
    }
  }

  lemma SessionFits(s: Session)
    requires SessionInv(s)
    ensures |s.channel.queue| <= |s.channel.since|
  {
    hide StreamOk, MergeAll, Received;
    ChannelOkFits(s.channel);
  }

  lemma TakeNone(c: ChannelState)
    ensures OpStep(c, Take(0)) == c
  {
    assert Places(0, 0) == [];
  }

  lemma TakeOneMore(c: ChannelState, n: nat)
    requires |c.queue| <= |c.since|
    ensures var t := OpStep(c, Take(n));
            OpStep(c, Take(n + 1)) == if |t.queue| == 0 then t else OpStep(t, Take(1))
  {
  }

  /** One send, with what its readers take and what it drops meanwhile, is a sequence of session events:
      whatever Channel.Send does is covered by the runs above. */
  lemma {:induction false} SendIsSessionEvents(s: Session, ops: seq<ChannelOp>, i: nat)
    requires Reading(s, s.log) && i < |s.log|
    requires forall k :: 0 <= k < |ops| && ops[k].Push? ==> ops[k].ev == s.log[i]
    ensures var s' := Steps(s, AllEventsOf(ops, i));
            Reading(s', s.log) && s'.channel == OpSteps(s.channel, ops)
  {
    hide SessionInv, OpStep, Step, MergeRow;
    if |ops| > 0 {
      var front, last := ops[..|ops| - 1], ops[|ops| - 1];
      SendIsSessionEvents(s, front, i);
      var t := Steps(s, AllEventsOf(front, i));
      StepsInTwoParts(s, AllEventsOf(front, i), EventsOf(last, i));
      if last.Take? {
        ReadsAreTake(t, last.n);
      } else {
        OneEvent(t, if last.Drop? then DropOldest else Publish(i));
        StepKeeps(t, if last.Drop? then DropOldest else Publish(i));
        SendOrDrop(t, i);
      }
    }
  }

  lemma OneEvent(s: Session, e: Event)
    ensures Steps(s, [e]) == Step(s, e)
  {
    hide Step;
    assert [e][..0] == [];
  }

  lemma SendOrDrop(s: Session, i: nat)
    requires s.subscribed && i < |s.log|
    ensures Step(s, DropOldest) == s.(channel := OpStep(s.channel, Drop))
    ensures var s' := Step(s, Publish(i));
            s' == s.(published := s'.published, heard := s'.heard, channel := OpStep(s.channel, Push(s.log[i])))
  {
    hide OpStep;
  }
}
