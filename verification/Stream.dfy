/** The live feed: the fan-out hub of `services/api/internal/stream/hub.go` and its subscribers' channels. */
module Stream {
  import opened Hashing
  import opened Chain

  // ----- One subscriber -----

  /** The queue is the tail of the events since the subscription; picked are the places, in order, of
      the events the reader has taken from what lies before it. */
  ghost predicate StreamOk(queue: seq<LogRow>, since: seq<LogRow>, picked: seq<nat>) {
    && |queue| <= |since| && queue == since[|since| - |queue|..]
    && (forall k :: 0 <= k < |picked| ==> picked[k] < |since| - |queue|)
    && (forall j, k :: 0 <= j < k < |picked| ==> picked[j] < picked[k])
  }

  lemma StreamFits(queue: seq<LogRow>, since: seq<LogRow>, picked: seq<nat>)
    requires StreamOk(queue, since, picked)
    ensures |queue| <= |since|
  {
  }

  /** How many events were dropped: neither taken nor still queued. */
  ghost function Lost(queue: seq<LogRow>, since: seq<LogRow>, picked: seq<nat>): int {
    |since| - |queue| - |picked|
  }

  ghost function Received(since: seq<LogRow>, picked: seq<nat>): seq<LogRow>
    requires forall k :: 0 <= k < |picked| ==> picked[k] < |since|
  {
    seq(|picked|, k requires 0 <= k < |picked| => since[picked[k]])
  }

  lemma {:induction false} PickedAtLeast(picked: seq<nat>, k: nat)
    requires k < |picked| && forall i, j :: 0 <= i < j < |picked| ==> picked[i] < picked[j]
    ensures picked[k] >= k
  {
    if k > 0 {
      PickedAtLeast(picked, k - 1);
    }
  }

  lemma {:induction false} PickedAtMost(picked: seq<nat>, bound: nat, k: nat)
    requires k < |picked| && forall i, j :: 0 <= i < j < |picked| ==> picked[i] < picked[j]
    requires picked[|picked| - 1] < bound
    ensures picked[k] + |picked| - k <= bound
    decreases |picked| - k
  {
    if k < |picked| - 1 {
      PickedAtMost(picked, bound, k + 1);
    }
  }

  /** Nothing is counted twice, and a subscriber that never overflowed has received everything, in
      order, but what is still queued. */
  lemma NoLossMeansAll(queue: seq<LogRow>, since: seq<LogRow>, picked: seq<nat>)
    requires StreamOk(queue, since, picked)
    ensures Lost(queue, since, picked) >= 0
    ensures Lost(queue, since, picked) == 0 ==> Received(since, picked) + queue == since
  {
    if |picked| > 0 {
      PickedAtMost(picked, |since| - |queue|, 0);
    }
    if Lost(queue, since, picked) == 0 {
      forall k | 0 <= k < |picked|
        ensures picked[k] == k
      {
        PickedAtLeast(picked, k);
        PickedAtMost(picked, |picked|, k);
      }
    }
  }

  function Places(start: nat, n: nat): (places: seq<nat>)
    ensures |places| == n
  {
    seq(n, i requires 0 <= i < n => start + i)
  }

  lemma TakeKeeps(queue: seq<LogRow>, since: seq<LogRow>, picked: seq<nat>, n: nat)
    requires StreamOk(queue, since, picked) && n <= |queue|
    ensures StreamOk(queue[n..], since, picked + Places(|since| - |queue|, n))
    ensures Lost(queue[n..], since, picked + Places(|since| - |queue|, n)) == Lost(queue, since, picked)
  {
  }

  lemma PushKeeps(queue: seq<LogRow>, since: seq<LogRow>, picked: seq<nat>, ev: LogRow)
    requires StreamOk(queue, since, picked)
    ensures StreamOk(queue + [ev], since + [ev], picked)
    ensures Lost(queue + [ev], since + [ev], picked) == Lost(queue, since, picked)
  {
  }

  lemma DropKeeps(queue: seq<LogRow>, since: seq<LogRow>, picked: seq<nat>)
    requires StreamOk(queue, since, picked) && |queue| > 0
    ensures StreamOk(queue[1..], since, picked)
    ensures Lost(queue[1..], since, picked) == Lost(queue, since, picked) + 1
  {
  }

  // ----- A channel's history -----

  datatype ChannelState = ChannelState(queue: seq<LogRow>, since: seq<LogRow>, picked: seq<nat>)

  /** What happens to a channel: its reader takes the n oldest events, or all if there are fewer, the
      oldest is dropped, or one is sent. */
  datatype ChannelOp = Take(n: nat) | Drop | Push(ev: LogRow)

  ghost function OpStep(c: ChannelState, op: ChannelOp): ChannelState {
    match op
    case Take(n) =>
      var m := if n <= |c.queue| then n else |c.queue|;
      if |c.queue| > |c.since| then c
      else ChannelState(c.queue[m..], c.since, c.picked + Places(|c.since| - |c.queue|, m))
    case Drop => if |c.queue| > 0 then c.(queue := c.queue[1..]) else c
    case Push(ev) => c.(queue := c.queue + [ev], since := c.since + [ev])
  }

  ghost function OpSteps(c: ChannelState, ops: seq<ChannelOp>): ChannelState {
    if |ops| == 0 then c else OpStep(OpSteps(c, ops[..|ops| - 1]), ops[|ops| - 1])
  }

  lemma OneMoreOp(c: ChannelState, ops: seq<ChannelOp>, op: ChannelOp)
    ensures OpSteps(c, ops + [op]) == OpStep(OpSteps(c, ops), op)
  {
    assert (ops + [op])[..|ops|] == ops;
  }

  /** Takes and drops, and the send of ev at the end if it is sent. */
  predicate SendsAtMost(ops: seq<ChannelOp>, ev: LogRow, sent: bool) {
    && (sent ==> |ops| > 0 && ops[|ops| - 1] == Push(ev))
    && forall i :: 0 <= i < (if sent then |ops| - 1 else |ops|) ==> !ops[i].Push?
  }

  lemma SendStep(c: ChannelState, ev: LogRow)
    ensures OpStep(c, Push(ev)) == ChannelState(c.queue + [ev], c.since + [ev], c.picked)
  {
  }

  lemma DropStep(c: ChannelState)
    requires |c.queue| > 0
    ensures OpStep(c, Drop) == ChannelState(c.queue[1..], c.since, c.picked)
  {
  }

  lemma SendsMore(ops: seq<ChannelOp>, ev: LogRow, op: ChannelOp)
    requires SendsAtMost(ops, ev, false)
    ensures !op.Push? ==> SendsAtMost(ops + [op], ev, false)
    ensures op == Push(ev) ==> SendsAtMost(ops + [op], ev, true)
  {
  }

  // ----- A subscriber's channel -----

  class Channel {
    var queue: seq<LogRow>
    var closed: bool
    const capacity: nat
    ghost var since: seq<LogRow>   // every event sent to this channel
    ghost var picked: seq<nat>     // the places in since of the events its reader has taken

    ghost predicate Valid()
      reads this
    {
      1 <= capacity && |queue| <= capacity && StreamOk(queue, since, picked)
    }

    ghost function View(): ChannelState
      reads this
    {
      ChannelState(queue, since, picked)
    }

    constructor (capacity: nat)
      requires 1 <= capacity
      ensures Valid() && queue == [] && !closed && since == [] && picked == [] && this.capacity == capacity
    {
      this.capacity := capacity;
      queue, closed, since, picked := [], false, [], [];
    }

    /** The reader takes the oldest queued event, or would wait. */
    method Receive() returns (ev: Option<LogRow>)
      requires Valid()
      modifies this`queue, this`picked
      ensures Valid()
      ensures old(queue) == [] ==> ev == None && queue == [] && picked == old(picked)
      ensures old(queue) != [] ==> ev == Some(old(queue)[0]) && queue == old(queue)[1..]
                                   && picked == old(picked) + Places(|since| - |old(queue)|, 1)
    {
      hide StreamOk;
      if |queue| == 0 {
        return None;
      }
      ev := Some(queue[0]);
      StreamFits(queue, since, picked);
      TakeKeeps(queue, since, picked, 1);
      picked := picked + Places(|since| - |queue|, 1);
      queue := queue[1..];
    }

    /** What the reader may do while Publish holds only the hub's mutex: take any number of events. */
    method ReaderMayTake() returns (ghost n: nat)
      requires Valid()
      modifies this`queue, this`picked
      ensures Valid() && |queue| <= |old(queue)| && old(picked) <= picked
      ensures View() == OpStep(old(View()), Take(n))
      ensures Lost(queue, since, picked) == old(Lost(queue, since, picked))
    {
      hide StreamOk, Lost;
      var taken: nat :| taken <= |queue|;
      n := taken;
      StreamFits(queue, since, picked);
      TakeKeeps(queue, since, picked, taken);
      picked := picked + Places(|since| - |queue|, taken);
      queue := queue[taken..];
    }

    /** ev is owed and stands last in the queue, the reader keeps what it took, and at most one older
        event was lost, none unless the buffer was full. */
    ghost predicate Sent(queue0: seq<LogRow>, since0: seq<LogRow>, picked0: seq<nat>, ev: LogRow)
      reads this
    {
      && since == since0 + [ev] && |queue| > 0 && queue[|queue| - 1] == ev && picked0 <= picked
      && 0 <= Lost(queue, since, picked) - Lost(queue0, since0, picked0) <= if |queue0| == capacity then 1 else 0
    }

    /** Sends ev, dropping the oldest events while the buffer is full; ops is what happened meanwhile. */
    method Send(ev: LogRow) returns (ghost ops: seq<ChannelOp>)
      requires Valid()
      modifies this`queue, this`since, this`picked
      ensures Valid() && Sent(old(queue), old(since), old(picked), ev)
      ensures View() == OpSteps(old(View()), ops) && SendsAtMost(ops, ev, true)
    {
      hide StreamOk, Lost, OpStep, OpSteps, SendsAtMost;
      ghost var start := View();
      var sent := false;
      ops := [];
      NoOps(start, ev);
      while !sent
        invariant Valid() && old(picked) <= picked
        invariant since == if sent then old(since) + [ev] else old(since)
        invariant sent ==> |queue| > 0 && queue[|queue| - 1] == ev
        invariant !sent ==> |queue| <= |old(queue)|
        invariant var lost := Lost(queue, since, picked) - old(Lost(queue, since, picked));
                  lost == 0 || (lost == 1 && |old(queue)| == capacity && (sent || |queue| < capacity))
        invariant View() == OpSteps(start, ops) && SendsAtMost(ops, ev, sent)
        decreases !sent, |queue|
      {
        ghost var n := ReaderMayTake();
        OneMoreOp(start, ops, Take(n));
        SendsMore(ops, ev, Take(n));
        ops := ops + [Take(n)];
        if |queue| < capacity {
          PushKeeps(queue, since, picked, ev);
          OneMoreOp(start, ops, Push(ev));
          SendStep(View(), ev);
          SendsMore(ops, ev, Push(ev));
          since, queue, ops := since + [ev], queue + [ev], ops + [Push(ev)];
          sent := true;
        } else {
          n := ReaderMayTake();
          OneMoreOp(start, ops, Take(n));
          SendsMore(ops, ev, Take(n));
          ops := ops + [Take(n)];
          if |queue| > 0 {
            DropKeeps(queue, since, picked);
            OneMoreOp(start, ops, Drop);
            DropStep(View());
            SendsMore(ops, ev, Drop);
            queue, ops := queue[1..], ops + [Drop];
          }
        }
      }
    }
  }

  lemma NoOps(c: ChannelState, ev: LogRow)
    ensures OpSteps(c, []) == c && SendsAtMost([], ev, false)
  {
  }

  // ----- The hub -----

  class Hub {
    var subscribers: map<nat, Channel>
    var next: nat
    const maxSubs: nat
    const bufferSize: nat

    ghost predicate Valid()
      reads this, subscribers.Values
    {
      && 1 <= bufferSize && |subscribers| <= maxSubs
      && (forall id :: id in subscribers ==>
            id < next && subscribers[id].Valid() && subscribers[id].capacity == bufferSize && !subscribers[id].closed)
      && (forall a, b :: a in subscribers && b in subscribers && a != b ==> subscribers[a] != subscribers[b])
    }

    constructor (maxSubs: int, bufferSize: int)
      ensures Valid() && subscribers == map[]
      ensures this.maxSubs == if maxSubs < 1 then 64 else maxSubs
      ensures this.bufferSize == if bufferSize < 1 then 16 else bufferSize
    {
      this.maxSubs := if maxSubs < 1 then 64 else maxSubs;
      this.bufferSize := if bufferSize < 1 then 16 else bufferSize;
      subscribers, next := map[], 0;
    }

    /** Refused exactly at the cap; otherwise a new id with an empty channel, owed nothing yet. */
    method Subscribe() returns (id: Option<nat>)
      requires Valid()
      modifies this
      ensures Valid()
      ensures id.None? <==> |old(subscribers)| >= maxSubs
      ensures id.None? ==> subscribers == old(subscribers)
      ensures id.Some? ==>
                && id.value !in old(subscribers) && id.value in subscribers && fresh(subscribers[id.value])
                && subscribers == old(subscribers)[id.value := subscribers[id.value]]
                && subscribers[id.value].queue == [] && subscribers[id.value].since == []
    {
      hide StreamOk;
      if |subscribers| >= maxSubs {
        return None;
      }
      var channel := new Channel(bufferSize);
      id := Some(next);
      subscribers := subscribers[next := channel];
      next := next + 1;
    }

    /** Idempotent: removes and closes the channel if it is still there. */
    method Unsubscribe(id: nat)
      requires Valid()
      modifies this`subscribers, if id in subscribers then {subscribers[id]} else {}
      ensures Valid() && subscribers == old(subscribers) - {id}
      ensures id in old(subscribers) ==>
                old(subscribers[id]).closed && old(subscribers[id]).queue == old(subscribers[id].queue)
    {
      if id in subscribers {
        var existing := subscribers[id];
        subscribers := subscribers - {id};
        existing.closed := true;
      }
    }

    /** Every subscriber is sent ev, whatever the order the map is walked in. */
    method Publish(ev: LogRow)
      requires Valid()
      modifies subscribers.Values
      ensures Valid() && subscribers == old(subscribers)
      ensures forall id :: id in subscribers ==>
                var c := subscribers[id];
                c.Sent(old(c.queue), old(c.since), old(c.picked), ev)
    {
      hide StreamOk, Lost, Channel.Valid, Channel.Sent;
      var todo := subscribers.Keys;
      while todo != {}
        invariant Valid() && subscribers == old(subscribers) && todo <= subscribers.Keys
        invariant forall id :: id in subscribers && id !in todo ==>
                    var c := subscribers[id];
                    c.Sent(old(c.queue), old(c.since), old(c.picked), ev)
        invariant forall id :: id in todo ==>
                    var c := subscribers[id];
                    c.queue == old(c.queue) && c.since == old(c.since) && c.picked == old(c.picked)
        decreases todo
      {
        var id :| id in todo;
        var channel := subscribers[id];
        ghost var ops := channel.Send(ev);
        todo := todo - {id};
      }
    }
  }
}
