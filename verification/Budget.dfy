/** The rolling-hour budgets of `services/api/internal/demo/demo.go`: allowForensics and allowLiveInvert
    are this method with their caps of 30 and 60. */
module Budget {

  const HOUR: int := 3_600_000_000_000   // in nanoseconds

  /** The timestamps after a cutoff, in order. */
  function Recent(hits: seq<int>, cutoff: int): (kept: seq<int>)
    ensures |kept| <= |hits|
  {
    if |hits| == 0 then []
    else
      var rest := Recent(hits[..|hits| - 1], cutoff);
      if hits[|hits| - 1] > cutoff then rest + [hits[|hits| - 1]] else rest
  }

  predicate InOrder(times: seq<int>) {
    forall i, j :: 0 <= i < j < |times| ==> times[i] <= times[j]
  }

  /** Any cap + 1 successive accepted calls span an hour. */
  predicate Spaced(times: seq<int>, cap: nat) {
    forall j :: cap <= j < |times| ==> times[j - cap] + HOUR <= times[j]
  }

  // ----- Facts about Recent -----

  lemma {:induction false} RecentOfConcat(a: seq<int>, b: seq<int>, cutoff: int)
    ensures Recent(a + b, cutoff) == Recent(a, cutoff) + Recent(b, cutoff)
  {
    if |b| == 0 {
      assert a + b == a;
    } else {
      assert (a + b)[..|a + b| - 1] == a + b[..|b| - 1];
      RecentOfConcat(a, b[..|b| - 1], cutoff);
    }
  }

  lemma {:induction false} RecentTwice(hits: seq<int>, earlier: int, later: int)
    requires earlier <= later
    ensures Recent(Recent(hits, earlier), later) == Recent(hits, later)
  {
    if |hits| > 0 {
      var rest, last := hits[..|hits| - 1], hits[|hits| - 1];
      RecentTwice(rest, earlier, later);
      if last > earlier {
        RecentOfConcat(Recent(rest, earlier), [last], later);
        assert [last][..0] == [];
      }
    }
  }

  lemma {:induction false} AllRecent(hits: seq<int>, cutoff: int)
    requires forall i :: 0 <= i < |hits| ==> hits[i] > cutoff
    ensures Recent(hits, cutoff) == hits
  {
    if |hits| > 0 {
      AllRecent(hits[..|hits| - 1], cutoff);
      assert hits == hits[..|hits| - 1] + [hits[|hits| - 1]];
    }
  }

  lemma {:induction false} NoneRecent(hits: seq<int>, cutoff: int)
    requires forall i :: 0 <= i < |hits| ==> hits[i] <= cutoff
    ensures Recent(hits, cutoff) == []
  {
    if |hits| > 0 {
      NoneRecent(hits[..|hits| - 1], cutoff);
    }
  }

  /** Fewer than cap recent calls: the cap-th from the end is old. */
  lemma FewRecent(times: seq<int>, cutoff: int, cap: nat)
    requires InOrder(times) && |Recent(times, cutoff)| < cap <= |times|
    ensures times[|times| - cap] <= cutoff
  {
    hide Recent;
    var early, tail := times[..|times| - cap], times[|times| - cap..];
    assert times == early + tail;
    RecentOfConcat(early, tail, cutoff);
    if times[|times| - cap] > cutoff {
      AllRecent(tail, cutoff);
    }
  }

  // ----- The window theorem -----

  /** How many calls fall in the hour that starts at `start`. */
  function InHourFrom(times: seq<int>, start: int): (count: nat)
    ensures count <= |times|
  {
    if |times| == 0 then 0
    else
      var last := times[|times| - 1];
      InHourFrom(times[..|times| - 1], start) + if start <= last < start + 60 * 60 * 1_000_000_000 then 1 else 0
  }

  lemma {:induction false} InHourOfConcat(a: seq<int>, b: seq<int>, start: int)
    ensures InHourFrom(a + b, start) == InHourFrom(a, start) + InHourFrom(b, start)
  {
    if |b| == 0 {
      assert a + b == a;
    } else {
      assert (a + b)[..|a + b| - 1] == a + b[..|b| - 1];
      InHourOfConcat(a, b[..|b| - 1], start);
    }
  }

  lemma {:induction false} NoneInHour(times: seq<int>, start: int)
    requires forall i :: 0 <= i < |times| ==> times[i] < start
    ensures InHourFrom(times, start) == 0
  {
    if |times| > 0 {
      NoneInHour(times[..|times| - 1], start);
    }
  }

  /** When the last call is in the hour, everything before the last cap calls is before the hour. */
  lemma LastInHour(times: seq<int>, cap: nat, start: int)
    requires InOrder(times) && Spaced(times, cap) && |times| > cap && times[|times| - 1] < start + HOUR
    ensures InHourFrom(times, start) <= cap
  {
    hide InHourFrom;
    var early, tail := times[..|times| - cap], times[|times| - cap..];
    assert times == early + tail;
    InHourOfConcat(early, tail, start);
    var k := |times| - 1 - cap;
    assert times[k] + HOUR <= times[k + cap];
    forall i | 0 <= i < |early|
      ensures early[i] < start
    {
      assert times[i] <= times[k];
    }
    NoneInHour(early, start);
  }

  /** Every half-open hour holds at most cap accepted calls. */
  lemma {:induction false} AtMostCapPerHour(times: seq<int>, cap: nat, start: int)
    requires InOrder(times) && Spaced(times, cap)
    ensures InHourFrom(times, start) <= cap
  {
    if |times| > cap {
      if times[|times| - 1] < start + HOUR {
        LastInHour(times, cap, start);
      } else {
        AtMostCapPerHour(times[..|times| - 1], cap, start);
      }
    }
  }

  /** The timestamps kept at a cutoff an hour back are the calls of the hour that ends with now: a call
      exactly an hour old no longer counts. */
  lemma {:induction false} RecentIsHour(times: seq<int>, now: int)
    requires forall i :: 0 <= i < |times| ==> times[i] <= now
    ensures |Recent(times, now - HOUR)| == InHourFrom(times, now - HOUR + 1)
  {
    if |times| > 0 {
      RecentIsHour(times[..|times| - 1], now);
    }
  }

  // ----- The budget -----

  /** kept := hits[:0] and append: the filtered list overwrites the front of the list it is read from. */
  method PruneInPlace(hits: array<int>, size: nat, cutoff: int) returns (kept: nat)
    requires size <= hits.Length
    modifies hits
    ensures kept <= size && hits[..kept] == Recent(old(hits[..size]), cutoff)
  {
    kept := 0;
    ghost var before := hits[..size];
    for i := 0 to size
      invariant kept <= i && hits[..kept] == Recent(before[..i], cutoff)
      invariant forall k :: i <= k < size ==> hits[k] == before[k]
    {
      assert before[..i + 1][..i] == before[..i];
      if hits[i] > cutoff {
        hits[kept] := hits[i];
        kept := kept + 1;
      }
    }
    assert before[..size] == before;
  }

  class RollingBudget {
    const cap: nat
    const buffer: array<int>        // the hits slice: its first `size` elements
    var size: nat
    ghost var accepted: seq<int>    // every timestamp ever recorded
    ghost var cutoff: int           // of the latest call
    ghost var clock: int            // the latest reading

    ghost predicate Valid()
      reads this, buffer
    {
      && size <= cap == buffer.Length && cutoff <= clock - HOUR && buffer[..size] == Recent(accepted, cutoff)
      && InOrder(accepted) && (forall i :: 0 <= i < |accepted| ==> accepted[i] <= clock) && Spaced(accepted, cap)
    }

    constructor (cap: nat, now: int)
      ensures Valid() && fresh(buffer) && this.cap == cap && accepted == [] && clock == now
    {
      this.cap := cap;
      buffer := new int[cap];
      size, accepted, cutoff, clock := 0, [], now - HOUR, now;
    }

    /** One call, reading a non-decreasing clock once, and again to record: refused exactly when cap
        accepted calls lie in the hour before the first reading. The list, pruned in place, is that
        hour of the full history. */
    method Allow(first: int, second: int) returns (ok: bool)
      requires Valid() && clock <= first <= second
      modifies this`size, this`accepted, this`cutoff, this`clock, buffer
      ensures Valid() && clock == if ok then second else first
      ensures ok <==> InHourFrom(old(accepted), first - HOUR + 1) < cap
      ensures accepted == if ok then old(accepted) + [second] else old(accepted)
      ensures buffer[..size] == Recent(accepted, first - HOUR)
    {
      hide InOrder, Spaced, Recent, InHourFrom;
      RecentIsHour(accepted, first);
      RecentTwice(accepted, cutoff, first - HOUR);
      cutoff := first - HOUR;
      var kept := PruneInPlace(buffer, size, first - HOUR);
      size, clock := kept, first;
      if size >= cap {
        return false;
      }
      StaysSpaced(accepted, cutoff, cap, second);
      buffer[size] := second;
      assert buffer[..size + 1] == buffer[..size] + [second];
      size, clock := size + 1, second;
      accepted := accepted + [second];
      return true;
    }
  }

  lemma StaysSpaced(times: seq<int>, cutoff: int, cap: nat, now: int)
    requires InOrder(times) && Spaced(times, cap) && |Recent(times, cutoff)| < cap && cutoff + HOUR <= now
    requires forall i :: 0 <= i < |times| ==> times[i] <= now
    ensures InOrder(times + [now]) && Spaced(times + [now], cap)
    ensures Recent(times + [now], cutoff) == Recent(times, cutoff) + [now]
  {
    hide Recent, InOrder, Spaced;
    if cap <= |times| {
      FewRecent(times, cutoff, cap);
    }
    RecentOfNext(times, cutoff, now);
    SpacedNext(times, cap, now);
    OrderNext(times, now);
  }

  lemma RecentOfNext(times: seq<int>, cutoff: int, now: int)
    requires cutoff < now
    ensures Recent(times + [now], cutoff) == Recent(times, cutoff) + [now]
  {
    assert (times + [now])[..|times|] == times;
  }

  lemma OrderNext(times: seq<int>, now: int)
    requires InOrder(times) && forall i :: 0 <= i < |times| ==> times[i] <= now
    ensures InOrder(times + [now])
  {
  }

  lemma SpacedNext(times: seq<int>, cap: nat, now: int)
    requires Spaced(times, cap) && cap > 0 && (cap <= |times| ==> times[|times| - cap] + HOUR <= now)
    ensures Spaced(times + [now], cap)
  {
    var next := times + [now];
    forall j | cap <= j < |next|
      ensures next[j - cap] + HOUR <= next[j]
    {
      if j < |times| {
        assert times[j - cap] + HOUR <= times[j];
      }
    }
  }
}
