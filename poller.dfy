/** Waiting for the guest process to finish (`wait_for_process` in
    vexec.py): a deadline-driven poll loop followed by one best-effort
    "grace" query.

    The remote `ListProcessesInGuest` call is an oracle `answer` indexed by
    the ordinal of the query (0 for the first). Queries take no time and
    each sleep advances the integer clock by exactly `pollInterval`, so the
    ordinal of a query also fixes the clock reading at which it is made. */
module Poller {
  import opened Wrappers
  import opened Arith

  /** One reply of `ListProcessesInGuest` for the filter `pids=[pid]`: a
      raised fault, or the list of matching processes, each entry standing
      for a `GuestProcessInfo` of which only `exitCode` is read. */
  datatype ListReply = Fault | Listed(exitCodes: seq<Option<int>>)

  /** What `wait_for_process` does: raise, or return an exit code that may
      be `None` ("unknown"). */
  datatype PollResult = PollFault | Finished(exitCode: Option<int>)

  /** A whole wait: its result, how many queries were issued in all
      (ordinals below `queries`), and the clock reading when it returned. */
  datatype Run = Run(result: PollResult, queries: nat, finish: int)

  /** A reply inside the loop that neither raises nor ends the wait: a
      non-empty list whose first entry has no exit code yet. */
  predicate StillRunning(reply: ListReply)
  {
    reply.Listed? && |reply.exitCodes| > 0 && reply.exitCodes[0].None?
  }

  /** How a loop reply that is not `StillRunning` ends the wait: a fault is
      propagated, an empty list means "unknown", otherwise the first
      entry's exit code is returned. */
  function LoopVerdict(reply: ListReply): (r: PollResult)
    requires !StillRunning(reply)
    ensures r == PollFault <==> reply == Fault
    ensures r == Finished(None) <==> reply == Listed([])
    ensures r.Finished? && r.exitCode.Some? ==> reply.Listed? && r.exitCode == reply.exitCodes[0]
  {
    match reply
    case Fault => PollFault
    case Listed(codes) => if |codes| == 0 then Finished(None) else Finished(codes[0])
  }

  /** The grace query's value: its fault is swallowed, an empty list gives
      `None`, a non-empty list gives the first entry's exit code, which may
      itself be `None`. */
  function GraceValue(reply: ListReply): (code: Option<int>)
    ensures code.Some? ==> reply.Listed? && |reply.exitCodes| > 0 && code == reply.exitCodes[0]
    ensures reply.Listed? && |reply.exitCodes| > 0 ==> code == reply.exitCodes[0]
  {
    match reply
    case Fault => None
    case Listed(codes) => if |codes| == 0 then None else codes[0]
  }

  /** Number of loop queries a wait makes when every reply is
      `StillRunning`: one for every clock reading `now`, `now + iv`, ...
      that does not pass `end`. */
  function LoopTicks(now: int, end: int, iv: int): (n: nat)
    requires iv > 0
  {
    if now <= end then (end - now) / iv + 1 else 0
  }

  /** The rest of a wait that is about to make query `k` at clock reading
      `now`, against the deadline `end` fixed at entry. */
  function Poll(answer: nat -> ListReply, k: nat, now: int, end: int, iv: int): (r: Run)
    requires iv > 0
    ensures k < r.queries && now <= r.finish
    decreases if now <= end then end - now + 1 else 0
  {
    if now <= end then
      var reply := answer(k);
      if StillRunning(reply) then Poll(answer, k + 1, now + iv, end, iv)
      else Run(LoopVerdict(reply), k + 1, now)
    else
      Run(Finished(GraceValue(answer(k))), k + 1, now)
  }

  /** `wait_for_process`: the deadline is fixed once at entry, the loop runs
      while the clock has not passed it, and after the loop one grace query
      is made whose fault is swallowed. */
  method WaitForProcess(answer: nat -> ListReply, start: int, timeout: int, pollInterval: int)
    returns (result: PollResult, queries: nat, finish: int)
    requires pollInterval > 0
    ensures Run(result, queries, finish) == Wait(answer, start, timeout, pollInterval)
  {
    var end := start + timeout;
    var now := start;
    queries := 0;
    while now <= end
      invariant Poll(answer, queries, now, end, pollInterval) == Poll(answer, 0, start, end, pollInterval)
      decreases if now <= end then end - now + 1 else 0
    {
      var reply := answer(queries);
      queries := queries + 1;
      if reply.Fault? {
        return PollFault, queries, now;
      }
      if |reply.exitCodes| == 0 {
        return Finished(None), queries, now;
      }
      var first := reply.exitCodes[0];
      if first.Some? {
        return Finished(first), queries, now;
      }
      now := now + pollInterval;
    }
    var last := answer(queries);
    queries := queries + 1;
    result := Finished(GraceValue(last));
    finish := now;
  }

  /** One loop tick uses up exactly one of the ticks left before the deadline. */
  lemma TicksStep(now: int, end: int, iv: int)
    requires iv > 0 && now <= end
    ensures LoopTicks(now, end, iv) == LoopTicks(now + iv, end, iv) + 1
  {
    var d := end - now;
    var q, r := d / iv, d % iv;
    if now + iv <= end {
      assert d - iv == (q - 1) * iv + r;
      DivModUnique(d - iv, iv, q - 1, r);
    } else {
      DivModUnique(d, iv, 0, d);
    }
  }

  /** The shape of every wait: the queries before the last one all found
      the process still running, and the last query either ended the loop
      in time (its reply decides the result and a fault is propagated) or
      was the single grace query after the deadline, made right after an
      in-time query or at entry. */
  lemma {:induction false} PollShape(answer: nat -> ListReply, k: nat, now: int, end: int, iv: int)
    requires iv > 0
    ensures var r := Poll(answer, k, now, end, iv);
      && (forall j :: k <= j < r.queries - 1 ==> StillRunning(answer(j)))
      && (r.finish <= end ==>
            !StillRunning(answer(r.queries - 1)) && r.result == LoopVerdict(answer(r.queries - 1)))
      && (r.finish > end ==>
            r.result == Finished(GraceValue(answer(r.queries - 1)))
            && (r.queries - 1 == k || r.finish - iv <= end))
    decreases if now <= end then end - now + 1 else 0
  {
    if now <= end && StillRunning(answer(k)) {
      PollShape(answer, k + 1, now + iv, end, iv);
    }
  }

  /** The clock of every wait advances by one interval per query before
      the last one: queries take no time and only sleeps move the clock. */
  lemma {:induction false} PollClock(answer: nat -> ListReply, k: nat, now: int, end: int, iv: int)
    requires iv > 0
    ensures var r := Poll(answer, k, now, end, iv);
      r.finish == now + (r.queries - 1 - k) * iv
    decreases if now <= end then end - now + 1 else 0
  {
    if now <= end && StillRunning(answer(k)) {
      PollClock(answer, k + 1, now + iv, end, iv);
      var r := Poll(answer, k + 1, now + iv, end, iv);
      assert (r.queries - 1 - (k + 1)) * iv + iv == (r.queries - 1 - k) * iv;
    }
  }

  /** Bounds of every wait: at most one query per tick before the deadline
      plus the grace query, and the wait returns no later than one interval
      after the deadline (at once, with the grace query alone, when the
      deadline has already passed). */
  lemma {:induction false} PollBounds(answer: nat -> ListReply, k: nat, now: int, end: int, iv: int)
    requires iv > 0
    ensures var r := Poll(answer, k, now, end, iv);
      && r.queries <= k + LoopTicks(now, end, iv) + 1
      && (now <= end ==> r.finish <= end + iv)
      && (now > end ==> r.queries == k + 1 && r.finish == now)
    decreases if now <= end then end - now + 1 else 0
  {
    if now <= end {
      TicksStep(now, end, iv);
      if StillRunning(answer(k)) {
        PollBounds(answer, k + 1, now + iv, end, iv);
      }
    }
  }

  /** The first in-time reply that is not `StillRunning` decides the wait:
      its verdict is the result, and no query follows it. */
  lemma {:induction false} PollFirstDecisive(answer: nat -> ListReply, k: nat, now: int, end: int, iv: int, j: nat)
    requires iv > 0 && k <= j
    requires forall i :: k <= i < j ==> StillRunning(answer(i))
    requires !StillRunning(answer(j))
    requires now + (j - k) * iv <= end
    ensures Poll(answer, k, now, end, iv) == Run(LoopVerdict(answer(j)), j + 1, now + (j - k) * iv)
    decreases j - k
  {
    if k < j {
      assert now + (j - (k + 1)) * iv + iv == now + (j - k) * iv;
      PollFirstDecisive(answer, k + 1, now + iv, end, iv, j);
    }
  }

  /** When the process is still running at every in-time query, the wait
      makes exactly `LoopTicks` loop queries, then the grace query, and
      returns what the grace query yields (never a fault). */
  lemma {:induction false} PollNeverFinishes(answer: nat -> ListReply, k: nat, now: int, end: int, iv: int)
    requires iv > 0
    requires forall i :: k <= i < k + LoopTicks(now, end, iv) ==> StillRunning(answer(i))
    ensures var n := LoopTicks(now, end, iv);
      Poll(answer, k, now, end, iv) == Run(Finished(GraceValue(answer(k + n))), k + n + 1, now + n * iv)
    decreases if now <= end then end - now + 1 else 0
  {
    if now <= end {
      TicksStep(now, end, iv);
      var n := LoopTicks(now + iv, end, iv);
      assert StillRunning(answer(k));
      PollNeverFinishes(answer, k + 1, now + iv, end, iv);
      assert now + iv + n * iv == now + (n + 1) * iv;
    }
  }

  /** The wait as `wait_for_process` starts it: query 0 at clock `start`,
      deadline `start + timeout`. */
  function Wait(answer: nat -> ListReply, start: int, timeout: int, pollInterval: int): (r: Run)
    requires pollInterval > 0
    ensures r.queries >= 1 && start <= r.finish
  {
    Poll(answer, 0, start, start + timeout, pollInterval)
  }

  /** With a non-negative timeout the loop issues at most
      `timeout / pollInterval + 1` queries and the grace query one more
      (so a wait that ends inside the loop makes at most the former),
      and the wait returns at most one interval after the deadline; with a
      negative timeout only the grace query is made, at once. */
  lemma WaitBounds(answer: nat -> ListReply, start: int, timeout: int, pollInterval: int)
    requires pollInterval > 0
    ensures var r := Wait(answer, start, timeout, pollInterval);
      && (timeout >= 0 ==> r.queries <= timeout / pollInterval + 2)
      && (timeout >= 0 ==> start <= r.finish <= start + timeout + pollInterval)
      && (timeout < 0 ==> r.queries == 1 && r.finish == start)
      && (r.finish <= start + timeout ==> r.queries <= timeout / pollInterval + 1)
  {
    PollBounds(answer, 0, start, start + timeout, pollInterval);
    PollClock(answer, 0, start, start + timeout, pollInterval);
    var r := Wait(answer, start, timeout, pollInterval);
    if r.finish <= start + timeout {
      // (queries - 1) intervals fit in the timeout, so queries - 1 <= timeout / pollInterval
      MulLeDiv(r.queries - 1, timeout, pollInterval);
    }
  }

  /** An empty process list from the first query ends the wait with
      "unknown" after that one query, whatever the timeout: in the loop by
      the empty-list check, after a negative timeout by the grace query. */
  lemma WaitVanished(answer: nat -> ListReply, start: int, timeout: int, pollInterval: int)
    requires pollInterval > 0
    requires answer(0) == Listed([])
    ensures Wait(answer, start, timeout, pollInterval) == Run(Finished(None), 1, start)
  {
  }

  /** A fault from an in-time query is raised at once: no retry and no
      grace query follow it. */
  lemma WaitFaultPropagates(answer: nat -> ListReply, start: int, timeout: int, pollInterval: int, j: nat)
    requires pollInterval > 0
    requires forall i :: 0 <= i < j ==> StillRunning(answer(i))
    requires answer(j) == Fault
    requires j * pollInterval <= timeout
    ensures Wait(answer, start, timeout, pollInterval) == Run(PollFault, j + 1, start + j * pollInterval)
  {
    PollFirstDecisive(answer, 0, start, start + timeout, pollInterval, j);
  }

  /** The wait raises only when an in-time query raised: a fault from the
      grace query is swallowed. */
  lemma WaitFaultOnlyInLoop(answer: nat -> ListReply, start: int, timeout: int, pollInterval: int)
    requires pollInterval > 0
    ensures var r := Wait(answer, start, timeout, pollInterval);
      r.result == PollFault ==> answer(r.queries - 1) == Fault && r.finish <= start + timeout
  {
    PollShape(answer, 0, start, start + timeout, pollInterval);
  }

  /** A returned exit code is exactly the one carried by the first entry of
      the last reply; later entries are never consulted. */
  lemma WaitCodeFromFirstEntry(answer: nat -> ListReply, start: int, timeout: int, pollInterval: int)
    requires pollInterval > 0
    ensures var r := Wait(answer, start, timeout, pollInterval);
      r.result.Finished? && r.result.exitCode.Some? ==>
        var last := answer(r.queries - 1);
        last.Listed? && |last.exitCodes| > 0 && r.result.exitCode == last.exitCodes[0]
  {
    PollShape(answer, 0, start, start + timeout, pollInterval);
  }
}
