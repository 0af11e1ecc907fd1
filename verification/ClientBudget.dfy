/** The request budget per client and minute, with the table cleaned up by timers that run at any later time. */
module ClientBudget {
  import opened Bytes

  /** The points of a client since its window started; the window lasts until `timeout`. */
  datatype ClientInfo = ClientInfo(costs: nat, timeout: int)

  /** `timers` are the clean-ups scheduled and not yet run, each with the time it was scheduled at. */
  datatype Table = Table(clients: map<string, ClientInfo>, lastCleanUp: int, timers: seq<int>)

  const WINDOW: int := 60000

  const EMPTY := Table(map[], 0, [])

  /** The client's record once the request at `now` is charged to it. */
  function Charged(t: Table, client: string, cost: nat, now: int): ClientInfo
  {
    if client !in t.clients || t.clients[client].timeout < now then ClientInfo(cost, now + WINDOW)
    else t.clients[client].(costs := t.clients[client].costs + cost)
  }

  predicate Accepts(t: Table, client: string, cost: nat, maxPoints: int, now: int)
  {
    maxPoints == 0 || Charged(t, client, cost, now).costs <= maxPoints
  }

  function Check(t: Table, client: string, cost: nat, now: int): Table
  {
    var t1 := t.(clients := t.clients[client := Charged(t, client, cost, now)]);
    if t.lastCleanUp < now then t1.(lastCleanUp := now + 2 * WINDOW, timers := t.timers + [now]) else t1
  }

  /** Deletes the windows that had ended when the timer was scheduled. */
  function CleanUp(t: Table, i: nat): Table
    requires i < |t.timers|
  {
    var expired := set c | c in t.clients && t.clients[c].timeout < t.timers[i];
    t.(clients := t.clients - expired, timers := t.timers[..i] + t.timers[i + 1..])
  }

  // ---------------------------------------------------------------- the limiter

  class Limiter {
    var clients: map<string, ClientInfo>
    var lastCleanUp: int
    var timers: seq<int>

    ghost function Value(): Table
      reads this
    {
      Table(clients, lastCleanUp, timers)
    }

    constructor ()
      ensures Value() == EMPTY
    {
      clients, lastCleanUp, timers := map[], 0, [];
    }

    /** Charges the requests in any case; not `accepted` where the source answers false or throws. */
    method CheckBudget(client: string, requests: seq<nat>, maxPoints: int, now: int) returns (accepted: bool)
      modifies this
      ensures accepted == Accepts(old(Value()), client, Sum(requests), maxPoints, now)
      ensures Value() == Check(old(Value()), client, Sum(requests), now)
    {
      if client !in clients {
        clients := clients[client := ClientInfo(0, now + WINDOW)];
      }
      var state := clients[client];
      if state.timeout < now {
        state := ClientInfo(0, now + WINDOW);
      }
      var costs := 0;
      for i := 0 to |requests|
        invariant costs == Sum(requests[..i])
      {
        assert requests[..i + 1][..i] == requests[..i];
        costs := costs + requests[i];
      }
      assert requests[..|requests|] == requests;
      state := state.(costs := state.costs + costs);
      clients := clients[client := state];
      if lastCleanUp < now {
        lastCleanUp := now + 120000;
        timers := timers + [now];
      }
      accepted := !(maxPoints != 0 && state.costs > maxPoints);
    }

    /** A timer runs: every key found too old is deleted, one by one. */
    method RunTimer(i: nat)
      requires i < |timers|
      modifies this
      ensures Value() == CleanUp(old(Value()), i)
    {
      var now := timers[i];
      var keys := set c | c in clients && clients[c].timeout < now;
      timers := timers[..i] + timers[i + 1..];
      ghost var all, before := keys, clients;
      while keys != {}
        invariant keys <= all && clients == before - (all - keys)
        invariant timers == old(timers)[..i] + old(timers)[i + 1..] && lastCleanUp == old(lastCleanUp)
        decreases keys
      {
        var key :| key in keys;
        clients := clients - {key};
        keys := keys - {key};
        assert before - (all - keys) == before - (all - (keys + {key})) - {key};
      }
    }
  }

  function Sum(costs: seq<nat>): nat
  {
    if costs == [] then 0 else Sum(costs[..|costs| - 1]) + costs[|costs| - 1]
  }

  // ---------------------------------------------------------------- runs

  datatype Event = Request(client: string, cost: nat, maxPoints: int, now: int) | Timer(i: nat)

  function Step(t: Table, e: Event): Table
  {
    match e
    case Request(client, cost, _, now) => Check(t, client, cost, now)
    case Timer(i) => if i < |t.timers| then CleanUp(t, i) else t
  }

  /** The table after a run, with timers. */
  function After(es: seq<Event>): Table
  {
    if es == [] then EMPTY else Step(After(es[..|es| - 1]), es[|es| - 1])
  }

  /** The table after the same requests when no timer ever runs. */
  function AfterPlain(es: seq<Event>): Table
  {
    if es == [] then EMPTY
    else if es[|es| - 1].Timer? then AfterPlain(es[..|es| - 1])
    else Step(AfterPlain(es[..|es| - 1]), es[|es| - 1])
  }

  /** The time of the last request. */
  function Latest(es: seq<Event>): Option<int>
  {
    if es == [] then None
    else if es[|es| - 1].Request? then Some(es[|es| - 1].now)
    else Latest(es[..|es| - 1])
  }

  /** The clock does not run backwards. */
  predicate Monotone(es: seq<Event>)
  {
    es != [] ==>
      var rest, last := es[..|es| - 1], es[|es| - 1];
      Monotone(rest) && (last.Request? && Latest(rest).Some? ==> Latest(rest).value <= last.now)
  }

  /** Is the last event a request that is accepted? */
  predicate AcceptedLast(t: Table, es: seq<Event>)
    requires es != [] && es[|es| - 1].Request?
  {
    var e := es[|es| - 1];
    Accepts(t, e.client, e.cost, e.maxPoints, e.now)
  }

  // ---------------------------------------------------------------- cleaning up changes nothing

  /** The cleaned table lacks nothing but windows that ended before `latest`. */
  ghost predicate Cleaned(t: Table, plain: Table, latest: Option<int>)
  {
    && t.lastCleanUp == plain.lastCleanUp
    && (forall c :: c in t.clients ==> c in plain.clients && plain.clients[c] == t.clients[c])
    && (forall c :: c in plain.clients && c !in t.clients ==> latest.Some? && plain.clients[c].timeout < latest.value)
    && (forall i :: 0 <= i < |t.timers| ==> latest.Some? && t.timers[i] <= latest.value)
  }

  lemma {:induction false} RunsStayAlike(es: seq<Event>)
    requires Monotone(es)
    ensures Cleaned(After(es), AfterPlain(es), Latest(es))
  {
    if es != [] {
      RunsStayAlike(es[..|es| - 1]);
    }
  }

  /** Whatever timers run, and however late, every request is decided as if none did. */
  lemma CleanUpIsInvisible(es: seq<Event>)
    requires Monotone(es) && es != [] && es[|es| - 1].Request?
    ensures AcceptedLast(After(es[..|es| - 1]), es) == AcceptedLast(AfterPlain(es[..|es| - 1]), es)
  {
    RunsStayAlike(es[..|es| - 1]);
  }

  // ---------------------------------------------------------------- the window of a client, from the requests alone

  predicate By(e: Event, client: string)
  {
    e.Request? && e.client == client
  }

  /**
    The request that opened the client's window: its first one, or the first one more than 60000 ms after the opening of
    the window before.
   */
  function Opening(es: seq<Event>, client: string): (k: Option<nat>)
    ensures k.Some? ==> k.value < |es| && By(es[k.value], client)
  {
    if es == [] then None
    else
      var n := |es| - 1;
      var before := Opening(es[..n], client);
      if By(es[n], client) && (before.None? || es[n].now > es[before.value].now + 60000) then Some(n) else before
  }

  /** The cost of all the client's requests from event `k` on. */
  function CostFrom(es: seq<Event>, client: string, k: nat): nat
  {
    if |es| <= k then 0
    else
      var n := |es| - 1;
      CostFrom(es[..n], client, k) + (if By(es[n], client) then es[n].cost else 0)
  }

  /** The table holds every client's window with what was charged since its opening. */
  lemma {:induction false} WindowIsCharged(es: seq<Event>, client: string)
    ensures var t, k := AfterPlain(es), Opening(es, client);
            && (client in t.clients <==> k.Some?)
            && (k.Some? ==> t.clients[client] == ClientInfo(CostFrom(es, client, k.value), es[k.value].now + 60000))
  {
    if es != [] {
      var n := |es| - 1;
      WindowIsCharged(es[..n], client);
      assert CostFrom(es[..n], client, n) == 0;
    }
  }

  /**
    With or without timers, a request is accepted if and only if there is no budget, or the client's requests since the
    opening of its window, accepted or not and this one included, cost no more.
   */
  lemma AcceptedExactly(es: seq<Event>)
    requires Monotone(es) && es != [] && es[|es| - 1].Request?
    ensures var e := es[|es| - 1]; var k := Opening(es, e.client);
            && k.Some?
            && (AcceptedLast(After(es[..|es| - 1]), es)
                <==> e.maxPoints == 0 || CostFrom(es, e.client, k.value) <= e.maxPoints)
  {
    CleanUpIsInvisible(es);
    WindowIsCharged(es, es[|es| - 1].client);
  }

  // ---------------------------------------------------------------- clean-ups

  /** The clean-ups scheduled in a run: at a request more than 120000 ms after the last one, or the first after 0. */
  function Scheduled(es: seq<Event>): seq<int>
  {
    if es == [] then []
    else
      var n := |es| - 1;
      var before := Scheduled(es[..n]);
      if es[n].Request? && es[n].now > (if before == [] then 0 else before[|before| - 1] + 120000)
      then before + [es[n].now]
      else before
  }

  lemma {:induction false} CleanUpsAreRare(es: seq<Event>)
    ensures AfterPlain(es).timers == Scheduled(es)
    ensures After(es).lastCleanUp == AfterPlain(es).lastCleanUp
            == if Scheduled(es) == [] then 0 else Scheduled(es)[|Scheduled(es)| - 1] + 120000
  {
    if es != [] {
      CleanUpsAreRare(es[..|es| - 1]);
    }
  }

  /** Every timer runs right after the request that schedules it. */
  predicate Prompt(es: seq<Event>)
  {
    es != [] ==>
      var rest, last := es[..|es| - 1], es[|es| - 1];
      Prompt(rest) && (last.Timer? <==> After(rest).timers != []) && (last.Timer? ==> last.i == 0)
  }

  /** What prompt timers keep: at most the last clean-up is due; once it has run, no window ended before it. */
  ghost predicate CleanedUp(t: Table, scheduled: seq<int>, latest: Option<int>)
  {
    if scheduled == [] then t.timers == []
    else
      var last := scheduled[|scheduled| - 1];
      && latest.Some? && last <= latest.value
      && (t.timers == [] || t.timers == [last])
      && (t.timers == [] ==> forall c :: c in t.clients ==> t.clients[c].timeout >= last)
  }

  /** With prompt timers no window is held longer than until the first clean-up after its end. */
  lemma {:induction false} OldWindowsGo(es: seq<Event>)
    requires Prompt(es) && Monotone(es)
    ensures CleanedUp(After(es), Scheduled(es), Latest(es))
  {
    if es != [] {
      OldWindowsGo(es[..|es| - 1]);
      CleanUpsAreRare(es);
      CleanUpsAreRare(es[..|es| - 1]);
    }
  }

  // ---------------------------------------------------------------- the budget of a minute

  /** The cost of the client's request, if it is accepted at a time from `from` to `to`. */
  function SpentBy(t: Table, e: Event, client: string, from: int, to: int): nat
  {
    if e.Request? && e.client == client && from <= e.now <= to && Accepts(t, client, e.cost, e.maxPoints, e.now)
    then e.cost else 0
  }

  /** The cost accepted for the client from `from` to `to` in the run with timers. */
  function Spent(es: seq<Event>, client: string, from: int, to: int): nat
  {
    if es == [] then 0
    else Spent(es[..|es| - 1], client, from, to) + SpentBy(After(es[..|es| - 1]), es[|es| - 1], client, from, to)
  }

  /** The part of it that was accepted since the client's window was opened. */
  function SpentInWindow(es: seq<Event>, client: string, from: int, to: int): nat
  {
    if es == [] then 0
    else
      var rest, e := es[..|es| - 1], es[|es| - 1];
      var t := AfterPlain(rest);
      var before := if e.Request? && e.client == client && client in t.clients && t.clients[client].timeout < e.now
                    then 0 else SpentInWindow(rest, client, from, to);
      before + SpentBy(t, e, client, from, to)
  }

  ghost predicate Fixed(es: seq<Event>, client: string, maxPoints: int)
  {
    forall i :: 0 <= i < |es| && es[i].Request? && es[i].client == client ==> es[i].maxPoints == maxPoints
  }

  /**
    What is spent from `from` on for a minute, in all and in the current window: at most one window that was opened in
    the span follows another one that was spent from, and each is worth `maxPoints`.
   */
  ghost predicate WithinTwo(t: Table, client: string, latest: Option<int>, all: nat, current: nat, maxPoints: int,
                            from: int)
  {
    && current <= all <= 2 * maxPoints && current <= maxPoints
    && (client !in t.clients ==> all == 0)
    && (client in t.clients ==>
          var w := t.clients[client];
          && current <= w.costs
          && latest.Some? && w.timeout - WINDOW <= latest.value
          && (all > 0 ==> from <= w.timeout)
          && (w.timeout - WINDOW > from + WINDOW
              || (all - current <= maxPoints && (all > current ==> from < w.timeout - WINDOW))))
  }

  lemma RequestKeepsTwo(t: Table, client: string, latest: Option<int>, all: nat, current: nat, maxPoints: int,
                        from: int, cost: nat, now: int)
    requires WithinTwo(t, client, latest, all, current, maxPoints, from) && maxPoints > 0
    requires latest.Some? ==> latest.value <= now
    ensures var spent := SpentBy(t, Request(client, cost, maxPoints, now), client, from, from + WINDOW);
            var before := if client in t.clients && t.clients[client].timeout < now then 0 else current;
            WithinTwo(Check(t, client, cost, now), client, Some(now), all + spent, before + spent, maxPoints, from)
  {
  }

  /** Every event keeps it. */
  lemma {:induction false} TwoWindows(es: seq<Event>, client: string, maxPoints: int, from: int)
    requires Monotone(es) && Fixed(es, client, maxPoints) && maxPoints > 0
    ensures WithinTwo(AfterPlain(es), client, Latest(es), Spent(es, client, from, from + WINDOW),
                      SpentInWindow(es, client, from, from + WINDOW), maxPoints, from)
  {
    if es != [] {
      var rest, e := es[..|es| - 1], es[|es| - 1];
      TwoWindows(rest, client, maxPoints, from);
      if e.Request? && e.client == client {
        hide WithinTwo, Charged;
        CleanUpIsInvisible(es);
        assert es[|es| - 1].maxPoints == maxPoints;
        RequestKeepsTwo(AfterPlain(rest), client, Latest(rest), Spent(rest, client, from, from + WINDOW),
                        SpentInWindow(rest, client, from, from + WINDOW), maxPoints, from, e.cost, e.now);
      }
    }
  }

  /** In any span of 60 seconds at most twice the budget of a minute is accepted, timers or not. */
  lemma SpanBudget(es: seq<Event>, client: string, maxPoints: int, from: int)
    requires Monotone(es) && Fixed(es, client, maxPoints) && maxPoints > 0
    ensures Spent(es, client, from, from + WINDOW) <= 2 * maxPoints
  {
    TwoWindows(es, client, maxPoints, from);
  }

  /** Twice the budget it can be: at the end of one window and again right after it. */
  lemma TwiceTheBudget()
    ensures var es := [Request("c", 0, 1, 0), Request("c", 1, 1, 60000), Request("c", 1, 1, 60001)];
            Monotone(es) && Fixed(es, "c", 1) && Spent(es, "c", 60000, 60001) == 2
  {
    var a, b, c := Request("c", 0, 1, 0), Request("c", 1, 1, 60000), Request("c", 1, 1, 60001);
    var one, two, three := [a], [a, b], [a, b, c];
    assert one[..0] == [] && two[..1] == one && three[..2] == two;
    assert Latest([]) == None && Latest(one) == Some(0) && Latest(two) == Some(60000);
    assert Monotone([]);
    assert Monotone(one);
    assert Monotone(two);
    assert After(one).clients["c"] == ClientInfo(0, 60000);
    assert After(two).clients["c"] == ClientInfo(1, 60000);
    assert Spent([], "c", 60000, 60001) == 0 && Spent(one, "c", 60000, 60001) == 0;
    assert Spent(one, "c", 60000, 60001) == 0 && Spent(two, "c", 60000, 60001) == 1;
  }
}
