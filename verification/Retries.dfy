/** One request against a pool: the endpoint iterator and the dial-retry loop. */
module Retries {
  import opened Collections
  import opened Options
  import opened PoolModel
  import opened RoundRobin
  import opened Pools

  const MAX_RETRIES := 3

  /** What the transport answers; only a failed dial is retried. */
  datatype Outcome = Answered | DialFailed | OtherError

  datatype Result = NoEndpoints | Done(endpoint: Endpoint, outcome: Outcome)

  /** Slots that a probe at time `now` may choose. */
  ghost function Free(slots: seq<Slot>, now: int, window: int): set<nat> {
    set i: nat | i < |slots| && Available(slots[i], now, window)
  }

  /** The tried places are different and still carry the marks they were given. */
  ghost predicate Burnt(slots: seq<Slot>, tried: seq<nat>, marks: seq<int>) {
    && |tried| <= |marks|
    && (forall j :: 0 <= j < |tried| ==> tried[j] < |slots| && slots[tried[j]].failedAt == Some(marks[j]))
    && (forall j, k :: 0 <= j < k < |tried| ==> tried[j] != tried[k])
  }

  /** While some slot is free, the choice is free, hence new, and only its own mark changes. */
  lemma ChoiceIsNew(slots: seq<Slot>, start: nat, tried: seq<nat>, marks: seq<int>, now: int, window: int)
    requires start < |slots| && Burnt(slots, tried, marks) && |Free(slots, now, window)| > 0
    requires forall j :: 0 <= j < |tried| ==> now - marks[j] <= window
    ensures Choice(slots, start, now, window) !in tried
    ensures Available(slots[Choice(slots, start, now, window)], now, window)
    ensures Burnt(AfterChoice(slots, start, now, window), tried, marks)
  {
    var i :| i in Free(slots, now, window);
    ChoiceAvailable(slots, start, now, window);
    var c := Choice(slots, start, now, window);
    assert AfterChoice(slots, start, now, window) == slots[c := slots[c].(failedAt := None)];
  }

  /** Marking a new place burns it. */
  lemma MarkBurns(slots: seq<Slot>, c: nat, tried: seq<nat>, marks: seq<int>)
    requires c < |slots| && c !in tried && Burnt(slots, tried, marks) && |tried| < |marks|
    ensures Burnt(slots[c := slots[c].(failedAt := Some(marks[|tried|]))], tried + [c], marks)
  {
  }

  /** One attempt costs at most one free slot, however much time goes by. */
  lemma FreeAfterMark(slots: seq<Slot>, after: seq<Slot>, c: nat, now: int, later: int, window: int)
    requires c < |slots| == |after| && now <= later
    requires forall i :: 0 <= i < |slots| && i != c ==> after[i] == slots[i]
    ensures |Free(after, later, window)| >= |Free(slots, now, window)| - 1
  {
    assert Free(slots, now, window) - {c} <= Free(after, later, window);
    SubsetSize(Free(slots, now, window) - {c}, Free(after, later, window));
  }

  /** The place an iterator selects: the sticky one, marked or not, or the pool's choice. */
  function SelectedAt(s: State, sticky: Option<nat>, start: nat, now: int, window: int): nat
    requires start < |s.slots|
  {
    if sticky.Some? then sticky.value else Choice(s.slots, start, now, window)
  }

  lemma StickySelected(s: State, sticky: Option<nat>, start: nat, now: int, window: int)
    requires start < |s.slots|
    ensures sticky.Some? ==> SelectedAt(s, sticky, start, now, window) == sticky.value
  {
  }

  function AfterSelect(s: State, sticky: Option<nat>, start: nat, now: int, window: int): State
    requires start < |s.slots|
  {
    if sticky.Some? then s else s.(slots := AfterChoice(s.slots, start, now, window))
  }

  ghost predicate AfterAttempt(s: State, sticky: Option<nat>, start: nat, now: int, window: int,
                               outcome: Outcome, failed: int, after: State)
    requires start < |s.slots| && (sticky.Some? ==> sticky.value < |s.slots|)
  {
    var selected := AfterSelect(s, sticky, start, now, window);
    var e := s.slots[SelectedAt(s, sticky, start, now, window)].endpoint;
    && (e.addr in selected.keys ==> selected.keys[e.addr] < |selected.slots|)
    && after == if outcome == DialFailed then Mark(selected, e, failed) else selected
  }

  lemma KeyBears(s: State, k: string)
    requires PoolModel.Valid(s) && k in s.keys
    ensures s.keys[k] < |s.slots| && Bears(s.slots[s.keys[k]].endpoint, k)
  {
  }

  class EndpointIterator {
    const pool: Pool
    var initialEndpoint: string
    var lastEndpoint: Endpoint?

    constructor (pool: Pool, initial: string)
      ensures this.pool == pool && initialEndpoint == initial && lastEndpoint == null
    {
      this.pool, initialEndpoint, lastEndpoint := pool, initial, null;
    }

    /** The place of the sticky endpoint, when the request still asks for one. */
    ghost function Sticky(): Option<nat>
      reads this, pool
    {
      if initialEndpoint != "" && initialEndpoint in pool.state.keys then Some(pool.state.keys[initialEndpoint])
      else None
    }

    /** The sticky endpoint, marked or not, if there is one; otherwise the pool's next choice. */
    method Next(now: int) returns (r: Endpoint?, ghost start: nat)
      requires pool.Valid()
      modifies this, pool`nextIdx, pool`state, pool.endpoints`failedAt
      ensures pool.Valid() && initialEndpoint == "" && lastEndpoint == r
      ensures |pool.endpoints| == 0 ==> r == null && pool.state == old(pool.state)
      ensures |pool.endpoints| > 0 ==> 
                && start < |old(pool.state.slots)|
                && (old(Sticky()).Some? ==> old(Sticky()).value < |old(pool.state.slots)|)
                && r == old(pool.state.slots)[
                     SelectedAt(old(pool.state), old(Sticky()), start, now, pool.retryAfterFailure)].endpoint
                && pool.state == AfterSelect(old(pool.state), old(Sticky()), start, now, pool.retryAfterFailure)
      ensures old(Sticky()).Some? ==> r != null && Bears(r, old(initialEndpoint)) && pool.state == old(pool.state)
    {
      hide PoolModel.Valid, RoundRobin.Choice, RoundRobin.AfterChoice;
      start := 0;
      r := TakeInitial();
      if r == null {
        r, start := pool.Next(now);
      }
      lastEndpoint := r;
    }

    /** The sticky endpoint, at most once. */
    method TakeInitial() returns (r: Endpoint?)
      requires pool.Valid()
      modifies this`initialEndpoint
      ensures initialEndpoint == ""
      ensures r == if old(Sticky()).Some? then pool.state.slots[old(Sticky()).value].endpoint else null
      ensures r != null ==> Bears(r, old(initialEndpoint))
    {
      r := null;
      if initialEndpoint != "" {
        r := pool.FindById(initialEndpoint);
        initialEndpoint := "";
      }
    }

    method EndpointFailed(now: int)
      requires pool.Valid()
      modifies pool`state, pool.endpoints`failedAt
      ensures pool.Valid()
      ensures pool.state == if lastEndpoint != null then Mark(old(pool.state), lastEndpoint, now) else old(pool.state)
    {
      if lastEndpoint != null {
        pool.EndpointFailed(lastEndpoint, now);
      }
    }
  }

  /** The attempts of one request happen in this order. */
  ghost predicate Clock(nextAt: seq<int>, failAt: seq<int>) {
    && |nextAt| == |failAt| == MAX_RETRIES
    && (forall j :: 0 <= j < MAX_RETRIES ==> nextAt[j] <= failAt[j])
    && (forall j, k :: 0 <= j < k < MAX_RETRIES ==> failAt[j] <= nextAt[k])
  }

  /** Enough free slots at the start, and no mark of this request expires while it runs. */
  ghost predicate Favourable(slots: seq<Slot>, nextAt: seq<int>, failAt: seq<int>, window: int)
    requires Clock(nextAt, failAt)
  {
    |Free(slots, nextAt[0], window)| >= MAX_RETRIES && failAt[MAX_RETRIES - 1] - failAt[0] <= window
  }

  /** What holds of the pool after `|tried|` failed attempts of a favourable request. */
  ghost predicate Underway(slots: seq<Slot>, tried: seq<nat>, nextAt: seq<int>, failAt: seq<int>, window: int)
    requires Clock(nextAt, failAt)
  {
    && Burnt(slots, tried, failAt)
    && (|tried| < MAX_RETRIES ==> |Free(slots, nextAt[|tried|], window)| >= MAX_RETRIES - |tried|)
  }

  lemma NothingTried(slots: seq<Slot>, nextAt: seq<int>, failAt: seq<int>, window: int)
    requires Clock(nextAt, failAt)
    ensures Favourable(slots, nextAt, failAt, window) ==> Underway(slots, [], nextAt, failAt, window)
  {
  }

  /** A favourable request never repeats a place, and its failed dials stay marked. */
  ghost predicate Tidy(slots: seq<Slot>, tried: seq<nat>, outcomes: seq<Outcome>, marks: seq<int>) {
    && |tried| <= |outcomes| && |tried| <= |marks|
    && (forall j, k :: 0 <= j < k < |tried| ==> tried[j] != tried[k])
    && forall j :: 0 <= j < |tried| && outcomes[j] == DialFailed ==>
      tried[j] < |slots| && slots[tried[j]].failedAt == Some(marks[j])
  }

  /** An attempt uses a new place, sticky or not, and a failed dial leaves it marked. */
  lemma AttemptStep(s: State, sticky: Option<nat>, start: nat, tried: seq<nat>, outcomes: seq<Outcome>,
                    nextAt: seq<int>, failAt: seq<int>, window: int, after: State)
    requires PoolModel.Valid(s) && Clock(nextAt, failAt) && |tried| < MAX_RETRIES == |outcomes|
    requires failAt[MAX_RETRIES - 1] - failAt[0] <= window
    requires Underway(s.slots, tried, nextAt, failAt, window)
    requires sticky.Some? ==> tried == [] && sticky.value < |s.slots|
    requires start < |s.slots|
    requires AfterAttempt(s, sticky, start, nextAt[|tried|], window, outcomes[|tried|], failAt[|tried|], after)
    ensures var at := SelectedAt(s, sticky, start, nextAt[|tried|], window);
            && Tidy(after.slots, tried + [at], outcomes, failAt)
            && (outcomes[|tried|] == DialFailed ==> Underway(after.slots, tried + [at], nextAt, failAt, window))
  {
    var now := nextAt[|tried|];
    var at := SelectedAt(s, sticky, start, now, window);
    var selected := AfterSelect(s, sticky, start, now, window);
    if sticky == None {
      ChoiceIsNew(s.slots, start, tried, failAt, now, window);
    }
    if outcomes[|tried|] == DialFailed {
      assert after.slots == selected.slots[at := selected.slots[at].(failedAt := Some(failAt[|tried|]))];
      MarkBurns(selected.slots, at, tried, failAt);
      if |tried| + 1 < MAX_RETRIES {
        FreeAfterMark(s.slots, after.slots, at, now, nextAt[|tried| + 1], window);
      }
    }
  }

  /** One attempt: select, ask the transport, and mark the endpoint when the dial failed. */
  method Attempt(iter: EndpointIterator, outcome: Outcome, now: int, failed: int)
    returns (endpoint: Endpoint?, ghost at: nat, ghost start: nat)
    requires iter.pool.Valid()
    modifies iter, iter.pool`nextIdx, iter.pool`state, iter.pool.endpoints`failedAt
    ensures iter.pool.Valid() && iter.initialEndpoint == ""
    ensures endpoint == null <==> |iter.pool.endpoints| == 0
    ensures endpoint != null ==>
              && start < |old(iter.pool.state.slots)|
              && (old(iter.Sticky()).Some? ==> old(iter.Sticky()).value < |old(iter.pool.state.slots)|)
              && at == SelectedAt(old(iter.pool.state), old(iter.Sticky()), start, now, iter.pool.retryAfterFailure)
              && AfterAttempt(old(iter.pool.state), old(iter.Sticky()), start, now, iter.pool.retryAfterFailure,
                              outcome, failed, iter.pool.state)
              && at < |iter.pool.state.slots| && endpoint == iter.pool.state.slots[at].endpoint
  {
    hide PoolModel.Valid, Choice, AfterChoice;
    endpoint, start := iter.Next(now);
    at := 0;
    if endpoint != null {
      at := SelectedAt(old(iter.pool.state), old(iter.Sticky()), start, now, iter.pool.retryAfterFailure);
      if outcome == DialFailed {
        iter.EndpointFailed(failed);
      }
    }
  }

  method RoundTrip(iter: EndpointIterator, outcomes: seq<Outcome>, nextAt: seq<int>, failAt: seq<int>)
    returns (res: Result, ghost tried: seq<nat>)
    requires iter.pool.Valid() && |outcomes| == MAX_RETRIES && Clock(nextAt, failAt)
    modifies iter, iter.pool`nextIdx, iter.pool`state, iter.pool.endpoints`failedAt
    ensures iter.pool.Valid()
    ensures res.NoEndpoints? <==> |iter.pool.endpoints| == 0
    ensures res.Done? ==>
              && 1 <= |tried| <= MAX_RETRIES
              && tried[|tried| - 1] < |iter.pool.state.slots|
              && res == Done(iter.pool.state.slots[tried[|tried| - 1]].endpoint, outcomes[|tried| - 1])
              && (forall j :: 0 <= j < |tried| - 1 ==> outcomes[j] == DialFailed)
              && (|tried| < MAX_RETRIES ==> outcomes[|tried| - 1] != DialFailed)
    ensures res.Done? && Favourable(old(iter.pool.state.slots), nextAt, failAt, iter.pool.retryAfterFailure) ==>
              Tidy(iter.pool.state.slots, tried, outcomes, failAt)
    ensures res.Done? && old(iter.Sticky()).Some? ==> tried[0] == old(iter.Sticky()).value
  {
    hide PoolModel.Valid, AfterAttempt, SelectedAt, Burnt, Underway, Tidy, Pool.Linked;
    var pool := iter.pool;
    ghost var favourable := Favourable(pool.state.slots, nextAt, failAt, pool.retryAfterFailure);
    var retry := 0;
    tried := [];
    res := NoEndpoints;
    assert favourable ==> Underway(pool.state.slots, tried, nextAt, failAt, pool.retryAfterFailure) by {
      NothingTried(pool.state.slots, nextAt, failAt, pool.retryAfterFailure);
    }
    while retry < MAX_RETRIES
      invariant 0 <= retry == |tried| <= MAX_RETRIES && pool.Valid()
      invariant retry > 0 ==> iter.initialEndpoint == "" && |pool.endpoints| > 0
      invariant retry > 0 ==>
                  && tried[retry - 1] < |pool.state.slots|
                  && res == Done(pool.state.slots[tried[retry - 1]].endpoint, DialFailed)
      invariant retry == 0 ==> iter.initialEndpoint == old(iter.initialEndpoint) && pool.state == old(pool.state)
      invariant retry > 0 && old(iter.Sticky()).Some? ==> tried[0] == old(iter.Sticky()).value
      invariant forall j :: 0 <= j < retry ==> outcomes[j] == DialFailed
      invariant favourable && retry > 0 ==> Tidy(pool.state.slots, tried, outcomes, failAt)
      invariant favourable ==> Underway(pool.state.slots, tried, nextAt, failAt, pool.retryAfterFailure)
    {
      ghost var s, sticky := pool.state, iter.Sticky();
      var endpoint, at, start := Attempt(iter, outcomes[retry], nextAt[retry], failAt[retry]);
      if endpoint == null {
        return NoEndpoints, tried;
      }
      StickySelected(s, sticky, start, nextAt[retry], pool.retryAfterFailure);
      if favourable {
        AttemptStep(s, sticky, start, tried, outcomes, nextAt, failAt, pool.retryAfterFailure, pool.state);
      }
      tried := tried + [at];
      res := Done(endpoint, outcomes[retry]);
      if outcomes[retry] != DialFailed {
        return;
      }
      retry := retry + 1;
    }
  }
}
