/** The endpoint pool as the program keeps it: a slice of shared elements and an index into them. */
module Pools {
  import opened Options
  import opened PoolModel
  import opened RoundRobin

  class EndpointElem {
    var endpoint: Endpoint
    var index: int
    var updated: int
    var failedAt: Option<int>
    ghost var owner: Pool

    constructor (endpoint: Endpoint, index: int, updated: int, ghost owner: Pool)
      ensures this.endpoint == endpoint && this.index == index && this.updated == updated
      ensures failedAt == None && this.owner == owner
    {
      this.endpoint, this.index, this.updated, failedAt := endpoint, index, updated, None;
      this.owner := owner;
    }

    ghost function AsSlot(): Slot
      reads this
    {
      Slot(endpoint, updated, failedAt)
    }
  }

  datatype Removal = Absent | Taken | OutOfRange

  function IdsOf(endpoint: Endpoint): set<string> {
    {endpoint.addr, endpoint.privateInstanceId}
  }

  class Pool {
    var endpoints: seq<EndpointElem>
    var index: map<string, EndpointElem>
    var nextIdx: int
    const retryAfterFailure: int
    const contextPath: string

    /** The pool as a value. */
    ghost var state: State

    /** Elements know their position and their pool, and hold what `state` says. */
    ghost predicate Placed()
      reads this`state, this`endpoints, endpoints
    {
      && |state.slots| == |endpoints|
      && forall i :: 0 <= i < |endpoints| ==>
        && endpoints[i].index == i
        && endpoints[i].owner == this
        && endpoints[i].AsSlot() == state.slots[i]
    }

    /** The index leads to the elements that `state` says. */
    ghost predicate Indexed()
      reads this`state, this`index, this`endpoints
    {
      && state.keys.Keys == index.Keys
      && forall k :: k in index ==> state.keys[k] < |endpoints| && index[k] == endpoints[state.keys[k]]
    }

    /** The object holds what `state` says, in order or not. */
    ghost predicate Linked()
      reads this, endpoints
    {
      -1 <= nextIdx && Placed() && Indexed()
    }

    ghost predicate Valid()
      reads this, endpoints
    {
      Linked() && PoolModel.Valid(state)
    }

    ghost function Elems(): set<EndpointElem>
      reads this
    {
      set e | e in endpoints
    }

    constructor (retryAfterFailure: int, contextPath: string)
      ensures Valid() && state == EMPTY && endpoints == [] && index == map[]
      ensures this.retryAfterFailure == retryAfterFailure && this.contextPath == contextPath
    {
      this.retryAfterFailure, this.contextPath := retryAfterFailure, contextPath;
      endpoints, index, nextIdx := [], map[], -1;
      state := EMPTY;
    }

    predicate IsEmpty()
      reads this
    {
      |endpoints| == 0
    }

    /**
     * For every endpoint and every index: an element that the index still leads to is given the new endpoint,
     * even when it has left the pool.
     */
    method Put(endpoint: Endpoint, now: int) returns (added: bool)
      requires Placed()
      modifies this, endpoints, index.Values
      ensures Placed() && added == (endpoint.addr !in old(index)) && nextIdx == old(nextIdx)
      ensures added ==> Joins(old(endpoints), old(index), endpoint) && fresh(endpoints[|old(endpoints)|])
      ensures added ==> forall e :: e in old(endpoints) ==> e.endpoint == old(e.endpoint)
      ensures fresh(Elems() - old(Elems()))
      ensures !added ==> endpoints == old(endpoints) && old(index[endpoint.addr]).endpoint == endpoint
      ensures !added ==>
        var e := old(index[endpoint.addr]); index == Reindexed(old(index), endpoint, e, old(e.endpoint))
      ensures !added ==> forall e :: e in endpoints && e != old(index[endpoint.addr]) ==> e.endpoint == old(e.endpoint)
      ensures old(Linked()) ==> Linked() && state == PoolModel.Put(old(state), endpoint, now)
      ensures old(Valid()) ==> (Valid() <==> Admits(old(state), endpoint))
    {
      hide PoolModel.Valid, Admits, Reindexed;
      if Indexed() && PoolModel.Valid(state) {
        PutValidIff(state, endpoint, now);
      }
      if endpoint.addr in index {
        var e := index[endpoint.addr];
        if e.endpoint == endpoint {
          assert index == Reindexed(index, endpoint, e, e.endpoint) by { SameIds(index, endpoint, e); }
          return false;
        }
        Replace(e, endpoint, now);
        return false;
      }
      Append(endpoint, now);
      added := true;
    }

    /** The pool as `Put` leaves it for a new address. */
    ghost predicate Joins(es: seq<EndpointElem>, was: map<string, EndpointElem>, endpoint: Endpoint)
      reads this, endpoints
    {
      && |endpoints| == |es| + 1 && endpoints[..|es|] == es && endpoints[|es|].endpoint == endpoint
      && index == was[endpoint.addr := endpoints[|es|]][endpoint.privateInstanceId := endpoints[|es|]]
    }

    /** The index as `Put` leaves it for a known address. */
    static ghost function Reindexed(was: map<string, EndpointElem>, endpoint: Endpoint, e: EndpointElem,
                                    before: Endpoint): map<string, EndpointElem>
    {
      if before.privateInstanceId != endpoint.privateInstanceId
      then (was - {before.privateInstanceId})[endpoint.privateInstanceId := e] else was
    }

    static lemma SameIds(was: map<string, EndpointElem>, endpoint: Endpoint, e: EndpointElem)
      ensures Reindexed(was, endpoint, e, endpoint) == was
    {
    }

    /** The branch of `Put` for a known address. */
    method Replace(e: EndpointElem, endpoint: Endpoint, now: int)
      requires Placed() && e in index.Values
      modifies this`index, this`state, e`endpoint, e`updated
      ensures Placed() && e.endpoint == endpoint && index == Reindexed(old(index), endpoint, e, old(e.endpoint))
      ensures old(Indexed()) ==>
        Indexed() && e in endpoints && state == PoolModel.Replace(old(state), e.index, endpoint, now)
    {
      var oldEndpoint := e.endpoint;
      e.endpoint := endpoint;
      if oldEndpoint.privateInstanceId != endpoint.privateInstanceId {
        index := (index - {oldEndpoint.privateInstanceId})[endpoint.privateInstanceId := e];
      }
      e.updated := now;
      if e in endpoints {
        state := PoolModel.Replace(state, e.index, endpoint, now);
      }
    }

    /** The branch of `Put` for a new address. */
    method Append(endpoint: Endpoint, now: int)
      requires Placed()
      modifies this`endpoints, this`index, this`state
      ensures Placed() && Joins(old(endpoints), old(index), endpoint) && fresh(endpoints[|old(endpoints)|])
      ensures state == PoolModel.Append(old(state), endpoint, now) && (old(Indexed()) ==> Indexed())
      ensures fresh(Elems() - old(Elems()))
    {
      var e := new EndpointElem(endpoint, |endpoints|, now, this);
      endpoints := endpoints + [e];
      index := index[endpoint.addr := e];
      index := index[endpoint.privateInstanceId := e];
      state := PoolModel.Append(state, endpoint, now);
    }

    /** Whatever is at the place that `e` records goes; that is `e` itself only while it is in the pool. */
    method RemoveEndpoint(e: EndpointElem)
      requires Placed() && 0 <= e.index < |endpoints|
      modifies this`endpoints, this`index, this`state, Elems()`index
      ensures Placed() && endpoints == SwapDelete(old(endpoints), old(e.index)) && Elems() <= old(Elems())
      ensures index == old(index) - IdsOf(e.endpoint)
      ensures forall x :: x in old(endpoints) && x !in endpoints ==> x.index == old(x.index)
      ensures old(Valid()) && old(e in endpoints) ==> Valid() && state == RemoveAt(old(state), old(e.index))
    {
      hide RemoveAt, SwapDelete;
      ghost var valid := Valid() && e in endpoints;
      if valid {
        RemoveAtKeepsValid(state, e.index);
      }
      SwapDeleteAt(endpoints, e.index);
      Unlink(e);
    }

    /** `RemoveEndpoint` on the fields. */
    method Unlink(e: EndpointElem)
      requires Placed() && 0 <= e.index < |endpoints|
      modifies this`endpoints, this`index, this`state, endpoints`index
      ensures Placed() && endpoints == SwapDelete(old(endpoints), old(e.index))
      ensures index == old(index) - IdsOf(e.endpoint)
      ensures forall x :: x in old(endpoints) && x !in endpoints ==> x.index == old(x.index)
      ensures old(Indexed() && KeysLead(state) && e in endpoints) ==>
        Indexed() && state == RemoveAt(old(state), old(e.index))
    {
      hide SwapDelete, RemoveAt;
      var i := e.index;
      FillGap(i);
      index := index - {e.endpoint.addr, e.endpoint.privateInstanceId};
      RemoveAtSlots(old(state), i);
      state := RemoveAt(old(state), i);
      if old(Indexed() && KeysLead(state) && e in endpoints) {
        Relinked(old(endpoints), old(index), old(state), i, index, e.endpoint);
      }
    }

    /** The keys that are left lead to the elements they led to, wherever these are now. */
    static lemma Relinked(es: seq<EndpointElem>, was: map<string, EndpointElem>, s: State, i: nat,
                          now: map<string, EndpointElem>, gone: Endpoint)
      requires i < |es| == |s.slots| && s.keys.Keys == was.Keys && s.slots[i].endpoint == gone
      requires forall k :: k in was ==> s.keys[k] < |es| && was[k] == es[s.keys[k]]
      requires forall k :: k in s.keys && s.keys[k] == i ==> Bears(gone, k)
      requires now == was - {gone.addr, gone.privateInstanceId}
      ensures RemoveAt(s, i).slots == SwapDelete(s.slots, i) && RemoveAt(s, i).keys.Keys == now.Keys
      ensures forall k :: k in now ==>
        RemoveAt(s, i).keys[k] < |es| - 1 && now[k] == SwapDelete(es, i)[RemoveAt(s, i).keys[k]]
    {
      hide SwapDelete;
      SwapDeleteAt(es, i);
    }

    /** The re-ordering delete: the last element moves to position `i`. */
    method FillGap(i: nat)
      requires Placed() && i < |endpoints|
      modifies this`endpoints, this`state, endpoints`index
      ensures Placed() && endpoints == SwapDelete(old(endpoints), i)
      ensures forall x :: x in old(endpoints) && x !in endpoints ==> x.index == old(x.index)
      ensures state == old(state).(slots := SwapDelete(old(state.slots), i))
    {
      var last := |endpoints|;
      SwapDeleteAt(endpoints, i);
      SwapDeleteAt(state.slots, i);
      endpoints := SwapDelete(endpoints, i);
      if i < last - 1 {
        endpoints[i].index := i;
      }
      state := state.(slots := SwapDelete(state.slots, i));
    }

    /** What a removal comes to. */
    ghost function RemovalOf(endpoint: Endpoint): Removal
      reads this, index.Values
    {
      if |endpoints| == 0 || endpoint.addr !in index then Absent
      else if 0 <= index[endpoint.addr].index < |endpoints| then Taken
      else OutOfRange
    }

    /** For every endpoint and every index. `OutOfRange` stands for a panic. */
    method Remove(endpoint: Endpoint) returns (r: Removal)
      requires Placed()
      modifies this, Elems()`index
      ensures Placed() && r == old(RemovalOf(endpoint)) && Elems() <= old(Elems()) && nextIdx == old(nextIdx)
      ensures r.Taken? ==> endpoints == SwapDelete(old(endpoints), old(index[endpoint.addr].index))
      ensures r.Taken? ==> index == old(index) - old(IdsOf(index[endpoint.addr].endpoint))
      ensures forall x :: x in old(endpoints) && x !in endpoints ==> x.index == old(x.index)
      ensures !r.Taken? ==> endpoints == old(endpoints) && index == old(index) && state == old(state)
      ensures old(Valid()) ==> Valid() && state == PoolModel.Remove(old(state), endpoint)
      ensures old(Valid()) ==> r == if endpoint.addr in old(index) then Taken else Absent
    {
      hide PoolModel.Valid, RemoveAt, SwapDelete;
      r := Absent;
      if |endpoints| > 0 && endpoint.addr in index {
        var e := index[endpoint.addr];
        if 0 <= e.index < |endpoints| {
          RemoveEndpoint(e);
          r := Taken;
        } else {
          r := OutOfRange;
        }
      }
    }

    method PruneEndpoints(defaultThreshold: int, now: int)
      requires Valid()
      modifies this, Elems()`index
      ensures Valid() && state == Prune(old(state), now, defaultThreshold)
      ensures Elems() <= old(Elems())
    {
      hide PoolModel.Valid, Indexed, RemoveAt;
      var last := |endpoints|;
      var i := 0;
      while i < last
        invariant 0 <= i <= last == |endpoints|
        invariant Valid()
        invariant PruneFrom(state, i, now, defaultThreshold) == Prune(old(state), now, defaultThreshold)
        invariant Elems() <= old(Elems())
        decreases last - i
      {
        var e := endpoints[i];
        var staleTime := now - defaultThreshold;
        if e.endpoint.staleThreshold > 0 && e.endpoint.staleThreshold < defaultThreshold {
          staleTime := now - e.endpoint.staleThreshold;
        }
        assert e.updated < staleTime <==> !Fresh(RecordOf(state.slots[i]), now, defaultThreshold) by {
          assert e.AsSlot() == state.slots[i];
        }
        if e.updated < staleTime {
          RemoveEndpoint(e);
          last := last - 1;
        } else {
          i := i + 1;
        }
      }
    }

    /** `findById`: an endpoint it returns is in the pool and bears `id`. */
    method FindById(id: string) returns (r: Endpoint?)
      requires Valid()
      ensures r == if id in state.keys then state.slots[state.keys[id]].endpoint else null
      ensures r != null ==> Bears(r, id) && exists i :: 0 <= i < |endpoints| && endpoints[i].endpoint == r
    {
      if id in index {
        assert index[id].AsSlot() == state.slots[state.keys[id]];
        return index[id].endpoint;
      }
      return null;
    }

    /** Sets the failure mark of the element at `i`. */
    method SetMark(i: nat, mark: Option<int>)
      requires Placed() && Indexed() && i < |endpoints|
      modifies this`state, endpoints`failedAt
      ensures Placed() && Indexed()
      ensures state == old(state).(slots := old(state).slots[i := old(state).slots[i].(failedAt := mark)])
    {
      endpoints[i].failedAt := mark;
      state := state.(slots := state.slots[i := state.slots[i].(failedAt := mark)]);
    }

    method EndpointFailed(endpoint: Endpoint, now: int)
      requires Valid()
      modifies this`state, endpoints`failedAt
      ensures Valid() && state == Mark(old(state), endpoint, now)
    {
      if endpoint.addr in index {
        var e := index[endpoint.addr];
        ghost var r := Mark(state, endpoint, now);
        assert PoolModel.Valid(r) by { MarksKeepValid(state, r); }
        SetMark(e.index, Some(now));
      }
    }

    /** `next`; `start` is where the probe begins. */
    method Next(now: int) returns (r: Endpoint?, ghost start: nat)
      requires Valid()
      modifies this`nextIdx, this`state, endpoints`failedAt
      ensures Valid()
      ensures |endpoints| == 0 ==> r == null && state == old(state)
      ensures |endpoints| > 0 ==>
                && start < |endpoints|
                && (old(nextIdx) != -1 ==> start == if old(nextIdx) >= |endpoints| then 0 else old(nextIdx))
                && r == old(state).slots[Choice(old(state).slots, start, now, retryAfterFailure)].endpoint
                && nextIdx == Ring(Choice(old(state).slots, start, now, retryAfterFailure), 1, |endpoints|)
                && state == old(state).(slots := AfterChoice(old(state).slots, start, now, retryAfterFailure))
    {
      hide Choice, AfterChoice, PoolModel.Valid, Indexed;
      if |endpoints| == 0 {
        return null, 0;
      }
      PickStart();
      start := nextIdx;
      AfterChoiceMarks(state.slots, start, now, retryAfterFailure);
      r := Probe(now);
      MarksKeepValid(old(state), state);
    }

    /** Successive calls: with fixed members and no marks, each endpoint gets its share of them. */
    method Rounds(m: nat, now: int) returns (rs: seq<Endpoint>, ghost turns: seq<nat>)
      requires Valid() && |endpoints| > 0
      modifies this`nextIdx, this`state, endpoints`failedAt
      ensures Valid() && |rs| == |turns| == m
      ensures forall i :: 0 <= i < m ==> turns[i] < |old(state).slots| && rs[i] == old(state).slots[turns[i]].endpoint
      ensures (forall i :: 0 <= i < |endpoints| ==> old(state).slots[i].failedAt == None) ==>
        forall c :: 0 <= c < |endpoints| ==>
          m / |endpoints| <= Count(turns, c) <= (m + |endpoints| - 1) / |endpoints|
    {
      hide PoolModel.Valid;
      ghost var start;
      rs, turns, start := Calls(m, now);
      if forall i :: 0 <= i < |endpoints| ==> old(state).slots[i].failedAt == None {
        forall c | 0 <= c < |endpoints|
          ensures m / |endpoints| <= Count(turns, c) <= (m + |endpoints| - 1) / |endpoints|
        {
          TurnsAreFair(old(state).slots, start, now, retryAfterFailure, m, c);
        }
      }
    }

    method Calls(m: nat, now: int) returns (rs: seq<Endpoint>, ghost turns: seq<nat>, ghost start: nat)
      requires Valid() && |endpoints| > 0
      modifies this`nextIdx, this`state, endpoints`failedAt
      ensures Valid() && |rs| == m && start < |endpoints| == |old(state).slots| == |state.slots|
      ensures 0 <= old(nextIdx) < |endpoints| ==> start == old(nextIdx)
      ensures turns == Turns(old(state).slots, start, now, retryAfterFailure, m)
      ensures forall i :: 0 <= i < m ==> rs[i] == old(state).slots[turns[i]].endpoint
      decreases m
    {
      hide Choice, AfterChoice, PoolModel.Valid, Indexed;
      if m == 0 {
        rs, turns := [], [];
        start := if 0 <= nextIdx < |endpoints| then nextIdx else 0;
        return;
      }
      var r;
      r, start := Next(now);
      ghost var next := nextIdx;
      AfterChoiceMarks(old(state).slots, start, now, retryAfterFailure);
      ghost var later;
      rs, turns, later := Calls(m - 1, now);
      ghost var c := Choice(old(state).slots, start, now, retryAfterFailure);
      assert later == next == Ring(c, 1, |endpoints|);
      rs, turns := [r] + rs, [c] + turns;
    }

    /** Where a probe begins: anywhere the first time, at the front when members were lost. */
    method PickStart()
      requires |endpoints| > 0 && -1 <= nextIdx
      modifies this`nextIdx
      ensures 0 <= nextIdx < |endpoints|
      ensures old(nextIdx) != -1 ==> nextIdx == if old(nextIdx) >= |endpoints| then 0 else old(nextIdx)
    {
      var last := |endpoints|;
      if nextIdx == -1 {
        var drawn :| 0 <= drawn < last;
        nextIdx := drawn;
      } else if nextIdx >= last {
        nextIdx := 0;
      }
    }

    /** The probing loop of `next`. */
    method Probe(now: int) returns (r: Endpoint)
      requires Placed() && Indexed() && 0 <= nextIdx < |endpoints|
      modifies this`nextIdx, this`state, endpoints`failedAt
      ensures Placed() && Indexed()
      ensures r == old(state).slots[Choice(old(state).slots, old(nextIdx), now, retryAfterFailure)].endpoint
      ensures nextIdx == Ring(Choice(old(state).slots, old(nextIdx), now, retryAfterFailure), 1, |endpoints|)
      ensures state == old(state).(slots := AfterChoice(old(state).slots, old(nextIdx), now, retryAfterFailure))
    {
      hide Indexed, ClearMarks;
      var last := |endpoints|;
      var startIdx := nextIdx;
      var curIdx := startIdx;
      ghost var k := 0;
      ghost var was := state;
      while true
        invariant Placed() && Indexed() && |was.slots| == last
        invariant 0 <= k <= last && curIdx == Ring(startIdx, k, last)
        invariant Skipped(was.slots, startIdx, now, retryAfterFailure) ==
                  Skipped(was.slots, startIdx, now, retryAfterFailure, k)
        invariant state == if k < last then was else was.(slots := ClearMarks(was.slots))
        decreases last - k
      {
        var at := curIdx;
        var e := endpoints[curIdx];
        curIdx := curIdx + 1;
        if curIdx == last {
          curIdx := 0;
        }
        var available := Refresh(at, now);
        if available {
          nextIdx := curIdx;
          return e.endpoint;
        }
        k := k + 1;
        if curIdx == startIdx {
          ClearAll();
        }
      }
    }

    /** Takes off a mark that has expired. */
    method Refresh(at: nat, now: int) returns (available: bool)
      requires Placed() && Indexed() && at < |endpoints|
      modifies this`state, endpoints`failedAt
      ensures Placed() && Indexed() && available == Available(old(state).slots[at], now, retryAfterFailure)
      ensures var was := old(state);
              state == if available then was.(slots := was.slots[at := was.slots[at].(failedAt := None)]) else was
      ensures old(state).slots[at].failedAt == None ==> state == old(state)
      ensures endpoints[at].endpoint == state.slots[at].endpoint
    {
      var e := endpoints[at];
      assert e.AsSlot() == state.slots[at];
      if e.failedAt.Some? && now - e.failedAt.value > retryAfterFailure {
        SetMark(at, None);
      }
      available := e.failedAt == None;
      assert endpoints[at].AsSlot() == state.slots[at];
    }

    /** All endpoints were marked failed: make every one available again. */
    method ClearAll()
      requires Placed() && Indexed()
      modifies this`state, endpoints`failedAt
      ensures Placed() && Indexed() && state == old(state).(slots := ClearMarks(old(state).slots))
    {
      var i := 0;
      while i < |endpoints|
        invariant 0 <= i <= |endpoints|
        invariant Placed() && Indexed() && state.keys == old(state).keys
        invariant forall j :: 0 <= j < i ==> state.slots[j] == old(state).slots[j].(failedAt := None)
        invariant forall j :: i <= j < |endpoints| ==> state.slots[j] == old(state).slots[j]
      {
        SetMark(i, None);
        i := i + 1;
      }
      assert state.slots == ClearMarks(old(state).slots);
    }
  }

  /** Ids that meet in one pool, and an endpoint that has nothing to do with them. */
  predicate Clashing(e1: Endpoint, e2: Endpoint, other: Endpoint) {
    && e1.addr != e1.privateInstanceId == e2.addr == e2.privateInstanceId
    && IdsOf(other) !! IdsOf(e1)
  }

  /** Two puts into one element: the key of `e1` leads to an element that has become `e2`. */
  method Clash(pool: Pool, e1: Endpoint, e2: Endpoint, now: int) returns (elem: EndpointElem)
    requires pool.Placed() && e1.addr != e1.privateInstanceId == e2.addr == e2.privateInstanceId
    requires IdsOf(e1) !! pool.index.Keys
    modifies pool, pool.endpoints, pool.index.Values
    ensures pool.Placed() && pool.endpoints == old(pool.endpoints) + [elem] && elem.endpoint == e2
    ensures pool.index == old(pool.index)[e1.addr := elem][e2.addr := elem]
    ensures forall x :: x in old(pool.endpoints) ==> x.endpoint == old(x.endpoint)
    ensures fresh(elem)
  {
    hide Pool.Valid, Pool.Linked, PoolModel.Put, Admits, Pool.Placed;
    var _ := pool.Put(e1, now);
    elem := pool.endpoints[|pool.endpoints| - 1];
    assert pool.endpoints == old(pool.endpoints) + [elem];
    assert pool.index[e1.addr] == elem;
    var _ := pool.Put(e2, now);
  }

  /**
   * Where a clash leads: the key of `e1` outlives its element, and removing `e1` takes out an endpoint
   * that was never asked for.
   */
  method StrangerTaken(e1: Endpoint, e2: Endpoint, other: Endpoint, now: int) returns (pool: Pool, r: Removal)
    requires Clashing(e1, e2, other)
    ensures r == Taken && pool.endpoints == [] && pool.Placed()
  {
    hide Pool.Valid, Pool.Linked, PoolModel.Put, Admits;
    pool := new Pool(0, "/");
    assert pool.Placed() by { FreshPool(pool); }
    var elem := Clash(pool, e1, e2, now);
    var _ := pool.Put(other, now);
    assert pool.endpoints == [elem, pool.endpoints[1]];
    r := RemoveBoth(pool, elem, pool.endpoints[1], e1, e2);
  }

  method RemoveBoth(pool: Pool, elem: EndpointElem, last: EndpointElem, e1: Endpoint, e2: Endpoint)
    returns (r: Removal)
    requires pool.Placed() && pool.endpoints == [elem, last] && elem.endpoint == e2
    requires e1.addr != e2.addr == e2.privateInstanceId && e1.addr in pool.index && e2.addr in pool.index
    requires pool.index[e1.addr] == pool.index[e2.addr] == elem
    modifies pool, pool.endpoints
    ensures r == Taken && pool.endpoints == [] && pool.Placed()
  {
    hide Pool.Valid, Pool.Linked, Pool.Indexed, PoolModel.Valid, PoolModel.Remove;
    assert pool.endpoints[0].index == 0 && pool.endpoints[1].index == 1;
    r := pool.Remove(e2);
    assert pool.endpoints == [last];
    r := pool.Remove(e1);
  }

  lemma FreshPool(pool: Pool)
    requires pool.Valid()
    ensures pool.Placed()
  {
  }

  /** The same with the two put last: the recorded place is past the end. */
  method RemovalOutOfRange(e1: Endpoint, e2: Endpoint, other: Endpoint, now: int) returns (pool: Pool, r: Removal)
    requires Clashing(e1, e2, other)
    ensures r == OutOfRange
  {
    hide Pool.Valid, Pool.Linked, PoolModel.Put, Admits;
    pool := new Pool(0, "/");
    assert pool.Placed() by { FreshPool(pool); }
    var _ := pool.Put(other, now);
    var elem := Clash(pool, e1, e2, now);
    assert pool.endpoints == [pool.endpoints[0], elem];
    r := RemoveLast(pool, pool.endpoints[0], elem, e1, e2);
  }

  method RemoveLast(pool: Pool, first: EndpointElem, elem: EndpointElem, e1: Endpoint, e2: Endpoint)
    returns (r: Removal)
    requires pool.Placed() && pool.endpoints == [first, elem] && elem.endpoint == e2
    requires e1.addr != e2.addr == e2.privateInstanceId && e1.addr in pool.index && e2.addr in pool.index
    requires pool.index[e1.addr] == pool.index[e2.addr] == elem
    modifies pool, pool.endpoints
    ensures r == OutOfRange
  {
    hide Pool.Valid, Pool.Linked, Pool.Indexed, PoolModel.Valid, PoolModel.Remove;
    assert pool.endpoints[0].index == 0 && pool.endpoints[1].index == 1;
    r := pool.Remove(e2);
    assert pool.endpoints == [first];
    r := pool.Remove(e1);
  }
}
