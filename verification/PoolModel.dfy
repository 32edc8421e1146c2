/** The endpoint pool as a value: slots in slice order and the key index into them. */
module PoolModel {
  import opened Options

  /** Immutable once made; the pool compares endpoints by identity. */
  class Endpoint {
    const applicationId: string
    const addr: string
    const privateInstanceId: string
    const staleThreshold: int

    constructor (applicationId: string, addr: string, privateInstanceId: string, staleThreshold: int)
      ensures this.applicationId == applicationId && this.addr == addr
      ensures this.privateInstanceId == privateInstanceId && this.staleThreshold == staleThreshold
    {
      this.applicationId, this.addr := applicationId, addr;
      this.privateInstanceId, this.staleThreshold := privateInstanceId, staleThreshold;
    }
  }

  datatype Slot = Slot(endpoint: Endpoint, updated: int, failedAt: Option<int>)

  datatype State = State(slots: seq<Slot>, keys: map<string, nat>)

  const EMPTY := State([], map[])

  /** What the pool promises to remember about one address. */
  datatype Record = Record(endpoint: Endpoint, updated: int)

  /** Every key leads to a slot that bears it, as address or as private id. */
  ghost predicate KeysLead(s: State) {
    forall k :: k in s.keys ==> s.keys[k] < |s.slots| && Bears(s.slots[s.keys[k]].endpoint, k)
  }

  predicate Bears(e: Endpoint, k: string) {
    k == e.addr || k == e.privateInstanceId
  }

  /** Every slot is found under its address (hence addresses are distinct). */
  ghost predicate AddressesFound(s: State) {
    forall i :: 0 <= i < |s.slots| ==>
      s.slots[i].endpoint.addr in s.keys && s.keys[s.slots[i].endpoint.addr] == i
  }

  /** No private id in the pool is an address in it. */
  ghost predicate Separate(s: State) {
    forall i, j :: 0 <= i < |s.slots| && 0 <= j < |s.slots| ==>
      s.slots[i].endpoint.privateInstanceId != s.slots[j].endpoint.addr
  }

  /** The index leads from every key to a slot that bears it, and from every address to its own slot. */
  ghost predicate Consistent(s: State) {
    KeysLead(s) && AddressesFound(s)
  }

  /** What all operations keep: for removals to keep the index, ids must stay apart as well. */
  ghost predicate Valid(s: State) {
    Consistent(s) && Separate(s)
  }

  /** The ids of `e` keep apart from the addresses and private ids already in the pool. */
  ghost predicate Admits(s: State, e: Endpoint) {
    && e.addr != e.privateInstanceId
    && forall i :: 0 <= i < |s.slots| ==>
      s.slots[i].endpoint.addr != e.privateInstanceId && s.slots[i].endpoint.privateInstanceId != e.addr
  }

  /** The slot of address `a`, if the pool has it. */
  ghost function At(s: State, a: string): Option<Slot>
    requires KeysLead(s)
  {
    if a in s.keys && s.slots[s.keys[a]].endpoint.addr == a then Some(s.slots[s.keys[a]]) else None
  }

  /** The pool as a plain map from address to record. */
  ghost function Table(s: State): map<string, Record>
    requires KeysLead(s)
  {
    map a | a in s.keys && At(s, a).Some? :: RecordOf(At(s, a).value)
  }

  function RecordOf(slot: Slot): Record {
    Record(slot.endpoint, slot.updated)
  }

  ghost predicate AgreesAt(s: State, t: map<string, Record>, a: string)
    requires KeysLead(s)
  {
    if a in t then At(s, a).Some? && t[a] == RecordOf(At(s, a).value) else At(s, a) == None
  }

  /** A pool's map is fixed by what it says about each address. */
  lemma TableIs(s: State, t: map<string, Record>)
    requires KeysLead(s) && forall a :: AgreesAt(s, t, a)
    ensures Table(s) == t
  {
    assert forall a :: a in t ==> AgreesAt(s, t, a);
    assert forall a :: a in Table(s) ==> AgreesAt(s, t, a);
  }

  function Replace(s: State, i: nat, e: Endpoint, now: int): State
    requires i < |s.slots|
  {
    var was := s.slots[i].endpoint;
    State(s.slots[i := s.slots[i].(endpoint := e, updated := now)],
          if was.privateInstanceId != e.privateInstanceId
          then (s.keys - {was.privateInstanceId})[e.privateInstanceId := i] else s.keys)
  }

  function Append(s: State, e: Endpoint, now: int): State {
    State(s.slots + [Slot(e, now, None)], s.keys[e.addr := |s.slots|][e.privateInstanceId := |s.slots|])
  }

  function Put(s: State, e: Endpoint, now: int): State
    requires e.addr in s.keys ==> s.keys[e.addr] < |s.slots|
  {
    if e.addr !in s.keys then Append(s, e, now)
    else if s.slots[s.keys[e.addr]].endpoint == e then s
    else Replace(s, s.keys[e.addr], e, now)
  }

  /** `s` with position `i` refilled by the last element, which is dropped. */
  function SwapDelete<T>(s: seq<T>, i: nat): (r: seq<T>)
    requires i < |s|
    ensures |r| == |s| - 1
  {
    s[i := s[|s| - 1]][..|s| - 1]
  }

  /** `removeEndpoint`: keys of the slot that moved into the gap follow it. */
  function RemoveAt(s: State, i: nat): State
    requires i < |s.slots|
  {
    var e := s.slots[i].endpoint;
    var left := s.keys - {e.addr, e.privateInstanceId};
    State(SwapDelete(s.slots, i), map k | k in left :: if left[k] == |s.slots| - 1 then i else left[k])
  }

  function Remove(s: State, e: Endpoint): State
    requires e.addr in s.keys ==> s.keys[e.addr] < |s.slots|
  {
    if e.addr in s.keys then RemoveAt(s, s.keys[e.addr]) else s
  }

  lemma ReplaceKeepsValid(s: State, i: nat, e: Endpoint, now: int)
    requires Valid(s) && Admits(s, e) && i < |s.slots| && s.slots[i].endpoint.addr == e.addr
    ensures Valid(Replace(s, i, e, now))
  {
  }

  lemma ReplaceAt(s: State, i: nat, e: Endpoint, now: int, a: string)
    requires Valid(s) && Admits(s, e) && i < |s.slots| && s.slots[i].endpoint.addr == e.addr
    requires KeysLead(Replace(s, i, e, now))
    ensures At(Replace(s, i, e, now), a) == if a == e.addr then Some(Slot(e, now, s.slots[i].failedAt)) else At(s, a)
  {
    assert s.keys[e.addr] == i;
  }

  lemma AppendKeepsValid(s: State, e: Endpoint, now: int)
    requires Valid(s) && Admits(s, e) && e.addr !in s.keys
    ensures Valid(Append(s, e, now))
  {
    hide KeysLead, AddressesFound;
    assert Fitting(s, e);
    AppendFits(s, e, now);
  }

  lemma AppendAt(s: State, e: Endpoint, now: int, a: string)
    requires Valid(s) && Admits(s, e) && e.addr !in s.keys
    requires KeysLead(Append(s, e, now))
    ensures At(Append(s, e, now), a) == if a == e.addr then Some(Slot(e, now, None)) else At(s, a)
  {
  }

  /** Where the slots of `s` are after `RemoveAt(s, i)`. */
  lemma SwapDeleteAt<T>(s: seq<T>, i: nat)
    requires i < |s|
    ensures |SwapDelete(s, i)| == |s| - 1
    ensures forall j :: 0 <= j < |s| - 1 ==> SwapDelete(s, i)[j] == s[if j == i then |s| - 1 else j]
  {
  }

  lemma RemoveAtSlots(s: State, i: nat)
    requires i < |s.slots|
    ensures RemoveAt(s, i).slots == SwapDelete(s.slots, i)
  {
  }

  lemma RemoveAtKeys(s: State, i: nat)
    requires Valid(s) && i < |s.slots|
    ensures KeysLead(RemoveAt(s, i))
  {
    var r := RemoveAt(s, i);
    SwapDeleteAt(s.slots, i);
    forall k | k in r.keys ensures r.keys[k] < |r.slots| && Bears(r.slots[r.keys[k]].endpoint, k) {
      assert Bears(s.slots[s.keys[k]].endpoint, k) && s.keys[k] != i;
    }
  }

  lemma RemoveAtAddresses(s: State, i: nat)
    requires Valid(s) && i < |s.slots|
    ensures AddressesFound(RemoveAt(s, i))
  {
    var r := RemoveAt(s, i);
    SwapDeleteAt(s.slots, i);
    forall j | 0 <= j < |r.slots|
      ensures r.slots[j].endpoint.addr in r.keys && r.keys[r.slots[j].endpoint.addr] == j
    {
      var was := if j == i then |s.slots| - 1 else j;
      assert r.slots[j] == s.slots[was];
      assert s.keys[s.slots[was].endpoint.addr] == was;
    }
  }

  lemma RemoveAtSeparate(s: State, i: nat)
    requires Valid(s) && i < |s.slots|
    ensures Separate(RemoveAt(s, i))
  {
    SwapDeleteAt(s.slots, i);
  }

  lemma RemoveAtAt(s: State, i: nat, a: string)
    requires Valid(s) && i < |s.slots|
    requires KeysLead(RemoveAt(s, i))
    ensures At(RemoveAt(s, i), a) == if a == s.slots[i].endpoint.addr then None else At(s, a)
  {
    SwapDeleteAt(s.slots, i);
  }

  lemma RemoveAtKeepsValid(s: State, i: nat)
    requires Valid(s) && i < |s.slots|
    ensures Valid(RemoveAt(s, i))
    ensures Table(RemoveAt(s, i)) == Table(s) - {s.slots[i].endpoint.addr}
  {
    RemoveAtKeys(s, i);
    RemoveAtAddresses(s, i);
    RemoveAtSeparate(s, i);
    var t := Table(s) - {s.slots[i].endpoint.addr};
    forall a ensures AgreesAt(RemoveAt(s, i), t, a) {
      RemoveAtAt(s, i, a);
    }
    TableIs(RemoveAt(s, i), t);
  }

  /** The plain-map meaning of `Put`: the identical endpoint changes nothing, any other is stored anew. */
  ghost function TableAfterPut(t: map<string, Record>, e: Endpoint, now: int): map<string, Record> {
    if e.addr in t && t[e.addr].endpoint == e then t else t[e.addr := Record(e, now)]
  }

  lemma PutKeepsValid(s: State, e: Endpoint, now: int)
    requires Valid(s) && Admits(s, e)
    ensures Valid(Put(s, e, now))
    ensures Table(Put(s, e, now)) == TableAfterPut(Table(s), e, now)
  {
    var t := Table(s)[e.addr := Record(e, now)];
    if e.addr !in s.keys {
      AppendKeepsValid(s, e, now);
      forall a ensures AgreesAt(Append(s, e, now), t, a) {
        AppendAt(s, e, now, a);
      }
      TableIs(Append(s, e, now), t);
    } else {
      var i := s.keys[e.addr];
      AddressKey(s, e.addr, e);
      if s.slots[i].endpoint != e {
        ReplaceKeepsValid(s, i, e, now);
        forall a ensures AgreesAt(Replace(s, i, e, now), t, a) {
          ReplaceAt(s, i, e, now, a);
        }
        TableIs(Replace(s, i, e, now), t);
      }
    }
  }

  /** For an admissible endpoint, a hit on its address is a hit on that very address. */
  lemma AddressKey(s: State, a: string, e: Endpoint)
    requires Valid(s) && Admits(s, e) && e.addr == a && a in s.keys
    ensures s.slots[s.keys[a]].endpoint.addr == a
  {
    assert Bears(s.slots[s.keys[a]].endpoint, a);
  }

  /** Storing an endpoint keeps the pool in order exactly when its ids keep apart. */
  lemma PutValidIff(s: State, e: Endpoint, now: int)
    requires Valid(s)
    ensures Valid(Put(s, e, now)) <==> Admits(s, e)
  {
    if Admits(s, e) {
      PutKeepsValid(s, e, now);
    } else if Valid(Put(s, e, now)) {
      PutNeedsAdmission(s, e, now);
    }
  }

  /** In a pool that is still in order after `Put`, the stored endpoint has its own slot. */
  lemma PutNeedsAdmission(s: State, e: Endpoint, now: int)
    requires Valid(s) && Valid(Put(s, e, now))
    ensures Admits(s, e)
  {
    var r := Put(s, e, now);
    var at := if e.addr in s.keys then s.keys[e.addr] else |s.slots|;
    assert r.slots[at].endpoint == e;
    forall i | 0 <= i < |s.slots|
      ensures s.slots[i].endpoint.addr != e.privateInstanceId && s.slots[i].endpoint.privateInstanceId != e.addr
    {
      if i != at {
        assert r.slots[i] == s.slots[i];
      } else {
        assert s.keys[s.slots[i].endpoint.addr] == i;
      }
    }
  }

  /** A put neither takes over another slot's address nor lands in a slot of another address. */
  ghost predicate Fitting(s: State, e: Endpoint)
    requires KeysLead(s)
  {
    && (forall j :: 0 <= j < |s.slots| && s.slots[j].endpoint.addr == e.privateInstanceId ==>
         s.slots[j].endpoint.addr == e.addr)
    && (e.addr in s.keys ==> s.slots[s.keys[e.addr]].endpoint.addr == e.addr)
  }

  /** The index itself survives a put exactly when the put is fitting; ids need not keep apart for that. */
  lemma PutConsistentIff(s: State, e: Endpoint, now: int)
    requires Valid(s)
    ensures Consistent(Put(s, e, now)) <==> Fitting(s, e)
  {
    if Fitting(s, e) {
      FittingKeeps(s, e, now);
    } else if e.addr in s.keys && s.slots[s.keys[e.addr]].endpoint.addr != e.addr {
      MisplacedBreaks(s, e, now);
    } else {
      var j :| 0 <= j < |s.slots| && s.slots[j].endpoint.addr == e.privateInstanceId && e.privateInstanceId != e.addr;
      TakenOverBreaks(s, e, now, j);
    }
  }

  lemma FittingKeeps(s: State, e: Endpoint, now: int)
    requires Valid(s) && Fitting(s, e)
    ensures Consistent(Put(s, e, now))
  {
    hide Append, Replace, Separate;
    if e.addr !in s.keys {
      AppendFits(s, e, now);
    } else {
      ReplaceFits(s, s.keys[e.addr], e, now);
    }
  }

  lemma AppendFits(s: State, e: Endpoint, now: int)
    requires Valid(s) && Fitting(s, e) && e.addr !in s.keys
    ensures Consistent(Append(s, e, now))
  {
    hide Separate;
    var r := Append(s, e, now);
    forall j | 0 <= j < |r.slots| ensures r.slots[j].endpoint.addr in r.keys && r.keys[r.slots[j].endpoint.addr] == j {
      if j < |s.slots| {
        assert s.slots[j].endpoint.addr in s.keys;
      }
    }
  }

  lemma ReplaceFits(s: State, i: nat, e: Endpoint, now: int)
    requires Valid(s) && Fitting(s, e) && e.addr in s.keys && i == s.keys[e.addr]
    ensures Consistent(Replace(s, i, e, now))
  {
    ReplaceLeads(s, i, e, now);
    ReplaceFinds(s, i, e, now);
  }

  lemma ReplaceLeads(s: State, i: nat, e: Endpoint, now: int)
    requires Valid(s) && Fitting(s, e) && e.addr in s.keys && i == s.keys[e.addr]
    ensures KeysLead(Replace(s, i, e, now))
  {
    hide AddressesFound, Separate;
    var r := Replace(s, i, e, now);
    forall k | k in r.keys ensures r.keys[k] < |r.slots| && Bears(r.slots[r.keys[k]].endpoint, k) {
      if k != e.privateInstanceId {
        assert k in s.keys && Bears(s.slots[s.keys[k]].endpoint, k);
      }
    }
  }

  lemma ReplaceFinds(s: State, i: nat, e: Endpoint, now: int)
    requires Valid(s) && Fitting(s, e) && e.addr in s.keys && i == s.keys[e.addr]
    ensures AddressesFound(Replace(s, i, e, now))
  {
    var r, was := Replace(s, i, e, now), s.slots[i].endpoint;
    forall j | 0 <= j < |r.slots| ensures r.slots[j].endpoint.addr in r.keys && r.keys[r.slots[j].endpoint.addr] == j {
      var a := r.slots[j].endpoint.addr;
      assert a == s.slots[j].endpoint.addr && s.keys[a] == j && a != was.privateInstanceId;
    }
  }

  /** The endpoint lands in a slot found under its private id, and that slot's address is left without a slot. */
  lemma MisplacedBreaks(s: State, e: Endpoint, now: int)
    requires Valid(s) && e.addr in s.keys && s.slots[s.keys[e.addr]].endpoint.addr != e.addr
    ensures !Consistent(Put(s, e, now))
  {
    var i, r := s.keys[e.addr], Put(s, e, now);
    var was := s.slots[i].endpoint;
    assert was.privateInstanceId == e.addr && s.keys[was.addr] == i;
    if e.privateInstanceId == e.addr {
      assert was.addr in r.keys && r.keys[was.addr] == i && !Bears(r.slots[i].endpoint, was.addr);
    } else {
      assert e.addr !in r.keys && r.slots[i].endpoint == e;
    }
  }

  lemma TakenOverBreaks(s: State, e: Endpoint, now: int, j: nat)
    requires Valid(s) && j < |s.slots| && s.slots[j].endpoint.addr == e.privateInstanceId != e.addr
    requires e.addr in s.keys ==> s.slots[s.keys[e.addr]].endpoint.addr == e.addr
    ensures !Consistent(Put(s, e, now))
  {
    var r := Put(s, e, now);
    assert s.keys[s.slots[j].endpoint.addr] == j;
    if e.addr in s.keys {
      assert s.keys[e.addr] != j;
    }
    assert r.slots[j] == s.slots[j] && r.keys[e.privateInstanceId] != j;
  }

  /** Two puts that break the index: the private id of the second is the address of the first. */
  lemma TwoPutsBreak(e1: Endpoint, e2: Endpoint, now: int)
    requires e1.addr != e1.privateInstanceId && e2.privateInstanceId == e1.addr != e2.addr
    ensures Valid(Put(EMPTY, e1, now)) && !Consistent(Put(Put(EMPTY, e1, now), e2, now))
  {
    PutKeepsValid(EMPTY, e1, now);
    var s := Put(EMPTY, e1, now);
    assert s.slots[0].endpoint.addr == e2.privateInstanceId;
    PutConsistentIff(s, e2, now);
  }

  /** Ids must stay apart: removing an endpoint whose private id is another slot's address breaks the index. */
  lemma SharedIdBreaks(s: State, i: nat, j: nat)
    requires Consistent(s) && i < |s.slots| && j < |s.slots| && i != j
    requires s.slots[i].endpoint.privateInstanceId == s.slots[j].endpoint.addr
    ensures !Consistent(Remove(s, s.slots[i].endpoint))
  {
    var e := s.slots[i].endpoint;
    assert s.keys[e.addr] == i && s.keys[e.privateInstanceId] == j;
    var r := RemoveAt(s, i);
    SwapDeleteAt(s.slots, i);
    var at := if j == |s.slots| - 1 then i else j;
    assert r.slots[at].endpoint.addr == e.privateInstanceId && e.privateInstanceId !in r.keys;
  }

  /** And so does giving a new private id to an endpoint whose two ids are one text. */
  lemma OneIdBreaks(s: State, i: nat, e: Endpoint, now: int)
    requires Consistent(s) && i < |s.slots| && e.privateInstanceId != e.addr
    requires s.slots[i].endpoint.addr == e.addr == s.slots[i].endpoint.privateInstanceId
    ensures !Consistent(Put(s, e, now))
  {
    assert s.keys[e.addr] == i;
    var r := Put(s, e, now);
    assert r.slots[i].endpoint == e && e.addr !in r.keys;
  }

  /** An endpoint whose two ids are one text breaks nothing by itself, but it is not separate. */
  lemma OneIdIsConsistent(e: Endpoint, now: int)
    requires e.addr == e.privateInstanceId
    ensures Consistent(Put(EMPTY, e, now)) && !Valid(Put(EMPTY, e, now))
  {
    var r := Put(EMPTY, e, now);
    assert r.slots[0].endpoint == e;
  }

  // ---------- Pruning ----------

  /** The age limit of an endpoint: its own one when positive and shorter than the default. */
  function Threshold(e: Endpoint, defaultThreshold: int): int {
    if 0 < e.staleThreshold < defaultThreshold then e.staleThreshold else defaultThreshold
  }

  predicate Fresh(r: Record, now: int, defaultThreshold: int) {
    now - r.updated <= Threshold(r.endpoint, defaultThreshold)
  }

  /** Fresh means: within the pool's limit, and within the endpoint's own if it has a positive one. */
  lemma FreshIff(r: Record, now: int, defaultThreshold: int)
    ensures var age, own := now - r.updated, r.endpoint.staleThreshold;
            Fresh(r, now, defaultThreshold) <==> age <= defaultThreshold && (own <= 0 || age <= own)
  {
  }

  /** The swap-delete loop of `PruneEndpoints` from position `i` on. */
  function PruneFrom(s: State, i: nat, now: int, defaultThreshold: int): State
    decreases |s.slots| - i
  {
    if i >= |s.slots| then s
    else if Fresh(RecordOf(s.slots[i]), now, defaultThreshold) then PruneFrom(s, i + 1, now, defaultThreshold)
    else PruneFrom(RemoveAt(s, i), i, now, defaultThreshold)
  }

  function Prune(s: State, now: int, defaultThreshold: int): State {
    PruneFrom(s, 0, now, defaultThreshold)
  }

  ghost function FreshOnly(t: map<string, Record>, now: int, defaultThreshold: int): map<string, Record> {
    map a | a in t && Fresh(t[a], now, defaultThreshold) :: t[a]
  }

  /** Slots `0..i` are known fresh: the loop keeps exactly the fresh records, marks included. */
  lemma {:induction false} PruneFromKeepsFresh(s: State, i: nat, now: int, defaultThreshold: int)
    requires Valid(s) && i <= |s.slots|
    requires forall j :: 0 <= j < i ==> Fresh(RecordOf(s.slots[j]), now, defaultThreshold)
    ensures Valid(PruneFrom(s, i, now, defaultThreshold))
    ensures Table(PruneFrom(s, i, now, defaultThreshold)) == FreshOnly(Table(s), now, defaultThreshold)
    decreases |s.slots| - i
  {
    if i == |s.slots| {
      forall a | a in Table(s) ensures Fresh(Table(s)[a], now, defaultThreshold) {
        assert RecordOf(s.slots[s.keys[a]]) == Table(s)[a];
      }
      assert FreshOnly(Table(s), now, defaultThreshold) == Table(s);
    } else if Fresh(RecordOf(s.slots[i]), now, defaultThreshold) {
      PruneFromKeepsFresh(s, i + 1, now, defaultThreshold);
    } else {
      StaleSlotDropped(s, i, now, defaultThreshold);
      SwapDeleteAt(s.slots, i);
      PruneFromKeepsFresh(RemoveAt(s, i), i, now, defaultThreshold);
    }
  }

  lemma StaleSlotDropped(s: State, i: nat, now: int, defaultThreshold: int)
    requires Valid(s) && i < |s.slots| && !Fresh(RecordOf(s.slots[i]), now, defaultThreshold)
    ensures Valid(RemoveAt(s, i))
    ensures FreshOnly(Table(RemoveAt(s, i)), now, defaultThreshold) == FreshOnly(Table(s), now, defaultThreshold)
  {
    hide RemoveAt, FreshOnly;
    RemoveAtKeepsValid(s, i);
    var a := s.slots[i].endpoint.addr;
    assert a in Table(s) && Table(s)[a] == RecordOf(s.slots[i]) by {
      assert At(s, a) == Some(s.slots[i]);
    }
    StaleRecordDropped(Table(s), a, now, defaultThreshold);
  }

  lemma StaleRecordDropped(t: map<string, Record>, a: string, now: int, defaultThreshold: int)
    requires a in t && !Fresh(t[a], now, defaultThreshold)
    ensures FreshOnly(t - {a}, now, defaultThreshold) == FreshOnly(t, now, defaultThreshold)
  {
  }

  // ---------- Failure marks ----------

  /** `endpointFailed`: the slot found under the address is marked. */
  function Mark(s: State, e: Endpoint, now: int): State
    requires e.addr in s.keys ==> s.keys[e.addr] < |s.slots|
  {
    if e.addr !in s.keys then s
    else var i := s.keys[e.addr]; s.(slots := s.slots[i := s.slots[i].(failedAt := Some(now))])
  }

  /** Failure marks play no part in the order of a pool or in its map. */
  lemma MarksKeepValid(s: State, r: State)
    requires Valid(s) && r.keys == s.keys && |r.slots| == |s.slots|
    requires forall i :: 0 <= i < |s.slots| ==> r.slots[i].(failedAt := s.slots[i].failedAt) == s.slots[i]
    ensures Valid(r) && Table(r) == Table(s)
  {
    forall a ensures AgreesAt(r, Table(s), a) {
    }
    TableIs(r, Table(s));
  }

  // ---------- Runs ----------

  datatype Op =
    | PutOp(endpoint: Endpoint, now: int)
    | RemoveOp(endpoint: Endpoint)
    | PruneOp(now: int, defaultThreshold: int)

  /** What callers owe: private ids and addresses are told apart. */
  ghost predicate Admissible(s: State, op: Op) {
    match op
    case PutOp(e, _) => Admits(s, e)
    case RemoveOp(e) => forall i :: 0 <= i < |s.slots| ==> s.slots[i].endpoint.privateInstanceId != e.addr
    case PruneOp(_, _) => true
  }

  ghost function Apply(s: State, op: Op): State
    requires Valid(s)
  {
    match op
    case PutOp(e, now) => Put(s, e, now)
    case RemoveOp(e) => Remove(s, e)
    case PruneOp(now, threshold) => Prune(s, now, threshold)
  }

  ghost function TableAfter(t: map<string, Record>, op: Op): map<string, Record> {
    match op
    case PutOp(e, now) => TableAfterPut(t, e, now)
    case RemoveOp(e) => t - {e.addr}
    case PruneOp(now, threshold) => FreshOnly(t, now, threshold)
  }

  /** Removal takes away the address asked for unless that text is indexed as a private id. */
  lemma RemoveTableIff(s: State, e: Endpoint)
    requires Valid(s)
    ensures Valid(Remove(s, e))
    ensures Table(Remove(s, e)) == Table(s) - {e.addr}
            <==> (e.addr in s.keys ==> s.slots[s.keys[e.addr]].endpoint.addr == e.addr)
  {
    if e.addr in s.keys {
      var i := s.keys[e.addr];
      RemoveAtKeepsValid(s, i);
      assert At(s, s.slots[i].endpoint.addr) == Some(s.slots[i]);
      assert s.slots[i].endpoint.addr in Table(s);
    }
  }

  /** A removal that misses: the text asked for is a private id, and another address goes. */
  lemma RemoveMisses(e1: Endpoint, e2: Endpoint, now: int)
    requires e1.addr != e1.privateInstanceId == e2.addr
    ensures var s := Put(EMPTY, e1, now);
            Valid(s) && e1.addr in Table(s) && Table(Remove(s, e2)) == map[] != Table(s) - {e2.addr}
  {
    hide Valid, RemoveAt, Table;
    PutKeepsValid(EMPTY, e1, now);
    var s := Put(EMPTY, e1, now);
    assert s.keys[e2.addr] == 0 && s.slots == [Slot(e1, now, None)];
    RemoveAtKeepsValid(s, 0);
    assert Table(EMPTY) == map[] by { EmptyTable(); }
    assert Table(s) == map[e1.addr := Record(e1, now)];
  }

  lemma EmptyTable()
    ensures Valid(EMPTY) && Table(EMPTY) == map[]
  {
  }

  lemma ApplyKeepsValid(s: State, op: Op)
    requires Valid(s) && Admissible(s, op)
    ensures Valid(Apply(s, op))
    ensures Table(Apply(s, op)) == TableAfter(Table(s), op)
  {
    match op
    case PutOp(e, now) => PutKeepsValid(s, e, now);
    case RemoveOp(e) =>
      RemoveTableIff(s, e);
      if e.addr in s.keys {
        assert Bears(s.slots[s.keys[e.addr]].endpoint, e.addr);
      }
    case PruneOp(now, threshold) => PruneFromKeepsFresh(s, 0, now, threshold);
  }

  ghost predicate AdmissibleRun(s: State, ops: seq<Op>)
    requires Valid(s)
    decreases |ops|
  {
    ops == [] ||
    (Admissible(s, ops[0]) && (ApplyKeepsValid(s, ops[0]); AdmissibleRun(Apply(s, ops[0]), ops[1..])))
  }

  ghost function Run(s: State, ops: seq<Op>): State
    requires Valid(s) && AdmissibleRun(s, ops)
    decreases |ops|
  {
    if ops == [] then s else ApplyKeepsValid(s, ops[0]); Run(Apply(s, ops[0]), ops[1..])
  }

  ghost function TableRun(t: map<string, Record>, ops: seq<Op>): map<string, Record>
    decreases |ops|
  {
    if ops == [] then t else TableRun(TableAfter(t, ops[0]), ops[1..])
  }

  /** In every run the pool stays in order and is the plain map that replays the same run. */
  lemma {:induction false} RunIsTableRun(s: State, ops: seq<Op>)
    requires Valid(s) && AdmissibleRun(s, ops)
    ensures Valid(Run(s, ops))
    ensures Table(Run(s, ops)) == TableRun(Table(s), ops)
    decreases |ops|
  {
    if ops != [] {
      ApplyKeepsValid(s, ops[0]);
      RunIsTableRun(Apply(s, ops[0]), ops[1..]);
    }
  }
}
