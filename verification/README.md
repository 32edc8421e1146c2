# Verification of the router's core

This project models the parts of the Cloud Foundry router that keep state and proves what they promise:
the routing table, the endpoint pools behind it, retries, the route fetcher, the application statistics,
the NATS protocol parser, connection draining and the decaying metric sample.

The modules follow the program:

- `Uris`, `TrieShape`, `Tries`, `Herds`, `Registry`, `Pruning`, `RouteRuns`: keys, the routing trie, the pools in
  it, the registry over both, and whole histories of it. The trie is a linked structure of `Trie` objects that
  methods change in place; its meaning is a map from segment paths to pools, and the registry's meaning is a map
  from paths to the addresses registered there.
- `Listing`, `Census`: the walks that list and count the table.
- `PoolModel`, `Pools`, `RoundRobin`, `Retries`: one endpoint pool as a value, as the object that keeps it,
  the choice it makes, and the round trip that marks failures.
- `Fetching`: reconciling the registry with the routing API.
- `HeapModel`, `TimeSlots`, `Heaps`, `AppTables`, `ActiveAppsModel`, `TopAppsModel`: indexed heaps and the two
  statistics that keep a map and two heaps in step.
- `NatsSpec`, `NatsParser`, `NatsRefinement`, `NatsPackets`, `NatsNames`, `NatsCuts`: a byte-at-a-time machine, the
  parser with its slices into the read buffer and the scratch area, the proof that it refines the machine, the
  printers, the machine's vocabulary, and control lines with stray carriage returns.
- `Draining`: the connection tracker as a transition system and as an object.
- `SampleModel`, `Samples`: the forward-decaying reservoir in its fixed array.
- `Text`, `Options`, `Collections`: helpers.

Time, random choice, transport outcomes and the order in which a Go map is walked are parameters or free
choices, so every result holds for all of them. Each section under a lock is one step.

`dafny verify dfyconfig.toml` checks everything.

Where a promise does not hold of the code as it is, the project says when it does:

- A put can break a pool's index, and a removal can take away another address, when private ids and addresses meet
  (`PoolModel.PutConsistentIff`, `PoolModel.RemoveTableIff`; inputs in `PoolModel.TwoPutsBreak` and
  `PoolModel.RemoveMisses`). Once they meet, keys outlive their elements, and a removal can take out a stranger or
  index past the end (`Pools.StrangerTaken`, `Pools.RemovalOutOfRange`). Keeping them apart is an invariant that all
  operations keep (`PoolModel.PutValidIff`), and nothing less is (`PoolModel.SharedIdBreaks`,
  `PoolModel.OneIdBreaks`).
- A drain that begins while another one is waiting takes over its channel, and the first is never woken
  (`Draining.NoLostWakeUpIff`, `Draining.FirstDrainLost`).
- A read that ends inside a message body panics when the saved arguments do not fit the scratch area
  (`NatsRefinement.EndPanicsIff`, `NatsRefinement.OneReadPanicsIff`, `NatsPackets.HeadPanicsIff`). Over all ways of
  cutting a clean stream, what counts is the whole control line (`NatsCuts.CleanCutsIff`).
- A stray carriage return, one inside an argument and not at its end, can make the result depend on where the
  stream is cut. For error texts it always does (`NatsCuts.ErrLineCutsIff`). For message lines that fit it does
  exactly when the header changes (`NatsCuts.MsgLineCutsIff`): arguments are split at carriage returns as at blanks,
  so one among trailing blanks is harmless (`NatsCuts.HarmlessStray`), and a clean stream, as
  `NatsRefinement.CutsDoNotMatter` asks for, is more than needed.
- A non-empty first segment does not suffice for a listed path to come back: a trailing empty segment is lost
  (`Listing.RecoveredIff`, `Listing.LossyKeys`).
- Pruning leaves an emptied pool behind at a path with live paths below it (`Pruning.EmptiedIff`,
  `Pruning.LeftBehind`), where it may outlive them and be served (`RouteRuns.HollowIff`, `RouteRuns.ServesEmptyIff`,
  `RouteRuns.EmptyPoolServed`).

## Model

| member | source | states |
|---|---|---|
| `RouteRuns.Play` | registry/registry.go:61-179 | any history of registrations, removals and prunings leaves the trie denoting the table that the history gives when replayed on a plain map from segment paths to addresses |
| `RouteRuns.PairsLiveApart` | registry/registry.go:61-179 | over any history the record of an address under a path is what the operations on that pair alone make of it: a registration enters the endpoint and its time unless that very endpoint is there, a removal takes it away, and a pruning takes it away exactly when its age exceeds the registry's limit or the endpoint's own positive one |
| `RouteRuns.HollowIff` | registry/registry.go:61-179 | after any history a path is without addresses if and only if some pruning found it stale above a fresh longer path, and since then no operation named it and every pruning found the same |
| `RouteRuns.ServesEmptyIff` | registry/registry.go:97-111 | a lookup serves a pool without endpoints if and only if the path it chooses was emptied like that |
| `RouteRuns.EmptyPoolServed` | registry/registry.go:61-179 | an admissible history that ends with an empty pool being served: a short route goes stale below a fresh longer one, a pruning empties it, and the longer one is removed |
| `RouteRuns.ShortAndLong` | route/uris.go:25-35 | two routes as that history needs them |
| `RouteRuns.RunsLeaveNoneEmpty` | registry/registry.go:80-95 | a history without prunings leaves no path without an address |
| `Registry.RouteRegistry.Register` | registry/registry.go:61-78 | the table gains the address under the normalised key, with its registration time, whether or not the path had a pool; other paths and other addresses stay; the time of the last update is noted; every pool in the table retries after a quarter of the stale threshold and has the context path of its route |
| `Registry.RouteRegistry.Unregister` | registry/registry.go:80-95 | the address goes from the normalised key, the path goes with its last address, and an unknown key changes nothing |
| `Registry.RouteRegistry.FindOrInsert` | registry/registry.go:67-72 | the pool of a key, made if there is none; all pools, the new one too, have the retry time and context path they should |
| `Registry.ContextPathOf` | registry/registry.go:181-189 | the context path is a slash and what follows the first segment of the route, the same for all keys of one path |
| `Registry.QuarterOf` | registry/registry.go:70-70 | the retry time is a quarter of the stale threshold, rounded toward zero |
| `Registry.RegisteredAt` | registry/registry.go:61-78 | a registration changes the record of its own path and address only |
| `Registry.UnregisteredAt` | registry/registry.go:80-95 | a removal takes away the record of its own path and address only |
| `Registry.RouteRegistry.Lookup` | registry/registry.go:97-111 | the search ends and returns the pool that the candidate chain chooses, or none; the pool is empty exactly when the table has no address at the chosen path, and has that path's context path |
| `Registry.ChosenIsFirst` | registry/registry.go:97-111 | the choice is the longest registered prefix of the first candidate that has one, and there is no choice exactly when no candidate has a registered prefix |
| `Uris.NextWildcard` | route/uris.go:14-23 | there is a next wildcard if and only if the text has a dot; it is "*." and what follows the first dot, and its own text is strictly shorter |
| `Registry.CandidatesAre` | registry/registry.go:97-111 | the keys a lookup tries are the key itself and then, for each dot of its text from left to right, a star before what follows the dot; a trailing slash is dropped at every turn |
| `Uris.NextIsStar` | route/uris.go:14-23 | each step of the chain takes the first of the starred suffixes and leaves the others |
| `TrieShape.MatchIs` | registry/trie.go:45-81 | a path has a match if and only if some prefix of it is registered, and the match is that of the longest registered prefix |
| `Uris.RouteKeyCut` | route/uris.go:29-35 | a route key is the lowered text without its trailing slash up to the first question mark, and all of it if there is none |
| `Uris.CaseIgnored` | route/uris.go:10-35 | routes that differ in letter case only have one key and one path |
| `Uris.QueryIgnored` | route/uris.go:29-35 | a query string of any content leaves the lowered route in front of it |
| `Text.LowerLetters` | route/uris.go:10-12 | lowering adds 32 to the codes of the ASCII capitals and changes no other character |
| `Tries.Trie.Find` | registry/trie.go:16-43 | returns the pool at exactly the segment path of the key, or none, although the walk splits the key one segment at a time |
| `Tries.Trie.MatchUri` | registry/trie.go:45-81 | returns the pool of the longest registered prefix of the path, or none when no prefix is registered |
| `Tries.Trie.Insert` | registry/trie.go:83-111 | the denoted map changes at the key only, the tree stays linked both ways, every leaf still carries a pool, and the result is the node of the key |
| `Tries.Trie.Delete` | registry/trie.go:113-138 | exactly the key goes from the denoted map; links and the leaf invariant are kept |
| `Tries.Trie.DeleteEmptyNodes` | registry/trie.go:140-171 | restores the leaf invariant after a pool was taken away, without losing any other pool |
| `Tries.Trie.ChainIsBare` | registry/trie.go:140-171 | the chain below the node to keep carries no pool |
| `Tries.Trie.PlainIsSingle` | registry/trie.go:140-171 | the chain that is cut off has no branch beside it |
| `TrieShape.CutLeaves` | registry/trie.go:140-171 | cutting the chain leaves no leaf without a pool, because the node that is kept has another reason to stay |
| `Tries.Trie.Snip` | registry/trie.go:230-236 | takes away dead leaves up the parent chain: the tree stays linked, only pools known to be empty go, and each node that goes had no children |
| `Pruning.Visit` | registry/trie.go:185-193 | the walk, with children in any order and nodes deleted under way, visits every node that is left at or below its start |
| `Pruning.PruneStaleDroplets` | registry/registry.go:172-179 | for any visiting order the table becomes the pruned table, and every leaf but the root holds a pool with an endpoint |
| `Pruning.FreshSurvives` | registry/registry.go:172-179 | an address is still under its path after pruning if and only if it was fresh |
| `Pruning.PrunedAt` | registry/registry.go:172-179 | a pruning decides on every address by itself and leaves the records of fresh ones as they are |
| `Pruning.EmptiedIff` | registry/registry.go:172-179 | a path stays without addresses if and only if all its addresses were stale and some path below it has a fresh one |
| `Pruning.LeftBehind` | registry/registry.go:172-179 | a stale route above a fresh one is left without addresses, and stays so when the fresh one is removed too |
| `Listing.JoinNames` | registry/trie.go:242-258 | the key under which a path is listed has the segments of the path, less its leading empty ones |
| `Listing.JoinedIff` | registry/trie.go:242-258 | two paths are listed under one key if and only if they differ in leading empty segments only |
| `Listing.RecoveredIff` | registry/trie.go:238-258 | a listed key leads back to its path if and only if the path has one segment, or neither its first nor its last segment is empty |
| `Listing.EmptyEnds` | registry/trie.go:83-111 | paths with an empty first or last segment do arise, from doubled slashes at either end of a trie key |
| `Listing.EmptyEndsOfRoutes` | route/uris.go:25-35 | a registered route has one more slash dropped: it takes three at the end, or two before a query string, to get an empty last segment, and two at the front for an empty first one |
| `Listing.LossyKeys` | registry/trie.go:238-258 | such paths are lost in a listing: one merges with the plain name, one comes back as another path |
| `Census.ToMap` | registry/trie.go:238-258 | the listing has a key for every registered path and nothing else, each with the pool of a path of that key, for any child order |
| `Census.ListingCompleteIff` | registry/trie.go:238-258 | the listing has as many entries as there are pools if and only if no two paths differ in leading empty segments only |
| `Census.Reinsert` | registry/trie.go:83-111 | inserting the keys of a listing into an empty trie, in any order, gives a table in which every path comes from a key that leads to it |
| `Census.ReinsertedIff` | registry/trie.go:83-111 | for a listing of a table, that table is the same one if and only if every path is recoverable |
| `Census.Relist` | registry/trie.go:238-258 | a trie listed and built anew denotes the same table if and only if every path is recoverable |
| `RouteRuns.RunsKeepSlashFree` | registry/registry.go:61-95 | no history registers a path with a slash inside a segment |
| `Census.PoolCount` | registry/trie.go:173-193 | counts the registered paths, for any child order |
| `Census.EndpointCount` | registry/trie.go:195-215 | counts the distinct addresses over all registered paths |
| `PoolModel.RunIsTableRun` | route/pool.go:57-157 | over every admissible run of puts, removals and prunings the slots and the index stay consistent, and the pool agrees with a plain map from address to record |
| `PoolModel.PutConsistentIff` | route/pool.go:57-89 | after a put every key leads to a slot that bears it and every address to its own slot, if and only if the private id is no other slot's address and the address is not indexed for a slot of another address |
| `PoolModel.PutValidIff` | route/pool.go:57-89 | the invariant that all operations keep, which also keeps addresses and private ids apart, survives a put if and only if the new ids keep apart from those in the pool |
| `PoolModel.SharedIdBreaks` | route/pool.go:144-157 | that they are apart is needed: removing an endpoint whose private id is another slot's address breaks the index |
| `PoolModel.OneIdBreaks` | route/pool.go:62-73 | and so does a put that gives a new private id to an endpoint whose two ids were one text |
| `PoolModel.TwoPutsBreak` | route/pool.go:75-84 | two puts that break the index: the second endpoint's private id is the first one's address |
| `PoolModel.OneIdIsConsistent` | route/pool.go:75-84 | an endpoint whose address is its private id leaves the index consistent, so keeping ids apart is more than one put needs |
| `PoolModel.RemoveTableIff` | route/pool.go:128-157 | a removal always keeps the pool consistent, and takes away exactly its address if and only if the index, where it has that text at all, leads from it to a slot of that address |
| `PoolModel.RemoveMisses` | route/pool.go:128-142 | a removal that takes away another address, because the text asked for is indexed as a private id |
| `PoolModel.PruneFromKeepsFresh` | route/pool.go:103-126 | the swap-delete loop keeps exactly the fresh records, none skipped |
| `PoolModel.FreshIff` | route/pool.go:112-117 | a record is fresh if and only if its age is within the pool's limit and within the endpoint's own, if that is positive |
| `Pools.Pool.Put` | route/pool.go:57-89 | for every endpoint and every index, even one that leads to removed elements: elements know their places, the index changes at the ids concerned, and the result tells whether the address was new; a pool in order follows the pool model and stays in order if and only if the endpoint is admissible |
| `Pools.Pool.Remove` | route/pool.go:128-142 | for every endpoint and every index: what goes is at the place recorded by the element found, or that place is out of range, or nothing is found; a pool in order follows the pool model and is never out of range |
| `Pools.StrangerTaken` | route/pool.go:128-157 | two endpoints whose ids meet, and a third: the removals of the two take out the third as well |
| `Pools.RemovalOutOfRange` | route/pool.go:144-157 | with the third put first, the same removals end at a place past the end |
| `Pools.Pool.RemoveEndpoint` | route/pool.go:144-157 | whatever is at the recorded place goes, the last element moves into the gap and knows its new place, and the ids of the element asked for leave the index; in a pool in order that is the element itself, and all other keys lead where they led |
| `Pools.Pool.PruneEndpoints` | route/pool.go:103-126 | the loop over a shrinking slice ends in the pruned pool |
| `Pools.Pool.FindById` | route/pool.go:210-220 | a result is a live endpoint that bears the id as address or as present private id |
| `Pools.Pool.EndpointFailed` | route/pool.go:238-245 | marks the endpoint found under the address and no other |
| `Pools.Pool.Next` | route/pool.go:163-208 | ends, and returns the round-robin choice from its start, with the marks and the next index that go with it; an empty pool gives nothing |
| `RoundRobin.ChoiceAvailable` | route/pool.go:163-208 | the choice is an available endpoint if and only if there is one; otherwise it is the starting one and all marks are cleared |
| `RoundRobin.ChoiceNearest` | route/pool.go:178-199 | no available endpoint lies nearer in cyclic order than the choice |
| `RoundRobin.ChoiceByMarks` | route/pool.go:178-199 | by the marks: if all were made within the window the choice is the starting endpoint; otherwise its own was not, and that of every endpoint passed over was |
| `RoundRobin.MarksLeft` | route/pool.go:178-207 | the chosen endpoint loses its mark, the others keep theirs, unless all were marked within the window: then all lose it |
| `RoundRobin.TurnsAreFair` | route/pool.go:163-208 | with fixed members and no marks, any number of turns falls on each place the floor or the ceiling of its share |
| `Pools.Pool.Rounds` | route/pool.go:163-208 | any number of successive calls on a pool without marks returns each endpoint the floor or the ceiling of its share |
| `Retries.EndpointIterator.Next` | route/pool.go:273-287 | the endpoint that bears the sticky id comes first if the id is known, and changes no mark; then the round-robin choice; the sticky id is used once |
| `Retries.EndpointIterator.EndpointFailed` | route/pool.go:289-293 | marks the endpoint handed out last |
| `Retries.ChoiceIsNew` | route/pool.go:163-208 | while an unmarked endpoint is left and marks are recent, the choice is none of those already tried |
| `Retries.RoundTrip` | proxy/proxy_round_tripper.go:35-86 | the sticky endpoint is tried first if known; at most three attempts, a new one only after a failed dial; with three free endpoints and recent marks the endpoints tried are pairwise distinct, sticky choice included, and each failed one stays marked |
| `Fetching.RouteFetcher.RefreshEndpoints` | route_fetcher/route_fetcher.go:126-144 | the pairs of path and address become the old ones less the dropped routes plus the listed ones, and exactly the listed ones if they matched the last fetch; every listed pair has the time of the fetch and the endpoint of its last route, every other pair keeps its record |
| `Fetching.RouteFetcher.DeleteEndpoints` | route_fetcher/route_fetcher.go:146-178 | unregisters the routes of the last fetch that are not listed any more |
| `Fetching.DroppedIs` | route_fetcher/route_fetcher.go:146-162 | a route is dropped if and only if it was fetched last time and no listed route equals it |
| `Fetching.DroppedByFields` | route_fetcher/route_fetcher.go:146-186 | a route is dropped if and only if it was fetched last time and no listed one has its route, ip and port |
| `Fetching.AddressParts` | route/endpoint.go:9-19 | an address is the ip, a colon and digits whose value is the port modulo 2^16 |
| `Fetching.AddressIff` | route_fetcher/route_fetcher.go:134-137 | two routes have one address if and only if their ips are equal and their ports agree modulo 2^16 |
| `Text.DecimalValue` | route/endpoint.go:13-13 | the decimal digits of a number stand for that number |
| `Fetching.RefreshIsExact` | route_fetcher/route_fetcher.go:126-186 | removing before adding cannot lose a listed pair, even if distinct route strings have the same path |
| `Heaps.Heap.Push` | Godeps/_workspace/src/github.com/rcrowley/go-metrics/sample.go:550-555 | heap order is restored, and every entry records its true place |
| `Heaps.Heap.Pop` | Godeps/_workspace/src/github.com/rcrowley/go-metrics/sample.go:557-566 | the first entry comes out, the rest keep heap order and true places; a snapshot writes no places |
| `Heaps.Heap.RemoveAt` | stats/heap.go:16-34 | the entry at the place comes out, the rest keep heap order and true places |
| `HeapModel.RootIsLeast` | Godeps/_workspace/src/github.com/rcrowley/go-metrics/sample.go:576-603 | heap order puts the lowest rank first |
| `AppTables.Detach` | stats/top_apps.go:154-163 | removing an entry from both heaps at the places it records takes out that very entry both times |
| `AppTables.PopSnapshot` | stats/heap.go:36-41 | popping a copy takes out the next entry in rank and changes no entry |
| `ActiveAppsModel.ActiveApps.Play` | stats/active_apps.go:113-156 | over every run the map and both heaps hold the same entries, and the times are those of a plain map |
| `ActiveAppsModel.ActiveApps.Mark` | stats/active_apps.go:113-133 | the application's time becomes the later of its time and the mark |
| `ActiveAppsModel.ActiveApps.Trim` | stats/active_apps.go:135-156 | forgets exactly the applications last active at the time or before |
| `ActiveAppsModel.TimeIsAMark` | stats/active_apps.go:113-156 | after any run a remembered time is that of a mark, the one it started from, or 0 |
| `ActiveAppsModel.MarkKept` | stats/active_apps.go:113-156 | after any run every mark is remembered by its own time or a later one, unless a later trim reached it |
| `ActiveAppsModel.TrimLasts` | stats/active_apps.go:113-156 | after any run an application not marked since a trim is forgotten or has a time later than the trim's |
| `ActiveAppsModel.ActiveApps.ActiveSince` | stats/active_apps.go:158-182 | lists exactly the applications active at the time or later, each once, latest first, and changes nothing |
| `TimeSlots.MarkedIsSteady` | stats/top_apps.go:29-39 | a mark adds one request and keeps slot times rising, even when time goes back |
| `TimeSlots.MarkedAt` | stats/top_apps.go:29-39 | the requests held at each time grow by one at the later of the mark's time and the last slot's, which becomes the last slot, and stay at every other time |
| `TopAppsModel.HeldByMarks` | stats/top_apps.go:148-211 | over any run that trims no further than a time, what an application holds after that time grows by its marks from the first one later than the time on, and by no other |
| `TopAppsModel.TotalsByMarks` | stats/top_apps.go:148-248 | so the totals left by a trim are those numbers of marks, for exactly the applications that have one |
| `TimeSlots.LaterIsExact` | stats/top_apps.go:41-59 | trimming keeps exactly the slots after the time |
| `Heaps.Entry.TrimSlots` | stats/top_apps.go:41-59 | the slots after the time stay, and the count falls by the requests in the others |
| `TopAppsModel.TopApps.Play` | stats/top_apps.go:148-218 | over every run both heaps hold the map's entries at true places, counts equal slot sums, no entry in a heap is without slots, and the counts are those of a plain map |
| `TopAppsModel.TopApps.Mark` | stats/top_apps.go:148-174 | one request more for the application, at the time `TimeSlots.MarkedAt` gives; both removals return the entry itself |
| `TopAppsModel.TopApps.Trim` | stats/top_apps.go:176-211 | ends, and leaves exactly the slots after the time and the applications that have one |
| `TopAppsModel.TopApps.TopSince` | stats/top_apps.go:225-248 | after trimming, lists as many distinct applications as asked for or as there are, busiest first, none beaten by one left out |
| `TopAppsModel.RequestsConserved` | stats/top_apps.go:148-211 | over every run the requests held equal those at the start plus the marks less the expired ones |
| `NatsRefinement.AnyCutRefines` | Godeps/_workspace/src/github.com/apcera/nats/parser.go:65-304 | for any cutting of a stream into reads, the parser with its slices into read buffer and scratch area hands over what a byte-by-byte machine does, and ends in a state that stands for the machine's |
| `NatsRefinement.CutsDoNotMatter` | Godeps/_workspace/src/github.com/apcera/nats/parser.go:65-316 | two cuttings of one stream hand over the same events and end in states that stand for the same machine state |
| `NatsRefinement.OneReadRefines` | Godeps/_workspace/src/github.com/apcera/nats/parser.go:65-304 | a stream in a single read is handed over without a limit on its control lines, but for the line of a message in which the read ends |
| `NatsRefinement.ByteRefines` | Godeps/_workspace/src/github.com/apcera/nats/parser.go:71-285 | one byte keeps the correspondence, in all states |
| `NatsRefinement.CloneSaves` | Godeps/_workspace/src/github.com/apcera/nats/parser.go:308-316 | saving subject and reply at the end of a read leaves what they show |
| `NatsRefinement.EndPanicsIff` | Godeps/_workspace/src/github.com/apcera/nats/parser.go:287-303 | the end of a read panics if and only if a message body was begun in it and its saved arguments outgrow the scratch area |
| `NatsRefinement.OneReadPanicsIff` | Godeps/_workspace/src/github.com/apcera/nats/parser.go:65-316 | a stream in a single read panics if and only if it ends in a message body whose subject and reply together outgrow the scratch area |
| `NatsPackets.HeadPanicsIff` | Godeps/_workspace/src/github.com/apcera/nats/parser.go:287-316 | so it is for every message whose control line ends the first read |
| `NatsCuts.CleanCutsIff` | Godeps/_workspace/src/github.com/apcera/nats/parser.go:65-316 | all ways of cutting a clean stream agree if and only if every message's control line fits the scratch area |
| `NatsCuts.FirstCutDecides` | Godeps/_workspace/src/github.com/apcera/nats/parser.go:65-304 | for a control line with any carriage returns in it, behind any clean stream, the end of the read in which its argument begins decides what argument the parser sees; earlier and later cuts do not count |
| `NatsCuts.ErrCutsIff` | Godeps/_workspace/src/github.com/apcera/nats/parser.go:202-229 | behind any clean stream, all ways of cutting it together with an error text agree if and only if the text has no carriage return after its first and before its last byte |
| `NatsCuts.ErrLineCutsIff` | Godeps/_workspace/src/github.com/apcera/nats/parser.go:65-304 | so it is for a whole error line, at any point between packets |
| `NatsCuts.MsgCutsIff` | Godeps/_workspace/src/github.com/apcera/nats/parser.go:107-134 | behind any clean stream, all ways of cutting it together with a message line agree if and only if the arguments seen for all first cuts have one header, and the line is in error or fits the scratch area |
| `NatsCuts.MsgLineCutsIff` | Godeps/_workspace/src/github.com/apcera/nats/parser.go:65-304 | so it is for a whole message line, at any point between packets |
| `NatsCuts.HarmlessStray` | Godeps/_workspace/src/github.com/apcera/nats/parser.go:320-360 | all ways of cutting a whole message line agree if its only stray carriage return stands before a blank at its end |
| `NatsRefinement.ProcessMsgArgsIsParseHeader` | Godeps/_workspace/src/github.com/apcera/nats/parser.go:320-360 | the split into argument slices gives the header that the words of the line give, or fails with it |
| `NatsParser.ReadMsgArgs` | Godeps/_workspace/src/github.com/apcera/nats/parser.go:320-360 | the loops and checks on an argument line give the slices and numbers that the refinement is about |
| `NatsParser.SplitArgs` | Godeps/_workspace/src/github.com/apcera/nats/parser.go:320-343 | the scanning loop finds the spans between blanks |
| `NatsParser.ReadInt64` | Godeps/_workspace/src/github.com/apcera/nats/parser.go:370-381 | the digit loop reads the number, with 64-bit wrap-around, or -1 |
| `NatsParser.Conn.ParseRead` | Godeps/_workspace/src/github.com/apcera/nats/parser.go:65-304 | one call on one read is the parser function that the refinement is about |
| `NatsPackets.RoundTripAtOnce` | Godeps/_workspace/src/github.com/cloudfoundry/yagnats/packets.go:127-143 | parsing the encoding of any packets gives the packets back, for arbitrary payloads |
| `NatsPackets.RoundTripInPieces` | Godeps/_workspace/src/github.com/cloudfoundry/yagnats/packets.go:127-143 | the same for any cutting into reads, if control lines fit the scratch area |
| `NatsPackets.LineParses` | Godeps/_workspace/src/github.com/apcera/nats/parser.go:320-381 | an encoded message line, with or without reply, parses to its header |
| `NatsPackets.DecimalParses` | Godeps/_workspace/src/github.com/apcera/nats/parser.go:370-381 | printed numbers up to the largest 64-bit one parse back |
| `NatsNames.NumberIs` | Godeps/_workspace/src/github.com/apcera/nats/parser.go:370-381 | a row of digits is read as its decimal value, wrapped around to 64 bits; anything else is -1 |
| `NatsNames.WrapKeeps` | Godeps/_workspace/src/github.com/apcera/nats/parser.go:370-381 | wrapping around stays in the signed 64-bit range and keeps the value modulo 2^64 |
| `NatsNames.HeaderIff` | Godeps/_workspace/src/github.com/apcera/nats/parser.go:320-360 | a line is a header if and only if it has three or four words and the last is a number that is not negative; subject, id, reply and size come in that order |
| `NatsNames.WordsSplit` | Godeps/_workspace/src/github.com/apcera/nats/parser.go:320-343 | a space, tab, carriage return or line feed anywhere in a line splits its words there |
| `NatsNames.LetterIff` | Godeps/_workspace/src/github.com/apcera/nats/parser.go:71-285 | a byte leads from one spelling state to another if and only if it extends the one's name to the other's, in either letter case and with either blank |
| `NatsNames.SpeltIff` | Godeps/_workspace/src/github.com/apcera/nats/parser.go:71-285 | the texts that lead from the start to a state are exactly the spellings of its name |
| `NatsNames.SpeltRuns` | Godeps/_workspace/src/github.com/apcera/nats/parser.go:71-285 | such a text takes the machine there and touches nothing else |
| `NatsNames.WrongLetterFails` | Godeps/_workspace/src/github.com/apcera/nats/parser.go:71-285 | a byte is a parse error if and only if no name goes on with it |
| `NatsNames.RestOfLineSkipped` | Godeps/_workspace/src/github.com/apcera/nats/parser.go:147-281 | after an operation name or a message body everything up to the line feed is passed over |
| `NatsNames.BlanksSkipped` | Godeps/_workspace/src/github.com/apcera/nats/parser.go:107-209 | any number of blanks may stand before an argument |
| `Draining.StepKeepsSafe` | router/router.go:263-319 | every step keeps idle and active apart, closes a drain channel at most once and only without active connections, and keeps every idle connection closed once closing; a closed or hijacked connection is in neither set |
| `Draining.RunKeepsSafe` | router/router.go:263-447 | so does every interleaving of connection events, drains and stops |
| `Draining.TrackedIff` | router/router.go:408-447 | after every run a connection is idle if and only if its last event other than new is idle, and active if and only if that event is active |
| `Draining.ClosedIff` | router/router.go:263-447 | the connections a run has closed are exactly those that were idle at some drain or stop, or turned idle after one |
| `Draining.IdleAreClosed` | router/router.go:313-319 | once a drain or stop has begun, every connection whose last event is idle has been closed |
| `Draining.NoLostWakeUpIff` | router/router.go:263-290 | every drain is woken or still waited for if and only if no drain began while another was waiting |
| `Draining.FirstDrainLost` | router/router.go:263-290 | a run in which a second drain takes over and the first is never woken |
| `Draining.DrainedWhenQuiet` | router/router.go:408-447 | in such a run, once no connection is active, every drain has been woken |
| `Draining.ConnTracker.HandleConnState` | router/router.go:408-447 | the handler is the event step, whose effect over runs `Draining.TrackedIff` and `Draining.ClosedIff` give, although it tells idle from active connections by the size of a map |
| `Draining.ConnTracker.Drain` | router/router.go:263-290 | the locked section is the drain step |
| `Draining.ConnTracker.CloseIdleConns` | router/router.go:313-319 | closes every idle connection and sets the flag |
| `Samples.ExpDecaySample.Play` | Godeps/_workspace/src/github.com/rcrowley/go-metrics/sample.go:164-186 | after any run of updates the heap holds the latest submission and, of the earlier ones, the heaviest that fit; each with the key it has for the present landmark |
| `Samples.ExpDecaySample.Update` | Godeps/_workspace/src/github.com/rcrowley/go-metrics/sample.go:164-186 | one update adds one submission and keeps that, also across a rescaling |
| `Samples.ExpDecaySample.Size` | Godeps/_workspace/src/github.com/rcrowley/go-metrics/sample.go:108-113 | the size is the smaller of the count and the reservoir size |
| `Samples.SampleHeap.Refill` | Godeps/_workspace/src/github.com/rcrowley/go-metrics/sample.go:177-186 | pushing the scaled samples into the array they are read from gives every sample scaled in its place |
| `Samples.SampleHeap.Push` | Godeps/_workspace/src/github.com/rcrowley/go-metrics/sample.go:550-555 | heap order is restored, one sample is added, places behind the heap are untouched, and nothing moves if order already holds |
| `Samples.SampleHeap.Pop` | Godeps/_workspace/src/github.com/rcrowley/go-metrics/sample.go:557-566 | the first sample comes out, the rest keep heap order |
| `SampleModel.LandmarkMoves` | Godeps/_workspace/src/github.com/rcrowley/go-metrics/sample.go:173-185 | scaling gives a submission the key it would have had with the new landmark all along |
| `SampleModel.SmallerDraw` | Godeps/_workspace/src/github.com/rcrowley/go-metrics/sample.go:172-172 | of two submissions of one time the one with the smaller random number weighs more, and zero weighs most |
| `SampleModel.WeighsMore` | Godeps/_workspace/src/github.com/rcrowley/go-metrics/sample.go:172-172 | with growing weights a later submission with no larger number weighs more |
| `SampleModel.ReservoirTurns` | Godeps/_workspace/src/github.com/rcrowley/go-metrics/sample.go:164-176 | replacing a lightest sample by the new one keeps the heaviest of the earlier ones |

## Left out

- Registry.RouteRegistry.Register: asks that in the pool concerned private ids and addresses stay apart, which the program does not check; `Pools.Pool.Put` covers all endpoints, and `PoolModel.PutValidIff` says what happens otherwise.
- Registry.RouteRegistry.Unregister: asks that the address is no private id in the pool concerned; `PoolModel.RemoveTableIff` covers all endpoints.
- RouteRuns.Play: makes these two demands of each operation of the history.
- Fetching.RouteFetcher.RefreshEndpoints: asks for a set of texts that tells addresses from private ids in the table and in the fetched routes, so that these demands are met throughout.
- Fetching.RouteFetcher.DeleteEndpoints: makes the same assumption.
- Pools.Pool.Remove: a place out of range is a result of its own; what a pool is like after the panic it stands for is not modelled.
- Pruning.PruneStaleDroplets: one time for the whole walk, where the program reads the clock for each pool.
- Pools.Pool.Next: one time for all probes of a call, where the program reads the clock for each.
- Tries.Trie.Delete: asks for a key that has a node; the program dereferences a nil node otherwise, and the registry deletes only what it has found.
- Heaps.Heap.Push: the sifting loops of Go's `container/heap` are not part of the repository; they are modelled as the copy of them in the metrics library has them.
- Samples.ExpDecaySample.Update: weights are exact reals and times whole numbers, so `Exp` is a power of a positive base; rounding and overflow are not modelled; a random number of zero gives an infinite key.
- NatsRefinement.CutsDoNotMatter: asks for control lines that fit, which `NatsCuts.CleanCutsIff` shows to be needed, and for a stream without stray carriage returns; one line with any of them, behind a clean stream, is covered by `NatsCuts`.
- Mutexes, goroutines, tickers, channel blocking and time-outs: each locked section is one step, and draining models channels by when they are closed.
- HTTP, TLS, hijacking, request rewriting, access logs, metrics reporters and JSON: plumbing with only easy members.
- Connection deadlines: they do not take part in draining.
- Texts of parse errors, and everything in the NATS clients around the parser.
- The scratch area is a sequence with explicit slices into it rather than an array, so that aliasing between slices can be stated; bytes are characters.
- One entry class serves both statistics, with the fields of both.
- Lower-casing of keys covers ASCII letters; Go maps other letters too.
- 64-bit overflow of counters and times, other than in the parser's numbers.
- Re-reading an entry's count while a snapshot is popped outside the lock.
- `Pool.MarkUpdated`, `Pool.RouteServiceUrl`, `Trie.PruneDeadLeaves` and the getters: easy members.
- The route service, cookies and signatures, configuration, the YAML library and the rest of the metrics library.
