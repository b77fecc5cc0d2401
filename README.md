# Path: a verified model of the pathfinding engine

This project models the pathfinding engine of the AngryAnt "Path" library for Unity. The model is
written in Dafny, and every Unity type is replaced by a plain value.

The engine has these parts:

- **Graph.** Waypoints (`Graph.Waypoint`) each own a duplicate-free list of outgoing directed
  connections (`Graph.Connection`).
- **Registry.** The graph registry (`Registry.Navigation`) lists the waypoints in registration order.
  It answers the nearest-enabled-node query and holds the iteration cap for searches.
- **Search.** A time-sliced best-first search (`Search.Seeker`) runs over an open map keyed by
  connection and a closed list. Its frontier entries are immutable partial paths
  (`Frontier.SeekerData`).
- **Result.** The search delivers a path result (`Paths.Path`). A path can be trimmed by shortcuts,
  checked for validity, followed node by node (`ArrivedAt`) and queried for membership.
- **Requester.** The requester (`Requester.Navigator`) keeps a per-tag registry of weight handlers. It
  also chooses which event to raise when a search ends.

Modules and files:

- `outcomes.dfy`: module `Outcomes`, for `Option` and `Result`.
- `geometry.dfy`: module `Geometry`, for `Vector3` and squared distances.
- `lists.dfy`: module `Lists`, for the `List<T>` operations the engine relies on.
- `graph.dfy`: module `Graph`, for `Source/Connection.cs`, `Source/Waypoint.cs`.
- `requester.dfy`: module `Requester`, for `Source/Navigator.cs`.
- `frontier.dfy`: module `Frontier`, for `Source/SeekerData.cs`.
- `paths.dfy`: module `Paths`, for `Source/Path.cs`.
- `registry.dfy`: module `Registry`, for `Source/Navigation.cs`.
- `search.dfy`: module `Search`, for `Source/Seeker.cs`.

Objects the source updates in place are classes, with `modifies` frames on their methods:
connections, waypoints, the registry, paths, the requester and the search. Frontier entries are values.

The search coroutine is an explicit state object:

- `Begin` is the code up to the first `yield`.
- `Tick` is one resumption after it: a batch of at most `iterationCap` passes, followed by the loop
  condition.
- `Iterate` is one pass of the inner `for` loop.
- The search runs over a ghost set of waypoints, `world`: every registered waypoint and every node
  their connections lead to. Waypoints registered or connected between two resumptions join it through
  the ghost step `Grow`, so a search goes on over the graph as it grows (`Search.RegisterBetweenTicks`).

Notifications to the invalidation registry are recorded in order rather than interpreted: a
`DisableLog` for disabled connections, and `Navigation.watched` for delivered paths.

Where the source files disagree with each other, the model makes these choices:

- `Seeker` calls the requester's result and failure callbacks with itself, but `Navigator` declares
  them with an end position. The model passes the search's end position.
- `Seeker` calls `GetNearestNode` with an owner argument, but the declared method takes only a
  position. The model uses the position-only query.
- `takeShortcuts` and `DirectPath` are used but not declared in `Source/Navigator.cs`. The model gives
  the requester a flag `takeShortcuts` and a line-of-sight probe `directPath`.

Where the engine's intended behaviour and its code disagree, the model follows the code, with one
exception: the end of shortcut trimming (Source/Path.cs:76-90, see Findings). Every path the search
delivers is trimmed by the corrected end loop, `Paths.Path.TrimEnd`. The loop as written is modelled
beside it as `Paths.Path.TrimEndAsWritten`.

Both behaviours are modelled for the stop flag. A stopped search is meant to do no further work, but as
written the flag is looked at only after a whole batch has run. `Search.Seeker.Tick` follows the code,
and `Search.Seeker.Resume` is the corrected resumption (see Findings).

## Model

| member | source | states |
|---|---|---|
| Geometry.SqrDistance | Source/Connection.cs:150 | a squared distance is never negative |
| Geometry.SqrDistanceSymmetric | Source/Connection.cs:146-152 | the squared distance does not depend on the direction it is measured in |
| Lists.RemoveFirst | Source/Waypoint.cs:58-62 | `List.Remove`: without `x` the list is unchanged; with it, the list is one shorter and gains nothing |
| Lists.RemoveFirstMultiset | Source/Navigation.cs:127 | removal takes away exactly one occurrence and keeps every other element |
| Lists.RemoveFirstDistinct | Source/Navigation.cs:127 | removing from a duplicate-free list removes the element entirely and keeps all others, still duplicate-free |
| Graph.Connection.constructor | Source/Connection.cs:48-59 | `from != to` is required (the assertion); defaults are width 1, weight 1, tag "Untagged", enabled; the connection is appended to `from`'s list exactly when `from` did not already connect to `to` |
| Graph.Connection.SetWidth | Source/Connection.cs:89-92 | positive widths are stored, others ignored, so the width stays positive |
| Graph.Connection.SetWeight | Source/Connection.cs:104-107 | nonzero weights are stored, zero ignored, so the weight stays nonzero |
| Graph.Connection.SetTag | Source/Connection.cs:119-122 | the tag becomes the value |
| Graph.Connection.SetEnabled | Source/Connection.cs:134-141 | disabling sends exactly one notification for this connection; enabling sends none |
| Graph.Connection.Cost | Source/Connection.cs:146-152 | the cost is the squared distance between the endpoints' current positions, never negative |
| Graph.CostSymmetric | Source/Connection.cs:146-152 | a connection and its reverse cost the same |
| Graph.Waypoint.constructor | Source/Waypoint.cs:15-17 | a new waypoint has no connections, radius 1 and is enabled |
| Graph.Waypoint.AddConnection | Source/Waypoint.cs:44-54 | requires `connection.from == this`; appends only when absent, so the list stays duplicate-free; returns the argument |
| Graph.Waypoint.RemoveConnection | Source/Waypoint.cs:58-62 | the connection is gone, every other one stays, and one disable notification is sent for it |
| Graph.Waypoint.RemoveConnectionsTo | Source/Waypoint.cs:66-79 | the in-place index loop leaves exactly the connections not leading to `waypoint`, in order; it notifies exactly the dropped ones, in order; afterwards `ConnectsTo(waypoint)` is false |
| Graph.Waypoint.Disconnect | Source/Waypoint.cs:98-101 | the outgoing list is empty and the waypoint connects to nothing |
| Graph.Waypoint.SetRadius | Source/Waypoint.cs:150-153 | positive radii are stored, others ignored, so the radius stays positive |
| Graph.Waypoint.ContainsWithinRadius | Source/Waypoint.cs:158-161 | `Contains(p)` holds exactly when the distance to `p` is strictly below the radius |
| Graph.AnyTo | Source/Waypoint.cs:83-94 | `ConnectsTo(w)` holds exactly when some outgoing connection leads to `w` |
| Graph.WithoutTarget | Source/SeekerData.cs:120 | `RemoveAll (x => x.To == w)`: keeps exactly the connections not leading to `w`, and never grows the list |
| Graph.ToTarget | Source/Waypoint.cs:66-79 | the connections the remove-by-target loop drops: exactly those leading to `w` |
| Graph.WithoutTargetNoop | Source/Waypoint.cs:66-79 | a list with no connection to `w` is left as it is, so removing by target twice equals once |
| Requester.Navigator.constructor | Source/Navigator.cs:13-19 | the defaults: target and last pathfound target at the origin, width 1, self-targeting on, no handlers, no events |
| Requester.Navigator.Awake | Source/Navigator.cs:22-29 | the own position counts as pathfound; it becomes the target only when `selfTargetOnAwake` |
| Requester.Navigator.Update | Source/Navigator.cs:32-39 | a search starts exactly when the target differs from the last pathfound one, which then becomes the target |
| Requester.Navigator.UpdateTwice | Source/Navigator.cs:32-39 | a second frame with the target unchanged starts nothing |
| Requester.Navigator.RegisterWeightHandler | Source/Navigator.cs:51-65 | the handler ends up in its tag's list exactly once, appended only when absent; other tags are untouched |
| Requester.Navigator.WeightHandlers | Source/Navigator.cs:68-76 | the list registered for the tag, empty for an unknown tag, duplicate-free |
| Requester.Navigator.FailureEvent | Source/Navigator.cs:79-88 | `OnTargetUnreachable` exactly when the end position is the current target, else `OnPathUnavailable` |
| Requester.Navigator.ResultEvent | Source/Navigator.cs:91-100 | `OnNewPath` exactly when the end position is the current target, else `OnPathAvailable` |
| Requester.Navigator.OnPathFailed | Source/Navigator.cs:79-88 | exactly the failure event is raised |
| Requester.Navigator.OnPathResult | Source/Navigator.cs:91-100 | exactly the result event is raised |
| Requester.EventsAgree | Source/Navigator.cs:79-100 | success and failure agree on whether a search concerned the current target |
| Frontier.SeekerData.LastSegment | Source/SeekerData.cs:94-100 | the key of an entry is one of its connections |
| Frontier.SeekerData.Destination | Source/SeekerData.cs:103-109 | the destination is where one of the entry's connections leads |
| Frontier.SeekerData.Options | Source/SeekerData.cs:112-125 | a one-connection entry offers all the destination's connections; a longer one offers exactly those not leading back to where the last connection started |
| Frontier.SeekerData.CompareTo | Source/SeekerData.cs:128-138 | comparing with a non-entry raises; otherwise the sign orders entries by f-score |
| Frontier.Start | Source/SeekerData.cs:41-46 | the single-connection entry: path `[c]`, never empty, with the given g and h |
| Frontier.Extend | Source/SeekerData.cs:49-55 | the original's path plus `c`, with g and h both accumulated |
| Frontier.ExtendFScore | Source/SeekerData.cs:85-91 | extending adds the step's g and h to the f-score |
| Frontier.ExtendChain | Source/SeekerData.cs:49-55 | extending a chained entry by a connection out of its destination keeps it a chain from the same first node |
| Frontier.CompareToOrders | Source/SeekerData.cs:128-138 | `CompareTo` is antisymmetric and transitive |
| Paths.FirstTo | Source/Path.cs:214-221 | the first position holding a connection to `w`, none exactly when no connection leads there |
| Paths.FirstToUnique | Source/Path.cs:214-221 | any position holding the first connection to `w` is the one found |
| Paths.AfterArrival | Source/Path.cs:214-221 | arriving drops everything up to and including the first connection to `w`, leaving a suffix; nothing is dropped otherwise |
| Paths.ArrivalAdvances | Source/Path.cs:214-221 | along a chain, what is left is a chain that now starts at `w` |
| Paths.ArrivalSettles | Source/Path.cs:214-221 | when no node is reached twice, arriving at the same node again changes nothing |
| Paths.Path.Direct | Source/Path.cs:17-22 | a direct path: no connections and no node |
| Paths.Path.AtNode | Source/Path.cs:25-31 | a single-node path: no connections, only the node |
| Paths.Path.FromData | Source/Path.cs:34-41 | the search's path: the entry's connections as trimmed by `Optimize` (with the corrected end loop), still a chain |
| Paths.Path.Optimize | Source/Path.cs:44-91 | the start loop as written and the corrected end loop: a no-op without shortcuts or with fewer than two connections; else a non-empty contiguous run of the original is kept; a cut start is reachable from the start position, a cut end reaches the end position, and no further cut is possible at either end |
| Paths.Path.TrimStart | Source/Path.cs:57-71 | the start loop keeps a suffix of at least two connections whose first node, when cut, the start position reaches, and no later intermediate node does |
| Paths.Path.TrimEndAsWritten | Source/Path.cs:76-90 | the end loop as written keeps a prefix and cuts it before a connection whose target reaches the end position |
| Paths.Path.TrimEnd | Source/Path.cs:76-90 | the corrected end loop keeps a prefix whose last node, when cut, reaches the end position, and no earlier node does |
| Paths.Path.NodesTogether | Source/Path.cs:115-131 | start and end nodes are both present or both absent, and absent exactly for a direct path |
| Paths.Path.CheckValid | Source/Path.cs:169-197 | the scan agrees with validity: a direct path is valid; otherwise both end nodes, every connection and every target must be enabled |
| Paths.Path.DirectValid | Source/Path.cs:173-176 | a direct path is always valid |
| Paths.Path.AtNodeValid | Source/Path.cs:169-197 | a single-node path is valid exactly while its node is enabled |
| Paths.Path.DisabledConnectionInvalidates | Source/Path.cs:187-193 | a disabled connection on the path invalidates it |
| Paths.Path.DisabledNodeInvalidates | Source/Path.cs:182-193 | a disabled start node or node the path leads through invalidates it |
| Paths.Path.Contains | Source/Path.cs:226-229 | `c` is one of the path's connections, at some position of the list |
| Paths.Path.ContainsNode | Source/Path.cs:233-254 | false for none; otherwise true exactly for the only node, the start node or a connection's target (the end node included) |
| Paths.Path.ArrivedAt | Source/Path.cs:201-222 | none changes nothing; the only node is forgotten with the connections untouched; otherwise the connections become `AfterArrival` |
| Paths.EndTrimCounterexample | Source/Path.cs:76-90 | as written, a path whose last node sees the end position is cut to end at a node that neither contains nor sees it |
| Paths.EndTrimCorrected | Source/Path.cs:76-90 | corrected, the same path keeps ending at the node that sees the end position |
| Registry.NonNull | Source/Navigation.cs:49-59 | the pruned list: no nulls, every non-null entry kept, nothing new |
| Registry.NonNullAppend | Source/Navigation.cs:49-59 | pruning keeps the relative order of the remaining entries |
| Registry.NonNullNoop | Source/Navigation.cs:49-59 | a list without nulls is left as it is |
| Registry.Navigation.constructor | Source/Navigation.cs:15-17 | a registry of the saved waypoints, with the default iteration cap 10 |
| Registry.Navigation.Awake | Source/Navigation.cs:49-59 | the in-place loop removes every null entry and keeps the others in order |
| Registry.Navigation.RegisterWaypoint | Source/Navigation.cs:109-117 | appends only when absent, so the list stays duplicate-free; returns the argument |
| Registry.Navigation.UnregisterWaypoint | Source/Navigation.cs:120-135 | without a registry nothing happens; otherwise the waypoint is removed and no remaining waypoint connects to it; its own connections are untouched; returns the argument; every other registered waypoint loses exactly its connections to it, each reported as disabled, and the log only grows |
| Registry.Navigation.Unregister | Source/Navigation.cs:127-132 | the waypoint is removed and every remaining waypoint keeps exactly its connections not leading to it, each dropped one notified; the removed waypoint's own connections are untouched |
| Registry.Navigation.DisconnectAll | Source/Navigation.cs:129-132 | every waypoint of the list removes its connections to the unregistered one |
| Registry.Navigation.GetNearestNode | Source/Navigation.cs:138-157 | none exactly when no waypoint is enabled; else an enabled waypoint no enabled one is nearer than, and the earliest such (strict comparison) |
| Registry.Navigation.WatchPath | Source/Seeker.cs:208 | the delivered path is handed to the invalidation registry |
| Search.HandlerProductPositive | Source/Seeker.cs:219-229 | handlers returning positive factors keep the step cost's sign |
| Search.HandlerProductNeutral | Source/Seeker.cs:219-229 | handlers returning 1 leave the cost times the weight as it is |
| Search.MinimumExists | Source/Seeker.cs:117-120 | a non-empty open set has an entry of least f-score |
| Search.Seeker.constructor | Source/Seeker.cs:45-51 | the search takes the registry's iteration cap and starts idle |
| Search.Seeker.Valid | Source/Seeker.cs:181-194 | a usable connection is enabled; for a requester of positive width it is wide enough and leads to a node of positive radius |
| Search.Seeker.HScore | Source/Seeker.cs:232-235 | the heuristic is non-negative and vanishes at the end position |
| Search.Seeker.GScore | Source/Seeker.cs:219-229 | the loop computes cost times weight times every handler's factor, in registration order |
| Search.Seeker.Stop | Source/Seeker.cs:197-200 | the seeking flag is cleared |
| Search.Seeker.Deliver | Source/Seeker.cs:203-209 | the flag is cleared, the result event raised and the path handed to the invalidation registry |
| Search.Seeker.Fail | Source/Seeker.cs:212-216 | the flag is cleared and the failure event raised |
| Search.Seeker.Begin | Source/Seeker.cs:54-101 | with shortcuts and a clear line the direct path is delivered; else the nearest nodes are found and, when they coincide, the single-node path is delivered; else the open set is exactly the seeded usable start connections, the closed list is empty and the search parks |
| Search.Seeker.StartAtNodes | Source/Seeker.cs:73-101 | nearest nodes to both positions; the search ends with the single-node path exactly when they coincide, else it parks with the seeded open set |
| Search.Seeker.DeliverAtNode | Source/Seeker.cs:76-83 | the single-node path on the start node is delivered and the coroutine ends |
| Search.Seeker.Open | Source/Seeker.cs:85-101 | the open set is seeded from the start node, the closed list is empty, and the search invariant holds |
| Search.Seeker.SeedMapSpec | Source/Seeker.cs:85-99 | the seeded open set holds exactly the usable connections out of the start node, each keyed by itself with its single-connection entry scored by g and h |
| Search.Seeker.SeedEntries | Source/Seeker.cs:85-99 | every seeded entry is a single connection out of the start node, keyed by itself, leading to a node of the graph, so seeding establishes the search invariant |
| Search.Seeker.Locate | Source/Seeker.cs:73-74 | both nearest nodes are found; either both exist or neither does |
| Search.Seeker.Seed | Source/Seeker.cs:85-99 | the seeding loop builds exactly the seeded open set |
| Search.Seeker.SeedCandidate | Source/Seeker.cs:86-95 | a usable connection gets its entry, an unusable one is skipped |
| Search.Seeker.ExpandMapSpec | Source/Seeker.cs:144-175 | expansion keeps every open entry and adds exactly the usable options neither closed nor open, each as the extension of the current entry |
| Search.Seeker.ExpandMapEntries | Source/Seeker.cs:144-175 | every entry expansion adds is keyed by its last connection, runs along a chain out of the start node, and is not closed |
| Search.Seeker.Expand | Source/Seeker.cs:144-175 | the options loop builds exactly the expanded open set |
| Search.Seeker.ExtendCandidate | Source/Seeker.cs:146-170 | one option is added exactly when usable, not closed and not open |
| Search.Seeker.Advance | Source/Seeker.cs:141-175 | the entry leaves the open set, its key joins the closed list, its options are pushed, and the search invariant is kept |
| Search.Seeker.ExpansionKeeps | Source/Seeker.cs:141-175 | closing and expanding keeps open keys disjoint from the closed list and every open entry a chain out of the start node keyed by its last connection |
| Search.Seeker.Build | Source/Seeker.cs:125-126 | the path is built from the entry and its validity checked |
| Search.Seeker.BuiltValid | Source/Seeker.cs:125-128 | without shortcuts, the built path is valid exactly when the entry's first node, destination, connections and targets are enabled |
| Search.Seeker.Arrive | Source/Seeker.cs:122-139 | the path built from the entry is delivered exactly when it is valid (without shortcuts: exactly when the entry is still enabled throughout), and a delivered path is the one handed to the invalidation registry; otherwise the search starts over |
| Search.Seeker.Restart | Source/Seeker.cs:129-137 | starting over runs the coroutine's start again: with a direct line the direct path is delivered; otherwise the start and end nodes are the nearest enabled waypoints to the two positions, a shared node delivers the single-node path, and distinct nodes park the search with the open set seeded from the new start node and an empty closed list |
| Search.Seeker.Complete | Source/Seeker.cs:125-129 | the valid path is delivered and the coroutine ends |
| Search.Seeker.Iterate | Source/Seeker.cs:107-175 | an empty open set fails the search; otherwise an entry of least f-score is chosen; unless it reached the end node it is closed and its options pushed, with nothing else changed; a delivered path is valid, watched and reported with a result event, and a restart happens only for an invalid path and, when it parks, leaves an empty closed list |
| Search.Seeker.Visit | Source/Seeker.cs:120-175 | an entry at the end node delivers the path built from it when that path is valid (it is then watched and reported) and restarts exactly when it is invalid; otherwise it is closed and expanded and nothing else changes |
| Search.Seeker.Pass | Source/Seeker.cs:106-176 | the batch goes on only after an expansion, which closes one more connection; an empty open set ends it with a failure; any other pass that ends the batch either finished the search, reporting a result, or restarted it and parked with an empty closed list and no event |
| Search.Seeker.Tick | Source/Seeker.cs:102-177 | one resumption as written: at most `iterationCap` passes, after which the search parks again only if still seeking |
| Search.Seeker.Batch | Source/Seeker.cs:106-176 | between 1 and `iterationCap` passes; a batch still running did all `iterationCap` of them; one that stopped early either finished the search or restarted it and parked with an empty closed list, which an expansion never leaves |
| Search.Seeker.Resume | Source/Seeker.cs:102-106 | corrected: a search stopped while parked ends at once, with no pass and no event |
| Search.StopCounterexample | Source/Seeker.cs:102-106 | as written, a search stopped while parked still runs a pass and raises a failure event |
| Search.Seeker.Grow | Source/Navigation.cs:109-117 | waypoints registered or connected between resumptions join the graph the search runs over; the search state and the registration invariant carry over |
| Search.RegisterBetweenTicks | Source/Seeker.cs:102-106 | a waypoint registered and connected while the search is parked does not stop the next resumption, which runs its pass as before |
| Search.StopHonoured | Source/Seeker.cs:102-106 | corrected, the stopped search runs no pass and raises nothing |

## Left out

- Unity hosting. `Application.isPlaying` is taken as true. `StartCoroutine` and `yield` are replaced by
  the explicit phases of `Search.Seeker`. `Navigator.RequestPath` (Source/Navigator.cs:45-48) only
  starts a coroutine; it corresponds to constructing a `Search.Seeker` and calling `Begin`.
- Waypoint lifecycle hooks (Source/Waypoint.cs:20-41) are left out because they belong to the host.
  Registration and unregistration are modelled by `Registry.Navigation.RegisterWaypoint` and
  `UnregisterWaypoint`.
- The lazy singleton `Navigation.Instance` and `Navigation.OnDestroy` are left out. The registry is an
  explicitly constructed object, and the seeker holds a reference to it.
- `SeekerIterationCap` is a plain field, read and written directly.
- Timing is left out: `Time.realtimeSinceStartup` and `Path.SeekTime` are wall-clock values.
- Gizmo drawing, `ToString` overrides and debug logging are left out because they are output only.
- `SendMessage` dispatch is left out. Only the event tag is modelled, recorded in `Navigator.events`,
  without the path payload.
- Floating point: positions, costs and scores are mathematical reals, so rounding and overflow are not
  modelled. Unity's approximate `Vector3 ==` is the requester's parameter `samePosition`.
- `Navigation.OnDisable` and `Navigation.WatchPath` are modelled as logs, because their definitions are
  not part of this model. What the invalidation registry does in response is not modelled.
- `DirectPath` and the collision probes are external oracles: the requester's `directPath` function.
  Weight handlers are identities, and the requester's `weigh` function gives their result.
- Ties among equal f-scores: `List.Sort` is unstable, so the model lets the search pick any entry of
  least f-score.
- The restart after an invalidated path (Source/Seeker.cs:136) is the `Restarted` outcome of a pass.
  It runs `Begin` again in the same resumption, and its termination is not proved.
- Search.Seeker.Locate: states that the start and end nodes are nearest to the two positions, not that
  each is the earliest registered of equally near waypoints. `Registry.Navigation.GetNearestNode`, which
  it calls, states that tie-break; the search's own contracts do not carry it, to keep their proofs
  small.
- Search.Seeker.Begin: likewise states nearest start and end nodes, without the earliest-registered
  tie-break, so two equidistant waypoints leave the choice open in the model.
- Search.Seeker.Restart: likewise, as it runs `Begin` again.
- Search.Seeker.Arrive: after a restart, states only the coroutine's phase and the search invariant.
  The fresh open set and nearest nodes are stated by `Search.Seeker.Restart`, not restated here.
- Search.Seeker.Arrive: with shortcuts on, delivery is stated as the validity of the trimmed path. It is
  not restated in terms of the entry's own connections.
- Search.Seeker.Tick: states the number of passes and the search invariant after a batch. It does not
  state the open set after several expansions.
- Search.Seeker.Batch: likewise does not state the open set after several expansions.
- Registry.Navigation.Unregister: states that every dropped connection was notified, and that the log
  only grew. It does not state the exact order of notifications across waypoints.
- Registry.Navigation.DisconnectAll: likewise states membership in the log, not its order.
- Paths.Path.Optimize: trims the end with the corrected loop, not with the loop as written at
  Source/Path.cs:78-83. A path whose last node sees the end position therefore keeps that node, where the
  code as written cuts the path one node earlier. Validity and delivery of such a path then depend on that
  last node.
- Paths.Path.Optimize: states which runs the trimming may keep, and that no further cut is possible.
  It does not state which of several possible cuts the loops take.
- Graph.Connection.constructor: null endpoints are ruled out by the types rather than by the
  assertion.

## Findings

| source | as written | input that shows it | evidently intended | confidence | as-written member | corrected member |
|---|---|---|---|---|---|---|
| Source/Path.cs:76-90 | The end loop tests whether the node that connection `i` leads to reaches the end position, then removes connections `i` onwards. The path then ends where connection `i` starts, a node the loop never checked. | Nodes A, B, C, D ten units apart on the x axis, unit radii, path A→B→C→D, end position (35, 0, 0), line of sight to it only from D. The path is cut to A→B→C, which ends at C. C neither contains nor sees the end position. | The path is cut after a connection whose own target reaches the end position, so a trimmed path ends at a node that reaches the end. | not executed | Paths.Path.TrimEndAsWritten, Paths.EndTrimCounterexample | Paths.Path.TrimEnd, Paths.EndTrimCorrected |
| Source/Seeker.cs:102-106 | The seeking flag is checked before the `yield`. A `Stop` while the search is parked at the yield does not stop the next batch, which runs after the yield without looking at the flag. | A search parked with an empty open set and an iteration cap of 10, stopped while parked. On the next resumption the pass still runs and the requester receives a failure event. | A stopped search does no further work and delivers nothing. | not executed | Search.Seeker.Tick, Search.StopCounterexample | Search.Seeker.Resume, Search.StopHonoured |
