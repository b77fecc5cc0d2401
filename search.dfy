/** The search (Source/Seeker.cs): a best-first search over an open map keyed by connection and a
    closed list, run as a coroutine that yields once per tick and then performs at most
    `iterationCap` expansions. The coroutine is an explicit state object: `Begin` is the code up to
    the first yield, `Tick` one resumption after it, and `Iterate` one pass of the expansion loop. */
module Search {
  import opened Geometry
  import opened Graph
  import opened Frontier
  import opened Requester
  import Paths
  import Registry

  /** Where the coroutine stands: not started, parked at its yield, or ended. */
  datatype Phase = Idle | Suspended | Finished

  /** What one pass of the expansion loop did. */
  datatype Step = Expanded | Failed | Delivered | Restarted

  /** The product of the factors the handlers `hs` give connection `c`, applied in order. */
  function HandlerProduct(hs: seq<HandlerId>, weigh: (HandlerId, Connection) -> real, c: Connection): real {
    if hs == [] then 1.0 else HandlerProduct(hs[..|hs| - 1], weigh, c) * weigh(hs[|hs| - 1], c)
  }

  /** Handlers that all return positive factors keep the weighting positive. */
  lemma {:induction false} HandlerProductPositive(hs: seq<HandlerId>, weigh: (HandlerId, Connection) -> real,
                                                  c: Connection)
    requires forall h :: h in hs ==> weigh(h, c) > 0.0
    ensures HandlerProduct(hs, weigh, c) > 0.0
  {
    if hs != [] {
      assert forall h :: h in hs[..|hs| - 1] ==> h in hs;
      HandlerProductPositive(hs[..|hs| - 1], weigh, c);
      PositiveProduct(HandlerProduct(hs[..|hs| - 1], weigh, c), weigh(hs[|hs| - 1], c));
    }
  }

  /** Handlers that all return 1 leave the cost as it is. */
  lemma {:induction false} HandlerProductNeutral(hs: seq<HandlerId>, weigh: (HandlerId, Connection) -> real,
                                                 c: Connection)
    requires forall h :: h in hs ==> weigh(h, c) == 1.0
    ensures HandlerProduct(hs, weigh, c) == 1.0
  {
    if hs != [] {
      assert forall h :: h in hs[..|hs| - 1] ==> h in hs;
      HandlerProductNeutral(hs[..|hs| - 1], weigh, c);
    }
  }

  /** The key of an entry with the least f-score in `open`. */
  predicate Minimal(open: map<Connection, SeekerData>, k: Connection) {
    k in open && forall j :: j in open ==> open[k].FScore() <= open[j].FScore()
  }

  /** A non-empty open set has an entry of least f-score; which one is picked among equal f-scores is
      left open, as the engine's unstable sort leaves it. */
  lemma {:induction false} MinimumExists(open: map<Connection, SeekerData>)
    requires open != map[]
    ensures exists k :: Minimal(open, k)
    decreases |open|
  {
    var j :| j in open;
    var rest := open - {j};
    assert rest.Keys == open.Keys - {j};
    assert forall i :: i in open && i != j ==> i in rest && rest[i] == open[i];
    if rest == map[] {
      assert forall i :: i in open ==> i == j;
      assert Minimal(open, j);
    } else {
      MinimumExists(rest);
      var k :| Minimal(rest, k);
      if open[j].FScore() < open[k].FScore() {
        assert Minimal(open, j);
      } else {
        assert Minimal(open, k);
      }
    }
  }

  /** Entry `d` is a well-formed frontier entry keyed by `k`: it ends with `k` and runs along a chain of
      connections out of `start` to a node of `world`. */
  ghost predicate Entry(d: SeekerData, k: Connection, start: Waypoint?, world: set<Waypoint>) {
    && d.WellFormed()
    && d.LastSegment() == k
    && Chain(d.path)
    && d.path[0].from == start
    && d.Destination() in world
  }

  /** A connection as the search sees it when it comes to it: whether it is usable, and its step cost
      and heuristic. */
  datatype Candidate = Candidate(c: Connection, usable: bool, g: real, h: real)

  /** `m` after seeding looks at `x`: a usable candidate gets its single-connection entry. */
  function SeedWith(m: map<Connection, SeekerData>, x: Candidate): map<Connection, SeekerData> {
    if x.usable then m[x.c := Start(x.c, x.g, x.h)] else m
  }

  /** The open set seeded from `items` in order. */
  function SeedFold(items: seq<Candidate>): map<Connection, SeekerData> {
    if items == [] then map[] else SeedWith(SeedFold(items[..|items| - 1]), items[|items| - 1])
  }

  /** Seeding from one more candidate. */
  lemma SeedFoldStep(items: seq<Candidate>, i: nat)
    requires i < |items|
    ensures SeedFold(items[..i + 1]) == SeedWith(SeedFold(items[..i]), items[i])
  {
    assert items[..i + 1][..i] == items[..i];
  }

  /** `m` after the expansion of `current` looks at `x`: a usable candidate that is neither closed nor
      open yet gets the extension of `current` by it. */
  function ExtendWith(m: map<Connection, SeekerData>, current: SeekerData, x: Candidate,
                      closed: seq<Connection>): map<Connection, SeekerData>
    requires current.WellFormed()
  {
    if x.usable && x.c !in closed && x.c !in m then m[x.c := Extend(current, x.c, x.g, x.h)] else m
  }

  /** `open` after the expansion of `current` has looked at `items` in order. */
  function ExpandFold(open: map<Connection, SeekerData>, current: SeekerData, items: seq<Candidate>,
                      closed: seq<Connection>): map<Connection, SeekerData>
    requires current.WellFormed()
  {
    if items == [] then open
    else ExtendWith(ExpandFold(open, current, items[..|items| - 1], closed), current, items[|items| - 1], closed)
  }

  /** Expanding by one more candidate. */
  lemma ExpandFoldStep(open: map<Connection, SeekerData>, current: SeekerData, items: seq<Candidate>, i: nat,
                       closed: seq<Connection>)
    requires current.WellFormed() && i < |items|
    ensures ExpandFold(open, current, items[..i + 1], closed) ==
      ExtendWith(ExpandFold(open, current, items[..i], closed), current, items[i], closed)
  {
    assert items[..i + 1][..i] == items[..i];
  }

  /** Every entry of `open` is keyed by its last connection and runs along a chain out of `start`, and
      no open key is closed. */
  ghost predicate OpenEntries(open: map<Connection, SeekerData>, closed: seq<Connection>, start: Waypoint?,
                              world: set<Waypoint>) {
    && (forall k :: k in open ==> Entry(open[k], k, start, world))
    && (forall k :: k in open ==> k !in closed)
  }

  /** The open-set invariant only gets weaker as the graph grows. */
  lemma EntriesGrow(open: map<Connection, SeekerData>, closed: seq<Connection>, start: Waypoint?,
                    world: set<Waypoint>, larger: set<Waypoint>)
    requires OpenEntries(open, closed, start, world) && world <= larger
    ensures OpenEntries(open, closed, start, larger)
  {
  }

  class Seeker {
    const owner: Navigator
    const nav: Registry.Navigation
    const startPosition: Vec3
    const endPosition: Vec3
    const iterationCap: int
    /** The waypoints the search can reach: every registered waypoint and every node their
        connections lead to. It grows (see `Grow`) when waypoints are registered or connected
        between two resumptions. */
    ghost var world: set<Waypoint>
    var seeking: bool
    var phase: Phase
    var startNode: Waypoint?
    var endNode: Waypoint?
    var openSet: map<Connection, SeekerData>
    var closedSet: seq<Connection>

    /** A search between two positions for `owner`, with the registry's iteration cap. */
    constructor (startPosition: Vec3, endPosition: Vec3, owner: Navigator, nav: Registry.Navigation,
                 ghost world: set<Waypoint>)
      ensures this.startPosition == startPosition && this.endPosition == endPosition
      ensures this.owner == owner && this.nav == nav && this.world == world
      ensures iterationCap == nav.seekerIterationCap
      ensures !seeking && phase == Idle && openSet == map[] && closedSet == []
    {
      this.startPosition, this.endPosition, this.owner, this.nav := startPosition, endPosition, owner, nav;
      this.world := world;
      iterationCap := nav.seekerIterationCap;
      seeking, phase, startNode, endNode, openSet, closedSet := false, Idle, null, null, map[], [];
    }

    /** The graph the search runs over: registered waypoints are non-null and inside `world`, which is
        closed under connections and made of well-formed waypoints. */
    ghost predicate Registered()
      reads nav`waypoints, this`world, world
    {
      && null !in nav.waypoints
      && (forall w :: w in nav.waypoints ==> w in world)
      && Closed(world)
    }

    /** Takes waypoints registered or connected since the search was constructed into the graph it
        runs over. The search state is kept: its entries only refer to waypoints already in it. */
    ghost method Grow(ws: set<Waypoint>)
      requires Closed(world + ws)
      modifies this`world
      ensures world == old(world) + ws && Closed(world)
      ensures old(Searching()) ==> Searching()
      ensures null !in nav.waypoints && (forall w :: w in nav.waypoints ==> w in world) ==> Registered()
    {
      if Searching() {
        EntriesGrow(openSet, closedSet, startNode, world, world + ws);
      }
      world := world + ws;
    }

    /** The search state between expansions: the start node is known, every open entry is keyed by its
        last connection and runs along a chain out of the start node, and no open key is closed. */
    ghost predicate Searching()
      reads this
    {
      startNode != null && startNode in world && OpenEntries(openSet, closedSet, startNode, world)
    }

    /** `w` is what the nearest-node query answers for `position`: none exactly when no registered
        waypoint is enabled, else an enabled registered waypoint no enabled one is nearer than. */
    ghost predicate NearestTo(w: Waypoint?, position: Vec3)
      requires Registered()
      reads nav`waypoints, this`world, world
    {
      && (w == null <==> forall x :: x in nav.waypoints ==> !x.enabled)
      && (w != null ==> w in nav.waypoints && w.enabled)
      && (w != null ==> forall x :: x in nav.waypoints && x.enabled ==>
            SqrDistance(w.position, position) <= SqrDistance(x.position, position))
    }

    /** A connection the requester can use: enabled, at least as wide as the requester, and leading to
        a node whose diameter fits the requester. */
    predicate Valid(c: Connection)
      reads c, c.to, owner
      ensures Valid(c) ==> c.enabled
      ensures Valid(c) && owner.width > 0.0 ==> c.width > 0.0 && c.to.radius > 0.0
    {
      c.enabled && c.width >= owner.width && c.to.radius * 2.0 >= owner.width
    }

    /** The heuristic for a connection: the squared distance from where it leads to the end position.
        It vanishes at the end position itself. */
    function HScore(c: Connection): (h: real)
      reads c.to
      ensures h >= 0.0
      ensures c.to.position == endPosition ==> h == 0.0
    {
      SqrDistance(endPosition, c.to.position)
    }

    /** The step cost of a connection: its cost times its weight, times the factor of every handler
        registered for its tag, in registration order. */
    ghost function GScoreOf(c: Connection): real
      reads c, c.from, c.to, owner
    {
      Weighted(c, 1)
    }

    /** The step cost, for every `depth`. Stating it one recursion level below `GScoreOf` keeps its
        products out of the proofs about the open set, which only pass step costs around. */
    ghost function Weighted(c: Connection, depth: nat): real
      reads c, c.from, c.to, owner
    {
      if depth == 0 then c.Cost() * c.weight * HandlerProduct(owner.WeightHandlers(c.tag), owner.weigh, c)
      else Weighted(c, depth - 1)
    }

    /** Computes the step cost by applying the handlers one after the other. */
    method GScore(c: Connection) returns (g: real)
      ensures g == GScoreOf(c)
    {
      var base := c.Cost() * c.weight;
      var handlers := owner.WeightHandlers(c.tag);
      g := base;
      var i := 0;
      while i < |handlers|
        invariant 0 <= i <= |handlers|
        invariant g == base * HandlerProduct(handlers[..i], owner.weigh, c)
      {
        assert handlers[..i + 1][..i] == handlers[..i];
        g := g * owner.weigh(handlers[i], c);
        i := i + 1;
      }
      assert handlers[..i] == handlers;
      assert g == Weighted(c, 0);
    }

    /** Cancels the search by clearing the seeking flag; nothing else changes. */
    method Stop()
      modifies this`seeking
      ensures !seeking
    {
      seeking := false;
    }

    /** Ends the search with `path`: the flag is cleared, the requester gets its result event and the
        path is handed to the invalidation registry. */
    method Deliver(path: Paths.Path)
      modifies this`seeking, owner`events, nav`watched
      ensures !seeking
      ensures owner.events == old(owner.events) + [owner.ResultEvent(endPosition)]
      ensures nav.watched == old(nav.watched) + [path]
    {
      seeking := false;
      owner.OnPathResult(endPosition);
      nav.WatchPath(path);
    }

    /** Ends the search without a path: the flag is cleared and the requester gets its failure event. */
    method Fail()
      modifies this`seeking, owner`events
      ensures !seeking
      ensures owner.events == old(owner.events) + [owner.FailureEvent(endPosition)]
    {
      seeking := false;
      owner.OnPathFailed(endPosition);
    }

    /** The coroutine up to its first yield. With shortcuts on and a clear line, the direct path is
        delivered at once; otherwise the search starts from the nearest nodes (see `StartAtNodes`). */
    method Begin()
      requires Registered()
      modifies this`seeking, this`phase, this`startNode, this`endNode, this`openSet, this`closedSet
      modifies owner`events, nav`watched
      ensures phase == Suspended || phase == Finished
      ensures phase == Finished ==>
        && !seeking
        && owner.events == old(owner.events) + [owner.ResultEvent(endPosition)]
        && |nav.watched| == |old(nav.watched)| + 1 && nav.watched[..|old(nav.watched)|] == old(nav.watched)
        && nav.watched[|nav.watched| - 1].segments == []
      ensures owner.takeShortcuts && owner.directPath(startPosition, endPosition) ==>
        phase == Finished && nav.watched[|nav.watched| - 1].onlyNode == null
      ensures !(owner.takeShortcuts && owner.directPath(startPosition, endPosition)) ==>
        && NearestTo(startNode, startPosition) && NearestTo(endNode, endPosition)
        && (phase == Finished <==> startNode == endNode)
        && (phase == Finished ==> nav.watched[|nav.watched| - 1].onlyNode == startNode)
      ensures phase == Suspended ==>
        && seeking && Searching() && endNode != null && startNode != endNode
        && owner.events == old(owner.events) && nav.watched == old(nav.watched)
        && closedSet == []
        && openSet == SeedMap(startNode.connections)
    {
      seeking := true;
      if owner.takeShortcuts && owner.directPath(startPosition, endPosition) {
        var path := new Paths.Path.Direct(startPosition, endPosition, owner);
        Deliver(path);
        phase := Finished;
      } else {
        StartAtNodes();
      }
    }

    /** The search proper, once no direct path was taken: the nearest nodes to both positions are
        looked up, and when they coincide the single-node path on that node is delivered (both are none
        when no waypoint is enabled). Otherwise the open set is seeded with the usable connections out
        of the start node, the closed list starts empty, and the coroutine parks at its yield. */
    method StartAtNodes()
      requires Registered()
      modifies this`seeking, this`phase, this`startNode, this`endNode, this`openSet, this`closedSet
      modifies owner`events, nav`watched
      ensures NearestTo(startNode, startPosition) && NearestTo(endNode, endPosition)
      ensures phase == Suspended || phase == Finished
      ensures phase == Finished <==> startNode == endNode
      ensures phase == Finished ==>
        && !seeking
        && owner.events == old(owner.events) + [owner.ResultEvent(endPosition)]
        && |nav.watched| == |old(nav.watched)| + 1 && nav.watched[..|old(nav.watched)|] == old(nav.watched)
        && nav.watched[|nav.watched| - 1].segments == []
        && nav.watched[|nav.watched| - 1].onlyNode == startNode
      ensures phase == Suspended ==>
        && seeking == old(seeking) && Searching() && endNode != null && startNode != endNode
        && owner.events == old(owner.events) && nav.watched == old(nav.watched)
        && closedSet == []
        && openSet == SeedMap(startNode.connections)
    {
      Locate();
      if startNode == endNode {
        DeliverAtNode();
      } else {
        Open(startNode);
      }
    }

    /** Delivers the single-node path on the start node and ends the coroutine. */
    method DeliverAtNode()
      modifies this`seeking, this`phase, owner`events, nav`watched
      ensures !seeking && phase == Finished
      ensures owner.events == old(owner.events) + [owner.ResultEvent(endPosition)]
      ensures |nav.watched| == |old(nav.watched)| + 1 && nav.watched[..|old(nav.watched)|] == old(nav.watched)
      ensures nav.watched[|nav.watched| - 1].segments == [] && nav.watched[|nav.watched| - 1].onlyNode == startNode
      ensures unchanged(nav`waypoints) && unchanged(world)
    {
      var path := new Paths.Path.AtNode(startPosition, endPosition, startNode, owner);
      Deliver(path);
      phase := Finished;
    }

    /** Opens the search at `node`: seeds the open set, empties the closed list and parks. */
    method Open(node: Waypoint)
      requires node == startNode && node in world && Closed(world)
      modifies this`openSet, this`closedSet, this`phase
      ensures Searching() && phase == Suspended && closedSet == []
      ensures openSet == SeedMap(node.connections)
      ensures unchanged(nav`waypoints) && unchanged(world)
    {
      Seed(node);
      SeedEntries(node);
      closedSet := [];
      phase := Suspended;
    }

    /** Every seeded entry is a single connection out of `node`, keyed by itself, into `world`. */
    lemma SeedEntries(node: Waypoint)
      requires node in world && Closed(world)
      ensures OpenEntries(SeedMap(node.connections), [], node, world)
    {
      var cs := node.connections;
      SeedMapSpec(cs);
      forall k | k in SeedMap(cs) ensures Entry(SeedMap(cs)[k], k, node, world) {
        assert k in cs;
      }
    }

    /** What the search needs to know about each of the connections `cs`, in their order: whether the
        requester can use it, its step cost and its heuristic. */
    ghost function Candidates(cs: seq<Connection>): (r: seq<Candidate>)
      reads owner, set c | c in cs, set c | c in cs :: c.from, set c | c in cs :: c.to
      ensures |r| == |cs|
      ensures forall k :: 0 <= k < |cs| ==> r[k] == Candidate(cs[k], Valid(cs[k]), GScoreOf(cs[k]), HScore(cs[k]))
    {
      if cs == [] then []
      else
        var c := cs[|cs| - 1];
        Candidates(cs[..|cs| - 1]) + [Candidate(c, Valid(c), GScoreOf(c), HScore(c))]
    }

    /** The open set seeded from the connections `cs`, taken in order: each usable one is keyed by
        itself with its single-connection entry. */
    ghost function SeedMap(cs: seq<Connection>): map<Connection, SeekerData>
      reads owner, set c | c in cs, set c | c in cs :: c.from, set c | c in cs :: c.to
    {
      SeedFold(Candidates(cs))
    }

    /** The seeded open set holds exactly the usable connections, each with its single-connection
        entry scored by the step cost and the heuristic. */
    lemma {:induction false} SeedMapSpec(cs: seq<Connection>)
      ensures SeedMap(cs).Keys == set c | c in cs && Valid(c)
      ensures forall c :: c in SeedMap(cs) ==> SeedMap(cs)[c] == Start(c, GScoreOf(c), HScore(c))
    {
      if cs != [] {
        var init := cs[..|cs| - 1];
        SeedMapSpec(init);
        var items := Candidates(cs);
        assert items[..|items| - 1] == Candidates(init);
        assert forall c :: c in cs <==> c in init || c == cs[|cs| - 1];
      }
    }

    /** Looks up the nodes nearest to both positions; either both exist or neither does. */
    method Locate()
      requires Registered()
      modifies this`startNode, this`endNode
      ensures NearestTo(startNode, startPosition) && NearestTo(endNode, endPosition)
      ensures startNode == null <==> endNode == null
    {
      startNode := nav.GetNearestNode(startPosition);
      endNode := nav.GetNearestNode(endPosition);
    }

    /** Seeds the open set with the usable connections out of `node`, in their order. */
    method Seed(node: Waypoint)
      modifies this`openSet
      ensures openSet == old(SeedMap(node.connections))
    {
      var cs := node.connections;
      ghost var items := Candidates(cs);
      var open := map[];
      var i := 0;
      while i < |cs|
        invariant 0 <= i <= |cs|
        invariant open == SeedFold(items[..i])
      {
        SeedFoldStep(items, i);
        open := SeedCandidate(cs[i], items[i], open);
        i := i + 1;
      }
      assert items[..i] == items;
      openSet := open;
    }

    /** Seeds `m` with `c`, whose candidate is `x`: a usable connection gets its entry, scored here. */
    method SeedCandidate(c: Connection, ghost x: Candidate, m: map<Connection, SeekerData>)
      returns (r: map<Connection, SeekerData>)
      requires x == Candidate(c, Valid(c), GScoreOf(c), HScore(c))
      ensures r == SeedWith(m, x)
    {
      r := m;
      if Valid(c) {
        var h := HScore(c);
        var g := GScore(c);
        r := m[c := Start(c, g, h)];
      }
    }

    /** The open set `open` after the options `cs` of `current` have been looked at in order: each
        usable one that is neither closed nor open yet gets the extension of `current` by it. */
    ghost function ExpandMap(open: map<Connection, SeekerData>, current: SeekerData, cs: seq<Connection>,
                             closed: seq<Connection>): map<Connection, SeekerData>
      requires current.WellFormed()
      reads owner, set c | c in cs, set c | c in cs :: c.from, set c | c in cs :: c.to
    {
      ExpandFold(open, current, Candidates(cs), closed)
    }

    /** Expansion keeps every open entry and adds exactly the usable options that are neither closed nor
        open, each with the extension of `current` by it. */
    lemma {:induction false} ExpandMapSpec(open: map<Connection, SeekerData>, current: SeekerData,
                                           cs: seq<Connection>, closed: seq<Connection>)
      requires current.WellFormed()
      ensures ExpandMap(open, current, cs, closed).Keys ==
        open.Keys + set c | c in cs && Valid(c) && c !in closed && c !in open
      ensures forall k :: k in open ==> ExpandMap(open, current, cs, closed)[k] == open[k]
      ensures forall c :: c in ExpandMap(open, current, cs, closed) && c !in open ==>
                ExpandMap(open, current, cs, closed)[c] == Extend(current, c, GScoreOf(c), HScore(c))
    {
      if cs != [] {
        var init := cs[..|cs| - 1];
        ExpandMapSpec(open, current, init, closed);
        var items := Candidates(cs);
        assert items[..|items| - 1] == Candidates(init);
        var last := cs[|cs| - 1];
        assert ExpandMap(open, current, cs, closed) ==
          ExtendWith(ExpandMap(open, current, init, closed), current, items[|items| - 1], closed);
        assert forall c :: c in cs <==> c in init || c == last;
      }
    }

    /** Every entry expansion adds runs along a chain out of the start node, when `current` does and
        `cs` are connections out of its destination inside a closed world. */
    lemma {:induction false} ExpandMapEntries(open: map<Connection, SeekerData>, current: SeekerData,
                                              cs: seq<Connection>, closed: seq<Connection>)
      requires Closed(world) && current.WellFormed() && Entry(current, current.LastSegment(), startNode, world)
      requires forall c :: c in cs ==> c in current.Destination().connections
      ensures forall c :: c in ExpandMap(open, current, cs, closed) && c !in open ==>
                Entry(ExpandMap(open, current, cs, closed)[c], c, startNode, world) && c !in closed
    {
      if cs != [] {
        var init := cs[..|cs| - 1];
        ExpandMapEntries(open, current, init, closed);
        var items := Candidates(cs);
        assert items[..|items| - 1] == Candidates(init);
        var c := cs[|cs| - 1];
        assert c.from == current.Destination();
        ExtendChain(current, c, GScoreOf(c), HScore(c));
      }
    }

    /** Pushes an extension of `current` onto `open` for every option that is usable, not in `closed`
        and not open yet, in the order the options come. */
    method Expand(current: SeekerData, open: map<Connection, SeekerData>, closed: seq<Connection>)
      returns (r: map<Connection, SeekerData>)
      requires current.WellFormed()
      ensures r == old(ExpandMap(open, current, current.Options(), closed))
    {
      var options := current.Options();
      ghost var items := Candidates(options);
      r := open;
      var i := 0;
      while i < |options|
        invariant 0 <= i <= |options|
        invariant r == ExpandFold(open, current, items[..i], closed)
      {
        ExpandFoldStep(open, current, items, i, closed);
        r := ExtendCandidate(current, options[i], items[i], r, closed);
        i := i + 1;
      }
      assert items[..i] == items;
    }

    /** Extends `current` by `c`, whose candidate is `x`, into `m` when `c` is usable, not closed and
        not open yet; the step cost is computed only then. */
    method ExtendCandidate(current: SeekerData, c: Connection, ghost x: Candidate, m: map<Connection, SeekerData>,
                           closed: seq<Connection>) returns (r: map<Connection, SeekerData>)
      requires current.WellFormed() && x == Candidate(c, Valid(c), GScoreOf(c), HScore(c))
      ensures r == ExtendWith(m, current, x, closed)
    {
      r := m;
      if Valid(c) && c !in closed && c !in m {
        var h := HScore(c);
        var g := GScore(c);
        r := m[c := Extend(current, c, g, h)];
      }
    }

    /** Closes `key` and expands its entry: the entry leaves the open set, its key joins the closed
        list, and the entry's options are pushed as `Expand` pushes them. */
    method Advance(key: Connection)
      requires Searching() && Closed(world) && key in openSet
      modifies this`openSet, this`closedSet
      ensures closedSet == old(closedSet) + [key]
      ensures openSet == old(ExpandMap(openSet - {key}, openSet[key], openSet[key].Options(), closedSet + [key]))
      ensures Searching()
    {
      ExpansionKeeps(key);
      var open := Expand(openSet[key], openSet - {key}, closedSet + [key]);
      openSet, closedSet := open, closedSet + [key];
    }

    /** Closing and expanding an open entry keeps the search state: the new entries run along chains
        out of the start node and none of the open keys is closed. */
    lemma ExpansionKeeps(key: Connection)
      requires Searching() && Closed(world) && key in openSet
      ensures OpenEntries(ExpandMap(openSet - {key}, openSet[key], openSet[key].Options(), closedSet + [key]),
                          closedSet + [key], startNode, world)
    {
      var current := openSet[key];
      var rest := openSet - {key};
      var closed := closedSet + [key];
      ExpandMapSpec(rest, current, current.Options(), closed);
      ExpandMapEntries(rest, current, current.Options(), closed);
      assert forall k :: k in rest ==> k in openSet && rest[k] == openSet[k] && k != key;
    }

    /** Builds the path for the entry `current` and checks whether it can still be followed. */
    method Build(current: SeekerData) returns (path: Paths.Path, valid: bool)
      requires current.WellFormed() && Chain(current.path)
      ensures fresh(path) && Built(path, current) && valid == path.Valid()
    {
      path := new Paths.Path.FromData(startPosition, endPosition, current, owner);
      valid := path.CheckValid();
    }

    /** `path` is the path between this search's positions built from the connections of `current`,
        trimmed by shortcuts only; with shortcuts off it runs from the first node of `current` to its
        destination. */
    ghost predicate Built(path: Paths.Path, current: SeekerData)
      requires current.WellFormed()
      reads path, owner`takeShortcuts, set c | c in path.segments :: c.from, set c | c in path.segments :: c.to
      reads set c | c in current.path :: c.from, set c | c in current.path :: c.to
    {
      && path.startPosition == startPosition && path.endPosition == endPosition && path.owner == owner
      && path.onlyNode == null && path.Optimized(current.path) && Chain(path.segments)
      && (!owner.takeShortcuts ==>
            path.segments == current.path
            && path.StartNode() == current.path[0].from && path.EndNode() == current.Destination())
    }

    /** With shortcuts off, a built path can be followed exactly when the entry's first node, its
        destination, and every connection of it and the node it leads to are enabled. */
    lemma BuiltValid(path: Paths.Path, current: SeekerData)
      requires current.WellFormed() && Built(path, current) && !owner.takeShortcuts
      ensures path.Valid() <==> current.path[0].from.enabled && current.Destination().enabled
                                && forall c :: c in current.path ==> c.enabled && c.to.enabled
    {
    }

    /** The entry `current` has reached the end node: the path `built` from it is delivered exactly when
        it is still valid, and otherwise the search starts over from the beginning. */
    method Arrive(current: SeekerData) returns (delivered: bool, ghost built: Paths.Path)
      requires Registered() && current.WellFormed() && Chain(current.path)
      modifies this`seeking, this`phase, this`startNode, this`endNode, this`openSet, this`closedSet
      modifies owner`events, nav`watched
      ensures Built(built, current) && (delivered <==> built.Valid())
      ensures !owner.takeShortcuts ==>
        (delivered <==> old(current.path[0].from.enabled && current.Destination().enabled
                            && forall c :: c in current.path ==> c.enabled && c.to.enabled))
      ensures delivered ==>
        && !seeking && phase == Finished
        && owner.events == old(owner.events) + [owner.ResultEvent(endPosition)]
        && nav.watched == old(nav.watched) + [built]
      ensures !delivered ==> phase == Suspended || phase == Finished
      ensures !delivered && phase == Suspended ==>
        seeking && Searching() && closedSet == [] && owner.events == old(owner.events)
      ensures !delivered && phase == Finished ==>
        !seeking && owner.events == old(owner.events) + [owner.ResultEvent(endPosition)]
    {
      var path;
      path, delivered := Build(current);
      built := path;
      if !owner.takeShortcuts {
        BuiltValid(path, current);
      }
      if delivered {
        Complete(path, current);
      } else {
        Restart();
      }
    }

    /** Starts the search over from the beginning, as a nested run of the coroutine: it either ends at
        once with a result or parks with a fresh search state. */
    method Restart()
      requires Registered()
      modifies this`seeking, this`phase, this`startNode, this`endNode, this`openSet, this`closedSet
      modifies owner`events, nav`watched
      ensures phase == Suspended || phase == Finished
      ensures phase == Finished ==>
        && !seeking
        && owner.events == old(owner.events) + [owner.ResultEvent(endPosition)]
        && |nav.watched| == |old(nav.watched)| + 1 && nav.watched[..|old(nav.watched)|] == old(nav.watched)
        && nav.watched[|nav.watched| - 1].segments == []
      ensures owner.takeShortcuts && owner.directPath(startPosition, endPosition) ==>
        phase == Finished && nav.watched[|nav.watched| - 1].onlyNode == null
      ensures !(owner.takeShortcuts && owner.directPath(startPosition, endPosition)) ==>
        && NearestTo(startNode, startPosition) && NearestTo(endNode, endPosition)
        && (phase == Finished <==> startNode == endNode)
        && (phase == Finished ==> nav.watched[|nav.watched| - 1].onlyNode == startNode)
      ensures phase == Suspended ==>
        && seeking && Searching() && endNode != null && startNode != endNode
        && owner.events == old(owner.events) && nav.watched == old(nav.watched)
        && closedSet == []
        && openSet == SeedMap(startNode.connections)
    {
      Begin();
    }

    /** Delivers the valid path `path` built from `current` and ends the coroutine. */
    method Complete(path: Paths.Path, ghost current: SeekerData)
      requires current.WellFormed() && Built(path, current) && path.Valid()
      modifies this`seeking, this`phase, owner`events, nav`watched
      ensures !seeking && phase == Finished
      ensures owner.events == old(owner.events) + [owner.ResultEvent(endPosition)]
      ensures nav.watched == old(nav.watched) + [path]
      ensures Built(path, current) && path.Valid()
    {
      phase := Finished;
      Deliver(path);
      assert path.Optimized(current.path);
    }

    /** One pass of the search loop. An empty open set ends the search with a failure; otherwise an
        entry of least f-score is chosen and visited. */
    method Iterate() returns (step: Step, ghost chosen: Connection?, ghost built: Paths.Path?)
      requires Registered() && Searching()
      modifies this`seeking, this`phase, this`startNode, this`endNode, this`openSet, this`closedSet
      modifies owner`events, nav`watched
      ensures step == Failed <==> old(openSet) == map[]
      ensures step == Failed ==>
        && !seeking && phase == Finished && openSet == old(openSet) && closedSet == old(closedSet)
        && owner.events == old(owner.events) + [owner.FailureEvent(endPosition)]
      ensures step != Failed ==> chosen != null && Minimal(old(openSet), chosen)
      ensures step == Expanded <==> step != Failed && old(openSet)[chosen].Destination() != old(endNode)
      ensures step == Expanded ==> phase == old(phase) && seeking == old(seeking) && Searching()
      ensures step == Expanded ==>
        && closedSet == old(closedSet) + [chosen]
        && openSet == old(ExpandMap(openSet - {chosen}, openSet[chosen], openSet[chosen].Options(), closedSet + [chosen]))
        && owner.events == old(owner.events) && nav.watched == old(nav.watched)
      ensures step == Delivered ==>
        && !seeking && phase == Finished
        && owner.events == old(owner.events) + [owner.ResultEvent(endPosition)]
        && built != null && nav.watched == old(nav.watched) + [built] && built.Valid()
      ensures step == Restarted ==>
        && (phase == Finished || (phase == Suspended && seeking && Searching()))
        && built != null && !built.Valid()
      ensures step == Restarted && phase == Finished ==> owner.events == old(owner.events) + [owner.ResultEvent(endPosition)]
      ensures step == Restarted && phase == Suspended ==> owner.events == old(owner.events) && closedSet == []
    {
      if openSet == map[] {
        Fail();
        phase := Finished;
        return Failed, null, null;
      }
      MinimumExists(openSet);
      var key :| key in openSet && Minimal(openSet, key);
      chosen := key;
      step, built := Visit(key);
    }

    /** Visits the open entry under `key`: if it has reached the end node the search ends with its
        path (or starts over when that path has meanwhile become invalid), else the entry is closed
        and expanded. */
    method Visit(key: Connection) returns (step: Step, ghost built: Paths.Path?)
      requires Registered() && Searching() && key in openSet
      modifies this`seeking, this`phase, this`startNode, this`endNode, this`openSet, this`closedSet
      modifies owner`events, nav`watched
      ensures step != Failed
      ensures step == Expanded <==> old(openSet)[key].Destination() != old(endNode)
      ensures step == Expanded ==>
        && seeking == old(seeking) && phase == old(phase)
        && startNode == old(startNode) && endNode == old(endNode)
        && owner.events == old(owner.events) && nav.watched == old(nav.watched)
        && closedSet == old(closedSet) + [key]
        && openSet == old(ExpandMap(openSet - {key}, openSet[key], openSet[key].Options(), closedSet + [key]))
        && Searching()
      ensures step == Delivered ==>
        && !seeking && phase == Finished
        && owner.events == old(owner.events) + [owner.ResultEvent(endPosition)]
        && old(openSet)[key].path[0].from == old(startNode)
        && built != null && nav.watched == old(nav.watched) + [built]
        && Built(built, old(openSet)[key]) && built.Valid()
      ensures step == Restarted ==>
        && (phase == Suspended || phase == Finished)
        && built != null && Built(built, old(openSet)[key]) && !built.Valid()
      ensures step == Restarted && phase == Suspended ==>
        seeking && Searching() && closedSet == [] && owner.events == old(owner.events)
      ensures step == Restarted && phase == Finished ==>
        !seeking && owner.events == old(owner.events) + [owner.ResultEvent(endPosition)]
    {
      var current := openSet[key];
      if current.Destination() == endNode {
        var delivered;
        delivered, built := Arrive(current);
        step := if delivered then Delivered else Restarted;
      } else {
        Advance(key);
        step, built := Expanded, null;
      }
    }

    /** One pass inside a batch, as the batch sees it: the batch goes on only after an expansion,
        which leaves the search parked and the flag as it was; an empty open set ends it with a
        failure event. */
    method Pass() returns (running: bool)
      requires Registered() && Searching() && phase == Suspended
      modifies this`seeking, this`phase, this`startNode, this`endNode, this`openSet, this`closedSet
      modifies owner`events, nav`watched
      ensures Registered()
      ensures running ==> phase == Suspended && Searching() && seeking == old(seeking)
      ensures running ==> |closedSet| == |old(closedSet)| + 1
      ensures !running ==> phase == Finished || (phase == Suspended && seeking && Searching())
      ensures !running && phase == Finished && old(openSet) != map[] ==>
        owner.events == old(owner.events) + [owner.ResultEvent(endPosition)]
      ensures !running && phase == Suspended ==> owner.events == old(owner.events) && closedSet == []
      ensures old(openSet) == map[] ==>
        && !running && !seeking && phase == Finished
        && owner.events == old(owner.events) + [owner.FailureEvent(endPosition)]
    {
      var step, chosen, built := Iterate();
      running := step == Expanded;
      if step == Restarted {
        assert phase == Finished || (phase == Suspended && closedSet == []);
      }
    }

    /** One resumption of the coroutine after its yield, as the source writes it: a batch of passes
        runs before the seeking flag is looked at again, so a `Stop` issued while the coroutine is
        parked does not keep the next batch from running. When the batch runs out, the coroutine parks
        again if the flag is still set and ends silently otherwise. */
    method Tick() returns (passes: nat)
      requires Registered() && Searching() && phase == Suspended
      modifies this`seeking, this`phase, this`startNode, this`endNode, this`openSet, this`closedSet
      modifies owner`events, nav`watched
      ensures phase == Suspended || phase == Finished
      ensures phase == Suspended ==> seeking && Searching()
      ensures iterationCap > 0 ==> 1 <= passes <= iterationCap
      ensures iterationCap <= 0 ==>
        && passes == 0 && (phase == Finished <==> !old(seeking)) && seeking == old(seeking)
        && openSet == old(openSet) && closedSet == old(closedSet) && owner.events == old(owner.events)
      ensures old(openSet) == map[] && iterationCap > 0 ==>
        passes == 1 && !seeking && phase == Finished
        && owner.events == old(owner.events) + [owner.FailureEvent(endPosition)]
    {
      var running;
      passes, running := Batch();
      if running {
        phase := if seeking then Suspended else Finished;
      }
    }

    /** The batch of up to `iterationCap` passes. It ends early when a pass ends the search or starts
        it over (`running` is then false); otherwise the search is still parked at its yield. */
    method Batch() returns (passes: nat, running: bool)
      requires Registered() && Searching() && phase == Suspended
      modifies this`seeking, this`phase, this`startNode, this`endNode, this`openSet, this`closedSet
      modifies owner`events, nav`watched
      ensures running ==> phase == Suspended && Searching()
      ensures !running ==> passes > 0 && (phase == Finished || (phase == Suspended && seeking && Searching()))
      ensures !running && phase == Suspended ==> closedSet == []
      ensures iterationCap > 0 ==> 1 <= passes <= iterationCap
      ensures running && iterationCap > 0 ==> passes == iterationCap
      ensures iterationCap <= 0 ==>
        && passes == 0 && running && seeking == old(seeking)
        && openSet == old(openSet) && closedSet == old(closedSet) && owner.events == old(owner.events)
      ensures old(openSet) == map[] && iterationCap > 0 ==>
        && !running && passes == 1 && !seeking && phase == Finished
        && owner.events == old(owner.events) + [owner.FailureEvent(endPosition)]
    {
      passes := 0;
      running := true;
      while running && passes < iterationCap
        invariant 0 <= passes && (if iterationCap > 0 then passes <= iterationCap else passes == 0)
        invariant Registered()
        invariant running ==> phase == Suspended && Searching()
        invariant !running ==> passes > 0 && (phase == Finished || (phase == Suspended && seeking && Searching()))
        invariant !running && phase == Suspended ==> closedSet == []
        invariant passes == 0 ==>
          && running && seeking == old(seeking) && openSet == old(openSet) && closedSet == old(closedSet)
          && owner.events == old(owner.events)
        invariant old(openSet) == map[] && passes > 0 ==>
          && !running && passes == 1 && !seeking && phase == Finished
          && owner.events == old(owner.events) + [owner.FailureEvent(endPosition)]
        decreases iterationCap - passes
      {
        running := Pass();
        passes := passes + 1;
      }
    }

    /** One resumption with the flag looked at first, as the loop's condition evidently intends: a
        search stopped while parked ends at once, without another pass and without any event. */
    method Resume() returns (passes: nat)
      requires Registered() && Searching() && phase == Suspended
      modifies this`seeking, this`phase, this`startNode, this`endNode, this`openSet, this`closedSet
      modifies owner`events, nav`watched
      ensures phase == Suspended || phase == Finished
      ensures phase == Suspended ==> seeking && Searching()
      ensures !old(seeking) ==>
        && passes == 0 && phase == Finished && !seeking
        && openSet == old(openSet) && closedSet == old(closedSet)
        && owner.events == old(owner.events) && nav.watched == old(nav.watched)
      ensures old(seeking) && iterationCap > 0 ==> 1 <= passes <= iterationCap
      ensures old(seeking) && old(openSet) == map[] && iterationCap > 0 ==>
        passes == 1 && !seeking && phase == Finished
        && owner.events == old(owner.events) + [owner.FailureEvent(endPosition)]
    {
      if !seeking {
        phase := Finished;
        return 0;
      }
      passes := Tick();
    }
  }

  /** A registry of two unconnected waypoints. */
  method Unconnected() returns (a: Waypoint, b: Waypoint, nav: Registry.Navigation)
    ensures fresh(a) && fresh(b) && fresh(nav) && a != b
    ensures nav.waypoints == [a, b] && Lists.Distinct(nav.waypoints) && nav.seekerIterationCap == 10
    ensures Closed({a, b})
  {
    a := new Waypoint(Vec3(0.0, 0.0, 0.0));
    b := new Waypoint(Vec3(10.0, 0.0, 0.0));
    var log := new DisableLog();
    nav := new Registry.Navigation([a, b], log);
  }

  /** A search parked at its yield with nothing left to try: two unconnected waypoints, one nearest
      each position, and an empty open set. */
  method Parked() returns (s: Seeker)
    ensures fresh(s) && fresh(s.owner) && fresh(s.nav)
    ensures s.Registered() && s.Searching() && s.phase == Suspended && s.seeking
    ensures s.openSet == map[] && s.iterationCap == 10 && s.owner.events == []
    ensures Lists.Distinct(s.nav.waypoints)
  {
    var a, b, nav := Unconnected();
    var owner := new Navigator(Vec3(0.0, 0.0, 0.0), false, (u, v) => u == v, (u, v) => false, (h, c) => 1.0);
    s := new Seeker(a.position, b.position, owner, nav, {a, b});
    s.seeking, s.phase, s.startNode, s.endNode := true, Suspended, a, b;
  }

  /** A waypoint registered and connected to the graph while the search is parked joins the graph the
      search runs over, and the next resumption runs as it would have: its one pass finds the open set
      empty and fails. */
  method RegisterBetweenTicks() returns (passes: nat, events: seq<PathEvent>)
    ensures passes == 1 && |events| == 1 && events[0].IsFailure()
  {
    var s := Parked();
    var w := new Waypoint(Vec3(5.0, 0.0, 0.0));
    var link := new Connection(w, s.startNode);
    var r := s.nav.RegisterWaypoint(w);
    s.Grow({w});
    passes := s.Tick();
    events := s.owner.events;
  }

  /** As written, stopping a parked search does not prevent its next batch: the pass still runs and the
      requester, which asked for the stop, still receives a failure event. */
  method StopCounterexample() returns (passes: nat, events: seq<PathEvent>)
    ensures passes == 1 && |events| == 1 && events[0].IsFailure()
  {
    var s := Parked();
    s.Stop();
    passes := s.Tick();
    events := s.owner.events;
  }

  /** With the flag looked at on resumption, the stopped search runs no pass and raises nothing. */
  method StopHonoured() returns (passes: nat, events: seq<PathEvent>)
    ensures passes == 0 && events == []
  {
    var s := Parked();
    s.Stop();
    passes := s.Resume();
    events := s.owner.events;
  }
}
