/** The navigation graph: waypoints (Source/Waypoint.cs) and the directed connections each of them
    owns (Source/Connection.cs). The two classes refer to each other, so they share this module. */
module Graph {
  import opened Geometry
  import opened Lists

  /** Receiver of the "this connection was disabled" notifications (`Navigation.OnDisable`). What the
      invalidation registry then does is outside this model; every notification is recorded in order. */
  class DisableLog {
    var disabled: seq<Connection>

    constructor ()
      ensures disabled == []
    {
      disabled := [];
    }
  }

  /** A directed edge. `from` and `to` never change after construction. */
  class Connection {
    const from: Waypoint
    const to: Waypoint
    var width: real
    var weight: real
    var tag: string
    var enabled: bool

    /** What the clamping setters keep: a positive width and a nonzero weight. */
    ghost predicate Valid()
      reads this
    {
      width > 0.0 && weight != 0.0
    }

    /** Forms the connection and lists it with `from`, unless `from` already connects to `to`.
        Connecting a node to itself fails the engine's assertion; nulls are excluded by the types. */
    constructor (from: Waypoint, to: Waypoint)
      requires from != to
      requires from.Valid()
      modifies from`connections
      ensures this.from == from && this.to == to
      ensures width == 1.0 && weight == 1.0 && tag == "Untagged" && enabled
      ensures Valid() && from.Valid()
      ensures from.connections ==
        if old(from.ConnectsTo(to)) then old(from.connections) else old(from.connections) + [this]
    {
      this.from := from;
      this.to := to;
      width, weight, tag, enabled := 1.0, 1.0, "Untagged", true;
      new;
      if !from.ConnectsTo(to) {
        var listed := from.AddConnection(this);
      }
    }

    /** Non-positive widths are ignored. */
    method SetWidth(value: real)
      requires Valid()
      modifies this`width
      ensures Valid()
      ensures width == if value > 0.0 then value else old(width)
    {
      width := if value > 0.0 then value else width;
    }

    /** A zero weight is ignored. */
    method SetWeight(value: real)
      requires Valid()
      modifies this`weight
      ensures Valid()
      ensures weight == if value != 0.0 then value else old(weight)
    {
      weight := if value != 0.0 then value else weight;
    }

    method SetTag(value: string)
      modifies this`tag
      ensures tag == value
    {
      tag := value;
    }

    /** Disabling notifies the invalidation registry once; enabling notifies nobody. */
    method SetEnabled(value: bool, log: DisableLog)
      modifies this`enabled, log`disabled
      ensures enabled == value
      ensures log.disabled == if value then old(log.disabled) else old(log.disabled) + [this]
    {
      enabled := value;
      if !enabled {
        log.disabled := log.disabled + [this];
      }
    }

    /** The pathfinding cost before weighting: the squared distance between the endpoints' current
        positions, so it follows the nodes whenever they move. */
    function Cost(): (r: real)
      reads from, to
      ensures r >= 0.0
    {
      SqrMagnitude(Sub(to.position, from.position))
    }
  }

  /** A connection and its reverse cost the same. */
  lemma CostSymmetric(c: Connection, d: Connection)
    requires c.from == d.to && c.to == d.from
    ensures c.Cost() == d.Cost()
  {
    SqrDistanceSymmetric(c.to.position, c.from.position);
  }

  /** A graph node with its own list of outgoing connections. */
  class Waypoint {
    var connections: seq<Connection>
    var radius: real
    var enabled: bool
    var position: Vec3
    var tag: string

    /** A positive radius; a duplicate-free list of connections that all start here. */
    ghost predicate Valid()
      reads this
    {
      && radius > 0.0
      && Distinct(connections)
      && forall c :: c in connections ==> c.from == this
    }

    constructor (position: Vec3)
      ensures Valid()
      ensures this.position == position && connections == [] && radius == 1.0 && enabled
    {
      this.position := position;
      connections, radius, enabled, tag := [], 1.0, true, "Untagged";
    }

    /** Lists `connection` here unless it already is; the argument is handed back. */
    method AddConnection(connection: Connection) returns (r: Connection)
      requires Valid()
      requires connection.from == this
      modifies this`connections
      ensures Valid()
      ensures r == connection
      ensures connections ==
        if connection in old(connections) then old(connections) else old(connections) + [connection]
    {
      if connection !in connections {
        AppendDistinct(connections, connection);
        connections := connections + [connection];
      }
      r := connection;
    }

    /** Drops `connection` from the list and reports it as disabled. */
    method RemoveConnection(connection: Connection, log: DisableLog)
      requires Valid()
      modifies this`connections, log`disabled
      ensures Valid()
      ensures connections == RemoveFirst(old(connections), connection)
      ensures connection !in connections
      ensures forall c :: c in old(connections) && c != connection ==> c in connections
      ensures log.disabled == old(log.disabled) + [connection]
    {
      RemoveFirstDistinct(connections, connection);
      connections := RemoveFirst(connections, connection);
      log.disabled := log.disabled + [connection];
    }

    /** Drops every connection leading to `waypoint`, in place, keeping the others in order; each
        dropped connection is reported as disabled, in list order. */
    method RemoveConnectionsTo(waypoint: Waypoint, log: DisableLog)
      requires Valid()
      modifies this`connections, log`disabled
      ensures Valid()
      ensures connections == WithoutTarget(old(connections), waypoint)
      ensures log.disabled == old(log.disabled) + ToTarget(old(connections), waypoint)
      ensures !ConnectsTo(waypoint)
    {
      var i := 0;
      ghost var m := 0;
      while i < |connections|
        invariant Valid()
        invariant FilterProgress(old(connections), m, waypoint, connections, i, old(log.disabled), log.disabled)
        decreases |connections| - i
      {
        ghost var before, logged := connections, log.disabled;
        ProgressHead(old(connections), m, waypoint, connections, i, old(log.disabled), log.disabled);
        if connections[i].to == waypoint {
          DistinctNotInPrefix(connections, i);
          RemoveFirstAt(connections, i);
          RemoveConnection(connections[i], log);
          ProgressDrop(old(connections), m, waypoint, before, i, old(log.disabled), logged);
        } else {
          ProgressKeep(old(connections), m, waypoint, before, i, old(log.disabled), logged);
          i := i + 1;
        }
        m := m + 1;
      }
      ProgressDone(old(connections), m, waypoint, connections, i, old(log.disabled), log.disabled);
    }

    /** Whether some outgoing connection leads to `waypoint`. */
    predicate ConnectsTo(waypoint: Waypoint?)
      reads this
    {
      AnyTo(connections, waypoint)
    }

    /** Removes all outgoing connections (no notifications are sent). */
    method Disconnect()
      requires Valid()
      modifies this`connections
      ensures Valid()
      ensures connections == []
      ensures forall w: Waypoint :: !ConnectsTo(w)
    {
      connections := [];
    }

    /** Non-positive radii are ignored. */
    method SetRadius(value: real)
      requires Valid()
      modifies this`radius
      ensures Valid()
      ensures radius == if value > 0.0 then value else old(radius)
    {
      radius := if value > 0.0 then value else radius;
    }

    /** Whether `p` lies strictly inside the node's radius. Compared in squares, which is the same
        test as comparing the distance itself because the radius is positive (ContainsWithinRadius). */
    predicate Contains(p: Vec3)
      reads this
    {
      SqrDistance(position, p) < radius * radius
    }

    /** `Contains(p)` holds exactly when the distance `d` from the node to `p` is below the radius. */
    lemma ContainsWithinRadius(p: Vec3, d: real)
      requires Valid()
      requires d >= 0.0 && d * d == SqrDistance(position, p)
      ensures Contains(p) <==> d < radius
    {
      SquareMonotonic(d, radius);
    }
  }

  /** Some connection of `cs` leads to `w` (the `foreach` search of `ConnectsTo` and `Path.Contains`). */
  function AnyTo(cs: seq<Connection>, w: Waypoint?): (r: bool)
    ensures r <==> exists i :: 0 <= i < |cs| && cs[i].to == w
  {
    |cs| > 0 && (cs[0].to == w || AnyTo(cs[1..], w))
  }

  /** The connections of `cs` that do not lead to `w`, in order (`RemoveAll (x => x.To == w)`). */
  function WithoutTarget(cs: seq<Connection>, w: Waypoint?): (r: seq<Connection>)
    ensures forall c :: c in r ==> c in cs && c.to != w
    ensures forall c :: c in cs && c.to != w ==> c in r
    ensures |r| <= |cs|
  {
    if cs == [] then []
    else WithoutTarget(cs[..|cs| - 1], w) + (if cs[|cs| - 1].to == w then [] else [cs[|cs| - 1]])
  }

  /** The connections of `cs` that lead to `w`, in order: those `WithoutTarget` drops. */
  function ToTarget(cs: seq<Connection>, w: Waypoint?): (r: seq<Connection>)
    ensures forall c :: c in r ==> c in cs && c.to == w
    ensures forall c :: c in cs && c.to == w ==> c in r
  {
    if cs == [] then []
    else ToTarget(cs[..|cs| - 1], w) + (if cs[|cs| - 1].to == w then [cs[|cs| - 1]] else [])
  }

  /** One more element of `s` seen by the filters. */
  lemma FilterStep(s: seq<Connection>, m: nat, w: Waypoint?)
    requires m < |s|
    ensures WithoutTarget(s[..m + 1], w) == WithoutTarget(s[..m], w) + (if s[m].to == w then [] else [s[m]])
    ensures ToTarget(s[..m + 1], w) == ToTarget(s[..m], w) + (if s[m].to == w then [s[m]] else [])
  {
    assert s[..m + 1][..m] == s[..m];
  }

  /** Loop state of `RemoveConnectionsTo` after visiting the first `m` of the `original` connections:
      the list is the kept ones followed by the unvisited rest, `i` indexes the first unvisited one, and
      the log has gained the dropped ones. */
  ghost predicate FilterProgress(original: seq<Connection>, m: int, w: Waypoint,
                                 current: seq<Connection>, i: int, log0: seq<Connection>, log: seq<Connection>)
  {
    && 0 <= m <= |original|
    && current == WithoutTarget(original[..m], w) + original[m..]
    && i == |WithoutTarget(original[..m], w)|
    && log == log0 + ToTarget(original[..m], w)
  }

  lemma ProgressHead(original: seq<Connection>, m: int, w: Waypoint,
                     current: seq<Connection>, i: int, log0: seq<Connection>, log: seq<Connection>)
    requires FilterProgress(original, m, w, current, i, log0, log) && i < |current|
    ensures m < |original| && current[i] == original[m]
    ensures current[..i] == WithoutTarget(original[..m], w)
  {
    Split(WithoutTarget(original[..m], w), original[m..]);
  }

  lemma ProgressDrop(original: seq<Connection>, m: int, w: Waypoint,
                     current: seq<Connection>, i: int, log0: seq<Connection>, log: seq<Connection>)
    requires FilterProgress(original, m, w, current, i, log0, log) && i < |current| && current[i].to == w
    ensures FilterProgress(original, m + 1, w, current[..i] + current[i + 1..], i, log0, log + [current[i]])
  {
    var kept := WithoutTarget(original[..m], w);
    Split(kept, original[m..]);
    assert current[i] == original[m];
    FilterStep(original, m, w);
    assert WithoutTarget(original[..m + 1], w) == kept;
    assert ToTarget(original[..m + 1], w) == ToTarget(original[..m], w) + [current[i]];
    assert original[m + 1..] == original[m..][1..];
    assert current[..i] + current[i + 1..] == kept + original[m + 1..];
  }

  lemma ProgressKeep(original: seq<Connection>, m: int, w: Waypoint,
                     current: seq<Connection>, i: int, log0: seq<Connection>, log: seq<Connection>)
    requires FilterProgress(original, m, w, current, i, log0, log) && i < |current| && current[i].to != w
    ensures FilterProgress(original, m + 1, w, current, i + 1, log0, log)
  {
    var kept, kept' := WithoutTarget(original[..m], w), WithoutTarget(original[..m + 1], w);
    Split(kept, original[m..]);
    assert current[i] == original[m];
    FilterStep(original, m, w);
    assert kept' == kept + [original[m]];
    assert ToTarget(original[..m + 1], w) == ToTarget(original[..m], w);
    assert original[m..] == [original[m]] + original[m + 1..];
    assert current == kept' + original[m + 1..];
  }

  lemma ProgressDone(original: seq<Connection>, m: int, w: Waypoint,
                     current: seq<Connection>, i: int, log0: seq<Connection>, log: seq<Connection>)
    requires FilterProgress(original, m, w, current, i, log0, log) && i >= |current|
    ensures current == WithoutTarget(original, w) && log == log0 + ToTarget(original, w)
  {
    assert original[..m] == original;
  }

  /** The pieces of a list made of a kept prefix and an unvisited rest. */
  lemma Split<T>(kept: seq<T>, rest: seq<T>)
    requires |rest| > 0
    ensures (kept + rest)[|kept|] == rest[0]
    ensures (kept + rest)[..|kept|] == kept
    ensures (kept + rest)[|kept| + 1..] == rest[1..]
  {
  }

  lemma DistinctNotInPrefix<T>(s: seq<T>, i: nat)
    requires Distinct(s) && i < |s|
    ensures s[i] !in s[..i]
  {
  }

  /** A list with no connection to `w` is left as it is, so filtering twice equals filtering once. */
  lemma {:induction false} WithoutTargetNoop(cs: seq<Connection>, w: Waypoint?)
    requires !AnyTo(cs, w)
    ensures WithoutTarget(cs, w) == cs
  {
    if cs != [] {
      var init := cs[..|cs| - 1];
      assert !AnyTo(init, w);
      WithoutTargetNoop(init, w);
      assert cs == init + [cs[|cs| - 1]];
    }
  }

  /** Consecutive connections meet: each one starts where the previous one ends. */
  predicate Chain(cs: seq<Connection>) {
    forall i :: 0 <= i < |cs| - 1 ==> cs[i].to == cs[i + 1].from
  }

  /** A set of nodes every one of which is well formed and whose connections stay inside the set. */
  ghost predicate Closed(world: set<Waypoint>)
    reads world
  {
    forall w :: w in world ==> w.Valid() && forall c :: c in w.connections ==> c.to in world
  }
}
