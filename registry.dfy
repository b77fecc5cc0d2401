/** The graph registry (Source/Navigation.cs): the list of known waypoints, in registration order,
    the per-tick iteration cap for searches, and the nearest-node query. The engine keeps one registry
    reachable from everywhere; here it is an explicitly constructed object. */
module Registry {
  import opened Geometry
  import opened Lists
  import opened Graph
  import Paths

  /** The non-null entries of `s`, in order. */
  function NonNull(s: seq<Waypoint?>): (r: seq<Waypoint?>)
    ensures null !in r
    ensures forall w :: w in r ==> w in s
    ensures forall w :: w in s && w != null ==> w in r
    ensures |r| <= |s|
  {
    if s == [] then []
    else NonNull(s[..|s| - 1]) + (if s[|s| - 1] == null then [] else [s[|s| - 1]])
  }

  /** Pruning distributes over concatenation: the entries that remain keep their relative order. */
  lemma {:induction false} NonNullAppend(a: seq<Waypoint?>, b: seq<Waypoint?>)
    ensures NonNull(a + b) == NonNull(a) + NonNull(b)
  {
    if b == [] {
      assert a + b == a;
    } else {
      assert (a + b)[..|a + b| - 1] == a + b[..|b| - 1];
      NonNullAppend(a, b[..|b| - 1]);
    }
  }

  /** A list without nulls is left as it is by pruning. */
  lemma {:induction false} NonNullNoop(s: seq<Waypoint?>)
    requires null !in s
    ensures NonNull(s) == s
  {
    if s != [] {
      assert s[..|s| - 1] + [s[|s| - 1]] == s;
      NonNullNoop(s[..|s| - 1]);
    }
  }

  /** One more entry of `s` seen by the pruning loop of `Awake`, which has pruned the first `m` entries
      of `s` into `current` and is looking at index `i`. */
  lemma PruneStep(s: seq<Waypoint?>, m: nat, current: seq<Waypoint?>, i: nat)
    requires m < |s| && current == NonNull(s[..m]) + s[m..] && i == |NonNull(s[..m])|
    ensures i < |current| && current[i] == s[m]
    ensures NonNull(s[..m + 1]) == NonNull(s[..m]) + (if s[m] == null then [] else [s[m]])
    ensures current[..i] + current[i + 1..] == NonNull(s[..m]) + s[m + 1..]
    ensures current == NonNull(s[..m]) + [s[m]] + s[m + 1..]
  {
    assert s[..m + 1][..m] == s[..m];
    Split(NonNull(s[..m]), s[m..]);
    assert s[m..][1..] == s[m + 1..];
  }

  /** The connection lists of `ws`, position by position. */
  ghost function Snapshot(ws: seq<Waypoint?>): (r: seq<seq<Connection>>)
    requires null !in ws
    reads set w: Waypoint | w in ws
    ensures |r| == |ws|
    ensures forall k :: 0 <= k < |ws| ==> r[k] == ws[k].connections
  {
    if ws == [] then [] else Snapshot(ws[..|ws| - 1]) + [ws[|ws| - 1].connections]
  }

  class Navigation {
    /** The registered waypoints; entries of destroyed waypoints read as null until pruned. */
    var waypoints: seq<Waypoint?>
    var seekerIterationCap: int
    /** Every path handed to the invalidation registry, oldest first. */
    var watched: seq<Paths.Path>
    /** Where disabled connections are reported. */
    const log: DisableLog

    /** No null entry, no waypoint twice, and every waypoint well formed. */
    ghost predicate Valid()
      reads this, set w: Waypoint | w in waypoints
    {
      && null !in waypoints
      && Distinct(waypoints)
      && forall w :: w in waypoints ==> w.Valid()
    }

    /** A registry holding the waypoints it was saved with; the iteration cap defaults to 10. */
    constructor (saved: seq<Waypoint?>, log: DisableLog)
      ensures waypoints == saved && seekerIterationCap == 10 && watched == [] && this.log == log
    {
      waypoints, seekerIterationCap, watched, this.log := saved, 10, [], log;
    }

    /** Drops the null entries in place, keeping the others in order. */
    method Awake()
      modifies this`waypoints
      ensures waypoints == NonNull(old(waypoints))
      ensures null !in waypoints
    {
      var i := 0;
      ghost var m := 0;
      while i < |waypoints|
        invariant 0 <= m <= |old(waypoints)|
        invariant waypoints == NonNull(old(waypoints)[..m]) + old(waypoints)[m..]
        invariant i == |NonNull(old(waypoints)[..m])|
        decreases |waypoints| - i
      {
        PruneStep(old(waypoints), m, waypoints, i);
        if waypoints[i] == null {
          waypoints := waypoints[..i] + waypoints[i + 1..];
        } else {
          i := i + 1;
        }
        m := m + 1;
      }
      assert old(waypoints)[..m] == old(waypoints);
    }

    /** Appends `waypoint` unless it is already registered; the argument is handed back. */
    method RegisterWaypoint(waypoint: Waypoint?) returns (r: Waypoint?)
      requires Distinct(waypoints)
      modifies this`waypoints
      ensures r == waypoint
      ensures Distinct(waypoints) && waypoint in waypoints
      ensures waypoints == if waypoint in old(waypoints) then old(waypoints) else old(waypoints) + [waypoint]
    {
      if waypoint !in waypoints {
        AppendDistinct(waypoints, waypoint);
        waypoints := waypoints + [waypoint];
      }
      r := waypoint;
    }

    /** Unregistering through the engine's static entry point: without a registry
        (`navigation == null`) nothing happens; the argument is handed back. */
    static method UnregisterWaypoint(navigation: Navigation?, waypoint: Waypoint) returns (r: Waypoint)
      requires navigation != null ==> navigation.Valid()
      modifies if navigation == null then {} else {navigation, navigation.log}
      modifies if navigation == null then {} else set w: Waypoint | w in navigation.waypoints
      ensures r == waypoint
      ensures navigation != null ==> navigation.Unregistered(old(navigation.waypoints), waypoint)
      ensures waypoint.connections == old(waypoint.connections)
      ensures navigation != null ==> forall w: Waypoint :: w in old(navigation.waypoints) && w != waypoint ==>
                && w.connections == WithoutTarget(old(w.connections), waypoint)
                && forall c :: c in old(w.connections) && c.to == waypoint ==> c in navigation.log.disabled
      ensures navigation != null ==> old(navigation.log.disabled) <= navigation.log.disabled
    {
      r := waypoint;
      if navigation != null {
        navigation.Unregister(waypoint);
      }
    }

    /** Removes `waypoint` from the registry and every connection the remaining waypoints have to it,
        in place and keeping the others in order, reporting each removed connection as disabled. */
    method Unregister(waypoint: Waypoint)
      requires Valid()
      modifies this`waypoints, log`disabled, set w: Waypoint | w in waypoints
      ensures Unregistered(old(waypoints), waypoint)
      ensures waypoint.connections == old(waypoint.connections)
      ensures forall w: Waypoint :: w in old(waypoints) && w != waypoint ==>
                && w.connections == WithoutTarget(old(w.connections), waypoint)
                && forall c :: c in old(w.connections) && c.to == waypoint ==> c in log.disabled
      ensures old(log.disabled) <= log.disabled
    {
      RemoveFirstDistinct(waypoints, waypoint);
      var rest := RemoveFirst(waypoints, waypoint);
      DisconnectAll(rest, waypoint, log);
      waypoints := rest;
    }

    /** The registry after `waypoint` has been unregistered from `before`. */
    ghost predicate Unregistered(before: seq<Waypoint?>, waypoint: Waypoint)
      reads this, set w: Waypoint | w in waypoints
    {
      && waypoints == RemoveFirst(before, waypoint)
      && waypoint !in waypoints
      && null !in waypoints
      && Distinct(waypoints)
      && forall w :: w in waypoints ==> w.Valid() && !w.ConnectsTo(waypoint)
    }

    /** The loop of `UnregisterWaypoint` over the remaining waypoints, in registration order. */
    static method DisconnectAll(ws: seq<Waypoint?>, waypoint: Waypoint, log: DisableLog)
      requires null !in ws && Distinct(ws)
      requires forall w :: w in ws ==> w.Valid()
      modifies (set w: Waypoint | w in ws), log`disabled
      ensures forall w :: w in ws ==> w.Valid() && !w.ConnectsTo(waypoint)
      ensures forall w :: w in ws ==> w.connections == WithoutTarget(old(w.connections), waypoint)
      ensures forall w :: w in ws ==>
                forall c :: c in old(w.connections) && c.to == waypoint ==> c in log.disabled
      ensures old(log.disabled) <= log.disabled
    {
      ghost var before := Snapshot(ws);
      var i := 0;
      while i < |ws|
        invariant 0 <= i <= |ws|
        invariant forall w :: w in ws ==> w.Valid()
        invariant forall k :: 0 <= k < i ==> ws[k].connections == WithoutTarget(before[k], waypoint)
        invariant forall k :: i <= k < |ws| ==> ws[k].connections == before[k]
        invariant forall k, c: Connection :: 0 <= k < i && c in before[k] && c.to == waypoint ==>
          c in log.disabled
        invariant old(log.disabled) <= log.disabled
      {
        var w := ws[i];
        assert forall k :: 0 <= k < |ws| && k != i ==> ws[k] != w;
        w.RemoveConnectionsTo(waypoint, log);
        i := i + 1;
      }
      forall w | w in ws
        ensures w.Valid() && !w.ConnectsTo(waypoint)
        ensures w.connections == WithoutTarget(old(w.connections), waypoint)
        ensures forall c :: c in old(w.connections) && c.to == waypoint ==> c in log.disabled
      {
        var k :| 0 <= k < |ws| && ws[k] == w;
      }
    }

    /** The enabled waypoint nearest to `position` by squared distance, or none when no waypoint is
        enabled. Ties go to the earliest in registration order: a later one replaces the best so far
        only when strictly nearer. */
    method GetNearestNode(position: Vec3) returns (nearest: Waypoint?)
      requires null !in waypoints
      ensures nearest == null <==> forall w :: w in waypoints ==> !w.enabled
      ensures nearest != null ==> nearest in waypoints && nearest.enabled
      ensures nearest != null ==> forall w :: w in waypoints && w.enabled ==>
                SqrDistance(nearest.position, position) <= SqrDistance(w.position, position)
      ensures nearest != null ==>
        exists k :: 0 <= k < |waypoints| && waypoints[k] == nearest && FirstNearest(k, position)
    {
      nearest := null;
      ghost var at := 0;
      var i := 0;
      while i < |waypoints|
        invariant 0 <= i <= |waypoints|
        invariant nearest == null <==> forall k :: 0 <= k < i ==> !waypoints[k].enabled
        invariant nearest != null ==> 0 <= at < i && waypoints[at] == nearest && nearest.enabled
        invariant nearest != null ==> forall k :: 0 <= k < i && waypoints[k].enabled ==>
                    SqrDistance(nearest.position, position) <= SqrDistance(waypoints[k].position, position)
        invariant nearest != null ==> FirstNearest(at, position)
      {
        var w := waypoints[i];
        if w.enabled && (nearest == null || SqrDistance(nearest.position, position) > SqrDistance(w.position, position)) {
          nearest, at := w, i;
        }
        i := i + 1;
      }
    }

    /** Every enabled waypoint registered before position `k` is strictly farther from `position` than
        the one at `k`. */
    predicate FirstNearest(k: int, position: Vec3)
      requires 0 <= k < |waypoints| && null !in waypoints
      reads this, set w: Waypoint | w in waypoints
    {
      forall j :: 0 <= j < k && waypoints[j].enabled ==>
        SqrDistance(waypoints[j].position, position) > SqrDistance(waypoints[k].position, position)
    }

    /** Hands a delivered path to the invalidation registry. */
    method WatchPath(path: Paths.Path)
      modifies this`watched
      ensures watched == old(watched) + [path]
    {
      watched := watched + [path];
    }
  }
}
