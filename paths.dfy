/** A pathfinding result (Source/Path.cs): the connections to follow, or a single node, between a start
    and an end position. Shortcut trimming, arrival and the validity check change or read it in place. */
module Paths {
  import opened Outcomes
  import opened Geometry
  import opened Graph
  import opened Frontier
  import opened Requester

  /** The position of the first connection of `s` that leads to `w`, if there is one. */
  function FirstTo(s: seq<Connection>, w: Waypoint): (r: Option<nat>)
    ensures r.None? <==> !AnyTo(s, w)
    ensures r.Some? ==> r.value < |s| && s[r.value].to == w && !AnyTo(s[..r.value], w)
  {
    if s == [] then None
    else if s[0].to == w then Some(0)
    else match FirstTo(s[1..], w)
      case None => None
      case Some(i) =>
        assert s[..i + 1] == [s[0]] + s[1..][..i];
        Some(i + 1)
  }

  /** Any position that holds the first connection to `w` is the one `FirstTo` finds. */
  lemma FirstToUnique(s: seq<Connection>, w: Waypoint, i: nat)
    requires i < |s| && s[i].to == w && !AnyTo(s[..i], w)
    ensures FirstTo(s, w) == Some(i)
  {
  }

  /** The connections still ahead after arriving at `w`: everything up to and including the first
      connection leading to `w` is dropped; nothing is dropped when no connection leads to `w`. */
  function AfterArrival(s: seq<Connection>, w: Waypoint): (r: seq<Connection>)
    ensures !AnyTo(s, w) ==> r == s
    ensures AnyTo(s, w) ==>
      && |r| < |s| && r == s[|s| - |r|..]
      && s[|s| - |r| - 1].to == w && !AnyTo(s[..|s| - |r| - 1], w)
  {
    match FirstTo(s, w)
    case None => s
    case Some(i) => s[i + 1..]
  }

  /** Arriving along a chain: what is left is still a chain, and it now starts at `w`. */
  lemma ArrivalAdvances(s: seq<Connection>, w: Waypoint)
    requires Chain(s) && AnyTo(s, w)
    ensures Chain(AfterArrival(s, w))
    ensures AfterArrival(s, w) != [] ==> AfterArrival(s, w)[0].from == w
  {
    var r := AfterArrival(s, w);
    var k := |s| - |r|;
    forall i | 0 <= i < |r| - 1 ensures r[i].to == r[i + 1].from {
      assert r[i] == s[k + i] && r[i + 1] == s[k + i + 1];
    }
    if r != [] {
      assert r[0] == s[k];
    }
  }

  /** No two connections of `s` lead to the same node. */
  predicate DistinctTargets(s: seq<Connection>) {
    forall i, j :: 0 <= i < j < |s| ==> s[i].to != s[j].to
  }

  /** When no node is reached twice, arriving at a node a second time changes nothing. */
  lemma ArrivalSettles(s: seq<Connection>, w: Waypoint)
    requires DistinctTargets(s)
    ensures !AnyTo(AfterArrival(s, w), w)
    ensures AfterArrival(AfterArrival(s, w), w) == AfterArrival(s, w)
  {
    var r := AfterArrival(s, w);
    if AnyTo(s, w) {
      var k := |s| - |r|;
      forall i | 0 <= i < |r| ensures r[i].to != w {
        assert r[i] == s[k + i];
      }
    }
  }

  class Path {
    const startPosition: Vec3
    const endPosition: Vec3
    const owner: Navigator
    var segments: seq<Connection>
    /** Set when start and end resolve to the same node: the path is that node alone. */
    var onlyNode: Waypoint?

    /** A path straight from start to end, with no node on it. */
    constructor Direct(startPosition: Vec3, endPosition: Vec3, owner: Navigator)
      ensures this.startPosition == startPosition && this.endPosition == endPosition && this.owner == owner
      ensures segments == [] && onlyNode == null
    {
      this.startPosition, this.endPosition, this.owner := startPosition, endPosition, owner;
      segments, onlyNode := [], null;
    }

    /** A path through one node only. */
    constructor AtNode(startPosition: Vec3, endPosition: Vec3, onlyNode: Waypoint?, owner: Navigator)
      ensures this.startPosition == startPosition && this.endPosition == endPosition && this.owner == owner
      ensures segments == [] && this.onlyNode == onlyNode
    {
      this.startPosition, this.endPosition, this.owner := startPosition, endPosition, owner;
      segments, this.onlyNode := [], onlyNode;
    }

    /** The path a search found: the entry's connections, with shortcuts taken at both ends. */
    constructor FromData(startPosition: Vec3, endPosition: Vec3, data: SeekerData, owner: Navigator)
      ensures this.startPosition == startPosition && this.endPosition == endPosition && this.owner == owner
      ensures onlyNode == null
      ensures Optimized(data.path)
      ensures Chain(data.path) ==> Chain(segments)
    {
      this.startPosition, this.endPosition, this.owner := startPosition, endPosition, owner;
      segments, onlyNode := data.path, null;
      new;
      Optimize();
    }

    /** The start position can reach `w` without the graph: it lies inside `w` or has a clear line to it. */
    predicate ShortcutFromStart(w: Waypoint)
      reads w
    {
      w.Contains(startPosition) || owner.directPath(startPosition, w.position)
    }

    /** `w` can reach the end position without the graph. */
    predicate ShortcutToEnd(w: Waypoint)
      reads w
    {
      w.Contains(endPosition) || owner.directPath(w.position, endPosition)
    }

    /** What trimming did to `original`: nothing when shortcuts are off or there are fewer than two
        connections; otherwise a non-empty contiguous run of `original` is kept. A cut start is reachable
        from the start position and a cut end reaches the end position, and no further cut is possible
        at either end. */
    ghost predicate Optimized(original: seq<Connection>)
      reads this, owner`takeShortcuts, set c | c in original :: c.from, set c | c in original :: c.to
      reads set c | c in segments :: c.from, set c | c in segments :: c.to
    {
      if !owner.takeShortcuts || |original| < 2 then segments == original
      else
        && (exists lo, hi :: 0 <= lo < hi <= |original| && segments == original[lo..hi]
              && (lo == 0 || ShortcutFromStart(original[lo].from))
              && (hi == |original| || ShortcutToEnd(original[hi - 1].to)))
        && (forall j :: 1 <= j < |segments| - 1 ==> !ShortcutFromStart(segments[j].from))
        && (forall j :: 0 <= j < |segments| - 1 ==> !ShortcutToEnd(segments[j].to))
    }

    /** Shortcut trimming; the end is trimmed by the corrected test (see `TrimEnd`). */
    method Optimize()
      modifies this`segments
      ensures Optimized(old(segments))
      ensures Chain(old(segments)) ==> Chain(segments)
    {
      if !owner.takeShortcuts || |segments| < 2 {
        return;
      }
      ghost var original := segments;
      ghost var lo := TrimStart();
      ghost var middle := segments;
      ghost var hi := TrimEnd();
      assert segments == original[lo..lo + hi] by {
        assert middle == original[lo..];
        assert segments == middle[..hi];
      }
      assert lo == 0 || ShortcutFromStart(original[lo].from);
      assert lo + hi == |original| || ShortcutToEnd(original[lo + hi - 1].to) by {
        if lo + hi < |original| {
          assert hi < |middle| && segments[hi - 1] == original[lo + hi - 1];
        }
      }
      forall j | 1 <= j < |segments| - 1 ensures !ShortcutFromStart(segments[j].from) {
        assert segments[j] == middle[j];
      }
    }

    /** Cuts the path to start at the last intermediate node reachable straight from the start position
        (`lo` is how many connections were dropped). At least two connections remain. */
    method TrimStart() returns (ghost lo: nat)
      requires |segments| >= 2
      modifies this`segments
      ensures |segments| >= 2 && lo + |segments| == |old(segments)|
      ensures segments == old(segments)[lo..]
      ensures lo == 0 || ShortcutFromStart(segments[0].from)
      ensures forall j :: 1 <= j < |segments| - 1 ==> !ShortcutFromStart(segments[j].from)
      ensures Chain(old(segments)) ==> Chain(segments)
    {
      lo := 0;
      var i := 1;
      while i < |segments| - 1
        invariant 1 <= i <= |segments| - 1
        invariant lo + |segments| == |old(segments)| && segments == old(segments)[lo..]
        invariant lo == 0 || ShortcutFromStart(segments[0].from)
        invariant forall j :: 1 <= j < i ==> !ShortcutFromStart(segments[j].from)
        invariant Chain(old(segments)) ==> Chain(segments)
        decreases |segments|, |segments| - i
      {
        if ShortcutFromStart(segments[i].from) {
          segments := segments[i..];
          lo := lo + i;
          i := 1;
        } else {
          i := i + 1;
        }
      }
    }

    /** The end trimming as the source writes it: it tests where connection `i` ends but keeps the
        connections before `i`, so the path then ends where connection `i` starts. */
    method TrimEndAsWritten() returns (ghost hi: nat)
      requires |segments| >= 1
      modifies this`segments
      ensures 1 <= hi == |segments| <= |old(segments)| && segments == old(segments)[..hi]
      ensures hi == |old(segments)| || ShortcutToEnd(old(segments)[hi].to)
      ensures forall j :: 1 <= j < |segments| ==> !ShortcutToEnd(segments[j].to)
    {
      var i := |segments| - 1;
      while i > 0
        invariant 0 <= i < |segments| <= |old(segments)| && segments == old(segments)[..|segments|]
        invariant |segments| == |old(segments)| || ShortcutToEnd(old(segments)[|segments|].to)
        invariant forall j :: i < j < |segments| ==> !ShortcutToEnd(segments[j].to)
        decreases i
      {
        if ShortcutToEnd(segments[i].to) {
          segments := segments[..i];
          i := |segments| - 1;
        } else {
          i := i - 1;
        }
      }
      hi := |segments|;
    }

    /** The end trimming corrected: it cuts after connection `i - 1` when the node that connection leads
        to (where the trimmed path then ends) reaches the end position, so a trimmed path always ends at
        a node that reaches the end position. */
    method TrimEnd() returns (ghost hi: nat)
      requires |segments| >= 1
      modifies this`segments
      ensures 1 <= hi == |segments| <= |old(segments)| && segments == old(segments)[..hi]
      ensures hi == |old(segments)| || ShortcutToEnd(segments[hi - 1].to)
      ensures forall j :: 0 <= j < |segments| - 1 ==> !ShortcutToEnd(segments[j].to)
      ensures Chain(old(segments)) ==> Chain(segments)
    {
      var i := |segments| - 1;
      while i > 0
        invariant 0 <= i < |segments| <= |old(segments)| && segments == old(segments)[..|segments|]
        invariant |segments| == |old(segments)| || ShortcutToEnd(segments[|segments| - 1].to)
        invariant forall j :: i <= j < |segments| - 1 ==> !ShortcutToEnd(segments[j].to)
        invariant Chain(old(segments)) ==> Chain(segments)
        decreases i
      {
        if ShortcutToEnd(segments[i - 1].to) {
          segments := segments[..i];
          i := |segments| - 1;
        } else {
          i := i - 1;
        }
      }
      hi := |segments|;
    }

    /** The only node if there is one, else where the first connection starts, else none. */
    function StartNode(): Waypoint?
      reads this
    {
      if onlyNode != null then onlyNode else if segments != [] then segments[0].from else null
    }

    /** The only node if there is one, else where the last connection leads, else none. */
    function EndNode(): Waypoint?
      reads this
    {
      if onlyNode != null then onlyNode else if segments != [] then segments[|segments| - 1].to else null
    }

    /** A path either has both a start and an end node or neither, and it has neither exactly when it
        is a direct path; so the "exactly one node missing" case of `Valid` never arises. */
    lemma NodesTogether()
      ensures (StartNode() == null) == (EndNode() == null)
      ensures StartNode() == null <==> onlyNode == null && segments == []
    {
    }

    /** Whether the path can still be followed: a direct path always can; otherwise both end nodes,
        every connection and every node a connection leads to must be enabled. */
    predicate Valid()
      reads this, onlyNode, segments, set c | c in segments :: c.from, set c | c in segments :: c.to
    {
      if StartNode() == null && EndNode() == null then true
      else if StartNode() == null || EndNode() == null then false
      else StartNode().enabled && EndNode().enabled && forall c :: c in segments ==> c.enabled && c.to.enabled
    }

    /** The validity check, scanning the connections in order. */
    method CheckValid() returns (valid: bool)
      ensures valid == Valid()
    {
      var s, e := StartNode(), EndNode();
      if s == null && e == null {
        return true;
      }
      if s == null || e == null || !s.enabled || !e.enabled {
        return false;
      }
      var i := 0;
      while i < |segments|
        invariant 0 <= i <= |segments|
        invariant forall k :: 0 <= k < i ==> segments[k].enabled && segments[k].to.enabled
      {
        if !segments[i].enabled || !segments[i].to.enabled {
          return false;
        }
        i := i + 1;
      }
      return true;
    }

    /** A direct path stays valid whatever happens to the graph. */
    lemma DirectValid()
      requires onlyNode == null && segments == []
      ensures Valid()
    {
    }

    /** A single-node path is valid exactly while its node is enabled. */
    lemma AtNodeValid()
      requires onlyNode != null && segments == []
      ensures Valid() <==> onlyNode.enabled
    {
    }

    /** Disabling a connection on the path invalidates it. */
    lemma DisabledConnectionInvalidates(c: Connection)
      requires Contains(c) && !c.enabled
      ensures !Valid()
    {
    }

    /** Disabling a node the path leads through, or starts at, invalidates it. */
    lemma DisabledNodeInvalidates(w: Waypoint)
      requires !w.enabled
      requires w == StartNode() || AnyTo(segments, w)
      ensures !Valid()
    {
      if w != StartNode() {
        var i :| 0 <= i < |segments| && segments[i].to == w;
        assert segments[i] in segments;
      }
    }

    /** Whether `c` is one of the path's connections. */
    predicate Contains(c: Connection)
      reads this
      ensures Contains(c) <==> exists i :: 0 <= i < |segments| && segments[i] == c
    {
      c in segments
    }

    /** Whether the path passes `w`. The end node needs no test of its own: it is the only node or the
        last connection's target. */
    method ContainsNode(w: Waypoint?) returns (r: bool)
      ensures r <==> w != null && (w == onlyNode || w == StartNode() || AnyTo(segments, w))
    {
      if w == null {
        return false;
      }
      if w == onlyNode || w == StartNode() || w == EndNode() {
        return true;
      }
      var i := 0;
      while i < |segments|
        invariant 0 <= i <= |segments|
        invariant forall k :: 0 <= k < i ==> segments[k].to != w
      {
        if segments[i].to == w {
          return true;
        }
        i := i + 1;
      }
      return false;
    }

    /** The follower has reached `w`: a single-node path forgets its node; otherwise the connections up
        to and including the first one leading to `w` are dropped. */
    method ArrivedAt(w: Waypoint?)
      modifies this`segments, this`onlyNode
      ensures w == null ==> segments == old(segments) && onlyNode == old(onlyNode)
      ensures w != null && w == old(onlyNode) ==> onlyNode == null && segments == old(segments)
      ensures w != null && w != old(onlyNode) ==>
        onlyNode == old(onlyNode) && segments == AfterArrival(old(segments), w)
    {
      if w == null {
        return;
      }
      if onlyNode != null && w == onlyNode {
        onlyNode := null;
        return;
      }
      var i := 0;
      while i < |segments|
        invariant 0 <= i <= |segments| && segments == old(segments)
        invariant !AnyTo(segments[..i], w)
      {
        if segments[i].to == w {
          FirstToUnique(segments, w, i);
          segments := segments[i + 1..];
          return;
        }
        assert segments[..i + 1] == segments[..i] + [segments[i]];
        i := i + 1;
      }
      assert segments[..i] == segments;
    }
  }

  /** Four nodes ten units apart along the x axis with unit radii, joined A -> B -> C -> D. None of them
      contains the point (35, 0, 0). */
  method Line() returns (a: Waypoint, b: Waypoint, c: Waypoint, d: Waypoint,
                         ab: Connection, bc: Connection, cd: Connection)
    ensures ab.from == a && ab.to == b && bc.from == b && bc.to == c && cd.from == c && cd.to == d
    ensures b.position != d.position && c.position != d.position
    ensures !b.Contains(Vec3(35.0, 0.0, 0.0)) && !c.Contains(Vec3(35.0, 0.0, 0.0))
  {
    a := new Waypoint(Vec3(0.0, 0.0, 0.0));
    b := new Waypoint(Vec3(10.0, 0.0, 0.0));
    c := new Waypoint(Vec3(20.0, 0.0, 0.0));
    d := new Waypoint(Vec3(30.0, 0.0, 0.0));
    ab := new Connection(a, b);
    bc := new Connection(b, c);
    cd := new Connection(c, d);
    Outside(b, Vec3(35.0, 0.0, 0.0));
    Outside(c, Vec3(35.0, 0.0, 0.0));
  }

  /** A point more than a unit further along the x axis is outside a node of unit radius. */
  lemma Outside(w: Waypoint, p: Vec3)
    requires w.Valid() && w.radius == 1.0
    requires w.position.y == p.y && w.position.z == p.z && p.x - w.position.x > 1.0
    ensures !w.Contains(p)
  {
    var d := p.x - w.position.x;
    assert SqrDistance(w.position, p) == d * d;
    w.ContainsWithinRadius(p, d);
  }

  /** On the line A -> B -> C -> D, for a requester with shortcuts on whose line of sight reaches the end
      point (35, 0, 0) only from D, the path a search reports for the connections A -> B -> C -> D,
      before its end is trimmed. */
  method Scenario() returns (p: Path, b: Waypoint, c: Waypoint, d: Waypoint)
    ensures fresh(p) && p.onlyNode == null
    ensures |p.segments| == 3 && p.segments[0].to == b && p.segments[1].to == c && p.segments[2].to == d
    ensures !p.ShortcutToEnd(b) && !p.ShortcutToEnd(c) && p.ShortcutToEnd(d)
  {
    var a, ab, bc, cd;
    a, b, c, d, ab, bc, cd := Line();
    var lookout := d.position;
    var owner := new Navigator(Vec3(0.0, 0.0, 0.0), true, (u: Vec3, v: Vec3) => u == v,
                               (u: Vec3, v: Vec3) => u == lookout, (h: HandlerId, k: Connection) => 1.0);
    p := new Path.Direct(Vec3(0.0, 0.0, 0.0), Vec3(35.0, 0.0, 0.0), owner);
    p.segments := [ab, bc, cd];
  }

  /** The end trimming as written cuts the last connection because D sees the end point, leaving a
      path that ends at C, which neither contains nor sees the end point. */
  method EndTrimCounterexample() returns (p: Path)
    ensures |p.segments| == 2 && p.EndNode() != null && !p.ShortcutToEnd(p.EndNode())
  {
    var b, c, d;
    p, b, c, d := Scenario();
    ghost var before := p.segments;
    var hi := p.TrimEndAsWritten();
    assert hi == 2 && p.segments[1] == before[1];
    assert p.EndNode() == c && !p.ShortcutToEnd(p.EndNode());
  }

  /** The corrected end trimming keeps the path ending at D, which sees the end point. */
  method EndTrimCorrected() returns (p: Path)
    ensures |p.segments| == 3 && p.EndNode() != null && p.ShortcutToEnd(p.EndNode())
  {
    var b, c, d;
    p, b, c, d := Scenario();
    ghost var before := p.segments;
    var hi := p.TrimEnd();
    assert hi == 3 && p.segments[2] == before[2];
    assert p.EndNode() == d && p.ShortcutToEnd(p.EndNode());
  }
}
