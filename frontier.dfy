/** Search frontier entries (Source/SeekerData.cs): an immutable partial path from the start node with
    its accumulated cost (g) and accumulated heuristic (h). */
module Frontier {
  import opened Outcomes
  import opened Graph

  datatype SeekerData = SeekerData(path: seq<Connection>, gScore: real, hScore: real) {

    /** Entries are only ever built by `Start` and `Extend`, so their path is never empty. */
    predicate WellFormed() {
      |path| > 0
    }

    /** The ordering key: g plus h. */
    function FScore(): real {
      gScore + hScore
    }

    /** The connection the entry ends with; the open set keys the entry by it. */
    function LastSegment(): (c: Connection)
      requires WellFormed()
      ensures c in path
    {
      path[|path| - 1]
    }

    /** The node the entry has reached. */
    function Destination(): (w: Waypoint)
      requires WellFormed()
      ensures exists i :: 0 <= i < |path| && path[i].to == w
    {
      LastSegment().to
    }

    /** The connections to try next, in the destination's order. A path of more than one connection
        does not offer the connections straight back to the node it has just left. */
    function Options(): (r: seq<Connection>)
      requires WellFormed()
      reads Destination()
      ensures forall c :: c in r ==> c in Destination().connections
      ensures forall c :: c in Destination().connections ==>
                (c in r <==> |path| == 1 || c.to != LastSegment().from)
      ensures |r| <= |Destination().connections|
    {
      if |path| > 1 then WithoutTarget(Destination().connections, LastSegment().from)
      else Destination().connections
    }

    /** Orders entries by f-score; comparing with something that is not an entry raises. */
    function CompareTo(other: Option<SeekerData>): (r: Result<int>)
      ensures r.Error? <==> other.None?
      ensures other.Some? ==> -1 <= r.value <= 1
      ensures other.Some? ==> (r.value < 0 <==> FScore() < other.value.FScore())
      ensures other.Some? ==> (r.value == 0 <==> FScore() == other.value.FScore())
    {
      match other
      case None => Error("Invalid SeekerData provided for comparison")
      case Some(d) =>
        Ok(if FScore() < d.FScore() then -1 else if FScore() == d.FScore() then 0 else 1)
    }
  }

  /** The entry for a single connection leaving the start node. */
  function Start(c: Connection, g: real, h: real): (d: SeekerData)
    ensures d.WellFormed() && |d.path| == 1
    ensures d.LastSegment() == c && d.Destination() == c.to && d.path[0].from == c.from
    ensures d.gScore == g && d.hScore == h
  {
    SeekerData([c], g, h)
  }

  /** The entry that follows `original` one connection further; the original entry is a value and is
      left as it was. */
  function Extend(original: SeekerData, c: Connection, g: real, h: real): (d: SeekerData)
    requires original.WellFormed()
    ensures d.WellFormed() && |d.path| == |original.path| + 1
    ensures d.path[..|original.path|] == original.path && d.LastSegment() == c
    ensures d.gScore == original.gScore + g && d.hScore == original.hScore + h
  {
    SeekerData(original.path + [c], original.gScore + g, original.hScore + h)
  }

  /** Extending adds the step's cost and heuristic to the f-score. */
  lemma ExtendFScore(original: SeekerData, c: Connection, g: real, h: real)
    requires original.WellFormed()
    ensures Extend(original, c, g, h).FScore() == original.FScore() + g + h
  {
  }

  /** Extending an entry that runs along a chain, by a connection leaving its destination, gives an entry
      that still runs along a chain from the same first node. */
  lemma ExtendChain(original: SeekerData, c: Connection, g: real, h: real)
    requires original.WellFormed() && Chain(original.path)
    requires c.from == original.Destination()
    ensures Chain(Extend(original, c, g, h).path)
    ensures Extend(original, c, g, h).path[0] == original.path[0]
  {
    var p := Extend(original, c, g, h).path;
    forall i | 0 <= i < |p| - 1 ensures p[i].to == p[i + 1].from {
      if i < |original.path| - 1 {
        assert p[i] == original.path[i] && p[i + 1] == original.path[i + 1];
      }
    }
  }

  /** `CompareTo` is a consistent ordering: it is antisymmetric and transitive. */
  lemma CompareToOrders(a: SeekerData, b: SeekerData, c: SeekerData)
    ensures a.CompareTo(Some(b)).value == -b.CompareTo(Some(a)).value
    ensures a.CompareTo(Some(b)).value <= 0 && b.CompareTo(Some(c)).value <= 0 ==> a.CompareTo(Some(c)).value <= 0
  {
  }
}
