/** The requester of paths (Source/Navigator.cs): its retargeting rule, its per-tag registry of weight
    handlers, and the choice of event raised when a search ends. The message dispatch itself is not
    modelled; the chosen event tags are recorded in order. */
module Requester {
  import opened Geometry
  import opened Lists
  import Graph

  /** The identity of a weight-handler delegate; delegates are compared by identity. */
  type HandlerId = nat

  /** The events a finished search raises on its requester. */
  datatype PathEvent = OnNewPath | OnPathAvailable | OnTargetUnreachable | OnPathUnavailable {
    predicate IsFailure() {
      this == OnTargetUnreachable || this == OnPathUnavailable
    }
  }

  class Navigator {
    /** The requester's own position (its transform). */
    var position: Vec3
    var targetPosition: Vec3
    var pathfoundTargetPosition: Vec3
    var width: real
    var selfTargetOnAwake: bool
    var takeShortcuts: bool
    var weightHandlers: map<string, seq<HandlerId>>
    /** Events raised so far, oldest first. */
    var events: seq<PathEvent>
    /** The engine's approximate position equality (`Vector3 ==`). */
    const samePosition: (Vec3, Vec3) -> bool
    /** The requester's line-of-sight probe: can it move straight from the first point to the second? */
    const directPath: (Vec3, Vec3) -> bool
    /** What invoking a weight handler on a connection returns. */
    const weigh: (HandlerId, Graph.Connection) -> real

    /** No tag lists the same handler twice. */
    ghost predicate Valid()
      reads this
    {
      forall tag :: tag in weightHandlers ==> Distinct(weightHandlers[tag])
    }

    constructor (position: Vec3, takeShortcuts: bool, samePosition: (Vec3, Vec3) -> bool,
                 directPath: (Vec3, Vec3) -> bool, weigh: (HandlerId, Graph.Connection) -> real)
      ensures Valid()
      ensures this.position == position && this.takeShortcuts == takeShortcuts
      ensures this.samePosition == samePosition && this.directPath == directPath && this.weigh == weigh
      ensures targetPosition == Vec3(0.0, 0.0, 0.0) && pathfoundTargetPosition == Vec3(0.0, 0.0, 0.0)
      ensures width == 1.0 && selfTargetOnAwake
      ensures weightHandlers == map[] && events == []
    {
      this.position := position;
      this.takeShortcuts := takeShortcuts;
      this.samePosition := samePosition;
      this.directPath := directPath;
      this.weigh := weigh;
      targetPosition := Vec3(0.0, 0.0, 0.0);
      pathfoundTargetPosition := Vec3(0.0, 0.0, 0.0);
      width := 1.0;
      selfTargetOnAwake := true;
      weightHandlers := map[];
      events := [];
    }

    /** The current position counts as already pathfound; it becomes the target only when asked to. */
    method Awake()
      modifies this`pathfoundTargetPosition, this`targetPosition
      ensures pathfoundTargetPosition == position
      ensures targetPosition == if selfTargetOnAwake then position else old(targetPosition)
    {
      pathfoundTargetPosition := position;
      if selfTargetOnAwake {
        targetPosition := position;
      }
    }

    /** One frame: a search from `position` to `targetPosition` is started (the result is true) exactly
        when the target differs from the last pathfound one, which then becomes the target. */
    method Update() returns (startsSearch: bool)
      modifies this`pathfoundTargetPosition
      ensures startsSearch == !samePosition(targetPosition, old(pathfoundTargetPosition))
      ensures pathfoundTargetPosition ==
        if startsSearch then targetPosition else old(pathfoundTargetPosition)
    {
      startsSearch := !samePosition(targetPosition, pathfoundTargetPosition);
      if startsSearch {
        pathfoundTargetPosition := targetPosition;
      }
    }

    /** A second frame with the target unchanged starts nothing, since a position equals itself. */
    method UpdateTwice() returns (first: bool, second: bool)
      requires forall v :: samePosition(v, v)
      modifies this`pathfoundTargetPosition
      ensures first == !samePosition(targetPosition, old(pathfoundTargetPosition))
      ensures !second
    {
      first := Update();
      second := Update();
    }

    /** Adds `handler` to the list of `tag`, creating the list on first use; other tags are untouched. */
    method RegisterWeightHandler(tag: string, handler: HandlerId)
      requires Valid()
      modifies this`weightHandlers
      ensures Valid()
      ensures weightHandlers.Keys == old(weightHandlers.Keys) + {tag}
      ensures forall t :: t in old(weightHandlers) && t != tag ==> weightHandlers[t] == old(weightHandlers[t])
      ensures WeightHandlers(tag) ==
        if handler in old(WeightHandlers(tag)) then old(WeightHandlers(tag))
        else old(WeightHandlers(tag)) + [handler]
      ensures handler in WeightHandlers(tag)
      ensures multiset(WeightHandlers(tag))[handler] == 1
    {
      if tag in weightHandlers {
        if handler !in weightHandlers[tag] {
          AppendDistinct(weightHandlers[tag], handler);
          weightHandlers := weightHandlers[tag := weightHandlers[tag] + [handler]];
        }
      } else {
        weightHandlers := weightHandlers[tag := [handler]];
      }
      DistinctCountsOnce(WeightHandlers(tag), handler);
    }

    /** The handlers registered for `tag`, in registration order; none for an unknown tag. */
    function WeightHandlers(tag: string): (r: seq<HandlerId>)
      reads this
      ensures tag !in weightHandlers ==> r == []
      ensures Valid() ==> Distinct(r)
      ensures forall h :: h in r <==> tag in weightHandlers && h in weightHandlers[tag]
    {
      if tag in weightHandlers then weightHandlers[tag] else []
    }

    /** The event for a failed search ending at `endPosition`. */
    function FailureEvent(endPosition: Vec3): (e: PathEvent)
      reads this
      ensures e.IsFailure()
      ensures e == OnTargetUnreachable <==> samePosition(endPosition, targetPosition)
    {
      if samePosition(endPosition, targetPosition) then OnTargetUnreachable else OnPathUnavailable
    }

    /** The event for a found path ending at `endPosition`. */
    function ResultEvent(endPosition: Vec3): (e: PathEvent)
      reads this
      ensures !e.IsFailure()
      ensures e == OnNewPath <==> samePosition(endPosition, targetPosition)
    {
      if samePosition(endPosition, targetPosition) then OnNewPath else OnPathAvailable
    }

    /** A search's failure raises its failure event. */
    method OnPathFailed(endPosition: Vec3)
      modifies this`events
      ensures events == old(events) + [FailureEvent(endPosition)]
    {
      events := events + [FailureEvent(endPosition)];
    }

    /** A search's result raises its result event. */
    method OnPathResult(endPosition: Vec3)
      modifies this`events
      ensures events == old(events) + [ResultEvent(endPosition)]
    {
      events := events + [ResultEvent(endPosition)];
    }
  }

  /** Success and failure agree on whether a search concerned the current target. */
  lemma EventsAgree(n: Navigator, endPosition: Vec3)
    ensures n.ResultEvent(endPosition) == OnNewPath <==> n.FailureEvent(endPosition) == OnTargetUnreachable
  {
  }
}
