/**
 * The character controller's hit reports: for each of the three kinds of
 * hit (shape, controller, obstacle) two report buffers, one collecting the
 * current frame's hits and one holding the previous frame's. A hit is kept
 * only while the current buffer has room; at the end of a frame the
 * previous buffers are cleared and the two roles are swapped.
 *
 * The hit payloads of the physics engine are the type parameters `S`, `C`
 * and `O`. The overridable handler and the optional user callback that run
 * on every hit are recorded in `calls`.
 */
module HitReports {
  const MAX_HIT_REPORTS: nat := 8

  /** A report buffer. */
  class HitBuffer<T> {
    var reports: seq<T>

    constructor ()
      ensures reports == []
    {
      reports := [];
    }
  }

  /** The handlers run on a hit: the overridable one, then the user callback if set. */
  datatype HitCall<S, C, O> =
    | ShapeHandler(shape: S) | ShapeCallback(shape: S)
    | ControllerHandler(controller: C) | ControllerCallback(controller: C)
    | ObstacleHandler(obstacle: O) | ObstacleCallback(obstacle: O)

  /** What keeping a hit does to a buffer's contents: append it if there is room, drop it otherwise. */
  function Kept<T>(reports: seq<T>, hit: T): (r: seq<T>)
    ensures |reports| < MAX_HIT_REPORTS ==> r == reports + [hit]
    ensures |reports| >= MAX_HIT_REPORTS ==> r == reports
    ensures |reports| <= MAX_HIT_REPORTS ==> |r| <= MAX_HIT_REPORTS
  {
    if |reports| < MAX_HIT_REPORTS then reports + [hit] else reports
  }

  /** Keeping hits never pushes a buffer past its cap, and keeps every earlier hit in place. */
  lemma {:induction false} KeptAllBounded<T>(reports: seq<T>, hits: seq<T>)
    requires |reports| <= MAX_HIT_REPORTS
    ensures |KeptAll(reports, hits)| <= MAX_HIT_REPORTS
    ensures |KeptAll(reports, hits)| == if |reports| + |hits| <= MAX_HIT_REPORTS then |reports| + |hits| else MAX_HIT_REPORTS
    ensures KeptAll(reports, hits)[..|reports|] == reports
    decreases |hits|
  {
    if hits != [] {
      var next := Kept(reports, hits[0]);
      KeptAllBounded(next, hits[1..]);
      assert KeptAll(next, hits[1..])[..|reports|] == next[..|reports|];
    }
  }

  /** The buffer after keeping each of `hits` in turn. */
  function KeptAll<T>(reports: seq<T>, hits: seq<T>): seq<T>
    decreases |hits|
  {
    if hits == [] then reports else KeptAll(Kept(reports, hits[0]), hits[1..])
  }

  /** Over a frame, the first hits up to the cap are kept, in order, and the rest dropped. */
  lemma {:induction false} KeptAllPrefix<T>(hits: seq<T>)
    ensures KeptAll([], hits) == hits[..if |hits| <= MAX_HIT_REPORTS then |hits| else MAX_HIT_REPORTS]
  {
    KeptPrefixFrom([], hits);
  }

  lemma {:induction false} KeptPrefixFrom<T>(reports: seq<T>, hits: seq<T>)
    requires |reports| <= MAX_HIT_REPORTS
    ensures var n := if |reports| + |hits| <= MAX_HIT_REPORTS then |hits| else MAX_HIT_REPORTS - |reports|;
            KeptAll(reports, hits) == reports + hits[..n]
    decreases |hits|
  {
    if hits != [] {
      var next := Kept(reports, hits[0]);
      KeptPrefixFrom(next, hits[1..]);
      if |reports| < MAX_HIT_REPORTS {
        var n := if |next| + |hits[1..]| <= MAX_HIT_REPORTS then |hits[1..]| else MAX_HIT_REPORTS - |next|;
        assert reports + [hits[0]] + hits[1..][..n] == reports + hits[..n + 1];
      } else {
        assert hits[..0] == [];
      }
    }
  }

  class ControllerHitReport<S, C, O> {
    const shapeHits1: HitBuffer<S>
    const shapeHits2: HitBuffer<S>
    var currentShapeHits: HitBuffer<S>
    var previousShapeHits: HitBuffer<S>

    const controllerHits1: HitBuffer<C>
    const controllerHits2: HitBuffer<C>
    var currentControllerHits: HitBuffer<C>
    var previousControllerHits: HitBuffer<C>

    const obstacleHits1: HitBuffer<O>
    const obstacleHits2: HitBuffer<O>
    var currentObstacleHits: HitBuffer<O>
    var previousObstacleHits: HitBuffer<O>

    /** Which user callbacks are set. */
    var hasShapeCallback: bool
    var hasControllerCallback: bool
    var hasObstacleCallback: bool

    /** Every handler and callback run, in order. */
    var calls: seq<HitCall<S, C, O>>

    ghost function ShapeBuffers(): set<object>
      reads this
    {
      {shapeHits1, shapeHits2}
    }

    ghost function ControllerBuffers(): set<object>
      reads this
    {
      {controllerHits1, controllerHits2}
    }

    ghost function ObstacleBuffers(): set<object>
      reads this
    {
      {obstacleHits1, obstacleHits2}
    }

    /** The six buffers are distinct; each kind's current and previous buffer are its two buffers, one each. */
    ghost predicate Valid()
      reads this, currentShapeHits, currentControllerHits, currentObstacleHits
    {
      shapeHits1 != shapeHits2 && controllerHits1 != controllerHits2 && obstacleHits1 != obstacleHits2
      && ShapeBuffers() !! ControllerBuffers() && ShapeBuffers() !! ObstacleBuffers()
      && ControllerBuffers() !! ObstacleBuffers()
      && ((currentShapeHits == shapeHits1 && previousShapeHits == shapeHits2)
          || (currentShapeHits == shapeHits2 && previousShapeHits == shapeHits1))
      && ((currentControllerHits == controllerHits1 && previousControllerHits == controllerHits2)
          || (currentControllerHits == controllerHits2 && previousControllerHits == controllerHits1))
      && ((currentObstacleHits == obstacleHits1 && previousObstacleHits == obstacleHits2)
          || (currentObstacleHits == obstacleHits2 && previousObstacleHits == obstacleHits1))
      && |currentShapeHits.reports| <= MAX_HIT_REPORTS
      && |currentControllerHits.reports| <= MAX_HIT_REPORTS
      && |currentObstacleHits.reports| <= MAX_HIT_REPORTS
    }

    /** Starts with the first buffer of each kind current, the second previous, all empty. */
    constructor ()
      ensures Valid()
      ensures currentShapeHits == shapeHits1 && previousShapeHits == shapeHits2
      ensures currentControllerHits == controllerHits1 && previousControllerHits == controllerHits2
      ensures currentObstacleHits == obstacleHits1 && previousObstacleHits == obstacleHits2
      ensures shapeHits1.reports == [] && shapeHits2.reports == []
      ensures controllerHits1.reports == [] && controllerHits2.reports == []
      ensures obstacleHits1.reports == [] && obstacleHits2.reports == []
      ensures calls == [] && !hasShapeCallback && !hasControllerCallback && !hasObstacleCallback
    {
      shapeHits1 := new HitBuffer<S>();
      shapeHits2 := new HitBuffer<S>();
      controllerHits1 := new HitBuffer<C>();
      controllerHits2 := new HitBuffer<C>();
      obstacleHits1 := new HitBuffer<O>();
      obstacleHits2 := new HitBuffer<O>();
      currentShapeHits, previousShapeHits := shapeHits1, shapeHits2;
      currentControllerHits, previousControllerHits := controllerHits1, controllerHits2;
      currentObstacleHits, previousObstacleHits := obstacleHits1, obstacleHits2;
      hasShapeCallback, hasControllerCallback, hasObstacleCallback := false, false, false;
      calls := [];
    }

    /** Runs the handlers for a shape hit and keeps the hit in the current shape buffer if it has room. */
    method OnShapeHit(hit: S)
      requires Valid()
      modifies this, currentShapeHits
      ensures Valid()
      ensures currentShapeHits == old(currentShapeHits) && previousShapeHits == old(previousShapeHits)
      ensures currentShapeHits.reports == Kept(old(currentShapeHits.reports), hit)
      ensures previousShapeHits.reports == old(previousShapeHits.reports)
      ensures calls == old(calls) + [ShapeHandler(hit)] + (if hasShapeCallback then [ShapeCallback(hit)] else [])
      ensures currentControllerHits == old(currentControllerHits) && previousControllerHits == old(previousControllerHits)
      ensures currentControllerHits.reports == old(currentControllerHits.reports) && previousControllerHits.reports == old(previousControllerHits.reports)
      ensures currentObstacleHits == old(currentObstacleHits) && previousObstacleHits == old(previousObstacleHits)
      ensures currentObstacleHits.reports == old(currentObstacleHits.reports) && previousObstacleHits.reports == old(previousObstacleHits.reports)
      ensures hasShapeCallback == old(hasShapeCallback)
    {
      calls := calls + [ShapeHandler(hit)];
      if hasShapeCallback {
        calls := calls + [ShapeCallback(hit)];
      }
      if |currentShapeHits.reports| < MAX_HIT_REPORTS {
        currentShapeHits.reports := currentShapeHits.reports + [hit];
      }
    }

    /** Runs the handlers for a controller hit and keeps the hit in the current controller buffer if it has room. */
    method OnControllerHit(hit: C)
      requires Valid()
      modifies this, currentControllerHits
      ensures Valid()
      ensures currentControllerHits == old(currentControllerHits) && previousControllerHits == old(previousControllerHits)
      ensures currentControllerHits.reports == Kept(old(currentControllerHits.reports), hit)
      ensures previousControllerHits.reports == old(previousControllerHits.reports)
      ensures calls == old(calls) + [ControllerHandler(hit)] + (if hasControllerCallback then [ControllerCallback(hit)] else [])
      ensures currentShapeHits == old(currentShapeHits) && previousShapeHits == old(previousShapeHits)
      ensures currentShapeHits.reports == old(currentShapeHits.reports) && previousShapeHits.reports == old(previousShapeHits.reports)
      ensures currentObstacleHits == old(currentObstacleHits) && previousObstacleHits == old(previousObstacleHits)
      ensures currentObstacleHits.reports == old(currentObstacleHits.reports) && previousObstacleHits.reports == old(previousObstacleHits.reports)
      ensures hasControllerCallback == old(hasControllerCallback)
    {
      calls := calls + [ControllerHandler(hit)];
      if hasControllerCallback {
        calls := calls + [ControllerCallback(hit)];
      }
      if |currentControllerHits.reports| < MAX_HIT_REPORTS {
        currentControllerHits.reports := currentControllerHits.reports + [hit];
      }
    }

    /** Runs the handlers for an obstacle hit and keeps the hit in the current obstacle buffer if it has room. */
    method OnObstacleHit(hit: O)
      requires Valid()
      modifies this, currentObstacleHits
      ensures Valid()
      ensures currentObstacleHits == old(currentObstacleHits) && previousObstacleHits == old(previousObstacleHits)
      ensures currentObstacleHits.reports == Kept(old(currentObstacleHits.reports), hit)
      ensures previousObstacleHits.reports == old(previousObstacleHits.reports)
      ensures calls == old(calls) + [ObstacleHandler(hit)] + (if hasObstacleCallback then [ObstacleCallback(hit)] else [])
      ensures currentShapeHits == old(currentShapeHits) && previousShapeHits == old(previousShapeHits)
      ensures currentShapeHits.reports == old(currentShapeHits.reports) && previousShapeHits.reports == old(previousShapeHits.reports)
      ensures currentControllerHits == old(currentControllerHits) && previousControllerHits == old(previousControllerHits)
      ensures currentControllerHits.reports == old(currentControllerHits.reports) && previousControllerHits.reports == old(previousControllerHits.reports)
      ensures hasObstacleCallback == old(hasObstacleCallback)
    {
      calls := calls + [ObstacleHandler(hit)];
      if hasObstacleCallback {
        calls := calls + [ObstacleCallback(hit)];
      }
      if |currentObstacleHits.reports| < MAX_HIT_REPORTS {
        currentObstacleHits.reports := currentObstacleHits.reports + [hit];
      }
    }

    /** The previous frame's shape hits. */
    method GetShapeHitReports() returns (r: seq<S>)
      requires Valid()
      ensures r == previousShapeHits.reports
      ensures r == (if currentShapeHits == shapeHits1 then shapeHits2.reports else shapeHits1.reports)
    {
      r := previousShapeHits.reports;
    }

    /** The previous frame's controller hits. */
    method GetControllerHitReports() returns (r: seq<C>)
      requires Valid()
      ensures r == previousControllerHits.reports
      ensures r == (if currentControllerHits == controllerHits1 then controllerHits2.reports else controllerHits1.reports)
    {
      r := previousControllerHits.reports;
    }

    /** The previous frame's obstacle hits. */
    method GetObstacleHitReports() returns (r: seq<O>)
      requires Valid()
      ensures r == previousObstacleHits.reports
      ensures r == (if currentObstacleHits == obstacleHits1 then obstacleHits2.reports else obstacleHits1.reports)
    {
      r := previousObstacleHits.reports;
    }

    /**
     * Ends a frame: clears the previous buffers and swaps the roles, so the
     * current buffers are empty and the previous ones hold the frame's hits.
     */
    method CleanHitReports()
      requires Valid()
      modifies this, previousShapeHits, previousControllerHits, previousObstacleHits
      ensures Valid()
      ensures currentShapeHits == old(previousShapeHits) && previousShapeHits == old(currentShapeHits)
      ensures currentControllerHits == old(previousControllerHits) && previousControllerHits == old(currentControllerHits)
      ensures currentObstacleHits == old(previousObstacleHits) && previousObstacleHits == old(currentObstacleHits)
      ensures currentShapeHits.reports == [] && previousShapeHits.reports == old(currentShapeHits.reports)
      ensures currentControllerHits.reports == [] && previousControllerHits.reports == old(currentControllerHits.reports)
      ensures currentObstacleHits.reports == [] && previousObstacleHits.reports == old(currentObstacleHits.reports)
      ensures calls == old(calls)
      ensures hasShapeCallback == old(hasShapeCallback) && hasControllerCallback == old(hasControllerCallback)
      ensures hasObstacleCallback == old(hasObstacleCallback)
    {
      ClearPrevious();
      currentShapeHits, previousShapeHits := previousShapeHits, currentShapeHits;
      currentControllerHits, previousControllerHits := previousControllerHits, currentControllerHits;
      currentObstacleHits, previousObstacleHits := previousObstacleHits, currentObstacleHits;
    }

    /** Empties the three previous buffers; the current ones keep their hits. */
    method ClearPrevious()
      requires Valid()
      modifies previousShapeHits, previousControllerHits, previousObstacleHits
      ensures Valid()
      ensures previousShapeHits.reports == [] && previousControllerHits.reports == [] && previousObstacleHits.reports == []
      ensures unchanged(currentShapeHits, currentControllerHits, currentObstacleHits)
    {
      previousShapeHits.reports := [];
      previousControllerHits.reports := [];
      previousObstacleHits.reports := [];
    }
  }
}
