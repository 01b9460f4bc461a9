/*
  The motion-detection ring buffer: three parallel arrays (times, detections, network
  states) written slot by slot at `counter % states`, and a backward scan that decides
  whether anything of interest happened in the last few minutes.

  The buffer's abstract state is the ghost `history` of every observation added since the
  last `Initialise`, oldest first. `Valid` ties each slot to `Expected(history, states, i)`:
  the newest observation whose position is congruent to `i` modulo `states`, or the initial
  contents when there is none. The clock is not read here: `Add` and `InteractionDetected`
  take the current time as a parameter.
*/
module Detection {

  /** What `detections[]` holds in a slot that was never written. */
  const NO_ENTRY: int := -1
  /** The detection value of an observation without motion. */
  const STATIONARY: int := 0
  /** The detection value of an observation with motion. */
  const MOVING: int := 1

  /** The milliseconds in one minute. */
  const MINUTE: int := 60 * 1000

  /** One slot of the three parallel arrays. */
  datatype Observation = Observation(time: int, detection: int, netState: bool)

  /** The contents `initialise` gives every slot. */
  const Initial: Observation := Observation(0, NO_ENTRY, true)

  /** The observation that the `add` call for `motion` and `netState` at `time` stores. */
  function Reading(motion: bool, netState: bool, time: int): (o: Observation)
    ensures o.time == time && o.netState == netState
    ensures o.detection == MOVING <==> motion
    ensures o.detection == STATIONARY <==> !motion
  {
    Observation(time, if motion then MOVING else STATIONARY, netState)
  }

  /**
    The contents of slot `i` once the observations `h` have been added in turn: the
    newest one whose position is congruent to `i` modulo `states`, or `Initial`.
   */
  function Expected(h: seq<Observation>, states: nat, i: nat): Observation
    requires states > 0
  {
    if h == [] then Initial
    else if (|h| - 1) % states == i then h[|h| - 1]
    else Expected(h[..|h| - 1], states, i)
  }

  /** The `k`-th newest observation of `h` (`k == 0` is the last one added). */
  function Recent(h: seq<Observation>, k: nat): Observation
    requires k < |h|
  {
    h[|h| - 1 - k]
  }

  /** How many observations the backward scan can examine: one per slot, at most. */
  function Window(h: seq<Observation>, states: nat): (w: nat)
    ensures w <= |h| && w <= states
    ensures w == |h| || w == states
  {
    if |h| < states then |h| else states
  }

  /**
    An observation that does not by itself count as an interaction: it has a timestamp,
    no motion, and no network connection (or the network state is ignored).
   */
  predicate Quiet(o: Observation, ignoreNetStates: bool) {
    o.time != 0 && o.detection == STATIONARY && (ignoreNetStates || !o.netState)
  }

  /**
    The situation in which `interactionDetected` answers false: among the newest
    `Window` observations there is one older than `limit` such that it and every newer
    one are quiet.
   */
  predicate Settled(h: seq<Observation>, states: nat, limit: int, ignoreNetStates: bool) {
    exists k :: 0 <= k < Window(h, states) && Recent(h, k).time < limit &&
      forall j :: 0 <= j <= k ==> Quiet(Recent(h, j), ignoreNetStates)
  }

  // ---------------------------------------------------------------------------
  // What the slots hold

  /** The `k`-th newest observation, for `k` below `states`, is still in its slot. */
  lemma {:induction false} ExpectedRecent(h: seq<Observation>, states: nat, k: nat)
    requires states > 0 && k < Window(h, states)
    ensures Expected(h, states, (|h| - 1 - k) % states) == Recent(h, k)
    decreases k
  {
    if k > 0 {
      var j := |h| - 1 - k;
      var p := h[..|h| - 1];
      assert (|h| - 1) % states != j % states by {
        ModDistinct(j, |h| - 1, states);
      }
      ExpectedRecent(p, states, k - 1);
      assert |p| - 1 - (k - 1) == j;
      assert Recent(p, k - 1) == p[j] == h[j];
    }
  }

  /** Euclidean division is unique: `q * m + r` with `0 <= r < m` leaves remainder `r`. */
  lemma DivModUnique(x: int, q: int, r: int, m: int)
    requires 0 < m && 0 <= r < m && x == q * m + r
    ensures x % m == r
  {
    var q', r' := x / m, x % m;
    assert q * m - q' * m == (q - q') * m == r' - r;
    assert q - q' >= 1 ==> (q - q') * m >= m;
    assert q - q' <= -1 ==> (q - q') * m <= -m;
  }

  /** Two positions less than `m` apart fall in different slots. */
  lemma ModDistinct(i: nat, j: nat, m: nat)
    requires 0 < m && i < j < i + m
    ensures i % m != j % m
  {
    var q, r := i / m, i % m;
    if r + (j - i) < m {
      DivModUnique(j, q, r + (j - i), m);
    } else {
      assert (q + 1) * m == q * m + m;
      DivModUnique(j, q + 1, r + (j - i) - m, m);
    }
  }

  /** While fewer than `states` observations have been added, slot `i >= |h|` is untouched. */
  lemma {:induction false} ExpectedUnwritten(h: seq<Observation>, states: nat, i: nat)
    requires states > 0 && |h| <= i < states
    ensures Expected(h, states, i) == Initial
    decreases |h|
  {
    if h != [] {
      assert (|h| - 1) % states == |h| - 1;
      ExpectedUnwritten(h[..|h| - 1], states, i);
    }
  }

  /** Adding `o` replaces exactly the slot `|h| % states`. */
  lemma ExpectedAdd(h: seq<Observation>, o: Observation, states: nat, i: nat)
    requires states > 0
    ensures Expected(h + [o], states, i) == if i == |h| % states then o else Expected(h, states, i)
  {
  }

  // ---------------------------------------------------------------------------
  // What the scan answers

  /** With nothing added the scan finds no quiet stretch, so an interaction is reported. */
  lemma NothingRecordedDetects(states: nat, limit: int, ignoreNetStates: bool)
    ensures !Settled([], states, limit, ignoreNetStates)
  {
  }

  /** An observation with motion as the newest entry makes the answer true, whatever came before. */
  lemma MotionDetects(h: seq<Observation>, o: Observation, states: nat, limit: int, ignoreNetStates: bool)
    requires o.detection == MOVING
    ensures !Settled(h + [o], states, limit, ignoreNetStates)
  {
    assert !Quiet(Recent(h + [o], 0), ignoreNetStates);
  }

  /** A quiet newest entry older than the window alone makes the answer false (when `states > 0`). */
  lemma StaleQuietSettles(h: seq<Observation>, o: Observation, states: nat, limit: int, ignoreNetStates: bool)
    requires states > 0 && Quiet(o, ignoreNetStates) && o.time < limit
    ensures Settled(h + [o], states, limit, ignoreNetStates)
  {
    assert Recent(h + [o], 0) == o;
    assert forall j :: 0 <= j <= 0 ==> Quiet(Recent(h + [o], j), ignoreNetStates);
  }

  /**
    Only the newest `states` observations matter: an observation that can no longer
    be examined makes no difference to the answer.
   */
  lemma OldestForgotten(o: Observation, h: seq<Observation>, states: nat, limit: int, ignoreNetStates: bool)
    requires |h| >= states
    ensures Settled([o] + h, states, limit, ignoreNetStates) == Settled(h, states, limit, ignoreNetStates)
  {
    var g := [o] + h;
    assert Window(g, states) == Window(h, states) == states;
    assert forall k :: 0 <= k < states ==> Recent(g, k) == Recent(h, k);
  }

  /**
    A scan that has passed `k` quiet observations, all within the window, and then either
    ran out of observations or met one that is not quiet, has found no settled stretch.
   */
  lemma ScanStopsUnsettled(h: seq<Observation>, states: nat, limit: int, ignoreNetStates: bool, k: nat)
    requires k <= Window(h, states)
    requires forall j :: 0 <= j < k ==> Quiet(Recent(h, j), ignoreNetStates) && Recent(h, j).time >= limit
    requires k == Window(h, states) || !Quiet(Recent(h, k), ignoreNetStates)
    ensures !Settled(h, states, limit, ignoreNetStates)
  {
    forall i | 0 <= i < Window(h, states) && Recent(h, i).time < limit
      ensures exists j :: 0 <= j <= i && !Quiet(Recent(h, j), ignoreNetStates)
    {
      assert i >= k && !Quiet(Recent(h, k), ignoreNetStates);
    }
  }

  // ---------------------------------------------------------------------------
  // The buffer

  class CircularArray {
    var times: array<int>
    var detections: array<int>
    var netStates: array<bool>
    var counter: nat
    const states: nat

    /** Every observation added since the last `Initialise`, oldest first. */
    ghost var history: seq<Observation>

    /** The three array cells of slot `i` as one observation. */
    ghost function Slot(i: nat): Observation
      reads this, times, detections, netStates
      requires i < times.Length && i < detections.Length && i < netStates.Length
    {
      Observation(times[i], detections[i], netStates[i])
    }

    ghost predicate Valid()
      reads this, times, detections, netStates
    {
      && states > 0
      && times.Length == states && detections.Length == states && netStates.Length == states
      && times != detections
      && counter == |history|
      && forall i :: 0 <= i < states ==> Slot(i) == Expected(history, states, i)
    }

    /** `CircularArray(int states)`: the initialised buffer of `states` slots. */
    constructor (states: nat)
      requires states > 0
      ensures Valid() && this.states == states && history == []
      ensures fresh(times) && fresh(detections) && fresh(netStates)
    {
      this.states := states;
      new;
      Initialise();
    }

    /**
      `initialise`: fresh arrays of `states` slots, every slot `Initial`, and `counter`
      back at zero.
     */
    method Initialise()
      requires states > 0
      modifies this
      ensures Valid() && history == [] && counter == 0
      ensures fresh(times) && fresh(detections) && fresh(netStates)
      ensures forall i :: 0 <= i < states ==> Slot(i) == Initial
    {
      counter := 0;
      history := [];
      times := new int[states];
      detections := new int[states];
      netStates := new bool[states];
      for i := 0 to states
        invariant counter == 0 && history == []
        invariant times.Length == states && detections.Length == states && netStates.Length == states
        invariant fresh(times) && fresh(detections) && fresh(netStates) && times != detections
        invariant forall j :: 0 <= j < i ==> times[j] == 0 && detections[j] == NO_ENTRY && netStates[j]
      {
        times[i] := 0;
        detections[i] := NO_ENTRY;
        netStates[i] := true;
      }
    }

    /**
      `add(motion, netState)` with `time` the clock reading: the observation goes into slot
      `counter % states`, every other slot keeps its contents, and `counter` advances.
     */
    method Add(motion: bool, netState: bool, time: int)
      requires Valid()
      modifies this`counter, this`history, times, detections, netStates
      ensures Valid()
      ensures history == old(history) + [Reading(motion, netState, time)]
      ensures counter == old(counter) + 1
      ensures var p := old(counter) % states;
        && times[..] == old(times[..])[p := time]
        && detections[..] == old(detections[..])[p := Reading(motion, netState, time).detection]
        && netStates[..] == old(netStates[..])[p := netState]
    {
      var position := counter % states;
      ghost var o := Reading(motion, netState, time);
      detections[position] := if motion then MOVING else STATIONARY;
      times[position] := time;
      netStates[position] := netState;
      forall i | 0 <= i < states
        ensures Expected(history + [o], states, i) == Slot(i)
      {
        ExpectedAdd(history, o, states, i);
      }
      history := history + [o];
      counter := counter + 1;
    }

    /**
      `interactionDetected(durationMinutes, ignoreNetStates)` with `now` the clock reading:
      false exactly when the newest observations, read back one slot at a time, reach
      one older than `durationMinutes` minutes before `now` with it and all newer ones
      quiet.
     */
    method InteractionDetected(durationMinutes: int, ignoreNetStates: bool, now: int) returns (detected: bool)
      requires Valid()
      ensures detected == !Settled(history, states, now - durationMinutes * MINUTE, ignoreNetStates)
    {
      var earliestTimeLimit := now - durationMinutes * MINUTE;
      var reachedFinalIteration := false;
      var state: int := states;
      var count: int := counter - 1;
      ghost var w := Window(history, states);
      while count >= 0 && state > 0 && !reachedFinalIteration
        invariant 0 <= states - state <= w && count == counter - 1 - (states - state)
        invariant !reachedFinalIteration ==> forall j :: 0 <= j < states - state ==>
          Quiet(Recent(history, j), ignoreNetStates) && Recent(history, j).time >= earliestTimeLimit
        invariant reachedFinalIteration ==>
          && states - state > 0
          && Recent(history, states - state - 1).time < earliestTimeLimit
          && forall j :: 0 <= j < states - state ==> Quiet(Recent(history, j), ignoreNetStates)
      {
        ghost var k := states - state;
        var index := count % states;
        ExpectedRecent(history, states, k);
        assert Slot(index) == Recent(history, k);
        var time := times[index];
        var detection := detections[index];
        var netCapable := netStates[index];
        if time == 0 {
          ScanStopsUnsettled(history, states, earliestTimeLimit, ignoreNetStates, k);
          return true;
        }
        if time < earliestTimeLimit {
          reachedFinalIteration := true;
        }
        if detection != STATIONARY {
          ScanStopsUnsettled(history, states, earliestTimeLimit, ignoreNetStates, k);
          return true;
        }
        if netCapable && !ignoreNetStates {
          ScanStopsUnsettled(history, states, earliestTimeLimit, ignoreNetStates, k);
          return true;
        }
        state := state - 1;
        count := count - 1;
      }
      if reachedFinalIteration {
        ghost var k := states - state - 1;
        assert forall j :: 0 <= j <= k ==> Quiet(Recent(history, j), ignoreNetStates);
      } else {
        ScanStopsUnsettled(history, states, earliestTimeLimit, ignoreNetStates, states - state);
      }
      return !reachedFinalIteration;
    }
  }
}
