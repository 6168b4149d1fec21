/**
 * The presentation clock of the screencast loop: the pair
 * (prev_duration, position) that `main` carries from one frame to the next.
 * Timestamps and positions are natural numbers of nanoseconds, and
 * `position.aligned_with(&delta).add()` is taken to be exact addition.
 */
module PresentationClock {
  import opened Wrappers

  /** A duration or a timestamp, in nanoseconds. */
  type Nanos = nat

  /** The carried-over state: the previous frame's timestamp, if any, and the position. */
  datatype Clock = Clock(prev: Option<Nanos>, position: Nanos)

  /** Before the first frame: no previous timestamp, position zero. */
  const Start: Clock := Clock(None, 0)

  /** `ts - prev` on two `Duration`s panics when `ts < prev`. */
  datatype ClockError = Underflow(prev: Nanos, ts: Nanos)

  /**
   * One frame's clock update: the first frame only records its timestamp;
   * a later frame advances the position by the time elapsed since the
   * previous one, and an earlier timestamp than the previous one aborts.
   */
  function Tick(c: Clock, ts: Nanos): (r: Result<Clock, ClockError>)
    ensures r.Failure? <==> c.prev.Some? && ts < c.prev.value
    ensures r.Failure? ==> r.error == Underflow(c.prev.value, ts)
    ensures r.Success? ==> r.value.prev == Some(ts) && r.value.position >= c.position
    ensures r.Success? && c.prev.None? ==> r.value.position == c.position
    ensures r.Success? && c.prev.Some? ==> r.value.position - c.position == ts - c.prev.value
  {
    match c.prev
    case None => Success(Clock(Some(ts), c.position))
    case Some(p) =>
      if ts < p then Failure(Underflow(p, ts))
      else Success(Clock(Some(ts), c.position + (ts - p)))
  }

  predicate NonDecreasing(s: seq<nat>) {
    forall i, j :: 0 <= i <= j < |s| ==> s[i] <= s[j]
  }

  /**
   * Runs the clock over a sequence of timestamps: the positions handed to
   * the encoder, one per frame, or the index of the first frame whose
   * timestamp underflows.
   */
  function Run(c: Clock, ts: seq<Nanos>): (r: Result<seq<Nanos>, nat>)
    ensures r.Success? ==> |r.value| == |ts|
    ensures r.Failure? ==> r.error < |ts|
    decreases |ts|
  {
    if ts == [] then Success([])
    else
      match Tick(c, ts[0])
      case Failure(_) => Failure(0)
      case Success(next) =>
        match Run(next, ts[1..])
        case Failure(i) => Failure(i + 1)
        case Success(ps) => Success([next.position] + ps)
  }

  /**
   * `Run` on a list with a first timestamp t: it fails at t, or one past
   * where the rest fails; otherwise t's position comes first, then the
   * rest's positions.
   */
  lemma RunCons(c: Clock, t: Nanos, ts: seq<Nanos>)
    ensures Tick(c, t).Failure? ==> Run(c, [t] + ts) == Failure(0)
    ensures Tick(c, t).Success? && Run(Tick(c, t).value, ts).Failure? ==>
      Run(c, [t] + ts) == Failure(Run(Tick(c, t).value, ts).error + 1)
    ensures Tick(c, t).Success? && Run(Tick(c, t).value, ts).Success? ==>
      Run(c, [t] + ts) == Success([Tick(c, t).value.position] + Run(Tick(c, t).value, ts).value)
  {
    assert ([t] + ts)[0] == t && ([t] + ts)[1..] == ts;
  }

  lemma NonDecreasingCons(a: nat, s: seq<nat>)
    ensures NonDecreasing([a] + s) <==> (s == [] || (a <= s[0] && NonDecreasing(s)))
  {
    var t := [a] + s;
    if s != [] && a <= s[0] && NonDecreasing(s) {
      forall i, j | 0 <= i <= j < |t| ensures t[i] <= t[j] {
        if i > 0 { assert t[i] == s[i - 1] && t[j] == s[j - 1]; }
        else if j > 0 { assert t[j] == s[j - 1]; assert s[0] <= s[j - 1]; }
      }
    }
    if NonDecreasing(t) && s != [] {
      assert t[0] <= t[1];
      forall i, j | 0 <= i <= j < |s| ensures s[i] <= s[j] {
        assert s[i] == t[i + 1] && s[j] == t[j + 1];
      }
    }
  }

  /**
   * From a clock that has already seen a timestamp p, the run succeeds
   * exactly when p followed by the timestamps never decreases; each
   * position is then the old position plus the time since p; otherwise the
   * failing frame is the first one earlier than its predecessor.
   */
  lemma {:induction false} RunFrom(c: Clock, ts: seq<Nanos>)
    requires c.prev.Some?
    ensures Run(c, ts).Success? <==> NonDecreasing([c.prev.value] + ts)
    ensures Run(c, ts).Success? ==>
      forall j :: 0 <= j < |ts| ==> Run(c, ts).value[j] == c.position + ts[j] - c.prev.value
    ensures Run(c, ts).Failure? ==>
      var i := Run(c, ts).error;
      ts[i] < ([c.prev.value] + ts)[i] && NonDecreasing([c.prev.value] + ts[..i])
    decreases |ts|
  {
    var p := c.prev.value;
    NonDecreasingCons(p, ts);
    if ts == [] {
      return;
    }
    if ts[0] < p {
      assert [p] + ts[..0] == [p];
      return;
    }
    var next := Clock(Some(ts[0]), c.position + (ts[0] - p));
    assert Tick(c, ts[0]) == Success(next);
    RunFrom(next, ts[1..]);
    NonDecreasingCons(ts[0], ts[1..]);
    assert [ts[0]] + ts[1..] == ts;
    match Run(next, ts[1..])
    case Success(ps) => {
      assert Run(c, ts) == Success([next.position] + ps);
    }
    case Failure(i) => {
      assert Run(c, ts) == Failure(i + 1);
      assert [ts[0]] + ts[1..][..i] == ts[..i + 1];
      NonDecreasingCons(p, ts[..i + 1]);
    }
  }

  /**
   * From the start: the run succeeds exactly when the timestamps never
   * decrease, frame j is then encoded at ts[j] - ts[0], and a failure names
   * the first frame whose timestamp is below its predecessor's.
   */
  lemma {:induction false} RunFromStart(ts: seq<Nanos>)
    ensures Run(Start, ts).Success? <==> NonDecreasing(ts)
    ensures Run(Start, ts).Success? ==>
      forall j :: 0 <= j < |ts| ==> Run(Start, ts).value[j] == ts[j] - ts[0]
    ensures Run(Start, ts).Failure? ==>
      var i := Run(Start, ts).error;
      0 < i && ts[i] < ts[i - 1] && NonDecreasing(ts[..i])
  {
    if ts == [] {
      return;
    }
    var first := Clock(Some(ts[0]), 0);
    assert Tick(Start, ts[0]) == Success(first);
    RunFrom(first, ts[1..]);
    assert [ts[0]] + ts[1..] == ts;
    match Run(first, ts[1..])
    case Success(ps) => {
      assert Run(Start, ts) == Success([0] + ps);
    }
    case Failure(i) => {
      assert Run(Start, ts) == Failure(i + 1);
      assert [ts[0]] + ts[1..][..i] == ts[..i + 1];
    }
  }

  /**
   * The positions of a run never decrease, the first is zero whatever its
   * timestamp, and two frames with the same timestamp share a position.
   */
  lemma PositionsMonotone(ts: seq<Nanos>)
    requires Run(Start, ts).Success?
    ensures var ps := Run(Start, ts).value;
      NonDecreasing(ps) &&
      (ps != [] ==> ps[0] == 0) &&
      forall j :: 0 < j < |ts| && ts[j - 1] == ts[j] ==> ps[j - 1] == ps[j]
  {
    RunFromStart(ts);
  }

  /** Frames timestamped 0, 41.7 ms and 83.3 ms are encoded at exactly those offsets. */
  lemma EvenStream()
    ensures Run(Start, [0, 41_700_000, 83_300_000]) == Success([0, 41_700_000, 83_300_000])
  {
    var ts: seq<Nanos> := [0, 41_700_000, 83_300_000];
    assert NonDecreasing(ts);
    RunFromStart(ts);
    var ps := Run(Start, ts).value;
    assert |ps| == 3 && ps[0] == 0 && ps[1] == 41_700_000 && ps[2] == 83_300_000;
    assert ps == ts;
  }

  /** A third frame stamped 20 ms after one stamped 33 ms aborts the loop at that frame. */
  lemma OutOfOrderStream()
    ensures Run(Start, [0, 33_000_000, 20_000_000]) == Failure(2)
  {
  }

  /** A single frame is encoded at position zero, whatever its timestamp. */
  lemma SingleFrame(t: Nanos)
    ensures Run(Start, [t]) == Success([0])
  {
    assert NonDecreasing([t]);
    RunFromStart([t]);
    var ps := Run(Start, [t]).value;
    assert |ps| == 1 && ps[0] == 0;
    assert ps == [0];
  }
}
