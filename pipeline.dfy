/**
 * The screencast-to-video loop of `main`: for each screencast frame event,
 * in delivery order, decode the base64 JPEG, view it as a
 * (channel, row, column) array and permute it to (row, column, channel),
 * update the presentation clock, encode the frame at the clock's position,
 * then acknowledge the event with its session id; once the event stream
 * ends, finish the encoder.
 *
 * The decoders, the encoder and the acknowledgement are outside the model:
 * an `Env` gives, as total functions, what each of them answers. The
 * method `Record` returns the calls made on the encoder and the transport,
 * in order, and how the loop ended.
 */
module Screencast {
  import opened Wrappers
  import opened PresentationClock
  import opened PixelLayout

  type SessionId = int

  /**
   * A screencast frame: base64 JPEG data, the capture timestamp of its
   * metadata (optional in the protocol), session id.
   */
  datatype Event = Event(data: string, timestamp: Option<Nanos>, session: SessionId)

  /**
   * The timestamp of an event that carries one; an event without one never
   * reaches the clock. The default 0 only shows in `Timestamps`, where it
   * makes the hypothesis of `UnderflowStopsTheLoop`'s first ensures fail for
   * a stream with a missing timestamp after a positive one.
   */
  function Stamp(e: Event): Nanos {
    if e.timestamp.Some? then e.timestamp.value else 0
  }

  /**
   * What the code outside the model answers: base64 decoding, JPEG decoding
   * with conversion to RGB, whether the encoder accepts the k-th frame at a
   * position, whether the k-th acknowledgement goes through, and whether
   * finishing the file succeeds.
   */
  datatype Env = Env(
    base64: string -> Option<seq<byte>>,
    jpeg: seq<byte> -> Option<RgbImage>,
    encodeOk: (nat, Array3, Nanos) -> bool,
    ackOk: (nat, SessionId) -> bool,
    finishOk: bool)

  /** A call made on the encoder or on the page. */
  datatype Action = Encode(frame: Array3, position: Nanos) | Ack(session: SessionId) | Finish

  /** The causes of a panic: an `unwrap`, an `expect` or a `Duration` subtraction that fails. */
  datatype Fault = Base64Invalid | JpegInvalid | TimestampMissing | ClockUnderflow | EncodeRejected | FinishRejected

  /** Normal end, a panic, or the early return of `?` on a failed acknowledgement. */
  datatype Ending = Finished | Panicked(fault: Fault) | AckFailed

  /** How the loop ended, and how many frames it had completed (encoded and acknowledged). */
  datatype Exit = Exit(completed: nat, ending: Ending)

  /** The event stream ended and `finish` was called, whether or not it succeeded. */
  predicate StreamEnded(x: Exit) {
    x.ending == Finished || x.ending == Panicked(FinishRejected)
  }

  /** The number of acknowledgements sent. */
  function Acked(x: Exit): nat {
    x.completed + if x.ending == AckFailed then 1 else 0
  }

  /** The number of frames handed to the encoder. */
  function Encoded(x: Exit): nat {
    Acked(x) + if x.ending == Panicked(EncodeRejected) then 1 else 0
  }

  function Timestamps(evs: seq<Event>): (ts: seq<Nanos>)
    ensures |ts| == |evs| && forall j :: 0 <= j < |evs| ==> ts[j] == Stamp(evs[j])
  {
    seq(|evs|, j requires 0 <= j < |evs| => Stamp(evs[j]))
  }

  /**
   * Base64 decoding, JPEG decoding and the axis permutation of one event:
   * on success a (height, width, 3) frame with as many elements as the
   * decoded image has bytes; otherwise the stage that failed.
   */
  function DecodeFrame(e: Event, env: Env): (r: Result<Array3, Fault>)
    ensures r.Failure? ==> (r.error == Base64Invalid <==> env.base64(e.data).None?)
    ensures r.Failure? ==> r.error == Base64Invalid || r.error == JpegInvalid
    ensures r.Success? <==> env.base64(e.data).Some? && env.jpeg(env.base64(e.data).value).Some?
    ensures r.Success? ==>
      var img := env.jpeg(env.base64(e.data).value).value;
      r.value.WellShaped() && r.value.d0 == img.height && r.value.d1 == img.width &&
      r.value.d2 == 3 && r.value.Len() == |img.raw|
  {
    match env.base64(e.data)
    case None => Failure(Base64Invalid)
    case Some(buffer) =>
      match env.jpeg(buffer)
      case None => Failure(JpegInvalid)
      case Some(image) =>
        FrameOfImage(image);
        Success(PermuteAxes(ChannelMajor(image)))
  }

  /**
   * The frame decoded from an event holds the decoded image's bytes:
   * element (y, x, c) is channel c of the pixel in row y, column x.
   */
  lemma DecodedPixel(e: Event, env: Env, y: nat, x: nat, c: nat)
    requires DecodeFrame(e, env).Success?
    requires var img := env.jpeg(env.base64(e.data).value).value; y < img.height && x < img.width && c < 3
    ensures var img := env.jpeg(env.base64(e.data).value).value;
      var f := DecodeFrame(e, env).value;
      (y * img.width + x) * 3 + c < |img.raw| &&
      y < |f.elems| && x < |f.elems[y]| && c < |f.elems[y][x]| &&
      f.elems[y][x][c] == img.raw[(y * img.width + x) * 3 + c]
  {
    var img := env.jpeg(env.base64(e.data).value).value;
    FramePixel(img, y, x, c);
  }

  /** One event's work: either the frame was acknowledged and the loop goes on, or the loop stops here. */
  datatype Step = Next(frame: Array3, clock: Clock) | Stop(calls: seq<Action>, ending: Ending)

  /**
   * One iteration of the loop on event e, the k-th, with clock c: decode,
   * permute, read the timestamp, tick the clock, encode at the new
   * position, acknowledge. It
   * goes on only when every stage succeeds; when it stops, its calls are
   * the encode (if the clock allowed it) and the acknowledgement (if the
   * encoder accepted the frame), and the stream has not ended.
   */
  function StepOf(c: Clock, e: Event, k: nat, env: Env): (r: Step)
    ensures r.Next? ==>
      DecodeFrame(e, env) == Success(r.frame) && e.timestamp.Some? && Tick(c, Stamp(e)) == Success(r.clock)
    ensures r.Stop? ==> r.ending != Finished && r.ending != Panicked(FinishRejected)
    ensures r.Stop? ==>
      |r.calls| == (if r.ending == AckFailed then 2 else if r.ending == Panicked(EncodeRejected) then 1 else 0)
    ensures r.Stop? && |r.calls| > 0 ==>
      r.calls[0].Encode? && DecodeFrame(e, env) == Success(r.calls[0].frame) && e.timestamp.Some? &&
      Tick(c, Stamp(e)) == Success(Clock(Some(Stamp(e)), r.calls[0].position))
    ensures r.Stop? && |r.calls| == 2 ==> r.calls[1] == Ack(e.session)
  {
    match DecodeFrame(e, env)
    case Failure(fault) => Stop([], Panicked(fault))
    case Success(frame) =>
      match e.timestamp
      case None => Stop([], Panicked(TimestampMissing))
      case Some(ts) =>
        match Tick(c, ts)
        case Failure(_) => Stop([], Panicked(ClockUnderflow))
        case Success(next) =>
          var encode := Encode(frame, next.position);
          if !env.encodeOk(k, frame, next.position) then Stop([encode], Panicked(EncodeRejected))
          else if !env.ackOk(k, e.session) then Stop([encode, Ack(e.session)], AckFailed)
          else Next(frame, next)
  }

  /**
   * Why a step stops: the stage of the event that failed. A step that goes
   * on had its encode and its acknowledgement accepted, so a refused encode
   * (the `expect`) or a failed acknowledgement (the `?`) always stops the loop.
   * The acknowledgement is only tried once the encoder accepted the frame.
   */
  lemma StepFault(c: Clock, e: Event, k: nat, env: Env)
    ensures var r := StepOf(c, e, k, env);
      (r.Next? ==> env.encodeOk(k, r.frame, r.clock.position) && env.ackOk(k, e.session)) &&
      (r.Stop? && r.ending == Panicked(TimestampMissing) ==> DecodeFrame(e, env).Success? && e.timestamp.None?) &&
      (r.Stop? && r.ending == Panicked(ClockUnderflow) ==>
        DecodeFrame(e, env).Success? && e.timestamp.Some? && Tick(c, Stamp(e)).Failure?) &&
      (r.Stop? && r.ending == Panicked(EncodeRejected) ==> !env.encodeOk(k, r.calls[0].frame, r.calls[0].position)) &&
      (r.Stop? && r.ending == AckFailed ==>
        |r.calls| == 2 && r.calls[0].Encode? && env.encodeOk(k, r.calls[0].frame, r.calls[0].position) &&
        !env.ackOk(k, e.session))
  {
  }

  /**
   * The calls made and the exit reached by the loop when it resumes with
   * clock c at the k-th event, evs being the events still to come.
   */
  function From(c: Clock, evs: seq<Event>, k: nat, env: Env): (r: (seq<Action>, Exit))
    ensures k <= r.1.completed <= k + |evs|
    ensures r.1.completed == k + |evs| <==> StreamEnded(r.1)
    decreases |evs|
  {
    if evs == [] then
      ([Finish], Exit(k, if env.finishOk then Finished else Panicked(FinishRejected)))
    else
      match StepOf(c, evs[0], k, env)
      case Stop(calls, ending) => (calls, Exit(k, ending))
      case Next(frame, next) =>
        var rest := From(next, evs[1..], k + 1, env);
        ([Encode(frame, next.position), Ack(evs[0].session)] + rest.0, rest.1)
  }

  lemma FromStops(c: Clock, evs: seq<Event>, k: nat, env: Env)
    requires evs != [] && StepOf(c, evs[0], k, env).Stop?
    ensures var r := StepOf(c, evs[0], k, env); From(c, evs, k, env) == (r.calls, Exit(k, r.ending))
  {
  }

  lemma FromGoesOn(c: Clock, evs: seq<Event>, k: nat, env: Env)
    requires evs != [] && StepOf(c, evs[0], k, env).Next?
    ensures var r := StepOf(c, evs[0], k, env);
      From(c, evs, k, env) ==
      Resume([Encode(r.frame, r.clock.position), Ack(evs[0].session)], From(r.clock, evs[1..], k + 1, env))
  {
  }

  /** The whole run: from the start clock at the first event. */
  function Expected(events: seq<Event>, env: Env): (seq<Action>, Exit) {
    From(Start, events, 0, env)
  }

  function Resume(done: seq<Action>, r: (seq<Action>, Exit)): (seq<Action>, Exit) {
    (done + r.0, r.1)
  }

  /**
   * The body of the loop of `main` for the k-th event, with
   * `prev_duration` and `position` as they stand: decode, permute, read the
   * timestamp, advance the clock, encode, acknowledge.
   */
  method HandleFrame(prevDuration: Option<Nanos>, position: Nanos, item: Event, k: nat, env: Env)
    returns (step: Step)
    ensures step == StepOf(Clock(prevDuration, position), item, k, env)
  {
    var buffer := env.base64(item.data);
    if buffer.None? {
      return Stop([], Panicked(Base64Invalid));
    }
    var image := env.jpeg(buffer.value);
    if image.None? {
      return Stop([], Panicked(JpegInvalid));
    }
    var frame := PermuteAxes(ChannelMajor(image.value));
    assert DecodeFrame(item, env) == Success(frame);
    if item.timestamp.None? {
      return Stop([], Panicked(TimestampMissing));
    }
    var ts := item.timestamp.value;
    var next := position;
    if prevDuration.Some? {
      var prev := prevDuration.value;
      if ts < prev {
        return Stop([], Panicked(ClockUnderflow));
      }
      var delta := ts - prev;
      next := position + delta;
    }
    assert Tick(Clock(prevDuration, position), ts) == Success(Clock(Some(ts), next));
    if !env.encodeOk(k, frame, next) {
      return Stop([Encode(frame, next)], Panicked(EncodeRejected));
    }
    if !env.ackOk(k, item.session) {
      return Stop([Encode(frame, next), Ack(item.session)], AckFailed);
    }
    return Next(frame, Clock(Some(ts), next));
  }

  /**
   * The loop of `main`, with `prev_duration` and `position` as its locals:
   * returns the calls it made on the encoder and the page, and how it ended.
   */
  method Record(events: seq<Event>, env: Env) returns (trace: seq<Action>, exit: Exit)
    ensures (trace, exit) == Expected(events, env)
  {
    var prevDuration: Option<Nanos> := None;
    var position: Nanos := 0;
    trace := [];
    var i := 0;
    assert events[i..] == events;
    assert [] + Expected(events, env).0 == Expected(events, env).0;
    while i < |events|
      invariant i <= |events|
      invariant Expected(events, env) == Resume(trace, From(Clock(prevDuration, position), events[i..], i, env))
    {
      var item := events[i];
      assert events[i..][0] == item && events[i..][1..] == events[i + 1..];
      ghost var clock := Clock(prevDuration, position);
      var step := HandleFrame(prevDuration, position, item, i, env);
      if step.Stop? {
        FromStops(clock, events[i..], i, env);
        return trace + step.calls, Exit(i, step.ending);
      }
      ghost var done := trace;
      var head := [Encode(step.frame, step.clock.position), Ack(item.session)];
      trace := trace + head;
      prevDuration, position := step.clock.prev, step.clock.position;
      FromGoesOn(clock, events[i..], i, env);
      assert done + (head + From(step.clock, events[i + 1..], i + 1, env).0) ==
        (done + head) + From(step.clock, events[i + 1..], i + 1, env).0;
      i := i + 1;
    }
    trace := trace + [Finish];
    exit := Exit(|events|, if env.finishOk then Finished else Panicked(FinishRejected));
  }

  /**
   * How many calls are made from the k-th event on: one encode per frame
   * that reached the encoder, one acknowledgement per frame the encoder
   * accepted, and one `finish` if the stream ended; the stream ends only
   * after every frame was encoded and acknowledged.
   */
  lemma {:induction false} FromCounts(c: Clock, evs: seq<Event>, k: nat, env: Env)
    ensures var (t, x) := From(c, evs, k, env);
      var a := Acked(x) - k;
      var e := Encoded(x) - k;
      0 <= a <= e <= a + 1 && e <= |evs| &&
      |t| == e + a + (if StreamEnded(x) then 1 else 0) &&
      (StreamEnded(x) ==> a == e == |evs|)
    decreases |evs|
  {
    if evs != [] {
      match StepOf(c, evs[0], k, env)
      case Stop(_, _) =>
      case Next(frame, next) =>
        FromCounts(next, evs[1..], k + 1, env);
    }
  }

  /**
   * From the k-th event on, frame j is handed to the encoder at index 2j of
   * the calls, and it is the j-th event's image, decoded and permuted.
   */
  lemma {:induction false} FromEncodeAt(c: Clock, evs: seq<Event>, k: nat, env: Env, j: nat)
    requires j < Encoded(From(c, evs, k, env).1) - k
    ensures var t := From(c, evs, k, env).0;
      j < |evs| && 2 * j < |t| && t[2 * j].Encode? && DecodeFrame(evs[j], env) == Success(t[2 * j].frame) &&
      evs[j].timestamp.Some?
    decreases |evs|
  {
    match StepOf(c, evs[0], k, env)
    case Stop(_, _) =>
    case Next(frame, next) =>
      if j > 0 {
        FromEncodeAt(next, evs[1..], k + 1, env, j - 1);
        var rest := From(next, evs[1..], k + 1, env);
        var t := [Encode(frame, next.position), Ack(evs[0].session)] + rest.0;
        assert From(c, evs, k, env) == (t, rest.1);
        assert t[2 * j] == rest.0[2 * (j - 1)];
        assert evs[j] == evs[1..][j - 1];
      }
  }

  /**
   * From the k-th event on, the call at index 2j + 1 is the acknowledgement
   * of frame j, carrying the j-th event's session id: frames are
   * acknowledged one at a time, in delivery order, each right after its
   * own encode.
   */
  lemma {:induction false} FromAckAt(c: Clock, evs: seq<Event>, k: nat, env: Env, j: nat)
    requires j < Acked(From(c, evs, k, env).1) - k
    ensures var t := From(c, evs, k, env).0;
      j < |evs| && 2 * j + 1 < |t| && t[2 * j + 1] == Ack(evs[j].session)
    decreases |evs|
  {
    match StepOf(c, evs[0], k, env)
    case Stop(_, _) =>
    case Next(frame, next) =>
      if j > 0 {
        FromAckAt(next, evs[1..], k + 1, env, j - 1);
        var rest := From(next, evs[1..], k + 1, env);
        var t := [Encode(frame, next.position), Ack(evs[0].session)] + rest.0;
        assert From(c, evs, k, env) == (t, rest.1);
        assert t[2 * j + 1] == rest.0[2 * (j - 1) + 1];
        assert evs[j] == evs[1..][j - 1];
      }
  }

  /**
   * `finish` is called only when the stream ended, and then as the very
   * last call and only once.
   */
  lemma {:induction false} FromFinish(c: Clock, evs: seq<Event>, k: nat, env: Env)
    ensures var (t, x) := From(c, evs, k, env);
      (Finish in t <==> StreamEnded(x)) &&
      (StreamEnded(x) ==> |t| > 0 && t[|t| - 1] == Finish && Finish !in t[..|t| - 1])
    decreases |evs|
  {
    if evs != [] {
      match StepOf(c, evs[0], k, env)
      case Stop(_, _) =>
      case Next(frame, next) =>
        FromFinish(next, evs[1..], k + 1, env);
        var rest := From(next, evs[1..], k + 1, env);
        var head := [Encode(frame, next.position), Ack(evs[0].session)];
        var t := head + rest.0;
        assert From(c, evs, k, env) == (t, rest.1);
        if StreamEnded(rest.1) {
          assert t[..|t| - 1] == head + rest.0[..|rest.0| - 1];
        }
    }
  }

  /**
   * Once the stream ended, the run ends normally exactly when `finish`
   * succeeds; otherwise its `expect` panics.
   */
  lemma {:induction false} FromFinishOutcome(c: Clock, evs: seq<Event>, k: nat, env: Env)
    ensures var x := From(c, evs, k, env).1;
      StreamEnded(x) ==> (x.ending == Finished <==> env.finishOk)
    decreases |evs|
  {
    if evs != [] {
      match StepOf(c, evs[0], k, env)
      case Stop(_, _) =>
      case Next(frame, next) =>
        FromFinishOutcome(next, evs[1..], k + 1, env);
        var rest := From(next, evs[1..], k + 1, env);
        assert From(c, evs, k, env).1 == rest.1;
    }
  }

  /** The first frame encoded from the k-th event on is at the position its own timestamp gives. */
  lemma FirstPosition(c: Clock, evs: seq<Event>, k: nat, env: Env)
    requires k < Encoded(From(c, evs, k, env).1)
    ensures var t := From(c, evs, k, env).0;
      0 < |evs| && 0 < |t| && t[0].Encode? &&
      Run(c, Timestamps(evs[..1])).Success? &&
      t[0].position == Run(c, Timestamps(evs[..1])).value[0]
  {
    FromEncodeAt(c, evs, k, env, 0);
    var ev := evs[0];
    TimestampsCons(evs, 1);
    assert Timestamps(evs[1..][..0]) == [];
    RunCons(c, Stamp(ev), []);
  }

  /**
   * From the k-th event on, frame j is encoded at the position the
   * presentation clock reaches on the timestamps of events 0..j.
   */
  lemma {:induction false} FromPositionAt(c: Clock, evs: seq<Event>, k: nat, env: Env, j: nat)
    requires j < Encoded(From(c, evs, k, env).1) - k
    ensures var t := From(c, evs, k, env).0;
      j < |evs| && 2 * j < |t| && t[2 * j].Encode? &&
      Run(c, Timestamps(evs[..j + 1])).Success? &&
      t[2 * j].position == Run(c, Timestamps(evs[..j + 1])).value[j]
    decreases |evs|
  {
    if j == 0 {
      FirstPosition(c, evs, k, env);
    } else {
      FromShift(c, evs, k, env, j);
      var next := StepOf(c, evs[0], k, env).clock;
      FromPositionAt(next, evs[1..], k + 1, env, j - 1);
      RunAfterFirst(c, evs, j, next);
    }
  }

  /**
   * Frame j > 0 from the k-th event on is frame j - 1 from the (k+1)-th:
   * the first event's step went on, and its calls come first.
   */
  lemma FromShift(c: Clock, evs: seq<Event>, k: nat, env: Env, j: nat)
    requires 0 < j < Encoded(From(c, evs, k, env).1) - k
    ensures evs != [] && StepOf(c, evs[0], k, env).Next?
    ensures var next := StepOf(c, evs[0], k, env).clock;
      var t := From(c, evs, k, env).0;
      var rest := From(next, evs[1..], k + 1, env);
      j - 1 < Encoded(rest.1) - (k + 1) && 2 * j < |t| &&
      2 * (j - 1) < |rest.0| && t[2 * j] == rest.0[2 * (j - 1)]
  {
    match StepOf(c, evs[0], k, env)
    case Stop(_, _) =>
    case Next(frame, next) =>
      var rest := From(next, evs[1..], k + 1, env);
      var t := [Encode(frame, next.position), Ack(evs[0].session)] + rest.0;
      assert From(c, evs, k, env) == (t, rest.1);
      FromCounts(next, evs[1..], k + 1, env);
  }

  /** After the first event's tick, position j of the run is position j - 1 of the rest's run. */
  lemma RunAfterFirst(c: Clock, evs: seq<Event>, j: nat, next: Clock)
    requires 0 < j < |evs| && Tick(c, Stamp(evs[0])) == Success(next)
    requires Run(next, Timestamps(evs[1..][..j])).Success?
    ensures Run(c, Timestamps(evs[..j + 1])).Success?
    ensures Run(c, Timestamps(evs[..j + 1])).value[j] == Run(next, Timestamps(evs[1..][..j])).value[j - 1]
  {
    TimestampsCons(evs, j + 1);
    RunCons(c, Stamp(evs[0]), Timestamps(evs[1..][..j]));
  }

  /**
   * A clock underflow stops the loop at exactly the frame where the clock
   * run over the timestamps fails.
   */
  lemma {:induction false} FromUnderflow(c: Clock, evs: seq<Event>, k: nat, env: Env)
    requires From(c, evs, k, env).1.ending == Panicked(ClockUnderflow)
    ensures var n := From(c, evs, k, env).1.completed - k;
      0 <= n < |evs| && evs[n].timestamp.Some? && Run(c, Timestamps(evs[..n + 1])) == Failure(n)
    decreases |evs|
  {
    var ev := evs[0];
    match StepOf(c, ev, k, env)
    case Stop(calls, ending) =>
      assert From(c, evs, k, env) == (calls, Exit(k, ending));
      assert ending == Panicked(ClockUnderflow);
      StepFault(c, ev, k, env);
      assert ev.timestamp.Some? && Tick(c, Stamp(ev)).Failure?;
      assert evs[..1] == [ev];
      assert Timestamps([ev]) == [Stamp(ev)] + [];
      RunCons(c, Stamp(ev), []);
    case Next(frame, next) =>
      var rest := From(next, evs[1..], k + 1, env);
      assert From(c, evs, k, env).1 == rest.1;
      FromUnderflow(next, evs[1..], k + 1, env);
      var n := rest.1.completed - (k + 1);
      assert evs[1..][n] == evs[n + 1];
      assert evs[n + 1].timestamp.Some?;
      TimestampsCons(evs, n + 2);
      assert Tick(c, Stamp(ev)) == Success(next);
      RunCons(c, Stamp(ev), Timestamps(evs[1..][..n + 1]));
  }

  /**
   * When the loop panics in decoding, the event it stopped at is the one
   * whose stage failed: its base64, its JPEG, or its missing timestamp.
   */
  lemma {:induction false} FromDecodeStop(c: Clock, evs: seq<Event>, k: nat, env: Env)
    ensures var x := From(c, evs, k, env).1;
      var n := x.completed - k;
      (x.ending == Panicked(Base64Invalid) ==> n < |evs| && env.base64(evs[n].data).None?) &&
      (x.ending == Panicked(JpegInvalid) ==> n < |evs| && DecodeFrame(evs[n], env) == Failure(JpegInvalid)) &&
      (x.ending == Panicked(TimestampMissing) ==>
        n < |evs| && DecodeFrame(evs[n], env).Success? && evs[n].timestamp.None?)
    decreases |evs|
  {
    if evs != [] {
      match StepOf(c, evs[0], k, env)
      case Stop(_, _) =>
        StepFault(c, evs[0], k, env);
      case Next(frame, next) =>
        FromDecodeStop(next, evs[1..], k + 1, env);
        var rest := From(next, evs[1..], k + 1, env);
        assert From(c, evs, k, env).1 == rest.1;
        var n := rest.1.completed - k;
        if n < |evs| && n > 0 {
          assert evs[n] == evs[1..][n - 1];
        }
    }
  }

  /**
   * When the encoder refuses a frame or an acknowledgement fails, it is the
   * frame of the event the loop stopped at, the last call made.
   */
  lemma {:induction false} FromRefusal(c: Clock, evs: seq<Event>, k: nat, env: Env)
    ensures var (t, x) := From(c, evs, k, env);
      var n := x.completed - k;
      (x.ending == Panicked(EncodeRejected) ==>
        n < |evs| && 2 * n < |t| && t[2 * n].Encode? && !env.encodeOk(k + n, t[2 * n].frame, t[2 * n].position)) &&
      (x.ending == AckFailed ==>
        n < |evs| && 2 * n < |t| && t[2 * n].Encode? && env.encodeOk(k + n, t[2 * n].frame, t[2 * n].position) &&
        !env.ackOk(k + n, evs[n].session))
    decreases |evs|
  {
    if evs != [] {
      match StepOf(c, evs[0], k, env)
      case Stop(_, _) =>
        StepFault(c, evs[0], k, env);
      case Next(frame, next) =>
        FromRefusal(next, evs[1..], k + 1, env);
        var rest := From(next, evs[1..], k + 1, env);
        var t := [Encode(frame, next.position), Ack(evs[0].session)] + rest.0;
        assert From(c, evs, k, env) == (t, rest.1);
        var n := rest.1.completed - k;
        if n < |evs| && n > 0 {
          assert evs[n] == evs[1..][n - 1];
          if 2 * n < |t| {
            assert t[2 * n] == rest.0[2 * (n - 1)];
          }
        }
    }
  }

  /**
   * From the k-th event on, every frame that completed was accepted by the
   * encoder at the position it was handed, and its acknowledgement went
   * through.
   */
  lemma {:induction false} FromAccepted(c: Clock, evs: seq<Event>, k: nat, env: Env, j: nat)
    requires j < From(c, evs, k, env).1.completed - k
    ensures var t := From(c, evs, k, env).0;
      j < |evs| && 2 * j + 1 < |t| && t[2 * j].Encode? &&
      env.encodeOk(k + j, t[2 * j].frame, t[2 * j].position) && env.ackOk(k + j, evs[j].session)
    decreases |evs|
  {
    match StepOf(c, evs[0], k, env)
    case Stop(_, _) =>
    case Next(frame, next) =>
      StepFault(c, evs[0], k, env);
      var rest := From(next, evs[1..], k + 1, env);
      var t := [Encode(frame, next.position), Ack(evs[0].session)] + rest.0;
      assert From(c, evs, k, env) == (t, rest.1);
      if j > 0 {
        FromAccepted(next, evs[1..], k + 1, env, j - 1);
        assert t[2 * j] == rest.0[2 * (j - 1)];
        assert evs[j] == evs[1..][j - 1];
      }
  }

  lemma TimestampsCons(evs: seq<Event>, n: nat)
    requires 1 <= n <= |evs|
    ensures Timestamps(evs[..n]) == [Stamp(evs[0])] + Timestamps(evs[1..][..n - 1])
  {
    var lhs := Timestamps(evs[..n]);
    var rhs := [Stamp(evs[0])] + Timestamps(evs[1..][..n - 1]);
    forall j | 0 <= j < n ensures lhs[j] == rhs[j] {
      if j > 0 {
        assert evs[1..][..n - 1][j - 1] == evs[j];
      }
    }
  }

  /** Call 2j of trace t encodes the j-th event's decoded and permuted image. */
  predicate EncodesEvent(t: seq<Action>, events: seq<Event>, env: Env, j: nat) {
    j < |events| && 2 * j < |t| && t[2 * j].Encode? && DecodeFrame(events[j], env) == Success(t[2 * j].frame)
  }

  /** Call 2j + 1 of trace t acknowledges the j-th event's session id. */
  predicate AcksEvent(t: seq<Action>, events: seq<Event>, j: nat) {
    j < |events| && 2 * j + 1 < |t| && t[2 * j + 1] == Ack(events[j].session)
  }

  /**
   * In a whole run, frame j is handed to the encoder as the call at index
   * 2j, holding the j-th event's decoded and permuted image, and is
   * acknowledged as the call at index 2j + 1 with the j-th event's session
   * id: one encode then one acknowledgement per event, in delivery order,
   * with frame j acknowledged before frame j + 1 is touched.
   */
  lemma FramesInOrder(events: seq<Event>, env: Env)
    ensures var t := Expected(events, env).0;
      forall j: nat :: j < Encoded(Expected(events, env).1) ==> EncodesEvent(t, events, env, j)
    ensures var t := Expected(events, env).0;
      forall j: nat :: j < Acked(Expected(events, env).1) ==> AcksEvent(t, events, j)
  {
    var t := Expected(events, env).0;
    forall j: nat | j < Encoded(Expected(events, env).1)
      ensures EncodesEvent(t, events, env, j)
    {
      FromEncodeAt(Start, events, 0, env, j);
    }
    forall j: nat | j < Acked(Expected(events, env).1)
      ensures AcksEvent(t, events, j)
    {
      FromAckAt(Start, events, 0, env, j);
    }
  }

  /**
   * The frame handed to the encoder for event j holds that event's decoded
   * image, byte for byte, in (row, column, channel) order.
   */
  lemma EncodedPixel(events: seq<Event>, env: Env, j: nat, y: nat, x: nat, c: nat)
    requires j < Encoded(Expected(events, env).1)
    ensures j < |events| && env.base64(events[j].data).Some? && env.jpeg(env.base64(events[j].data).value).Some?
    ensures var img := env.jpeg(env.base64(events[j].data).value).value;
      var t := Expected(events, env).0;
      y < img.height && x < img.width && c < 3 ==>
        2 * j < |t| && t[2 * j].Encode? && (y * img.width + x) * 3 + c < |img.raw| &&
        y < |t[2 * j].frame.elems| && x < |t[2 * j].frame.elems[y]| && c < |t[2 * j].frame.elems[y][x]| &&
        t[2 * j].frame.elems[y][x][c] == img.raw[(y * img.width + x) * 3 + c]
  {
    FromEncodeAt(Start, events, 0, env, j);
    var img := env.jpeg(env.base64(events[j].data).value).value;
    if y < img.height && x < img.width && c < 3 {
      DecodedPixel(events[j], env, y, x, c);
    }
  }

  /** Call 2j of trace t is an encode the encoder accepted, and event j's acknowledgement went through. */
  predicate AcceptedAt(t: seq<Action>, events: seq<Event>, env: Env, j: nat) {
    j < |events| && 2 * j + 1 < |t| && t[2 * j].Encode? &&
    env.encodeOk(j, t[2 * j].frame, t[2 * j].position) && env.ackOk(j, events[j].session)
  }

  /**
   * Every frame the loop completed was accepted by the encoder and
   * acknowledged: a refused encode or a failed acknowledgement never lets
   * the loop go on to the next event.
   */
  lemma CompletedFramesAccepted(events: seq<Event>, env: Env)
    ensures var t := Expected(events, env).0;
      forall j: nat :: j < Expected(events, env).1.completed ==> AcceptedAt(t, events, env, j)
  {
    var t := Expected(events, env).0;
    forall j: nat | j < Expected(events, env).1.completed
      ensures AcceptedAt(t, events, env, j)
    {
      FromAccepted(Start, events, 0, env, j);
    }
  }

  /**
   * `finish` is called exactly when the event stream ended, which is
   * exactly when every event was encoded and acknowledged; it is then the
   * last call and the only one, and the run then ends normally exactly when
   * `finish` succeeds. An acknowledgement that fails (the early return of
   * `?`) or a panic while handling a frame skips this explicit call; what
   * the encoder does when it is dropped is not modelled.
   */
  lemma FinishOnce(events: seq<Event>, env: Env)
    ensures var (t, x) := Expected(events, env);
      (Finish in t <==> StreamEnded(x)) &&
      (StreamEnded(x) <==> x.completed == |events|) &&
      (StreamEnded(x) ==>
        Acked(x) == Encoded(x) == |events| && |t| == 2 * |events| + 1 &&
        t[|t| - 1] == Finish && Finish !in t[..|t| - 1])
    ensures var x := Expected(events, env).1;
      StreamEnded(x) ==> (x.ending == Finished <==> env.finishOk)
  {
    FromCounts(Start, events, 0, env);
    FromFinish(Start, events, 0, env);
    FromFinishOutcome(Start, events, 0, env);
  }

  /** Call 2j of trace t encodes at the j-th event's timestamp minus the first event's. */
  predicate EncodedAtOffset(t: seq<Action>, events: seq<Event>, j: nat) {
    j < |events| && 2 * j < |t| && t[2 * j].Encode? &&
    events[j].timestamp.Some? && events[0].timestamp.Some? &&
    t[2 * j].position == events[j].timestamp.value - events[0].timestamp.value
  }

  /**
   * Frame j is encoded at its timestamp minus the first frame's timestamp,
   * so the first frame is encoded at zero whatever its timestamp.
   */
  lemma PositionsFollowTimestamps(events: seq<Event>, env: Env)
    ensures var t := Expected(events, env).0;
      forall j: nat :: j < Encoded(Expected(events, env).1) ==> EncodedAtOffset(t, events, j)
  {
    var t := Expected(events, env).0;
    forall j: nat | j < Encoded(Expected(events, env).1)
      ensures EncodedAtOffset(t, events, j)
    {
      FromEncodeAt(Start, events, 0, env, 0);
      FromEncodeAt(Start, events, 0, env, j);
      FromPositionAt(Start, events, 0, env, j);
      RunFromStart(Timestamps(events[..j + 1]));
    }
  }

  /** The timestamps of the frames that reached the encoder never decrease. */
  lemma EncodedTimestampsInOrder(events: seq<Event>, env: Env)
    ensures var x := Expected(events, env).1;
      Encoded(x) <= |events| && NonDecreasing(Timestamps(events[..Encoded(x)]))
  {
    var x := Expected(events, env).1;
    FromCounts(Start, events, 0, env);
    var e := Encoded(x);
    if e > 0 {
      FromPositionAt(Start, events, 0, env, e - 1);
      RunFromStart(Timestamps(events[..e]));
    } else {
      assert Timestamps(events[..0]) == [];
    }
  }

  /** The first e encodes of trace t, at its even indices, have non-decreasing positions. */
  predicate PositionsInOrder(t: seq<Action>, e: nat) {
    forall i: nat, j: nat :: i <= j < e ==>
      2 * j < |t| && t[2 * i].Encode? && t[2 * j].Encode? && t[2 * i].position <= t[2 * j].position
  }

  /** The positions handed to the encoder never decrease. */
  lemma PositionsNeverDecrease(events: seq<Event>, env: Env)
    ensures PositionsInOrder(Expected(events, env).0, Encoded(Expected(events, env).1))
  {
    var t := Expected(events, env).0;
    var e := Encoded(Expected(events, env).1);
    EncodedTimestampsInOrder(events, env);
    PositionsFollowTimestamps(events, env);
    var ts := Timestamps(events[..e]);
    forall i: nat, j: nat | i <= j < e
      ensures 2 * j < |t| && t[2 * i].Encode? && t[2 * j].Encode? && t[2 * i].position <= t[2 * j].position
    {
      assert EncodedAtOffset(t, events, i) && EncodedAtOffset(t, events, j);
      assert ts[i] <= ts[j];
    }
  }

  /**
   * The loop stops on a clock underflow exactly when some frame's timestamp
   * is below its predecessor's: it stops at the first such frame, which is
   * neither encoded nor acknowledged, so no position below the previous
   * one ever reaches the encoder.
   */
  lemma UnderflowStopsTheLoop(events: seq<Event>, env: Env)
    ensures var x := Expected(events, env).1;
      NonDecreasing(Timestamps(events)) ==> x.ending != Panicked(ClockUnderflow)
    ensures var x := Expected(events, env).1;
      x.ending == Panicked(ClockUnderflow) ==>
        0 < x.completed < |events| && Encoded(x) == Acked(x) == x.completed &&
        events[x.completed].timestamp.Some? && events[x.completed - 1].timestamp.Some? &&
        events[x.completed].timestamp.value < events[x.completed - 1].timestamp.value
  {
    var x := Expected(events, env).1;
    if x.ending == Panicked(ClockUnderflow) {
      FromUnderflow(Start, events, 0, env);
      var n := x.completed;
      FromEncodeAt(Start, events, 0, env, n - 1);
      var ts := Timestamps(events[..n + 1]);
      RunFromStart(ts);
      assert Timestamps(events)[n] < Timestamps(events)[n - 1];
    }
  }

  /**
   * A run that panics or returns early stops at the event whose own stage
   * failed, after every earlier event was encoded and acknowledged.
   */
  lemma StopsAtTheFaultyFrame(events: seq<Event>, env: Env)
    ensures var (t, x) := Expected(events, env);
      var n := x.completed;
      (!StreamEnded(x) ==> n < |events|) &&
      (x.ending == Panicked(Base64Invalid) ==> env.base64(events[n].data).None?) &&
      (x.ending == Panicked(JpegInvalid) ==> DecodeFrame(events[n], env) == Failure(JpegInvalid)) &&
      (x.ending == Panicked(TimestampMissing) ==> DecodeFrame(events[n], env).Success? && events[n].timestamp.None?) &&
      (x.ending == Panicked(EncodeRejected) ==> 2 * n < |t| && t[2 * n].Encode? && !env.encodeOk(n, t[2 * n].frame, t[2 * n].position)) &&
      (x.ending == AckFailed ==>
        2 * n < |t| && t[2 * n].Encode? && env.encodeOk(n, t[2 * n].frame, t[2 * n].position) &&
        !env.ackOk(n, events[n].session))
  {
    FromCounts(Start, events, 0, env);
    FromDecodeStop(Start, events, 0, env);
    FromRefusal(Start, events, 0, env);
  }

  /** Every external operation succeeds and every event carries the same image. */
  function Cooperative(img: RgbImage): Env {
    Env((data: string) => Some([]), (bytes: seq<byte>) => Some(img),
        (k: nat, f: Array3, p: Nanos) => true, (k: nat, s: SessionId) => true, true)
  }

  /**
   * Three frames stamped 0, 41.7 ms and 83.3 ms, all decoded, encoded and
   * acknowledged: three encodes at those offsets, each followed by its
   * acknowledgement, then one `finish`.
   */
  lemma ThreeFrameStream(img: RgbImage, s0: SessionId, s1: SessionId, s2: SessionId)
    ensures var f := PermuteAxes(ChannelMajor(img));
      Expected([Event("a", Some(0), s0), Event("b", Some(41_700_000), s1), Event("c", Some(83_300_000), s2)], Cooperative(img)) ==
      ([Encode(f, 0), Ack(s0), Encode(f, 41_700_000), Ack(s1), Encode(f, 83_300_000), Ack(s2), Finish],
       Exit(3, Finished))
  {
    var env := Cooperative(img);
    var f := PermuteAxes(ChannelMajor(img));
    var evs := [Event("a", Some(0), s0), Event("b", Some(41_700_000), s1), Event("c", Some(83_300_000), s2)];
    var c1 := Clock(Some(0), 0);
    var c2 := Clock(Some(41_700_000), 41_700_000);
    var c3 := Clock(Some(83_300_000), 83_300_000);
    var tail2 := [Encode(f, 83_300_000), Ack(s2), Finish];
    var tail1 := [Encode(f, 41_700_000), Ack(s1)] + tail2;
    CooperativeGoesOn(img, c2, evs[2..], 2, c3);
    assert evs[2..][1..] == [];
    assert From(c3, [], 3, env) == ([Finish], Exit(3, Finished));
    assert [Encode(f, 83_300_000), Ack(s2)] + [Finish] == tail2;
    assert From(c2, evs[2..], 2, env) == (tail2, Exit(3, Finished));
    CooperativeGoesOn(img, c1, evs[1..], 1, c2);
    assert evs[1..][1..] == evs[2..];
    assert From(c1, evs[1..], 1, env) == (tail1, Exit(3, Finished));
    CooperativeGoesOn(img, Start, evs, 0, c1);
    assert [Encode(f, 0), Ack(s0)] + tail1 ==
      [Encode(f, 0), Ack(s0), Encode(f, 41_700_000), Ack(s1), Encode(f, 83_300_000), Ack(s2), Finish];
  }

  /** With every operation succeeding, an event the clock accepts is encoded and acknowledged. */
  lemma CooperativeGoesOn(img: RgbImage, c: Clock, evs: seq<Event>, k: nat, next: Clock)
    requires evs != [] && evs[0].timestamp.Some? && Tick(c, evs[0].timestamp.value) == Success(next)
    ensures From(c, evs, k, Cooperative(img)) ==
      Resume([Encode(PermuteAxes(ChannelMajor(img)), next.position), Ack(evs[0].session)],
             From(next, evs[1..], k + 1, Cooperative(img)))
  {
    var env := Cooperative(img);
    assert DecodeFrame(evs[0], env) == Success(PermuteAxes(ChannelMajor(img)));
    assert StepOf(c, evs[0], k, env) == Next(PermuteAxes(ChannelMajor(img)), next);
    FromGoesOn(c, evs, k, env);
  }

  /**
   * Frames stamped 0, 33 ms and then 20 ms: the first two are encoded and
   * acknowledged, the third stops the loop on the clock underflow before it
   * is encoded, and `finish` is never called.
   */
  lemma OutOfOrderFrame(img: RgbImage, s0: SessionId, s1: SessionId, s2: SessionId)
    ensures var f := PermuteAxes(ChannelMajor(img));
      Expected([Event("a", Some(0), s0), Event("b", Some(33_000_000), s1), Event("c", Some(20_000_000), s2)], Cooperative(img)) ==
      ([Encode(f, 0), Ack(s0), Encode(f, 33_000_000), Ack(s1)], Exit(2, Panicked(ClockUnderflow)))
  {
    var env := Cooperative(img);
    var f := PermuteAxes(ChannelMajor(img));
    var evs := [Event("a", Some(0), s0), Event("b", Some(33_000_000), s1), Event("c", Some(20_000_000), s2)];
    var c1 := Clock(Some(0), 0);
    var c2 := Clock(Some(33_000_000), 33_000_000);
    var tail1 := [Encode(f, 33_000_000), Ack(s1)];
    assert DecodeFrame(evs[2], env) == Success(f);
    assert StepOf(c2, evs[2], 2, env) == Stop([], Panicked(ClockUnderflow));
    FromStops(c2, evs[2..], 2, env);
    CooperativeGoesOn(img, c1, evs[1..], 1, c2);
    assert evs[1..][1..] == evs[2..];
    assert tail1 + [] == tail1;
    assert From(c1, evs[1..], 1, env) == (tail1, Exit(2, Panicked(ClockUnderflow)));
    CooperativeGoesOn(img, Start, evs, 0, c1);
    assert [Encode(f, 0), Ack(s0)] + tail1 == [Encode(f, 0), Ack(s0), Encode(f, 33_000_000), Ack(s1)];
  }
}
