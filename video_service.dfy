/**
 * The capture side (app/services/optimized_video_service.py): the process-wide single
 * instance, opening a camera with fallback over the configured sources, reconnecting,
 * one pass of the capture loop (retry counter, frame-time window, frame skip, the lossy
 * hand-off into the frame queue), and the error counter of the stream generator. What the
 * camera does on each open, grab and read is a parameter.
 */
module VideoService {
  import opened Wrappers
  import Arith
  import Window
  import Frames

  /** `Queue(maxsize=20)`. */
  const QueueSize: nat := 20
  /** The length of the rolling `frame_times` list. */
  const FrameTimesWindow: nat := 30
  /** `max_retries` of the capture loop. */
  const MaxRetries: int := 5
  /** `max_errors` of the stream generator. */
  const MaxStreamErrors: int := 5
  /** `frame_skip`: every captured frame is handed on. */
  const FrameSkip: nat := 1

  datatype Source = Url(url: string) | Device(index: int)

  datatype CameraOption = CameraOption(source: Source, kind: string)

  /** `camera_options`: the configured stream, then the default webcam, then an external
      one. */
  function DefaultCameraOptions(rtspUrl: string): (r: seq<CameraOption>)
    ensures |r| == 3 && r[0].kind == "rtsp" && r[1].kind == "webcam" && r[2].kind == "webcam"
  {
    [CameraOption(Url(rtspUrl), "rtsp"), CameraOption(Device(0), "webcam"), CameraOption(Device(1), "webcam")]
  }

  /** What one connection attempt meets: whether an RTSP stream answered a grab within the
      connection timeout, whether the capture reports itself open, and whether the test
      read delivered a frame. */
  datatype Probe = Probe(connectedInTime: bool, isOpened: bool, testReadOk: bool)

  /** An attempt on `option` succeeds: a stream must connect in time, then the capture must
      be open and deliver a test frame. */
  predicate Opens(option: CameraOption, p: Probe) {
    (option.kind == "rtsp" ==> p.connectedInTime) && p.isOpened && p.testReadOk
  }

  /** The option tried at attempt `t` of a call starting at index `s`. */
  function Rot(s: nat, t: nat, n: nat): (r: nat)
    requires 0 < n
    ensures r < n
  {
    (s + t) % n
  }

  /** Each step of the rotation moves the index on by `(i + 1) % n`. */
  lemma RotStep(s: nat, t: nat, n: nat)
    requires s < n
    ensures Rot(s, t + 1, n) == (Rot(s, t, n) + 1) % n
  {
    var q := (s + t) / n;
    var r := (s + t) % n;
    assert s + t == q * n + r;
    assert s + t + 1 == q * n + (r + 1);
    if r + 1 < n {
      assert (s + t + 1) % n == r + 1 by { Arith.ModUnique(s + t + 1, q, r + 1, n); }
      assert (r + 1) % n == r + 1 by { Arith.ModUnique(r + 1, 0, r + 1, n); }
    } else {
      assert s + t + 1 == (q + 1) * n;
      assert (s + t + 1) % n == 0 by { Arith.ModUnique(s + t + 1, q + 1, 0, n); }
      assert (r + 1) % n == 0 by { Arith.ModUnique(r + 1, 1, 0, n); }
    }
  }

  /** The rotation comes back to its start after exactly `n` attempts, and not before:
      each option is tried at most once per call. */
  lemma RotReturns(s: nat, t: nat, n: nat)
    requires s < n && 0 < t <= n
    ensures Rot(s, t, n) == s <==> t == n
  {
    if t == n {
      Arith.ModUnique(s + n, 1, s, n);
    } else if s + t < n {
      Arith.ModUnique(s + t, 0, s + t, n);
    } else {
      Arith.ModUnique(s + t, 1, s + t - n, n);
    }
  }

  lemma RotDistinct(s: nat, t1: nat, t2: nat, n: nat)
    requires s < n && t1 < t2 < n
    ensures Rot(s, t1, n) != Rot(s, t2, n)
  {
    var a := Rot(s, t1, n);
    RotStart(s, t1, n);
    RotStart(s, t2, n);
    if s + t1 < n && s + t2 >= n {
      assert t2 - t1 < n;
    }
  }

  /** `Rot` without the modulo: one wrap at most. */
  lemma RotStart(s: nat, t: nat, n: nat)
    requires s < n && t < n
    ensures Rot(s, t, n) == if s + t < n then s + t else s + t - n
  {
    if s + t < n {
      Arith.ModUnique(s + t, 0, s + t, n);
    } else {
      Arith.ModUnique(s + t, 1, s + t - n, n);
    }
  }

  /** One round of the rotation reaches every index. */
  lemma RotCovers(s: nat, i: nat, n: nat) returns (t: nat)
    requires s < n && i < n
    ensures t < n && Rot(s, t, n) == i
  {
    t := if s <= i then i - s else i + n - s;
    RotStart(s, t, n);
  }

  /** The loop of `ensure_capture_open` over the camera options: from index `start`, each
      option in turn, wrapping round, until one opens or every option has been tried once.
      It answers whether one opened, the index it stopped at (back at `start` after a full
      failed round) and how many attempts were made. */
  method ScanOptions(options: seq<CameraOption>, start: nat, probe: nat -> Probe)
    returns (found: bool, index: nat, ghost attempts: nat)
    requires start < |options|
    ensures var n := |options|;
      && 0 < attempts <= n
      && (forall t :: 0 <= t < attempts - 1 ==> !Opens(options[Rot(start, t, n)], probe(Rot(start, t, n))))
      && (found ==> Opens(options[Rot(start, attempts - 1, n)], probe(Rot(start, attempts - 1, n)))
                    && index == Rot(start, attempts - 1, n))
      && (!found ==> attempts == n && !Opens(options[Rot(start, n - 1, n)], probe(Rot(start, n - 1, n)))
                     && index == start)
    ensures found ==> index < |options| && Opens(options[index], probe(index))
    ensures !found ==> index == start && forall i :: 0 <= i < |options| ==> !Opens(options[i], probe(i))
  {
    var n := |options|;
    index := start;
    var triedAll := false;
    attempts := 0;
    while !triedAll
      invariant attempts <= n && index == Rot(start, attempts, n)
      invariant triedAll <==> attempts == n
      invariant forall t :: 0 <= t < attempts ==> !Opens(options[Rot(start, t, n)], probe(Rot(start, t, n)))
      decreases n - attempts
    {
      if Opens(options[index], probe(index)) {
        attempts := attempts + 1;
        return true, index, attempts;
      }
      RotStep(start, attempts, n);
      index := (index + 1) % n;
      attempts := attempts + 1;
      RotReturns(start, attempts, n);
      if index == start {
        triedAll := true;
      }
    }
    RotReturns(start, n, n);
    found := false;
    forall i | 0 <= i < n ensures !Opens(options[i], probe(i)) {
      var t := RotCovers(start, i, n);
    }
  }

  /** `retry_count` after a failed open: one more, or back to 0 once past the limit. */
  function NextRetry(retry: int): (r: int)
    ensures 0 <= retry <= MaxRetries ==> 0 <= r <= MaxRetries
    ensures r == 0 || r == retry + 1
  {
    if retry + 1 > MaxRetries then 0 else retry + 1
  }

  /** `retry_count` after `k` failed opens in a row from `retry`. */
  function RetriesAfter(retry: int, k: nat): (r: int)
    ensures 0 <= retry <= MaxRetries ==> 0 <= r <= MaxRetries
  {
    if k == 0 then retry else NextRetry(RetriesAfter(retry, k - 1))
  }

  /** From a fresh start the counter cycles through 0..5: after `k` failures in a row it
      is `k` modulo 6, so every sixth failure is followed by the long wait. */
  lemma {:induction false} RetriesCycle(k: nat)
    ensures RetriesAfter(0, k) == k % (MaxRetries + 1)
  {
    if k > 0 {
      RetriesCycle(k - 1);
      var m := MaxRetries + 1;
      var q := (k - 1) / m;
      var r := (k - 1) % m;
      assert k - 1 == q * m + r;
      if r + 1 < m {
        Arith.ModUnique(k, q, r + 1, m);
      } else {
        Arith.ModUnique(k, q + 1, 0, m);
      }
    }
  }

  /** What a pass of the capture loop did. */
  datatype CaptureOutcome = NoCamera | ReadFailed | Skipped | ProcessFailed | Queued | Dropped

  /** What a pass of the stream generator met. */
  datatype StreamEvent = Throttled | NoFrame | EncodeFailed | Sent | Failed

  /** `error_count` after a pass: back to 0 on a frame sent, one more on an error unless
      that passes `max_errors`, which resets it (and reconnects); otherwise as it was. */
  function NextErrorCount(errorCount: int, event: StreamEvent): (r: int)
    ensures 0 <= errorCount <= MaxStreamErrors ==> 0 <= r <= MaxStreamErrors
    ensures event == Sent ==> r == 0
    ensures event == Failed ==> r == (if errorCount + 1 > MaxStreamErrors then 0 else errorCount + 1)
    ensures event != Sent && event != Failed ==> r == errorCount
  {
    match event
    case Sent => 0
    case Failed => if errorCount + 1 > MaxStreamErrors then 0 else errorCount + 1
    case _ => errorCount
  }

  /** Every field of the service; the frames waiting in its queue are the queue's own. */
  datatype ServiceState = ServiceState(
    initialized: bool, capOpen: bool, latestFrame: Option<Frames.Frame>, running: bool,
    frameQueue: Frames.FrameQueue?,
    rtspUrl: string, resolution: (nat, nat), targetFps: int,
    cameraOptions: seq<CameraOption>, currentCameraIndex: nat,
    droppedFrames: nat, reconnectCount: nat, frameTimes: seq<real>, frameCount: nat)

  /** What `_ensure_capture_open` makes of the service, from `b` to `a`. An open camera
      that still grabs is kept and nothing changes. Otherwise the options are tried from
      the current index on, wrapping round: either the attempt `attempts - 1` opened, every
      earlier one failed, that option is current and open and `reconnect_count` is 0; or
      all `n` options failed, the capture is closed and nothing else changed. */
  ghost predicate OpenedFrom(b: ServiceState, a: ServiceState, grabOk: bool, probe: nat -> Probe, ok: bool, attempts: nat)
    requires b.currentCameraIndex < |b.cameraOptions|
  {
    var n := |b.cameraOptions|;
    var s := b.currentCameraIndex;
    if b.capOpen && grabOk then ok && attempts == 0 && a == b
    else
      && 0 < attempts <= n
      && (forall t :: 0 <= t < attempts - 1 ==> !Opens(b.cameraOptions[Rot(s, t, n)], probe(Rot(s, t, n))))
      && (ok ==>
            var i := Rot(s, attempts - 1, n);
            Opens(b.cameraOptions[i], probe(i)) && a == b.(capOpen := true, currentCameraIndex := i, reconnectCount := 0))
      && (!ok ==>
            && attempts == n
            && (forall i :: 0 <= i < n ==> !Opens(b.cameraOptions[i], probe(i)))
            && a == b.(capOpen := false))
  }

  /** What the part of a capture pass after the open makes of the service, from `b` to
      `a`, and of its queue, from `q` to `q'`. A failed read drops the capture and counts
      a reconnect. Otherwise the read time enters the 30-entry window and the frame is
      counted. Every `FrameSkip`-th frame is processed: a frame of another size is resized
      to the configured resolution, and a resize that raises ends the pass there; the
      frame then becomes the latest frame and is handed off as `HandedOff` says. Nothing
      else changes. */
  ghost predicate CapturedFrom(b: ServiceState, a: ServiceState, q: seq<Frames.Frame>, q': seq<Frames.Frame>,
                               readOk: bool, captured: Frames.Frame, resizeOk: bool, convertOk: bool,
                               frameTime: real, outcome: CaptureOutcome) {
    if !readOk then outcome == ReadFailed && a == b.(capOpen := false, reconnectCount := b.reconnectCount + 1) && q' == q
    else
      var counted := b.(frameTimes := Window.PushBounded(b.frameTimes, frameTime, FrameTimesWindow), frameCount := b.frameCount + 1);
      var frame := Frames.Frame(b.resolution.0, b.resolution.1);
      if counted.frameCount % FrameSkip != 0 then outcome == Skipped && a == counted && q' == q
      else if captured != frame && !resizeOk then outcome == ProcessFailed && a == counted && q' == q
      else HandedOff(counted, a, q, q', frame, convertOk, outcome)
  }

  /** A frame handed on, from `b` to `a` and from queue `q` to `q'`: it becomes the latest
      frame; when the colour conversion raises, that is all; otherwise it joins the back
      of the queue, or, with the queue full, is dropped and counted. */
  ghost predicate HandedOff(b: ServiceState, a: ServiceState, q: seq<Frames.Frame>, q': seq<Frames.Frame>,
                            frame: Frames.Frame, convertOk: bool, outcome: CaptureOutcome) {
    if !convertOk then outcome == ProcessFailed && a == b.(latestFrame := Some(frame)) && q' == q
    else if |q| < QueueSize then outcome == Queued && a == b.(latestFrame := Some(frame)) && q' == q + [frame]
    else outcome == Dropped && a == b.(latestFrame := Some(frame), droppedFrames := b.droppedFrames + 1) && q' == q
  }

  class OptimizedVideoService {
    var initialized: bool
    /** `self.cap` is set and reports itself open. */
    var capOpen: bool
    /** `self.frame`: the latest processed frame. */
    var latestFrame: Option<Frames.Frame>
    var running: bool
    var frameQueue: Frames.FrameQueue?
    var rtspUrl: string
    var resolution: (nat, nat)
    var targetFps: int
    var cameraOptions: seq<CameraOption>
    var currentCameraIndex: nat
    var droppedFrames: nat
    var reconnectCount: nat
    var frameTimes: seq<real>
    var frameCount: nat

    ghost predicate Valid()
      reads this, frameQueue
    {
      initialized ==>
        && frameQueue != null && frameQueue.Valid() && frameQueue.maxsize == QueueSize
        && 0 < |cameraOptions| && currentCameraIndex < |cameraOptions|
        && |frameTimes| <= FrameTimesWindow
    }

    /** All of the service's fields at once. */
    ghost function State(): ServiceState
      reads this
    {
      ServiceState(initialized, capOpen, latestFrame, running, frameQueue,
                   rtspUrl, resolution, targetFps, cameraOptions, currentCameraIndex,
                   droppedFrames, reconnectCount, frameTimes, frameCount)
    }

    /** `__new__` on first use: an object not yet initialised. */
    constructor Allocate()
      ensures Valid() && !initialized && frameQueue == null
    {
      initialized := false;
      capOpen := false;
      latestFrame := None;
      running := false;
      frameQueue := null;
      rtspUrl := "";
      resolution := (0, 0);
      targetFps := 0;
      cameraOptions := [];
      currentCameraIndex := 0;
      droppedFrames := 0;
      reconnectCount := 0;
      frameTimes := [];
      frameCount := 0;
    }

    /** The fields as `__init__` sets them. */
    ghost predicate Defaults(rtspUrl: string, resolution: (nat, nat), fps: int)
      reads this
    {
      Configured(rtspUrl, resolution, fps) && Idle()
    }

    /** The settings `__init__` records. */
    ghost predicate Configured(rtspUrl: string, resolution: (nat, nat), fps: int)
      reads this
    {
      && this.rtspUrl == rtspUrl && this.resolution == resolution && targetFps == fps
      && cameraOptions == DefaultCameraOptions(rtspUrl) && currentCameraIndex == 0
    }

    /** The state `__init__` starts from: no capture, nothing running, all counters at 0. */
    ghost predicate Idle()
      reads this
    {
      && !capOpen && latestFrame == None && !running
      && droppedFrames == 0 && reconnectCount == 0 && frameTimes == [] && frameCount == 0
    }

    /** `__init__`: the first call sets every field, with a new empty queue of size 20;
        every later call changes nothing. */
    method Init(rtspUrl: string, resolution: (nat, nat), fps: int)
      requires Valid()
      modifies this
      ensures Valid() && initialized
      ensures old(initialized) ==> unchanged(this)
      ensures !old(initialized) ==> fresh(frameQueue) && frameQueue.items == [] && Defaults(rtspUrl, resolution, fps)
    {
      if initialized {
        return;
      }
      SetDefaults(rtspUrl, resolution, fps);
    }

    /** The body of `__init__` past its guard. */
    method SetDefaults(rtspUrl: string, resolution: (nat, nat), fps: int)
      modifies this
      ensures Valid() && initialized
      ensures fresh(frameQueue) && frameQueue.items == [] && Defaults(rtspUrl, resolution, fps)
    {
      Configure(rtspUrl, resolution, fps);
      Clear();
      frameQueue := new Frames.FrameQueue(QueueSize);
      initialized := true;
    }

    /** The settings part of `__init__`: the stream, resolution and rate as given, and the
        default camera options from the first one on; nothing else changes. */
    method Configure(rtspUrl: string, resolution: (nat, nat), fps: int)
      modifies this
      ensures Configured(rtspUrl, resolution, fps)
      ensures State() == old(State()).(rtspUrl := rtspUrl, resolution := resolution, targetFps := fps,
                                       cameraOptions := DefaultCameraOptions(rtspUrl), currentCameraIndex := 0)
    {
      ghost var s0 := State();
      this.rtspUrl, this.resolution, targetFps := rtspUrl, resolution, fps;
      cameraOptions, currentCameraIndex := DefaultCameraOptions(rtspUrl), 0;
      assert State() == s0.(rtspUrl := rtspUrl, resolution := resolution, targetFps := fps,
                            cameraOptions := DefaultCameraOptions(rtspUrl), currentCameraIndex := 0);
    }

    /** The idle part of `__init__`: no capture, nothing running, every counter at 0;
        nothing else changes. */
    method Clear()
      modifies this
      ensures Idle()
      ensures State() == old(State()).(capOpen := false, latestFrame := None, running := false,
                                       droppedFrames := 0, reconnectCount := 0, frameTimes := [], frameCount := 0)
    {
      ghost var s0 := State();
      capOpen, latestFrame, running := false, None, false;
      droppedFrames, reconnectCount, frameTimes, frameCount := 0, 0, [], 0;
      assert State() == s0.(capOpen := false, latestFrame := None, running := false,
                            droppedFrames := 0, reconnectCount := 0, frameTimes := [], frameCount := 0);
    }

    /** `start`: sets `running`, and nothing else; nothing changes when it is already set. */
    method Start()
      requires Valid() && initialized
      modifies this
      ensures Valid() && running
      ensures old(running) ==> unchanged(this)
      ensures State() == old(State()).(running := true)
    {
      if running {
        return;
      }
      running := true;
    }

    /** `_ensure_capture_open`, as `OpenedFrom` describes it. `probe(i)` is what an attempt
        on option `i` meets. */
    method EnsureCaptureOpen(grabOk: bool, probe: nat -> Probe) returns (ok: bool, ghost attempts: nat)
      requires Valid() && initialized
      modifies this
      ensures Valid() && initialized
      ensures OpenedFrom(old(State()), State(), grabOk, probe, ok, attempts)
    {
      if capOpen {
        if grabOk {
          return true, 0;
        }
        capOpen := false;
      }
      var index;
      ok, index, attempts := ScanOptions(cameraOptions, currentCameraIndex, probe);
      currentCameraIndex := index;
      if ok {
        capOpen := true;
        reconnectCount := 0;
      }
    }

    /** `_reconnect`: the capture is dropped and `reconnect_count` goes up by one; nothing
        else changes. */
    method Reconnect()
      requires Valid() && initialized
      modifies this
      ensures Valid() && initialized
      ensures State() == old(State()).(capOpen := false, reconnectCount := old(reconnectCount) + 1)
    {
      capOpen := false;
      reconnectCount := reconnectCount + 1;
    }

    /** The part of a capture pass after the camera is open, as `CapturedFrom` describes
        it. */
    method CaptureFrame(readOk: bool, captured: Frames.Frame, resizeOk: bool, convertOk: bool, frameTime: real)
      returns (outcome: CaptureOutcome)
      requires Valid() && initialized
      modifies this, frameQueue
      ensures Valid() && initialized
      ensures CapturedFrom(old(State()), State(), old(frameQueue.items), frameQueue.items,
                           readOk, captured, resizeOk, convertOk, frameTime, outcome)
    {
      if !readOk {
        Reconnect();
        return ReadFailed;
      }
      ghost var s0 := State();
      Window.PushBoundedKeepsNewest(frameTimes, frameTime, FrameTimesWindow);
      frameTimes := Window.PushBounded(frameTimes, frameTime, FrameTimesWindow);
      frameCount := frameCount + 1;
      assert State() == s0.(frameTimes := frameTimes, frameCount := frameCount);
      if frameCount % FrameSkip != 0 {
        return Skipped;
      }
      var frame := captured;
      if captured.width != resolution.0 || captured.height != resolution.1 {
        if !resizeOk {
          return ProcessFailed;
        }
        frame := Frames.Frame(resolution.0, resolution.1);
      }
      outcome := HandOff(frame, convertOk);
    }

    /** The hand-off at the end of a capture pass, as `HandedOff` describes it. */
    method HandOff(frame: Frames.Frame, convertOk: bool) returns (outcome: CaptureOutcome)
      requires Valid() && initialized
      modifies this, frameQueue
      ensures Valid() && initialized
      ensures HandedOff(old(State()), State(), old(frameQueue.items), frameQueue.items, frame, convertOk, outcome)
    {
      latestFrame := Some(frame);
      if !convertOk {
        outcome := ProcessFailed;
      } else if !frameQueue.Full() {
        frameQueue.Put(frame);
        outcome := Queued;
      } else {
        droppedFrames := droppedFrames + 1;
        outcome := Dropped;
      }
    }

    /** One pass of `_capture_loop` with the loop's `retry_count`. The open goes from the
        state before to `afterOpen`; a failed open stops there and counts a retry, a
        successful one resets the count and goes on with the frame from `afterOpen`. */
    method CaptureStep(retry: int, grabOk: bool, probe: nat -> Probe, readOk: bool, captured: Frames.Frame,
                       resizeOk: bool, convertOk: bool, frameTime: real)
      returns (retry': int, outcome: CaptureOutcome, ghost afterOpen: ServiceState, ghost attempts: nat)
      requires Valid() && initialized && 0 <= retry <= MaxRetries
      modifies this, frameQueue
      ensures Valid() && initialized && 0 <= retry' <= MaxRetries
      ensures retry' == if outcome == NoCamera then NextRetry(retry) else 0
      ensures OpenedFrom(old(State()), afterOpen, grabOk, probe, outcome != NoCamera, attempts)
      ensures outcome == NoCamera ==> State() == afterOpen && frameQueue.items == old(frameQueue.items)
      ensures outcome != NoCamera ==>
        CapturedFrom(afterOpen, State(), old(frameQueue.items), frameQueue.items,
                     readOk, captured, resizeOk, convertOk, frameTime, outcome)
    {
      var ok;
      ok, attempts := EnsureCaptureOpen(grabOk, probe);
      afterOpen := State();
      if !ok {
        return NextRetry(retry), NoCamera, afterOpen, attempts;
      }
      retry' := 0;
      outcome := CaptureFrame(readOk, captured, resizeOk, convertOk, frameTime);
    }

    /** One pass of `generate_frames` with its `error_count`: an error past `max_errors`
        reconnects once and resets the count; nothing else changes the service. */
    method StreamStep(errorCount: int, event: StreamEvent) returns (errorCount': int)
      requires Valid() && initialized && 0 <= errorCount <= MaxStreamErrors
      modifies this
      ensures Valid() && initialized && errorCount' == NextErrorCount(errorCount, event)
      ensures event == Failed && errorCount == MaxStreamErrors ==>
        State() == old(State()).(capOpen := false, reconnectCount := old(reconnectCount) + 1)
      ensures !(event == Failed && errorCount == MaxStreamErrors) ==> unchanged(this)
    {
      match event {
        case Sent =>
          errorCount' := 0;
        case Failed =>
          errorCount' := errorCount + 1;
          if errorCount' > MaxStreamErrors {
            Reconnect();
            errorCount' := 0;
          }
        case _ =>
          errorCount' := errorCount;
      }
    }
  }

  /** The class object holding `_instance`. */
  class VideoServiceClass {
    var instance: OptimizedVideoService?

    ghost predicate Valid()
      reads this, instance, if instance != null then {instance.frameQueue} else {}
    {
      instance != null ==> instance.initialized && instance.Valid()
    }

    constructor ()
      ensures Valid() && instance == null
    {
      instance := null;
    }

    /** `OptimizedVideoService(rtsp_url, resolution, fps)`: `__new__` then `__init__`. The
        first call makes and initialises the single instance; every later call returns that
        same instance and leaves all of its fields as they were. */
    method Construct(rtspUrl: string, resolution: (nat, nat), fps: int) returns (s: OptimizedVideoService)
      requires Valid()
      modifies this, instance
      ensures Valid() && instance == s && s.initialized
      ensures old(instance) != null ==> s == old(instance) && unchanged(s)
      ensures old(instance) == null ==>
        fresh(s) && fresh(s.frameQueue) && s.frameQueue.items == [] && s.Defaults(rtspUrl, resolution, fps)
    {
      if instance == null {
        instance := new OptimizedVideoService.Allocate();
      }
      s := instance;
      s.Init(rtspUrl, resolution, fps);
    }
  }
}
