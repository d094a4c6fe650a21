/**
 * The recognition side (app/services/optimized_face_service.py): turning the detector's
 * boxes into pixel boxes, matching each face against the roster, the per-employee
 * attendance cooldown, the frame-skip and FPS bookkeeping of the detection loop, and the
 * colour rule of the overlay. The detector's boxes, the face library's encodings and its
 * `face_distance`, and the clock are parameters.
 */
module FaceService {
  import opened Wrappers
  import opened Records
  import Dates
  import Window
  import Frames
  import DbService

  /** Only a confidence strictly above this counts as a match. */
  const MatchThreshold: real := 0.6
  /** `attendance_cooldown`, in seconds. */
  const AttendanceCooldown: real := 300.0
  /** `frame_skip`: every second dequeued frame is processed. */
  const FrameSkip: nat := 2
  /** The length of the rolling `fps_values` list. */
  const FpsWindow: nat := 30

  // ---- boxes ------------------------------------------------------------------

  /** Python's `int()` on a float: truncation toward zero. */
  function Trunc(r: real): (n: int)
    ensures r >= 0.0 ==> 0 <= n && n as real <= r < n as real + 1.0
    ensures r < 0.0 ==> n <= 0 && n as real - 1.0 < r <= n as real
  {
    if r >= 0.0 then r.Floor else -((-r).Floor)
  }

  function Max(a: int, b: int): int {
    if a >= b then a else b
  }

  function Min(a: int, b: int): int {
    if a <= b then a else b
  }

  /** MediaPipe's relative bounding box, in fractions of the frame's width and height. */
  datatype RelativeBox = RelativeBox(xmin: real, ymin: real, width: real, height: real)

  /** A box in pixels: left, top, width, height. */
  datatype Box = Box(x: int, y: int, width: int, height: int)

  /** The face library's `(top, right, bottom, left)`. */
  datatype Location = Location(top: int, right: int, bottom: int, left: int)

  /** The pixel box of a detection on a `w` by `h` frame: the corner is truncated and
      pushed into the frame, and the size truncated and cut at the frame's edge. */
  function ClampBox(b: RelativeBox, w: nat, h: nat): (r: Box)
    ensures r.x >= 0 && r.y >= 0
    ensures r.x + r.width <= w && r.y + r.height <= h
    ensures r.x == if Trunc(b.xmin * w as real) < 0 then 0 else Trunc(b.xmin * w as real)
    ensures r.y == if Trunc(b.ymin * h as real) < 0 then 0 else Trunc(b.ymin * h as real)
    ensures r.width <= Trunc(b.width * w as real) && (r.width == Trunc(b.width * w as real) || r.x + r.width == w)
    ensures r.height <= Trunc(b.height * h as real) && (r.height == Trunc(b.height * h as real) || r.y + r.height == h)
  {
    var x := Max(0, Trunc(b.xmin * w as real));
    var y := Max(0, Trunc(b.ymin * h as real));
    Box(x, y, Min(Trunc(b.width * w as real), w - x), Min(Trunc(b.height * h as real), h - y))
  }

  /** The box given back for a location: `(left, top, right - left, bottom - top)`. */
  function FromLocation(l: Location): Box {
    Box(l.left, l.top, l.right - l.left, l.bottom - l.top)
  }

  /** The location handed to the face library for a box; converting it back gives the
      same box. */
  function ToLocation(b: Box): (l: Location)
    ensures FromLocation(l) == b
    ensures l.left <= l.right <==> b.width >= 0
    ensures l.top <= l.bottom <==> b.height >= 0
  {
    Location(b.y, b.x + b.width, b.y + b.height, b.x)
  }

  /** Every location is the location of the box it converts back to. */
  lemma LocationRoundTrip(l: Location)
    ensures ToLocation(FromLocation(l)) == l
  {
  }

  // ---- labels and colours ---------------------------------------------------------

  function NatToString(n: nat): (s: string)
    ensures |s| > 0 && forall i :: 0 <= i < |s| ==> Dates.IsDigit(s[i])
  {
    if n < 10 then [Dates.DigitChar(n)] else NatToString(n / 10) + [Dates.DigitChar(n % 10)]
  }

  /** `f"{n}"` for an integer. */
  function IntToString(n: int): string {
    if n < 0 then "-" + NatToString(-n) else NatToString(n)
  }

  /** `f"{name} ({int(confidence*100)}%)"`. */
  function Label(name: string, confidence: real): string {
    name + " (" + IntToString(Trunc(confidence * 100.0)) + "%)"
  }

  /** `t` occurs in `s` at index `i`. */
  predicate OccursAt(s: string, t: string, i: int) {
    0 <= i && i + |t| <= |s| && s[i..i + |t|] == t
  }

  /** Python's `t in s` on strings. */
  predicate Contains(s: string, t: string) {
    exists i :: 0 <= i <= |s| && OccursAt(s, t, i)
  }

  const Unknown: string := "Unknown"

  /** An OpenCV colour: blue, green and red, in that order. */
  datatype Bgr = Bgr(b: int, g: int, r: int)

  const Red: Bgr := Bgr(0, 0, 255)
  const Green: Bgr := Bgr(0, 255, 0)
  const Blue: Bgr := Bgr(255, 0, 0)

  /** The colour `generate_frames` draws a box in, as written: the tuple `(255, 0, 0)`
      meant as red for an unknown face. */
  function BoxColourAsWritten(text: string): Bgr {
    if Contains(text, Unknown) then Bgr(255, 0, 0) else Bgr(0, 255, 0)
  }

  /** The frames drawn on are OpenCV frames in BGR order, so the tuple as written draws
      unknown faces blue, never red. */
  lemma UnknownDrawnBlue(text: string)
    requires Contains(text, Unknown)
    ensures BoxColourAsWritten(text) == Blue && BoxColourAsWritten(text) != Red
  {
  }

  /** The intended colour rule: red for an unknown face, green for a recognised one. */
  function BoxColour(text: string): (c: Bgr)
    ensures c == Red <==> Contains(text, Unknown)
    ensures c == Green <==> !Contains(text, Unknown)
  {
    if Contains(text, Unknown) then Red else Green
  }

  /** A tail none of whose characters is the last one of `w` cannot complete an occurrence
      of `w`: `w` occurs in `a + t` exactly when it occurs in `a`. */
  lemma ContainsBeforeTail(a: string, t: string, w: string)
    requires |w| > 0
    requires forall k :: 0 <= k < |t| ==> t[k] != w[|w| - 1]
    ensures Contains(a + t, w) <==> Contains(a, w)
  {
    var l := a + t;
    if Contains(a, w) {
      var i :| 0 <= i <= |a| && OccursAt(a, w, i);
      assert l[i..i + |w|] == a[i..i + |w|];
      assert OccursAt(l, w, i);
    }
    if Contains(l, w) {
      var i :| 0 <= i <= |l| && OccursAt(l, w, i);
      var e := i + |w| - 1;
      assert l[i..i + |w|][|w| - 1] == l[e];
      if e >= |a| {
        assert false;
      }
      assert a[i..i + |w|] == l[i..i + |w|];
      assert OccursAt(a, w, i);
    }
  }

  /** The characters of a label after the name: the digits of the percentage, a sign and
      punctuation, and none of them is an `n`. */
  lemma LabelTail(confidence: real)
    ensures var t := " (" + IntToString(Trunc(confidence * 100.0)) + "%)";
      forall k :: 0 <= k < |t| ==> t[k] != 'n'
  {
    var n := Trunc(confidence * 100.0);
    var digits := IntToString(n);
    var t := " (" + digits + "%)";
    assert forall k :: 0 <= k < |digits| ==> digits[k] == '-' || Dates.IsDigit(digits[k]) by {
      if n < 0 {
        assert digits == "-" + NatToString(-n);
        forall k | 0 < k < |digits| ensures Dates.IsDigit(digits[k]) {
          assert digits[k] == NatToString(-n)[k - 1];
        }
      }
    }
    forall k | 2 <= k < 2 + |digits| ensures t[k] != 'n' {
      assert t[k] == digits[k - 2];
    }
  }

  /** For a recognised face, the label names the employee, so its box is red exactly when
      the employee's own name contains "Unknown". */
  lemma KnownLabelColour(name: string, confidence: real)
    ensures Contains(Label(name, confidence), Unknown) <==> Contains(name, Unknown)
  {
    var tail := " (" + IntToString(Trunc(confidence * 100.0)) + "%)";
    assert Label(name, confidence) == name + tail;
    LabelTail(confidence);
    assert Unknown[|Unknown| - 1] == 'n';
    ContainsBeforeTail(name, tail, Unknown);
  }

  // ---- matching ------------------------------------------------------------------

  /** What a face is taken for: its label, the employee (if any) and the confidence. */
  datatype Identity = Identity(text: string, employeeId: Option<int>, confidence: real)

  const Unrecognised: Identity := Identity(Unknown, None, 0.0)

  /** `1 - face_distance([employee.encoding], face)` for each roster entry, in order: an
      entry is above the threshold exactly when its distance is below `1 - 0.6`, and of
      two entries the nearer one is the more confident. */
  function Confidences(roster: seq<Profile>, face: Encoding, distance: (Encoding, Encoding) -> real): (cs: seq<real>)
    ensures |cs| == |roster|
    ensures forall i :: 0 <= i < |roster| ==>
      (cs[i] > MatchThreshold <==> distance(roster[i].encoding, face) < 1.0 - MatchThreshold)
    ensures forall i, j :: 0 <= i < |roster| && 0 <= j < |roster| ==>
      (cs[i] < cs[j] <==> distance(roster[j].encoding, face) < distance(roster[i].encoding, face))
  {
    seq(|roster|, i requires 0 <= i < |roster| => 1.0 - distance(roster[i].encoding, face))
  }

  predicate NoneQualifies(cs: seq<real>) {
    forall j :: 0 <= j < |cs| ==> cs[j] <= MatchThreshold
  }

  /** Entry `k` is above the threshold, no entry beats it, and every entry before it is
      strictly worse: the first of the best. */
  predicate FirstBest(cs: seq<real>, k: nat) {
    && k < |cs|
    && cs[k] > MatchThreshold
    && (forall j :: 0 <= j < |cs| ==> cs[j] <= cs[k])
    && (forall j :: 0 <= j < k ==> cs[j] < cs[k])
  }

  /** The entry the scan keeps; none when no confidence is above the threshold. */
  function Pick(cs: seq<real>): (k: Option<nat>)
    ensures k.None? <==> NoneQualifies(cs)
    ensures k.Some? ==> FirstBest(cs, k.value)
  {
    if cs == [] then None
    else
      var n := |cs| - 1;
      var prefix := cs[..n];
      assert forall j :: 0 <= j < n ==> prefix[j] == cs[j];
      var k := Pick(prefix);
      if cs[n] > MatchThreshold && (k.None? || cs[n] > cs[k.value]) then Some(n) else k
  }

  /** Scanning one entry further keeps the pick, or moves it to the new entry. */
  lemma PickStep(cs: seq<real>, i: nat)
    requires i < |cs|
    ensures Pick(cs[..i + 1]) ==
      var k := Pick(cs[..i]);
      if cs[i] > MatchThreshold && (k.None? || cs[i] > cs[k.value]) then Some(i) else k
  {
    assert cs[..i + 1][..i] == cs[..i];
  }

  /** There is only one first best entry. */
  lemma FirstBestUnique(cs: seq<real>, k: nat, k': nat)
    requires FirstBest(cs, k) && FirstBest(cs, k')
    ensures k == k'
  {
  }

  function IdentityOf(roster: seq<Profile>, cs: seq<real>, k: Option<nat>): Identity
    requires |cs| == |roster|
    requires k.Some? ==> k.value < |roster|
  {
    if k.None? then Unrecognised
    else Identity(Label(roster[k.value].name, cs[k.value]), Some(roster[k.value].id), cs[k.value])
  }

  /** What the roster scan makes of one face. */
  function Identify(roster: seq<Profile>, face: Encoding, distance: (Encoding, Encoding) -> real): Identity {
    var cs := Confidences(roster, face, distance);
    IdentityOf(roster, cs, Pick(cs))
  }

  /** A face is unknown, with no employee and confidence 0, unless some roster entry is
      above the threshold; otherwise it is the first entry of maximal confidence. */
  lemma IdentifySpec(roster: seq<Profile>, face: Encoding, distance: (Encoding, Encoding) -> real)
    ensures var cs := Confidences(roster, face, distance);
      && (Identify(roster, face, distance) == Unrecognised <==> NoneQualifies(cs))
      && (!NoneQualifies(cs) ==>
            exists k: nat :: FirstBest(cs, k) &&
              Identify(roster, face, distance) == Identity(Label(roster[k].name, cs[k]), Some(roster[k].id), cs[k]))
  {
    var cs := Confidences(roster, face, distance);
    var k := Pick(cs);
    if k.Some? {
      assert cs[k.value] > MatchThreshold;
      assert Identify(roster, face, distance).confidence != 0.0;
    }
  }

  /** A label for a recognised face ends in `)`, so it is never "Unknown". */
  lemma LabelNotUnknown(name: string, confidence: real)
    ensures Label(name, confidence) != Unknown
  {
    var l := Label(name, confidence);
    assert l[|l| - 1] == ')';
    assert Unknown[|Unknown| - 1] == 'n';
  }

  /** What a reported label says about the roster: "Unknown" exactly when no entry is
      above the threshold, and otherwise the label of the first entry of maximal
      confidence. */
  ghost predicate TellsMatch(roster: seq<Profile>, face: Encoding, distance: (Encoding, Encoding) -> real, text: string) {
    var cs := Confidences(roster, face, distance);
    && (text == Unknown <==> NoneQualifies(cs))
    && (!NoneQualifies(cs) ==> exists k: nat :: FirstBest(cs, k) && text == Label(roster[k].name, cs[k]))
  }

  /** What a reported employee says about the roster: none exactly when no entry is above
      the threshold, and otherwise the employee of the first entry of maximal
      confidence. */
  ghost predicate NamesMatch(roster: seq<Profile>, face: Encoding, distance: (Encoding, Encoding) -> real, id: Option<int>) {
    var cs := Confidences(roster, face, distance);
    && (id.None? <==> NoneQualifies(cs))
    && (id.Some? ==> exists k: nat :: FirstBest(cs, k) && id.value == roster[k].id)
  }

  /** The label and the employee of every identified face tell the match. */
  lemma IdentifyReports(roster: seq<Profile>, faces: seq<Encoding>, distance: (Encoding, Encoding) -> real)
    ensures forall i :: 0 <= i < |faces| ==>
      && TellsMatch(roster, faces[i], distance, Identify(roster, faces[i], distance).text)
      && NamesMatch(roster, faces[i], distance, Identify(roster, faces[i], distance).employeeId)
  {
    forall i | 0 <= i < |faces|
      ensures TellsMatch(roster, faces[i], distance, Identify(roster, faces[i], distance).text)
      ensures NamesMatch(roster, faces[i], distance, Identify(roster, faces[i], distance).employeeId)
    {
      var cs := Confidences(roster, faces[i], distance);
      var k := Pick(cs);
      if k.Some? {
        LabelNotUnknown(roster[k.value].name, cs[k.value]);
      }
    }
  }

  /** The roster loop of `_process_frame` for one face. */
  method MatchFace(roster: seq<Profile>, face: Encoding, distance: (Encoding, Encoding) -> real) returns (r: Identity)
    ensures r == Identify(roster, face, distance)
  {
    ghost var cs := Confidences(roster, face, distance);
    ghost var k: Option<nat> := None;
    r := Unrecognised;
    var i := 0;
    while i < |roster|
      invariant 0 <= i <= |roster|
      invariant k == Pick(cs[..i])
      invariant k.Some? ==> k.value < i
      invariant r == IdentityOf(roster, cs, k)
    {
      var current := 1.0 - distance(roster[i].encoding, face);
      PickStep(cs, i);
      if current > MatchThreshold && current > r.confidence {
        r := Identity(Label(roster[i].name, current), Some(roster[i].id), current);
        k := Some(i);
      }
      i := i + 1;
    }
    assert cs[..|roster|] == cs;
  }

  // ---- the attendance cooldown ---------------------------------------------------

  /** `last_attendance_time.get(employee_id, 0)`. */
  function LastSeen(last: map<int, real>, id: int): real {
    if id in last then last[id] else 0.0
  }

  /** The cooldown map and the ids handed to `log_attendance`, as a frame goes by. */
  datatype Cooldown = Cooldown(last: map<int, real>, logged: seq<int>)

  /** One face: a recognised employee whose cooldown has passed gets the current time in
      the map, and is logged when there is an application to log into. */
  function Visit(c: Cooldown, id: Option<int>, now: real, hasApp: bool): (r: Cooldown)
    ensures id.None? || now - LastSeen(c.last, id.value) <= AttendanceCooldown ==> r == c
    ensures id.Some? && now - LastSeen(c.last, id.value) > AttendanceCooldown ==>
      && r.last.Keys == c.last.Keys + {id.value}
      && r.last[id.value] == now
      && (forall k :: k in c.last && k != id.value ==> r.last[k] == c.last[k])
      && r.logged == c.logged + (if hasApp then [id.value] else [])
    ensures forall k :: k in c.last ==> k in r.last && r.last[k] >= c.last[k]
  {
    if id.Some? && now - LastSeen(c.last, id.value) > AttendanceCooldown then
      Cooldown(c.last[id.value := now], c.logged + if hasApp then [id.value] else [])
    else c
  }

  /** The faces of a frame, one after the other; `clock(i)` is the time read for face `i`. */
  function VisitAll(c: Cooldown, ids: seq<Option<int>>, clock: nat -> real, hasApp: bool): Cooldown
    decreases |ids|
  {
    if ids == [] then c
    else
      var n := |ids| - 1;
      Visit(VisitAll(c, ids[..n], clock, hasApp), ids[n], clock(n), hasApp)
  }

  /** One more face extends the fold by one `Visit`. */
  lemma VisitAllSnoc(c: Cooldown, ids: seq<Option<int>>, i: nat, clock: nat -> real, hasApp: bool)
    requires i < |ids|
    ensures VisitAll(c, ids[..i + 1], clock, hasApp) == Visit(VisitAll(c, ids[..i], clock, hasApp), ids[i], clock(i), hasApp)
  {
    assert ids[..i + 1][..i] == ids[..i];
  }

  /** The map is updated whether or not there is an application, and nothing is logged
      without one. */
  lemma {:induction false} VisitAllWithoutApp(c: Cooldown, ids: seq<Option<int>>, clock: nat -> real)
    ensures VisitAll(c, ids, clock, false).last == VisitAll(c, ids, clock, true).last
    ensures VisitAll(c, ids, clock, false).logged == c.logged
    decreases |ids|
  {
    if ids != [] {
      VisitAllWithoutApp(c, ids[..|ids| - 1], clock);
    }
  }

  /** Only employees recognised in the frame are logged, and the map changes only at
      their entries. */
  lemma {:induction false} VisitAllTouchesOnlyRecognised(c: Cooldown, ids: seq<Option<int>>, clock: nat -> real, hasApp: bool)
    ensures var r := VisitAll(c, ids, clock, hasApp);
      && |c.logged| <= |r.logged| && r.logged[..|c.logged|] == c.logged
      && (forall i :: |c.logged| <= i < |r.logged| ==> Some(r.logged[i]) in ids)
      && (forall k :: k in c.last && Some(k) !in ids ==> k in r.last && r.last[k] == c.last[k])
      && (forall k :: k in r.last && Some(k) !in ids ==> k in c.last)
    decreases |ids|
  {
    if ids != [] {
      var n := |ids| - 1;
      VisitAllTouchesOnlyRecognised(c, ids[..n], clock, hasApp);
      var p := VisitAll(c, ids[..n], clock, hasApp);
      var r := VisitAll(c, ids, clock, hasApp);
      assert r == Visit(p, ids[n], clock(n), hasApp);
      assert forall x :: x in ids[..n] ==> x in ids;
      assert r.logged[..|p.logged|] == p.logged;
      forall i | |c.logged| <= i < |r.logged| ensures Some(r.logged[i]) in ids {
        if i >= |p.logged| {
          assert r.logged[i] == ids[n].value;
        } else {
          assert r.logged[i] == p.logged[i];
        }
      }
    }
  }

  /** With a frame's clock readings within the cooldown of each other, nobody is logged
      twice for one frame. */
  lemma {:induction false} OncePerFrame(c: Cooldown, ids: seq<Option<int>>, clock: nat -> real, hasApp: bool)
    requires forall i, j :: 0 <= i < j < |ids| ==> clock(j) - clock(i) <= AttendanceCooldown
    ensures var r := VisitAll(c, ids, clock, hasApp);
      forall i, j :: |c.logged| <= i < j < |r.logged| ==> r.logged[i] != r.logged[j]
    decreases |ids|
  {
    if ids != [] {
      var n := |ids| - 1;
      OncePerFrame(c, ids[..n], clock, hasApp);
      var p := VisitAll(c, ids[..n], clock, hasApp);
      assert var r := VisitAll(c, ids[..n], clock, hasApp);
        forall i, j :: |c.logged| <= i < j < |r.logged| ==> r.logged[i] != r.logged[j];
      var r := VisitAll(c, ids, clock, hasApp);
      assert r == Visit(p, ids[n], clock(n), hasApp);
      if |r.logged| > |p.logged| {
        var id := ids[n].value;
        assert r.logged == p.logged + [id];
        forall i | |c.logged| <= i < |p.logged| ensures p.logged[i] != id {
          var i0 := SeenAt(c, ids[..n], clock, hasApp, i);
          assert clock(n) - clock(i0) <= AttendanceCooldown;
        }
        forall i, j | |c.logged| <= i < j < |r.logged| ensures r.logged[i] != r.logged[j] {
          if j < |p.logged| {
            assert r.logged[i] == p.logged[i] && r.logged[j] == p.logged[j];
            assert p.logged[i] != p.logged[j];
          } else {
            assert j == |p.logged|;
            assert r.logged[j] == id;
            assert r.logged[i] == p.logged[i];
            assert p.logged[i] != id;
          }
        }
      }
    }
  }

  /** An id logged while going through `ids` carries in the map a stamp no earlier than
      the clock reading of one of the faces. */
  lemma {:induction false} SeenAt(c: Cooldown, ids: seq<Option<int>>, clock: nat -> real, hasApp: bool, i: int)
      returns (t: nat)
    requires var r := VisitAll(c, ids, clock, hasApp); |c.logged| <= i < |r.logged|
    ensures var r := VisitAll(c, ids, clock, hasApp);
      t < |ids| && r.logged[i] in r.last && r.last[r.logged[i]] >= clock(t)
    decreases |ids|
  {
    var n := |ids| - 1;
    var p := VisitAll(c, ids[..n], clock, hasApp);
    var r := VisitAll(c, ids, clock, hasApp);
    assert r == Visit(p, ids[n], clock(n), hasApp);
    if i >= |p.logged| {
      t := n;
    } else {
      t := SeenAt(c, ids[..n], clock, hasApp, i);
      assert r.logged[i] == p.logged[i];
    }
  }

  // ---- the service -----------------------------------------------------------------

  /** A face as `_process_frame` reports it: its box and its label. */
  datatype Face = Face(box: Box, text: string)

  /** The employee each located face is taken for, face by face: none for a face nobody
      on the roster matches, otherwise the first best match. */
  function FrameIds(roster: seq<Profile>, encodings: seq<Encoding>, n: nat, distance: (Encoding, Encoding) -> real): (r: seq<Option<int>>)
    requires n <= |encodings|
    ensures |r| == n && forall i :: 0 <= i < n ==> NamesMatch(roster, encodings[i], distance, r[i])
  {
    IdentifyReports(roster, encodings, distance);
    seq(n, i requires 0 <= i < n <= |encodings| => Identify(roster, encodings[i], distance).employeeId)
  }

  /** The faces `_process_frame` reports for a frame: one per pair of detection and
      encoding, each with its pixel box and what it is taken for. */
  function FrameFaces(frame: Frames.Frame, detections: seq<RelativeBox>, encodings: seq<Encoding>,
                      roster: seq<Profile>, distance: (Encoding, Encoding) -> real): (r: seq<Face>)
    ensures |r| == Min(|detections|, |encodings|)
    ensures forall i :: 0 <= i < |r| ==>
      && r[i].box == ClampBox(detections[i], frame.width, frame.height)
      && 0 <= r[i].box.x && r[i].box.x + r[i].box.width <= frame.width
      && 0 <= r[i].box.y && r[i].box.y + r[i].box.height <= frame.height
      && TellsMatch(roster, encodings[i], distance, r[i].text)
  {
    IdentifyReports(roster, encodings, distance);
    var n := Min(|detections|, |encodings|);
    seq(n, i requires 0 <= i < n => Face(ClampBox(detections[i], frame.width, frame.height), Identify(roster, encodings[i], distance).text))
  }

  /** The first loop of `_process_frame`: the location of each detection. */
  method Locate(frame: Frames.Frame, detections: seq<RelativeBox>) returns (locations: seq<Location>)
    ensures |locations| == |detections|
    ensures forall k :: 0 <= k < |detections| ==>
      FromLocation(locations[k]) == ClampBox(detections[k], frame.width, frame.height)
  {
    locations := [];
    var j := 0;
    while j < |detections|
      invariant 0 <= j <= |detections| && |locations| == j
      invariant forall k :: 0 <= k < j ==> FromLocation(locations[k]) == ClampBox(detections[k], frame.width, frame.height)
    {
      locations := locations + [ToLocation(ClampBox(detections[j], frame.width, frame.height))];
      j := j + 1;
    }
  }

  /** The cooldown check for a recognised face: the employee is stamped with `now` and
      handed to `log_attendance` (when there is an application) only once more than the
      cooldown has passed since the last stamp. */
  method CheckCooldown(last0: map<int, real>, logged0: seq<int>, id: int, now: real, hasApp: bool)
    returns (last: map<int, real>, logged: seq<int>)
    ensures Cooldown(last, logged) == Visit(Cooldown(last0, logged0), Some(id), now, hasApp)
  {
    last, logged := last0, logged0;
    if now - LastSeen(last, id) > AttendanceCooldown {
      last := last[id := now];
      if hasApp {
        logged := logged + [id];
      }
    }
  }

  /** The faces of a frame from their locations: each with its box and what it is taken for. */
  function LocatedFaces(roster: seq<Profile>, locations: seq<Location>, encodings: seq<Encoding>, n: nat,
                        distance: (Encoding, Encoding) -> real): (r: seq<Face>)
    requires n <= |locations| && n <= |encodings|
    ensures |r| == n
    ensures forall k :: 0 <= k < n ==> r[k].box == FromLocation(locations[k]) && TellsMatch(roster, encodings[k], distance, r[k].text)
  {
    IdentifyReports(roster, encodings, distance);
    seq(n, k requires 0 <= k < n <= |locations| && n <= |encodings| => Face(FromLocation(locations[k]), Identify(roster, encodings[k], distance).text))
  }

  /** Matching face `i` extends the faces reported so far by one, and yields the employee
      that the cooldown then goes through. */
  lemma MatchStep(roster: seq<Profile>, locations: seq<Location>, encodings: seq<Encoding>, n: nat,
                  distance: (Encoding, Encoding) -> real, i: nat, who: Identity)
    requires i < n <= |locations| && n <= |encodings|
    requires who == Identify(roster, encodings[i], distance)
    ensures LocatedFaces(roster, locations, encodings, n, distance)[..i + 1]
      == LocatedFaces(roster, locations, encodings, n, distance)[..i] + [Face(FromLocation(locations[i]), who.text)]
    ensures FrameIds(roster, encodings, n, distance)[i] == who.employeeId
  {
    var faces := LocatedFaces(roster, locations, encodings, n, distance);
    assert faces[..i + 1] == faces[..i] + [faces[i]];
  }

  /** The second loop of `_process_frame`: each located face paired with its encoding is
      matched against the roster and goes through the cooldown, in order. */
  method MatchFaces(roster: seq<Profile>, locations: seq<Location>, encodings: seq<Encoding>,
                    distance: (Encoding, Encoding) -> real, clock: nat -> real, hasApp: bool, last0: map<int, real>)
    returns (detected: seq<Face>, last: map<int, real>, logged: seq<int>)
    ensures var n := Min(|locations|, |encodings|);
      && |detected| == n
      && detected == LocatedFaces(roster, locations, encodings, n, distance)
      && Cooldown(last, logged) == VisitAll(Cooldown(last0, []), FrameIds(roster, encodings, n, distance), clock, hasApp)
  {
    var n := Min(|locations|, |encodings|);
    ghost var ids := FrameIds(roster, encodings, n, distance);
    ghost var faces := LocatedFaces(roster, locations, encodings, n, distance);
    last := last0;
    detected, logged := [], [];
    var i := 0;
    while i < n
      invariant 0 <= i <= n && |detected| == i
      invariant detected == faces[..i]
      invariant Cooldown(last, logged) == VisitAll(Cooldown(last0, []), ids[..i], clock, hasApp)
    {
      var who := MatchFace(roster, encodings[i], distance);
      VisitAllSnoc(Cooldown(last0, []), ids, i, clock, hasApp);
      MatchStep(roster, locations, encodings, n, distance, i, who);
      if who.employeeId.Some? {
        last, logged := CheckCooldown(last, logged, who.employeeId.value, clock(i), hasApp);
      }
      detected := detected + [Face(FromLocation(locations[i]), who.text)];
      i := i + 1;
    }
    assert ids[..n] == ids;
    assert faces[..n] == faces;
  }

  class OptimizedFaceService {
    /** The faces of the last processed frame. */
    var faces: seq<Face>
    var running: bool
    const db: DbService.DatabaseService
    var employeeProfiles: seq<Profile>
    /** Whether the service was given a Flask application (`self.app`). */
    const hasApp: bool
    var frameCount: int
    var lastAttendanceTime: map<int, real>
    var fpsValues: seq<real>
    /** Set by `start`. */
    var frameQueue: Frames.FrameQueue?

    ghost predicate Valid()
      reads this, frameQueue
    {
      && frameCount >= 0
      && |fpsValues| <= FpsWindow
      && (running ==> frameQueue != null && frameQueue.Valid())
    }

    constructor (db: DbService.DatabaseService, hasApp: bool)
      ensures Valid() && this.db == db && this.hasApp == hasApp
      ensures faces == [] && !running && employeeProfiles == [] && frameCount == 0
      ensures lastAttendanceTime == map[] && fpsValues == [] && frameQueue == null
    {
      this.db := db;
      this.hasApp := hasApp;
      faces := [];
      running := false;
      employeeProfiles := [];
      frameCount := 0;
      lastAttendanceTime := map[];
      fpsValues := [];
      frameQueue := null;
    }

    /** `start(frame_queue)`: nothing when already running; otherwise running on that
        queue with the roster loaded from the database. */
    method Start(queue: Frames.FrameQueue, queryOk: bool)
      requires Valid() && queue.Valid()
      modifies this
      ensures Valid()
      ensures old(running) ==> running && frameQueue == old(frameQueue) && employeeProfiles == old(employeeProfiles)
      ensures !old(running) ==> running && frameQueue == queue && employeeProfiles == (if queryOk then DbService.Roster(db.employees) else [])
      ensures faces == old(faces) && frameCount == old(frameCount)
      ensures lastAttendanceTime == old(lastAttendanceTime) && fpsValues == old(fpsValues)
    {
      if running {
        return;
      }
      running := true;
      frameQueue := queue;
      employeeProfiles := db.LoadEmployeeEncodings(queryOk);
    }

    /** `_process_frame`: the faces found on `frame`, and the ids it would log. */
    method ProcessFrame(frame: Frames.Frame, detections: seq<RelativeBox>, encodings: seq<Encoding>,
                        distance: (Encoding, Encoding) -> real, clock: nat -> real)
      returns (detected: seq<Face>, logged: seq<int>)
      modifies this
      ensures detected == if |detections| == 0 then [] else FrameFaces(frame, detections, encodings, employeeProfiles, distance)
      ensures |detections| == 0 ==> lastAttendanceTime == old(lastAttendanceTime) && logged == []
      ensures |detections| > 0 ==>
        var n := Min(|detections|, |encodings|);
        var after := VisitAll(Cooldown(old(lastAttendanceTime), []), FrameIds(employeeProfiles, encodings, n, distance), clock, hasApp);
        lastAttendanceTime == after.last && logged == after.logged
      ensures faces == old(faces) && running == old(running) && employeeProfiles == old(employeeProfiles)
      ensures frameCount == old(frameCount) && fpsValues == old(fpsValues) && frameQueue == old(frameQueue)
    {
      if |detections| == 0 {
        return [], [];
      }
      var locations := Locate(frame, detections);
      var last;
      detected, last, logged := MatchFaces(employeeProfiles, locations, encodings, distance, clock, hasApp, lastAttendanceTime);
      lastAttendanceTime := last;
    }

    /** One pass of `_detection_loop`: nothing when the queue is empty; otherwise the
        oldest frame is taken and counted, and every `FrameSkip`-th one is processed, its
        frame rate entering the rolling window and its faces becoming the current ones. */
    method DetectionStep(detections: seq<RelativeBox>, encodings: seq<Encoding>,
                         distance: (Encoding, Encoding) -> real, clock: nat -> real, fps: real)
      returns (processed: bool, logged: seq<int>)
      requires Valid() && running
      modifies this, frameQueue
      ensures Valid() && running && frameQueue == old(frameQueue) && employeeProfiles == old(employeeProfiles)
      ensures old(frameQueue.items) == [] ==>
        && !processed && logged == []
        && frameQueue.items == old(frameQueue.items) && frameCount == old(frameCount)
      ensures old(frameQueue.items) != [] ==>
        frameQueue.items == old(frameQueue.items)[1..] && frameCount == old(frameCount) + 1
      ensures processed <==> old(frameQueue.items) != [] && frameCount % FrameSkip == 0
      ensures processed ==>
        && fpsValues == Window.PushBounded(old(fpsValues), fps, FpsWindow)
        && faces == (if |detections| == 0 then [] else FrameFaces(old(frameQueue.items)[0], detections, encodings, employeeProfiles, distance))
        && (|detections| == 0 ==> lastAttendanceTime == old(lastAttendanceTime) && logged == [])
        && (|detections| > 0 ==>
              var n := Min(|detections|, |encodings|);
              var after := VisitAll(Cooldown(old(lastAttendanceTime), []), FrameIds(employeeProfiles, encodings, n, distance), clock, hasApp);
              lastAttendanceTime == after.last && logged == after.logged)
      ensures !processed ==>
        && fpsValues == old(fpsValues) && faces == old(faces)
        && lastAttendanceTime == old(lastAttendanceTime) && logged == []
    {
      if frameQueue.Empty() {
        return false, [];
      }
      var frame := frameQueue.Get();
      frameCount := frameCount + 1;
      if frameCount % FrameSkip != 0 {
        return false, [];
      }
      logged := Detect(frame, detections, encodings, distance, clock, fps);
      processed := true;
    }

    /** The processing of a frame the skip lets through: the FPS reading goes into the
        window and the faces found replace those of the previous frame. */
    method Detect(frame: Frames.Frame, detections: seq<RelativeBox>, encodings: seq<Encoding>,
                  distance: (Encoding, Encoding) -> real, clock: nat -> real, fps: real)
      returns (logged: seq<int>)
      requires Valid() && running
      modifies this
      ensures Valid() && running && frameQueue == old(frameQueue) && employeeProfiles == old(employeeProfiles)
      ensures frameCount == old(frameCount)
      ensures fpsValues == Window.PushBounded(old(fpsValues), fps, FpsWindow)
      ensures faces == (if |detections| == 0 then [] else FrameFaces(frame, detections, encodings, employeeProfiles, distance))
      ensures |detections| == 0 ==> lastAttendanceTime == old(lastAttendanceTime) && logged == []
      ensures |detections| > 0 ==>
        var n := Min(|detections|, |encodings|);
        var after := VisitAll(Cooldown(old(lastAttendanceTime), []), FrameIds(employeeProfiles, encodings, n, distance), clock, hasApp);
        lastAttendanceTime == after.last && logged == after.logged
    {
      Window.PushBoundedKeepsNewest(fpsValues, fps, FpsWindow);
      fpsValues := Window.PushBounded(fpsValues, fps, FpsWindow);
      var detected;
      detected, logged := ProcessFrame(frame, detections, encodings, distance, clock);
      faces := detected;
    }
  }

  /** Over any run of passes, exactly every `FrameSkip`-th dequeued frame is processed:
      of the frames counted from `before` to `after`, the processed ones are those whose
      count is a multiple of `FrameSkip`. */
  lemma {:induction false} ProcessedCount(before: nat, after: nat)
    requires before <= after
    ensures after / FrameSkip - before / FrameSkip == |set k | k % FrameSkip == 0 && before < k <= after|
    decreases after - before
  {
    if after > before {
      ProcessedCount(before, after - 1);
      var s := set k | k % FrameSkip == 0 && before < k <= after - 1;
      var s' := set k | k % FrameSkip == 0 && before < k <= after;
      if after % FrameSkip == 0 {
        assert s' == s + {after};
      } else {
        assert s' == s;
      }
    }
  }
}
