# admin-web-punch: the capture, recognition and attendance core in Dafny

admin-web-punch is an attendance system. A capture thread reads a camera, falling back
over several camera sources, and hands frames through a bounded queue to a detection
thread. The detection thread finds faces, matches each one against the employee roster,
and logs attendance for recognised employees once a cooldown has passed. The database
service debounces attendance rows. The notification service keeps a notification table.
The admin pages show a seven-day attendance series and a per-day list, and check uploaded
file names.

This project models the decision and bookkeeping code of that core. It proves what each
operation does to the state it owns:

- `FaceService`: the box clamp and conversion of `_process_frame` and the roster scan
  (strict `> 0.6`, first of the best). It also covers the per-employee cooldown map, the
  frame-skip and rolling FPS window of the detection loop, and the box-colour rule.
- `VideoService`: the single instance and its `__init__` guard, `start`, and the camera
  rotation of `_ensure_capture_open`. It also covers `_reconnect`, one pass of the capture
  loop (retry counter, `frame_times` window, frame skip, lossy queue hand-off) and the
  error counter of `generate_frames`.
- `Frames`: the `Queue(maxsize=20)` between the two threads.
- `DbService`: `load_employee_encodings`, `add_employee`, `update_employee_photo` and
  `log_attendance`, each over the employee and attendance tables held as sequences of
  rows.
- `Notifications`: `create_notification`, `get_notifications`, `mark_as_read`,
  `mark_all_as_read` and `delete_old_notifications` over the notification table.
- `Utils` and `AdminRoutes`: `allowed_file`, the admin view's copy of it, the date the
  `attendance` view falls back to, and the day loop of `api_attendance_weekly`.
- `Dates`, `Window`, `Records`, `Config`, `Arith` and `Wrappers` support these modules.
  `Dates` holds `datetime.date` arithmetic and the `'%Y-%m-%d'` `strftime`/`strptime`
  pair. `Window` holds the bounded `append`/`pop(0)` list. `Records` holds the row
  shapes of app/models.py. `Config` holds the configured extensions. `Arith` holds two
  facts about division.

What the outside world does is a parameter of the operation that meets it:

- The camera: whether a grab, an open or a read works, given per attempt as a `Probe`.
- The face library: the detector's boxes, the encodings, and `face_distance` as a
  function returning a real.
- Whether a database commit succeeds.
- Whether the frame processing of a capture pass raises: `cv2.resize` (run only for a
  frame of another size) or `cv2.cvtColor`, each a boolean of the pass. The enhancement
  catches its own errors, and motion detection is off.
- The clocks: microsecond timestamps for the database, real seconds for the face
  service's `time.time()`.

Three points of the code are worth stating, since a reader might expect otherwise:

- Attendance is only rows of `(employee_id, timestamp)`: `log_attendance`
  (app/services/db_service.py:81-101) appends one after a five-minute debounce. There is
  no check-in/check-out state and no work-hour rule.
- A failed read does not move on to the next camera: `_capture_loop`
  (app/services/optimized_video_service.py:218-221) calls `_reconnect` (lines 183-190),
  which keeps `current_camera_index`, so the same camera is tried again first.
- The cooldown is stamped whatever the database does: `_process_frame`
  (app/services/optimized_face_service.py:156-162) sets `last_attendance_time` before it
  calls `log_attendance`, so `Visit` updates the map without looking at the database.

## Model

| member | source | states |
|---|---|---|
| FaceService.Trunc | app/services/optimized_face_service.py:120-123 | `int()` on a float truncates toward zero: below or at a non-negative value, at or above a negative one, less than one away |
| FaceService.ClampBox | app/services/optimized_face_service.py:119-123 | the pixel box starts in the frame (`x, y >= 0`) and ends in it (`x + width <= w`, `y + height <= h`); the corner is the truncated position pushed up to 0, and the size is the truncated size, cut only where it would cross the frame's edge |
| FaceService.ToLocation | app/services/optimized_face_service.py:126 | the `(top, right, bottom, left)` stored for a box converts back to exactly that box; left <= right and top <= bottom exactly when the width and the height are non-negative |
| FaceService.LocationRoundTrip | app/services/optimized_face_service.py:165 | converting a location to the output `(left, top, right - left, bottom - top)` and back gives the same location |
| FaceService.Confidences | app/services/optimized_face_service.py:140-143 | one confidence per roster entry, in roster order; an entry is above 0.6 exactly when its distance is below 0.4, and of two entries the nearer one is the more confident |
| FaceService.Identify | app/services/optimized_face_service.py:133-148 | the identity of one face: the label, id and confidence of the entry `Pick` keeps, or "Unknown", none and 0; its properties are those of `IdentifySpec` |
| FaceService.LabelNotUnknown | app/services/optimized_face_service.py:147 | a label `name (NN%)` is never the bare text "Unknown" |
| FaceService.IdentifyReports | app/services/optimized_face_service.py:133-148 | for every face of a frame, the label is "Unknown" and the id is none exactly when no roster entry is above 0.6; otherwise both come from the first entry of maximal confidence |
| FaceService.Pick | app/services/optimized_face_service.py:145-148 | no entry is kept exactly when no confidence is above 0.6; a kept entry is above 0.6, no other entry beats it, and every earlier entry is strictly worse (ties keep the first) |
| FaceService.FirstBestUnique | app/services/optimized_face_service.py:145 | exactly one entry can be the first of the best |
| FaceService.IdentifySpec | app/services/optimized_face_service.py:133-148 | a face is "Unknown" with no employee and confidence 0 exactly when no roster entry is above 0.6; otherwise it is labelled with, and carries the id and confidence of, the first entry of maximal confidence |
| FaceService.MatchFace | app/services/optimized_face_service.py:138-148 | the roster loop, with its running `confidence`, `label` and `employee_id`, ends with the identity `IdentifySpec` describes |
| FaceService.KnownLabelColour | app/services/optimized_face_service.py:147 | a recognised face's label `name (NN%)` contains "Unknown" exactly when the employee's name does, so the percentage never makes a known face look unknown |
| FaceService.Label | app/services/optimized_face_service.py:147 | the format `f"{name} ({int(confidence*100)}%)"`; `KnownLabelColour` and `LabelNotUnknown` state what it keeps apart |
| FaceService.BoxColourAsWritten | app/services/optimized_face_service.py:177-180 | the colour as written: `(255, 0, 0)` when the label contains "Unknown", `(0, 255, 0)` otherwise |
| FaceService.UnknownDrawnBlue | app/services/optimized_face_service.py:177-178 | on BGR frames the colour written for an unknown face is blue and never red |
| FaceService.BoxColour | app/services/optimized_face_service.py:177-180 | the intended rule: red exactly when the label contains "Unknown", green exactly when it does not |
| FaceService.Visit | app/services/optimized_face_service.py:151-162 | with no employee, or within 300 s of that employee's last stamp (0 when none), nothing changes; otherwise that employee's entry alone becomes `now` (added if missing) and the id is logged when there is an application; no stamp ever moves back |
| FaceService.VisitAll | app/services/optimized_face_service.py:156-162 | the cooldown check applied face after face over a frame, the `i`-th face read at `clock(i)`; stated by `VisitAllWithoutApp`, `VisitAllTouchesOnlyRecognised` and `OncePerFrame` |
| FaceService.VisitAllWithoutApp | app/services/optimized_face_service.py:156-162 | over a whole frame the map is updated the same with or without an application, and without one nothing is logged |
| FaceService.VisitAllTouchesOnlyRecognised | app/services/optimized_face_service.py:151-162 | over a frame, every id logged was recognised in that frame, earlier logs stay as they were, and map entries of employees not recognised in the frame are neither changed nor added |
| FaceService.OncePerFrame | app/services/optimized_face_service.py:152-157 | when a frame's clock readings lie within 300 s of each other, no employee is logged twice for that frame |
| FaceService.FrameIds | app/services/optimized_face_service.py:132-148 | one result per zipped face, in order; a face has no employee exactly when no roster entry is above 0.6 for it, and otherwise the id of the first entry of maximal confidence |
| FaceService.FrameFaces | app/services/optimized_face_service.py:132-165 | as many faces as there are zipped detection/encoding pairs (the shorter list); each box is the clamped detection and lies inside the frame; each label is "Unknown" exactly when no roster entry is above 0.6, and otherwise the name and percentage of the first entry of maximal confidence |
| FaceService.Locate | app/services/optimized_face_service.py:117-126 | one location per detection, each converting back to that detection's clamped box |
| FaceService.CheckCooldown | app/services/optimized_face_service.py:151-162 | the imperative cooldown check leaves the map and the logged ids exactly as `Visit` says |
| FaceService.LocatedFaces | app/services/optimized_face_service.py:132-165 | the first `n` faces, each with the box its location converts to, labelled "Unknown" exactly when no roster entry is above 0.6 and otherwise with the first entry of maximal confidence |
| FaceService.MatchFaces | app/services/optimized_face_service.py:132-165 | the zip loop reports one face per pair in order, and leaves the cooldown map and the logged ids as `Visit` applied face after face, the `i`-th face read at `clock(i)` |
| FaceService.OptimizedFaceService.constructor | app/services/optimized_face_service.py:32-51 | no faces, not running, empty roster, `frame_count` 0, empty cooldown map, empty FPS list |
| FaceService.OptimizedFaceService.Start | app/services/optimized_face_service.py:54-62 | already running: nothing changes; otherwise running on the given queue with the roster `load_employee_encodings` gives |
| FaceService.OptimizedFaceService.ProcessFrame | app/services/optimized_face_service.py:106-167 | no detections: no faces, and the map and the logs are untouched; otherwise the faces of `FrameFaces`, and the map and logged ids after the frame's cooldown fold; no other field changes |
| FaceService.OptimizedFaceService.DetectionStep | app/services/optimized_face_service.py:78-104 | an empty queue changes nothing; otherwise the oldest frame leaves the queue and `frame_count` goes up by one; the frame is processed exactly when the new count is a multiple of 2, and then the FPS reading enters the window and the frame's faces and cooldown outcome replace the old ones; otherwise they stay |
| FaceService.OptimizedFaceService.Detect | app/services/optimized_face_service.py:91-104 | the FPS window after one bounded push, and the faces and cooldown outcome of `ProcessFrame` for the frame |
| FaceService.ProcessedCount | app/services/optimized_face_service.py:85-89 | of the frames counted from `before` to `after`, the number processed is `after / 2 - before / 2`: exactly the counts that are multiples of 2 |
| Window.PushBounded | app/services/optimized_face_service.py:94-96 | `append` then `pop(0)` when the list is over the bound; stated by `PushBoundedKeepsNewest` |
| Window.PushBoundedKeepsNewest | app/services/optimized_face_service.py:94-96 | after `append` and at most one `pop(0)`, the list holds at most 30 entries: the newest in order, ending with the value just pushed |
| Window.PushAll | app/services/optimized_video_service.py:230-232 | pushes a sequence of values one after the other; stated by `PushAllKeepsNewest` |
| Window.PushAllKeepsNewest | app/services/optimized_video_service.py:230-232 | after any sequence of pushes, the list holds the most recent `min(total, 30)` values, oldest first |
| Frames.FrameQueue.constructor | app/services/optimized_video_service.py:26 | an empty queue with the given bound |
| Frames.FrameQueue.Full | app/services/optimized_video_service.py:268 | `full()` holds exactly when the queue holds as many items as its bound |
| Frames.FrameQueue.Put | app/services/optimized_video_service.py:269 | on a queue that is not full, the frame joins the back and the bound still holds |
| Frames.FrameQueue.Get | app/services/optimized_face_service.py:84 | on a queue that is not empty, the oldest frame is returned and leaves the front |
| Frames.FrameQueue.Empty | app/services/optimized_face_service.py:79 | `empty()`: the queue holds no frame, which `Get` then requires the caller to have ruled out |
| VideoService.DefaultCameraOptions | app/services/optimized_video_service.py:37-42 | three options: the configured stream (`rtsp`), then webcams 0 and 1 |
| VideoService.Opens | app/services/optimized_video_service.py:107-151 | an option opens when, for an `rtsp` source, it connects within the timeout, and the capture reports itself open and reads a test frame |
| VideoService.Rot | app/services/optimized_video_service.py:175 | the index of attempt `t` of a rotation is always a valid option index |
| VideoService.RotStep | app/services/optimized_video_service.py:175 | each attempt moves the index on by `(i + 1) % len(camera_options)` |
| VideoService.RotReturns | app/services/optimized_video_service.py:175-177 | the index is back at the start index after `t` steps exactly when `t` is the number of options, so `tried_all` becomes true then and not before |
| VideoService.RotDistinct | app/services/optimized_video_service.py:98-177 | within one round, two different attempts try two different options: no option is tried twice in a call |
| VideoService.RotCovers | app/services/optimized_video_service.py:98-177 | one round of the rotation reaches every option index |
| VideoService.ScanOptions | app/services/optimized_video_service.py:98-177 | from the start index, between 1 and `n` attempts, all but the last failed; on success the index is the option that opened; on failure all `n` options were tried, none of them opens, and the index is back at the start |
| VideoService.NextRetry | app/services/optimized_video_service.py:202-207 | `retry_count` goes up by one, or back to 0 once past 5; from 0..5 it stays in 0..5 |
| VideoService.RetriesAfter | app/services/optimized_video_service.py:194-210 | `retry_count` after `k` failed opens in a row; from 0..5 it stays in 0..5 |
| VideoService.RetriesCycle | app/services/optimized_video_service.py:194-210 | from 0, after `k` open failures in a row `retry_count` is `k % 6`: every sixth failure brings the long wait |
| VideoService.NextErrorCount | app/services/optimized_video_service.py:369-424 | `error_count` is 0 after a frame is sent and one more after an error, or 0 once past 5; throttling, a missing frame and a failed encode leave it; from 0..5 it stays in 0..5 |
| VideoService.OptimizedVideoService.Allocate | app/services/optimized_video_service.py:11-15 | `__new__` on first use: an object with `_initialized` false |
| VideoService.OptimizedVideoService.Init | app/services/optimized_video_service.py:17-65 | after the first call every later call changes no field; the first sets the URL, resolution, FPS, the three camera options, index 0, a new empty queue, and no capture, frame or counts |
| VideoService.OptimizedVideoService.SetDefaults | app/services/optimized_video_service.py:21-65 | the body of `__init__` past its guard: every field at its initial value, with a new empty queue |
| VideoService.OptimizedVideoService.Configure | app/services/optimized_video_service.py:28-43 | the URL, resolution, FPS, camera options and index as `__init__` sets them; every other field of the service is as it was |
| VideoService.OptimizedVideoService.Clear | app/services/optimized_video_service.py:22-58 | no capture, no frame, not running, every counter at 0, and the settings untouched |
| VideoService.OptimizedVideoService.Start | app/services/optimized_video_service.py:67-71 | `running` afterwards and every other field as it was; when it was already set, nothing changes |
| VideoService.OptimizedVideoService.EnsureCaptureOpen | app/services/optimized_video_service.py:84-181 | an open camera that still grabs is kept, nothing changes and the answer is true; otherwise the outcome of `ScanOptions`: on success the index names the option that opened, the capture is open and `reconnect_count` is 0; on failure no option opens, the index is where it started, no capture is held and the answer is false; no other field changes |
| VideoService.OptimizedVideoService.Reconnect | app/services/optimized_video_service.py:183-190 | the capture is dropped and `reconnect_count` goes up by exactly one; every other field is as it was |
| VideoService.OptimizedVideoService.CaptureFrame | app/services/optimized_video_service.py:214-279 | a failed read reconnects and changes no counter, window or queue; otherwise the read time enters the 30-entry window and `frame_count` goes up by one; a skipped count changes nothing more; a frame of another size whose resize raises changes nothing more either; otherwise the frame, at the configured resolution, is handed off as `HandOff` says; no other field changes |
| VideoService.OptimizedVideoService.HandOff | app/services/optimized_video_service.py:260-279 | the frame becomes the latest frame; when the colour conversion raises, nothing else changes; otherwise it joins the back of the queue when the queue is not full, or is dropped and `dropped_frames` goes up by exactly one; nothing else changes |
| VideoService.OptimizedVideoService.CaptureStep | app/services/optimized_video_service.py:199-279 | `retry_count` stays in 0..5, goes through `NextRetry` on a failed open and is 0 after a successful one; the state after the open is what `EnsureCaptureOpen` promises; with no camera nothing more changes; otherwise the state and queue after the pass are what `CaptureFrame` promises from the opened state |
| VideoService.OptimizedVideoService.StreamStep | app/services/optimized_video_service.py:415-422 | the error counter moves as `NextErrorCount` says; the error past `max_errors` reconnects exactly once, dropping the capture, counting one more reconnect and leaving every other field; no other pass changes the service |
| VideoService.VideoServiceClass.constructor | app/services/optimized_video_service.py:9 | no instance yet |
| VideoService.VideoServiceClass.Construct | app/services/optimized_video_service.py:11-21 | the first construction makes a new, initialised instance; every later one returns that same instance with all of its fields unchanged |
| Records.NextRowId | app/models.py:10 | a new primary key is positive and larger than every key in use |
| DbService.Roster | app/services/db_service.py:10-23 | one `{id, name, encoding}` per employee, in query order, or nothing when some stored encoding does not unpickle |
| DbService.LatestTimestamp | app/services/db_service.py:84-86 | none exactly when the employee has no row; otherwise the timestamp of one of the employee's rows, no earlier than any other of them |
| DbService.LatestAfterOther | app/services/db_service.py:94-96 | appending a row of another employee leaves an employee's newest entry as it was |
| DbService.LatestAfterOwn | app/services/db_service.py:94-96 | appending an employee's row at a time no earlier than any stored one makes it that employee's newest entry |
| DbService.RecentlyLogged | app/services/db_service.py:84-90 | the employee's newest row is less than five minutes before `now`; `LogAttendance` and `DebounceWindow` state its effect |
| DbService.DatabaseService.constructor | app/services/db_service.py:6 | the service over the given tables |
| DbService.DatabaseService.LoadEmployeeEncodings | app/services/db_service.py:7-23 | the loop yields the roster of the stored employees, and `[]` when the query fails |
| DbService.DatabaseService.AddEmployee | app/services/db_service.py:25-52 | true exactly when a face is found and the commit succeeds; then exactly one employee is appended, with a fresh id and the first encoding found; otherwise nothing changes |
| DbService.DatabaseService.UpdateEmployeePhoto | app/services/db_service.py:54-79 | true exactly when a face is found, an employee has the id and the commit succeeds; then that employee alone gets the first encoding (and a new `updated_at`); otherwise nothing changes |
| DbService.DatabaseService.LogAttendance | app/services/db_service.py:81-101 | nothing when the employee's newest row is less than 5 minutes old or the commit fails; otherwise exactly one row `(employee_id, now)` is appended; the employees are untouched |
| DbService.LogLeavesOthers | app/services/db_service.py:94-96 | logging one employee never changes another employee's debounce verdict |
| DbService.DebounceWindow | app/services/db_service.py:90 | with a clock that never goes back, after a row is logged at `now`, a later call for the same employee is refused exactly when it comes less than 5 minutes later |
| Notifications.ResolveIcon | app/services/notification_service.py:50-54 | the stored icon is absent or empty only when none was given and the type has no default; otherwise it starts with `fa-` |
| Notifications.IconMapPrefixed | app/services/notification_service.py:16-24 | every default icon starts with `fa-` |
| Notifications.ResolveIconCases | app/services/notification_service.py:51-54 | no icon and a known type: the type's default; an icon without `fa-`: `fa-` plus the icon; an icon with it: unchanged |
| Notifications.ResolveIconIdempotent | app/services/notification_service.py:51-54 | resolving a resolved icon again changes nothing |
| Notifications.Matching | app/services/notification_service.py:89-94 | exactly the notifications that are unread (unless `include_read`) and belong to the employee (when the id is truthy) |
| Notifications.Insert | app/services/notification_service.py:97 | inserting into a newest-first list keeps it newest first and adds exactly that element |
| Notifications.SortNewestFirst | app/services/notification_service.py:97 | `ORDER BY created_at DESC` gives a newest-first reordering of its input |
| Notifications.SortedLength | app/services/notification_service.py:97 | the ordering keeps the number of rows |
| Notifications.InSorted | app/services/notification_service.py:97 | the ordering keeps exactly the rows it was given |
| Notifications.GetNotificationsSound | app/services/notification_service.py:86-103 | every notification returned is a selected row of the table, and they come newest first |
| Notifications.GetNotificationsSize | app/services/notification_service.py:99-101 | as many are returned as are selected, cut to `limit` when it is non-zero |
| Notifications.GetNotificationsComplete | app/services/notification_service.py:86-103 | without a limit, every selected notification is returned |
| Notifications.GetNotificationsNewest | app/services/notification_service.py:97-101 | the limit keeps the newest: a selected notification left out is no newer than any returned |
| Notifications.GetNotificationsUnreadOnly | app/services/notification_service.py:89-90 | without `include_read`, only unread notifications are returned |
| Notifications.GetNotificationsForEmployee | app/services/notification_service.py:93-94 | with a truthy employee id, only that employee's notifications are returned |
| Notifications.GetNotifications | app/services/notification_service.py:86-103 | the selected rows newest first, cut to `limit` when it is non-zero; stated by the six `GetNotifications…` lemmas above |
| Notifications.CountUnreadFor | app/services/notification_service.py:136-141 | the count is 0 exactly when no row is unread for that filter |
| Notifications.MarkedRead | app/services/notification_service.py:136-147 | the same rows with the same ids; a row is read afterwards exactly when it was read or the filter selects it; only `is_read` ever changes and unselected rows stay as they were; afterwards no selected row is unread |
| Notifications.KeptAfter | app/services/notification_service.py:166-173 | the rows kept are a subsequence of the table, so they keep their store order, and a row is kept exactly when it was created at or after the cutoff |
| Notifications.KeptAfterCount | app/services/notification_service.py:166-173 | each row is kept as many times as it occurs in the table when it is not old, and not at all when it is |
| Notifications.CountOlder | app/services/notification_service.py:170-176 | the number of rows created before the cutoff, never more than the table holds |
| Notifications.DeleteOldSpec | app/services/notification_service.py:166-176 | the count is the number of rows that disappear; with none old, the table is unchanged |
| Notifications.KeptUnique | app/services/notification_service.py:173 | deleting keeps the ids distinct |
| Notifications.NotificationService.constructor | app/services/notification_service.py:26-32 | the service with the given `enabled` flag over the given table |
| Notifications.NotificationService.CreateNotification | app/services/notification_service.py:34-73 | disabled or a failed commit: `None` and nothing stored; otherwise one unread row with a fresh id and the resolved icon is appended and returned |
| Notifications.NotificationService.MarkAsRead | app/services/notification_service.py:105-124 | true exactly when a row has the id and the commit succeeds; then that row alone becomes read; otherwise nothing changes |
| Notifications.NotificationService.MarkAllAsRead | app/services/notification_service.py:126-151 | returns the number of unread rows the filter selects and makes exactly those read; a failed commit returns 0 and changes nothing |
| Notifications.NotificationService.DeleteOldNotifications | app/services/notification_service.py:153-180 | the rows created before `now - days` disappear and the rest stay, in store order (`KeptAfter`); their number is returned; a failed commit returns 0 and changes nothing |
| Utils.LowerChar | app/utils.py:15 | ASCII upper-case letters become lower-case; every other character stays |
| Utils.AllowedFile | app/utils.py:13-15 | `allowed_file`: a '.' is present and the text after the last one, lower-cased, is an allowed extension; stated by the lemmas below |
| Utils.ToLower | app/utils.py:15 | lower-casing acts on each character and keeps the length |
| Utils.Extension | app/utils.py:15 | `rsplit('.', 1)[1]`: the text after the last '.', which contains no '.' |
| Utils.ExtensionOfSplit | app/utils.py:15 | splitting `prefix + "." + ext` at its last '.' gives `ext` whenever `ext` has no '.' |
| Utils.NoDotRejected | app/utils.py:14 | a name without '.' is never allowed |
| Utils.TrailingDot | app/utils.py:15 | a name ending in '.' is allowed exactly when the empty extension is |
| Utils.OnlyLastExtension | app/utils.py:15 | only the last extension counts: `prefix.ext` is judged by `ext` lower-cased, whatever dots the prefix holds |
| Utils.ToLowerIdempotent | app/utils.py:15 | lower-casing twice is lower-casing once |
| Utils.ExtensionOfLower | app/utils.py:15 | the extension of the lower-cased name is the lower-cased extension |
| Utils.CaseInsensitive | app/utils.py:15 | lower-casing the whole name never changes the verdict |
| AdminRoutes.AllowedFile | app/admin/routes.py:179-181 | the admin check gives the same verdict as `Utils.AllowedFile` with the configured extensions |
| AdminRoutes.UpperCaseAccepted | app/admin/routes.py:179-181 | `X.JPG` is allowed |
| AdminRoutes.LastExtensionRejected | app/admin/routes.py:181 | `a.png.exe` is refused |
| AdminRoutes.NoExtensionRejected | app/admin/routes.py:179-181 | `file.` and `README` are refused |
| Dates.DaysBeforeYearClosed | app/admin/routes.py:156 | the day count of the years before `y`, year by year, equals the closed form `365p + p/4 - p/100 + p/400` (with `p = y - 1`) that `date` arithmetic uses |
| Dates.LeIffOrdinalLe | app/admin/routes.py:161 | `current_date <= end_date` on dates is the order of their day numbers |
| Dates.NextDay | app/admin/routes.py:175 | `+ timedelta(days=1)` gives a valid date one day number later |
| Dates.PrevDay | app/admin/routes.py:156 | `- timedelta(days=1)` gives a valid date one day number earlier |
| Dates.DaysBack | app/admin/routes.py:156 | `- timedelta(days=k)` gives a valid date `k` day numbers earlier |
| Dates.OrdinalInjective | app/admin/routes.py:161 | two valid dates with the same day number are the same date |
| Dates.NextDayWindow | app/admin/routes.py:162-163 | the next day's window starts one microsecond after this day's `datetime.max.time()` ends: the day windows leave no gap |
| Dates.DigitsRoundTrip | app/admin/routes.py:171 | reading back a number written with `w` zero-padded digits gives the number, when it fits |
| Dates.Format | app/admin/routes.py:171 | `strftime('%Y-%m-%d')` is ten characters with '-' at positions 4 and 7 |
| Dates.MonthField | app/admin/routes.py:126 | the `%m` field reads a month 1..12 from one or two characters, followed by '-' |
| Dates.DayField | app/admin/routes.py:126 | the `%d` field reads a day 1..31 and must use up the rest of the text |
| Dates.ParseDate | app/admin/routes.py:126 | whatever `strptime` accepts is a valid date |
| Dates.FormatParseRoundTrip | app/admin/routes.py:124-126 | parsing what `strftime` wrote gives back the date, for every year up to 9999 |
| Dates.ParseRefusesTrailingText | app/admin/routes.py:126-128 | `2024-05-011` is refused: unconverted text remains |
| Dates.ParseRefusesMissingDay | app/admin/routes.py:126-128 | `2023-02-29` is refused: the day does not exist |
| Dates.ParseAcceptsShortFields | app/admin/routes.py:126 | one-digit months and days are accepted: `2024-1-5` is 5 January 2024 |
| AdminRoutes.RowsOn | app/admin/routes.py:162-168 | a row is counted for the day exactly when its timestamp lies between the day's `datetime.min.time()` and `datetime.max.time()`, in store order; `RowsOnCount` states how often |
| AdminRoutes.RowsOnCount | app/admin/routes.py:162-168 | a row within the day is counted as many times as it occurs in the table, and a row outside it not at all, so equal rows are each counted |
| AdminRoutes.DaysDisjoint | app/admin/routes.py:162-168 | no row lies within two different days, so no row is counted for two entries |
| AdminRoutes.DaysFrom | app/admin/routes.py:175 | `n` valid dates |
| AdminRoutes.DaysFromOrdinal | app/admin/routes.py:175 | the `k`-th date is `k` days after the start |
| AdminRoutes.DaysFromConsecutive | app/admin/routes.py:175 | the dates start at the start date, and each is followed by the next calendar day |
| AdminRoutes.DaysBetween | app/admin/routes.py:161 | the number of loop iterations is positive exactly when the start is no later than the end, and then it spans the start to the end, both included |
| AdminRoutes.RangeDates | app/admin/routes.py:161-175 | the dates `while current_date <= end_date` visits, a day at a time from the start, are those before the first one past the end date |
| AdminRoutes.WeekDates | app/admin/routes.py:155-156 | seven days |
| AdminRoutes.WeekDatesSpec | app/admin/routes.py:155-156 | the week starts six days back, goes up one day at a time and ends on today |
| AdminRoutes.DaysUpTo | app/admin/routes.py:155-161 | the `span + 1` days from `span` days back run a day at a time and end on the end date |
| AdminRoutes.Entries | app/admin/routes.py:161-173 | one entry per day |
| AdminRoutes.EntriesAt | app/admin/routes.py:170-173 | the `k`-th entry is the `k`-th day as `YYYY-MM-DD` with the number of rows within that day |
| AdminRoutes.CountDays | app/admin/routes.py:158-175 | the loop yields one entry per day from the start to the end date, each with that day's row count |
| AdminRoutes.ApiAttendanceWeekly | app/admin/routes.py:152-177 | the series is the entries of the seven week days |
| AdminRoutes.WeeklySeries | app/admin/routes.py:155-177 | exactly seven entries, the `k`-th for the `k`-th day from six days back, each counting the rows within that day |
| AdminRoutes.SelectedDate | app/admin/routes.py:124-128 | the `date` argument when it parses as `%Y-%m-%d`; today's date when it does not parse; always a valid date |
| AdminRoutes.SelectedDateDefault | app/admin/routes.py:124 | without an argument the view shows today: today's own text reads back as today |
| AdminRoutes.Joined | app/admin/routes.py:136-138 | the join with the employee table keeps a row exactly when some employee has its `employee_id`, in store order |
| AdminRoutes.AttendanceShown | app/admin/routes.py:130-141 | the listed rows are exactly those within the selected day whose `employee_id` names an existing employee, as the inner join keeps them |

## Left out

- Threads, locks, `join` timeouts, sleeps and the running loops. Each loop body is one
  sequential step method (`DetectionStep`, `CaptureStep`, `StreamStep`). The loop-local
  counters (`retry_count`, `error_count`) are passed in and out.
- MediaPipe detection, `face_recognition` encodings and `face_distance`. They are
  parameters; `face_distance` is a real-valued function.
- Pixel content. A frame is known only by its width and height. Image enhancement,
  motion detection, the overlay drawing, the BGR/RGB conversion, JPEG encoding and the
  multipart stream are not modelled.
- Wall-clock FPS: `fps` and the frame time are read values given to the step methods.
  `actual_fps` and `frames_captured` of the capture loop are not modelled.
- The connection-timeout loop of an RTSP open is folded into one boolean of the `Probe`.
  A capture that is set but reports itself closed is treated as no capture, which matches
  the code's test at line 87.
- `queue.Queue` blocking: the queue is only used through `full`/`put` and `empty`/`get`,
  as the services use it.
- pickle: a stored encoding is either a readable encoding or bytes that do not unpickle.
- ORM internals. Tables are sequences of rows in store order. A failed query or commit
  is a boolean parameter; a rollback is "nothing changed".
- AdminRoutes.AttendanceShown: the rows are listed in store order, without the employee
  each is paired with; the view's `ORDER BY Employee.name` and its employee count are not
  modelled.
- DbService.DatabaseService.LogAttendance: one clock reading serves both the debounce test
  and the new row's default timestamp, which the code reads separately.
- FaceService.OptimizedFaceService.ProcessFrame: returns the ids it would hand to
  `log_attendance` instead of calling the database, since the cooldown is decided before
  that call.
- FaceService.MatchFaces: the clock read for each face is a function of the face's
  position in the frame.
- AdminRoutes.ApiAttendanceWeekly: requires the date to be at least seven days after
  0001-01-01. Before that, `today - timedelta(days=6)` raises `OverflowError`, which is
  not modelled. At the upper end, with today 9999-12-31, the loop's last
  `current_date += timedelta(days=1)` raises `OverflowError` in the source, while the
  model returns the seven entries.
- NextDay: dates have no upper year bound, so 9999-12-31 is followed by 10000-01-01.
  Python's `date` stops at year 9999 and raises `OverflowError` there.
- AdminRoutes.SelectedDate: one `today` serves both `datetime.now()` calls of the view.
- Dates.FormatParseRoundTrip: `%Y` is written with four digits. For years below 1000
  Python's `strftime` padding depends on the platform, so the model pads to four digits.
- Dates.ParseDate: accepts ASCII digits only, while Python's `\d` also matches other
  Unicode decimal digits.
- Trunc, ClampBox, Confidences and Label: floating-point arithmetic is exact real
  arithmetic. Python rounds after each step of `bbox.xmin * w`, `1 - distance` and
  `confidence * 100`, so an `int()` result can differ by one at a rounding boundary:
  for the double nearest 0.7, `int(0.7 * 100)` is 70 in IEEE arithmetic, while the exact
  product of that double and 100 truncates to 69. A box corner, a box size or a label
  percentage can differ in this way, and so can `> 0.6` for a distance within rounding
  of 0.4.
- Utils.LowerChar: lower-cases the ASCII range only; `str.lower` on other characters is
  not modelled.
- Notifications: the `Notification` model is not part of this model's sources. Its shape
  (id, message, type, icon, employee id, `is_read`, `created_at`) is taken from the
  columns the service reads and writes.
- Environment-variable reading in app/config.py: the extensions are a constant.
- Helper methods: the loops of `_process_frame`, `_ensure_capture_open` and
  `api_attendance_weekly` are factored into methods of their own (`Locate`, `MatchFaces`,
  `MatchFace`, `CheckCooldown`, `ScanOptions`, `CountDays`), and the queue hand-off of
  `_capture_loop` into `HandOff`, which the operations call in the source's order.

## Findings

| source | as written | input that shows it | evidently intended | confidence | as-written member | corrected member |
|---|---|---|---|---|---|---|
| app/services/optimized_face_service.py:177-178 | an unknown face's box is drawn in `(255, 0, 0)`, commented as red, on an OpenCV frame whose channels are blue, green, red | a label containing "Unknown" | red, i.e. `(0, 0, 255)` in BGR order | medium, not executed | FaceService.UnknownDrawnBlue | FaceService.BoxColour |
