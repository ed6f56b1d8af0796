# Classroom attendance tracker — verified model of the recognition loop's state machine

The tracker keeps, for every student on the roster, an attendance record (status and
marked time), the time each student was last recognised, and the set of students
currently marked absent. Every camera frame it stamps the recognised students as
seen, applies the arrival rule (Present within 30 seconds of the session start,
otherwise a late mark that leaves the student Absent), a ten-minute no-show rule and a
30-second early-departure rule. At shutdown it writes one row per distinct roster
name, with the roster columns followed by `Time` and `Status`.

The model has three modules:

- `AttendanceRules` (rules.dfy): the state as a value (`State`), the three phases of a
  frame as pure functions defined name by name (`Detect`, `NoShowOn`, `DepartOn`,
  composed as `Frame`), a whole session as `Run`, the bookkeeping invariant
  `Consistent`, and lemmas for each rule.
- `FinalTable` (final_table.dfy): the shutdown table (`TableFrom`/`Table`), the
  pandas-style lookup of a name's first roster row (`Matching` filters, `FindRow` takes
  the first), the drop of duplicate (Name, Time) pairs (`DropDuplicates`, shown equal to
  the keep-first reference `KeepFirst`), and lemmas about them.
- `AttendanceTracker` (tracker.dfy): class `Tracker`, whose fields are the records,
  the last-seen map and the absent set, updated in place by loops over the recognised
  names and over the roster; each method is proved to produce exactly the state or
  table defined by the first two modules.

Design decisions:

- Times are whole seconds on one clock, and the empty time string is `None`.
- A frame reads the clock twice. `tDetect` is read before matching and drives the
  arrival rule and `lastSeen`. `tRules` is read after matching and drives the no-show
  and departure rules.
- The status type has a third value, `Unset`, for the empty status string that the
  no-show rule tests for. No operation ever produces it, so the model shows that the
  no-show rule never fires (`NoShowIsDead`, `NeverSeenStaysUnmarked`). A student who is
  never recognised therefore ends the session `Absent` with an empty time, however
  long the session runs. One might expect a no-show time after ten minutes, but the
  guard at main.py:129 tests for the empty status, which no record ever has.
- A recognised name that is not on the roster makes the source fail on the dictionary
  lookup at main.py:108. `ProcessFrame` therefore requires every recognised name to be
  a roster name: an unknown recognised name is not ignored, the lookup raises.
- The roster may repeat a name. Initialisation then keeps one record. The table keeps
  the first row with that name, at the name's first position.
- `Consistent` states that a name is in the absent set exactly when its status is
  Absent. This makes the removal from the absent set at main.py:117 safe, and every
  frame keeps it (`FramePreservesConsistent`).

## Model

| member | source | states |
|---|---|---|
| AttendanceTracker.Tracker.constructor | main.py:59-68 | every roster name gets one record `(Absent, no time)` and is in the absent set, and `lastSeen` is empty; a repeated name yields one record; the state is `Consistent` |
| AttendanceRules.InitConsistent | main.py:65-68 | the initial state satisfies the bookkeeping invariant and the on-time property for Present records, maps each roster name to `(Absent, no time)` and puts every roster row's name in the absent set |
| AttendanceTracker.Tracker.ProcessFrame | main.py:92-143 | one loop iteration: detection with `tDetect`, then no-show, then departures with `tRules`; the new state is `Frame` of the old one and stays `Consistent`; recognised names must be roster names |
| AttendanceTracker.Tracker.DetectFaces | main.py:92-123 | the loop over recognised faces builds `current` as the set of recognised names and leaves exactly the state `Detect` defines; the invariant still holds afterwards |
| AttendanceTracker.Tracker.SeeFace | main.py:101-123 | one recognised face: `lastSeen` becomes the detect time, the record follows the arrival rule, and the name leaves the absent set exactly when it turns Present; the caller guarantees the name is then in the set |
| AttendanceTracker.Tracker.ApplyNoShow | main.py:125-133 | the roster loop of the ten-minute rule yields `NoShowOn`: inside the window every record with the empty status becomes `(Absent, tRules)` and joins the absent set; outside the window nothing changes |
| AttendanceTracker.Tracker.MarkNoShow | main.py:129-132 | one roster name under the no-show rule: only an empty-status record changes, to `(Absent, tRules)`, and the name joins the absent set |
| AttendanceTracker.Tracker.ApplyDepartures | main.py:135-143 | the roster loop of the departure rule yields `DepartOn` and keeps the invariant |
| AttendanceTracker.Tracker.CheckDeparture | main.py:137-143 | one roster name: a Present name seen before, absent from this frame and unseen for more than 30 s becomes `(Absent, tRules)` and joins the absent set; otherwise nothing changes |
| AttendanceTracker.Tracker.Finalize | main.py:157-174 | the shutdown loop plus the duplicate drop return `Table` of the final records; it has one row per distinct roster name, all names covered, in first-occurrence order, each row the first roster row with that name plus that name's time and status |
| AttendanceRules.FramePreservesConsistent | main.py:92-143 | every frame keeps the invariant: one record per roster name, never the empty status, the absent set equals the set of Absent names, `lastSeen` only holds roster names |
| AttendanceRules.DetectPreservesConsistent | main.py:96-123 | the detection phase alone keeps the invariant |
| AttendanceRules.DetectKeepsAbsentMarked | main.py:108-117 | at any point of the detection loop, a name whose record is Absent is in the absent set, so the removal at line 117 cannot fail |
| AttendanceRules.DepartPreservesConsistent | main.py:136-143 | the departure phase alone keeps the invariant |
| AttendanceRules.RecognizedIsSeen | main.py:101-104 | a recognised name has `lastSeen` equal to the detect time after the frame, whatever its status, and the departure phase leaves its record and absent-set membership as detection and the no-show phase left them |
| AttendanceRules.OnTimeArrival | main.py:108-117 | an Absent name recognised at most 30 s after the start is `(Present, tDetect)` after the whole frame and is no longer in the absent set |
| AttendanceRules.LateArrival | main.py:108-113 | an Absent name recognised more than 30 s after the start is `(Absent, tDetect)` after the frame and is still in the absent set |
| AttendanceRules.PresentSeenAgain | main.py:108-123 | a Present name recognised again keeps its record unchanged, so the first-arrival time is not refreshed, and it stays out of the absent set |
| AttendanceRules.EarlyDeparture | main.py:135-143 | for a roster name not recognised this frame, the record becomes `(Absent, tRules)` and the name joins the absent set exactly when it was Present, seen before and unseen for more than 30 s; otherwise its record, absent-set membership and `lastSeen` entry are unchanged |
| AttendanceRules.NoShowIsDead | main.py:125-133 | in every consistent state the no-show phase returns the state unchanged, because no record has the empty status it tests for |
| AttendanceRules.FrameWithoutNoShow | main.py:125-143 | so a frame is the detection phase followed by the departure phase |
| AttendanceRules.NoLatePromotion | main.py:108-117 | in a frame detected more than 30 s after the start, no one becomes Present: every Present record afterwards was already Present, with the same time |
| AttendanceRules.FramePreservesPresentOnTime | main.py:108-143 | every frame keeps the property that a Present record carries a time at most 30 s after the session start |
| AttendanceRules.Run | main.py:80-143 | running the loop over a sequence of frames keeps the invariant throughout |
| AttendanceRules.RunPreservesPresentOnTime | main.py:80-143 | in a whole session that starts with the property, every Present record carries an arrival time within the late threshold |
| AttendanceRules.RunNoLatePromotion | main.py:80-117 | over any run of frames detected after the threshold, no Present record appears or changes, so no one becomes Present after 30 s |
| AttendanceRules.NeverSeenStaysUnmarked | main.py:125-143 | a roster name that is never recognised keeps its record for the whole session, however long it runs, and never gets a `lastSeen` entry |
| AttendanceRules.ArriveTwice | main.py:108-120 | applying the arrival rule twice at the same time equals applying it once, and the second application never promotes, so a face matched twice in one frame changes nothing more |
| AttendanceRules.DetectSnoc | main.py:96-123 | extending the recognised names by one is one step of the face loop (`DetectOne`) |
| AttendanceRules.NoShowSnoc | main.py:128-133 | extending the handled roster names by one is one step of the no-show loop |
| AttendanceRules.DepartSnoc | main.py:136-143 | extending the handled roster names by one is one step of the departure loop; a repeated roster name is harmless |
| FinalTable.FirstIndex | main.py:165-167 | the index of the first roster row with a given name: it has that name, and no earlier row does |
| FinalTable.Matching | main.py:165 | the filter `Name == name`: every kept row has that name and comes from the roster, and every roster row with that name is kept |
| FinalTable.MatchingFirst | main.py:165-167 | the filtered rows are empty exactly when the name is off the roster; otherwise their first is the roster's first row with that name |
| FinalTable.FindRow | main.py:165-167 | `iloc[0]` of the filtered rows: `None` exactly when the name is not on the roster, and otherwise the first roster row with that name |
| FinalTable.FirstIndexAt | main.py:161-167 | at a position whose name has not occurred earlier, the first row with that name is the row at that position |
| FinalTable.TableFromNames | main.py:158-170 | from any position, the loop emits distinct names and emits exactly the roster names not yet handled |
| FinalTable.TableFromRows | main.py:158-170 | every emitted row is the first roster row with its name, found at or after the current position, plus that name's time and status |
| FinalTable.TableFromOrdered | main.py:158-170 | the emitted rows follow the order of the names' first occurrences |
| FinalTable.TableSpec | main.py:157-172 | the whole table has exactly one row per distinct roster name, its length is the number of distinct names, and the rows are in first-occurrence order with the right roster row, time and status |
| FinalTable.DropDuplicatesKeys | main.py:174 | dropping duplicate (Name, Time) pairs keeps every pair and leaves each pair once |
| FinalTable.KeepFirstSnoc | main.py:174 | a row appended to the input of the keep-first drop is appended to its output exactly when its (Name, Time) pair is new |
| FinalTable.DropDuplicatesKeepsFirst | main.py:174 | the drop equals the keep-first reference: front to back, a row is kept, unchanged and in order, exactly when its (Name, Time) pair has not occurred earlier |
| FinalTable.DropDuplicatesNoOp | main.py:174 | on a table whose (Name, Time) pairs are distinct, the drop removes nothing |
| FinalTable.DropDuplicatesIdempotent | main.py:174 | dropping duplicates twice is the same as dropping them once |
| FinalTable.DropDuplicatesOfTable | main.py:158-174 | the drop after the shutdown loop removes nothing, because the table's names are distinct |

## Left out

- Webcam capture, resizing, colour conversion, drawing rectangles and labels, the display window and the `q` key: video I/O and UI. The frame-read failure and the stop-signal file only end the loop. Ending the session is calling `Finalize`.
- Face matching (`compare_faces`, `face_distance`, `argmin` over floating-point distances): a foreign library. Its result is the `recognized` sequence of names given to `ProcessFrame`.
- Loading the student spreadsheet and the encodings file, creating the output folder, and writing the CSV file and its error report: file I/O. The roster is an in-memory sequence of rows, and `Finalize` returns the rows.
- Console messages: output only.
- Clock reads and `strftime`: the two readings of each frame are parameters. Times are whole seconds, not `HH:MM:SS` strings. With fractional seconds the source counts a detection 30.5 s after the start as late; the model sees whole seconds only. The drop of duplicate (Name, Time) pairs compares the seconds instead of the formatted strings; names are distinct, so the drop removes nothing either way.
- Run: a session is a finite sequence of frames. The unbounded `while True` loop is not modelled.
- AttendanceTracker.Tracker.ProcessFrame: requires `startTime <= tDetect <= tRules`, since the clock does not run backwards. The source does not check this, and no proof uses it.
- The web dashboard and the process supervisor in app.py (login check, starting and stopping the recognition process, listing and serving the saved files): web and process glue, not part of this model.
