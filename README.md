# Face attendance recorder — a Dafny model

The system is a single script that loads two reference photos, extracts one
face encoding from each, then reads camera frames, recognizes the faces in
each frame against the two known identities ("Akash" and "Bhuvan"), writes a
row `name, time, date` to `Attendance.csv` the first time each identity is
recognized, and draws a labelled box around every face.

This project models the script's own logic, with the face library, OpenCV,
the file system and the clock turned into inputs:

- `recognition.dfy` (module `Recognition`): the reference-encoding guard and
  startup loading, numpy's first-minimum `argmin`, and the per-face label
  decision (best match accepted only when the library flags it and its
  distance is strictly below 0.4, otherwise `"Unknown"`).
- `attendance.dfy` (module `Attendance`): the recorder state as a value
  `Log` (attendance set plus CSV rows, header first), the functions `Record`
  (one label) and `RecordAll` (one frame's labels), the invariant the
  recorder keeps, and the class `Recorder`, whose fields `attendance` and
  `rows` are updated in place by `Mark` and by the per-frame loop
  `ProcessFrame`, each proved to follow those functions.
- `display.dfy` (module `Display`): rescaling of a face location found on
  the quarter-size frame, the label band and the text origin.
- `session.dfy` (module `Session`): the capture loop as a function `Capture`
  over the sequence of camera reads, the imperative loop `Run` proved equal
  to it, and `Program`, which adds the startup failure and the exit status.

Inputs standing for foreign code: the encodings the library extracts from
each reference photo (a `seq<E>` for an arbitrary type `E`); per live face,
the `compare_faces` flags and `face_distance` values against the known
encodings (`FaceScores`); the face locations; per face a clock reading
(`Stamp`, already formatted time and date strings) used if that face is
marked; per frame whether the camera read succeeded and the key code polled
afterwards, as the 32-bit word `waitKey` returns (`bv32`, so "no key", -1,
is `0xFFFF_FFFF`).

## Model

| member | source | states |
|---|---|---|
| Recognition.GetFaceEncoding | authentication/program.py:7-12 | fails, naming the photo, exactly when the extracted list is empty; otherwise yields its first encoding |
| Recognition.Message | authentication/program.py:11 | the reported error text starts with "No face found in image " followed by the photo's path |
| Recognition.LoadKnownEncodings | authentication/program.py:15-27 | startup succeeds exactly when both photos have a face; the first photo's failure is reported even when both fail (the second is never tried); on success the known encodings are the two first encodings, one per known name |
| Recognition.ArgMin | authentication/program.py:55 | the chosen index is in range, its distance is no larger than any other, and every earlier index is strictly larger (first minimum) |
| Recognition.FaceLabel | authentication/program.py:56-59 | the label is a known name or "Unknown"; it is the best index's name when that index is flagged and under 0.4, and "Unknown" otherwise |
| Recognition.FrameLabels | authentication/program.py:50-61 | one label per face encoding, in order: the i-th label is the label decision for the i-th face, so every label is "Unknown" or a known name |
| Recognition.RecognizedIsNearest | authentication/program.py:54-59 | a face that gets a known name gets the name of an identity that is flagged, strictly under 0.4, and no farther than any other known identity |
| Recognition.FirstNearestIsRecognized | authentication/program.py:55-59 | conversely, an identity that is flagged, strictly under 0.4, no farther than any other and strictly nearer than every earlier one gives the face its name |
| Recognition.TieGoesToFirstIndex | authentication/program.py:55-59 | the tie condition cannot be dropped: at equal distances 0.3 the first identity is the best match, and if only the second is flagged the face is "Unknown" |
| Recognition.FarFaceIsUnknown | authentication/program.py:56-59 | a face at distance at least 0.4 from every known encoding is labelled "Unknown" |
| Recognition.UnknownIffNoneClose | authentication/program.py:53-59 | when the flags are the library's own (distance at most the tolerance), a face is "Unknown" exactly when no known encoding is strictly under 0.4 |
| Recognition.ClosestUnderBoundIsRecognized | authentication/program.py:53-59 | with the library's flags, a face strictly closest to identity i and under 0.4 is labelled with i's name |
| Attendance.Row | authentication/program.py:68 | a written row has the three header columns: the name, then the time, then the date |
| Attendance.Record | authentication/program.py:64-69 | rows are only appended; a name other than "Unknown" is in the set afterwards; a name that is not "Unknown" and not yet marked adds exactly the row (name, time, date); an "Unknown" or already marked name changes neither the set nor the rows |
| Attendance.RecordAll | authentication/program.py:51-69 | marking a frame's labels one after another in face order never decreases the row count and adds at most one row per label (that earlier rows stay a prefix is `Attendance.RecordAllEffect`) |
| Attendance.RecordAllEffect | authentication/program.py:51-69 | the rows a frame adds are, in face order, one row (label, that face's time and date) for each face whose label is not "Unknown", was not marked before the frame and does not occur on an earlier face; the set gains exactly the frame's labels other than "Unknown" |
| Attendance.InitialInvariant | authentication/program.py:30-35 | the empty set with only the header row satisfies the recorder invariant |
| Attendance.RecordKeepsInvariant | authentication/program.py:64-69 | one label keeps the invariant: header first, three-column rows, data-row names equal to the set, no name repeated, "Unknown" never marked, only known names marked |
| Attendance.RecordAllKeepsInvariant | authentication/program.py:50-69 | a whole frame of labels keeps the invariant |
| Attendance.RecordAllOfMarkedIsNoOp | authentication/program.py:64 | labels that are all "Unknown" or already marked change nothing |
| Attendance.RecordAllIdempotent | authentication/program.py:63-69 | seeing the same labels again, at any other time, writes nothing and marks nothing |
| Attendance.AttendanceBound | authentication/program.py:64-69 | under the invariant the set has at most as many names as there are known names, and the file has exactly one data row per marked name |
| Attendance.WrittenOnce | authentication/program.py:63-69 | under the invariant a name occurs in the data rows once if it is marked and not at all otherwise |
| Attendance.Recorder.constructor | authentication/program.py:30-35 | a new recorder has an empty set and only the header row, and satisfies the invariant |
| Attendance.Recorder.Mark | authentication/program.py:64-69 | the new set and rows are `Record` of the old ones, and the invariant is kept |
| Attendance.Recorder.ProcessFrame | authentication/program.py:50-70 | returns exactly the frame's labels in face order, and the new state is `RecordAll` of the old state over those labels; the invariant is kept |
| Display.ScaleUp | authentication/program.py:74-78 | each scaled coordinate is a multiple of 4 whose quotient by 4 is the quarter-frame coordinate |
| Display.Draw | authentication/program.py:80-83 | the outline spans the four coordinates times 4; the band shares the outline's bottom-right corner and starts 35 pixels above its bottom on its left edge; the text origin is 6 right of the left edge and 6 above the bottom |
| Display.Overlays | authentication/program.py:73 | one overlay per location and label pair, as many as the shorter list, each drawing the i-th location with the i-th label |
| Display.BandInsideOutline | authentication/program.py:81 | the band starts inside the box exactly when the quarter-frame box is at least 9 pixels tall |
| Display.TextInsideBand | authentication/program.py:81-83 | the text origin lies strictly inside the band vertically, and left of the box's right edge exactly when the quarter-frame box is at least 2 pixels wide |
| Session.QuitPressed | authentication/program.py:88 | the loop ends when the polled 32-bit key code's low byte is the code of '1': every code equal to 49 modulo 256 quits, and among one-byte codes only 49 |
| Session.Capture | authentication/program.py:37-89 | the capture loop never decreases the row count and shows at most one overlay list per camera read (that earlier rows stay a prefix is `Session.CaptureAppendsOnly`) |
| Session.CaptureKeepsInvariant | authentication/program.py:37-89 | every state the capture loop ends in keeps the recorder invariant |
| Session.CaptureAppendsOnly | authentication/program.py:37-89 | the capture loop keeps all earlier rows as a prefix and never unmarks a name |
| Session.FrameMarks | authentication/program.py:50-69 | after one camera read a name is marked exactly when it was marked before or is a known name some face of the read got |
| Session.NothingRecognizedAfterFailedRead | authentication/program.py:38-40 | when the first camera read fails no later read is processed, so no name is recognized |
| Session.RecognizedStep | authentication/program.py:37-89 | after a successful read, a name is recognized exactly when a face of that read got it, or the quit key was not pressed and it is recognized in the later reads |
| Session.CaptureMarksRecognized | authentication/program.py:37-89 | at the end of the capture loop the marked names are exactly those marked before it and the known names given to some face of some processed read (every read up to it succeeded and no earlier one saw the quit key) |
| Session.RunWritesRecognizedOnce | authentication/program.py:33-89 | after a whole run, a known name given to a face in any processed read occurs in exactly one data row, and any other name in none |
| Session.RunWritesEachNameOnce | authentication/program.py:33-89 | after a whole run the invariant holds, the file has at most one row per known name besides the header, and each name occurs once if marked and never otherwise |
| Session.CaptureStep | authentication/program.py:37-89 | a successfully read frame is labelled, recorded and shown, and the loop goes on exactly when the quit key was not pressed |
| Session.ResumeStep | authentication/program.py:37-89 | the same step stated for the imperative loop's position in the camera reads |
| Session.FailedReadStops | authentication/program.py:38-40 | a failed camera read ends the loop with nothing recorded and nothing shown |
| Session.Run | authentication/program.py:33-89 | the imperative loop over a `Recorder` ends with exactly the rows and the shown overlays of `Capture` from the initial state |
| Session.Program | authentication/program.py:15-35 | exit status 1 and no file exactly when a reference photo has no face, with the error text naming the first photo that has none; otherwise status 0, no error text, and the file holds the rows of the capture loop |

## Left out

- Face detection, encoding extraction, `compare_faces` and `face_distance`: foreign numerical library calls; their results are inputs. The known encodings are loaded but, since distances are inputs, they do not otherwise enter the model.
- Recognition.UnknownIffNoneClose, Recognition.ClosestUnderBoundIsRecognized: the library's match rule (distance at most the tolerance) is stated as a precondition, not derived, since the library is not modelled.
- Camera reads, resizing, the colour-channel flip, drawing pixels, the display window, `waitKey` polling and releasing resources: device and UI I/O; only the read-success flag, the key code and the overlay coordinates are kept.
- Opening and truncating the CSV file and CSV quoting: file I/O; the file is a sequence of rows of strings.
- `datetime.now()` and its `%H:%M:%S` / `%Y-%m-%d` formatting: clock and library behaviour; each face comes with an already formatted reading, so the shape of the time and date strings is not checked.
- `print` of the error and of the "marked present" message, and `exit(1)`: process I/O; the failure is the error result and the exit status of `Program`.
- Session.Capture, Session.Run: the camera reads are a finite sequence, so a run the camera would continue past its end is modelled up to that end.
- Recognition.ArgMin, Recognition.FaceLabel: require at least one known identity; the script always has two, and numpy's `argmin` would raise on none.
- Display: OpenCV's 32-bit point coordinates are not modelled; Python's integers are unbounded, as Dafny's `int` is.
- A crash in the middle of a row write (partial row) is not modelled.
