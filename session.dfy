/**
 * The whole run: load the two reference encodings, open the attendance
 * file, then process camera frames until the camera stops delivering them
 * or the quit key is pressed.
 *
 * Each camera read is an input `Frame`: whether the read succeeded, what the
 * face library found in it (locations, and per face the match flags and
 * distances against the known encodings), the clock readings, and the key
 * code polled after the frame was shown.
 */
module Session {
  import opened Recognition
  import opened Attendance
  import opened Display

  /** The key code of '1', the quit key. */
  const QuitKey: bv32 := 49

  /**
   * The quit test on the polled key code, a 32-bit word (the "no key" code
   * -1 is 0xFFFF_FFFF): its low byte, as Python's `& 0xFF` keeps it, is the
   * quit key. So every code that is 49 modulo 256 quits, and among the
   * one-byte codes only 49 does.
   */
  function QuitPressed(key: bv32): (pressed: bool)
    ensures pressed <==> key % 256 == QuitKey
    ensures key < 256 ==> (pressed <==> key == QuitKey)
  {
    key & 0xFF == QuitKey
  }

  /** One camera read and what the libraries and the keyboard report for it. */
  datatype Frame = Frame(
    ret: bool,
    locations: seq<Location>,
    faces: seq<FaceScores>,
    stamps: seq<Stamp>,
    key: bv32)

  /** The library reports scores for every face against every known name, and one clock reading per face. */
  predicate FrameFits(known: seq<string>, f: Frame) {
    && (forall i | 0 <= i < |f.faces| :: WellFormed(known, f.faces[i]))
    && |f.stamps| == |f.faces|
  }

  /** The final recorder state and the overlays shown, one list per displayed frame. */
  datatype Outcome = Outcome(log: Log, shown: seq<seq<Overlay>>)

  /**
   * The capture loop over the camera reads `frames`, starting from `log`. A
   * failed read ends the loop before anything is done with it; a frame that
   * was read is labelled, recorded and shown, and then the quit key ends the
   * loop. Running out of `frames` ends the model's loop too.
   */
  function Capture(known: seq<string>, log: Log, frames: seq<Frame>): (o: Outcome)
    requires forall k | 0 <= k < |frames| :: FrameFits(known, frames[k])
    ensures |log.rows| <= |o.log.rows|
    ensures |o.shown| <= |frames|
    decreases |frames|
  {
    if |frames| == 0 || !frames[0].ret then Outcome(log, [])
    else
      var f := frames[0];
      assert FrameFits(known, f);
      var names := FrameLabels(known, f.faces);
      var next := RecordAll(log, names, f.stamps);
      var drawn := Overlays(f.locations, names);
      if QuitPressed(f.key) then Outcome(next, [drawn])
      else
        var rest := Capture(known, next, frames[1..]);
        Outcome(rest.log, [drawn] + rest.shown)
  }

  /** Every state the capture loop reaches keeps the recorder's invariant. */
  lemma {:induction false} CaptureKeepsInvariant(known: seq<string>, log: Log, frames: seq<Frame>)
    requires forall k | 0 <= k < |frames| :: FrameFits(known, frames[k])
    requires Invariant(known, log)
    ensures Invariant(known, Capture(known, log, frames).log)
    decreases |frames|
  {
    if |frames| > 0 && frames[0].ret {
      var f := frames[0];
      var names := FrameLabels(known, f.faces);
      RecordAllKeepsInvariant(known, log, names, f.stamps);
      if !QuitPressed(f.key) {
        CaptureKeepsInvariant(known, RecordAll(log, names, f.stamps), frames[1..]);
      }
    }
  }

  /** The capture loop only appends to the file and only adds to the set of marked names. */
  lemma {:induction false} CaptureAppendsOnly(known: seq<string>, log: Log, frames: seq<Frame>)
    requires forall k | 0 <= k < |frames| :: FrameFits(known, frames[k])
    ensures log.rows <= Capture(known, log, frames).log.rows
    ensures log.attendance <= Capture(known, log, frames).log.attendance
    decreases |frames|
  {
    if |frames| > 0 && frames[0].ret {
      var f := frames[0];
      assert FrameFits(known, f);
      var names := FrameLabels(known, f.faces);
      RecordAllEffect(log, names, f.stamps);
      if !QuitPressed(f.key) {
        CaptureAppendsOnly(known, RecordAll(log, names, f.stamps), frames[1..]);
      }
    }
  }

  /**
   * What a whole run writes: the header first, at most one row per known
   * name, and each name written once if it is marked and never otherwise.
   */
  lemma RunWritesEachNameOnce(known: seq<string>, frames: seq<Frame>, name: string)
    requires forall k | 0 <= k < |frames| :: FrameFits(known, frames[k])
    ensures var log := Capture(known, Initial, frames).log;
      && Invariant(known, log)
      && HasNameColumn(log.rows) && log.rows[0] == Header
      && |log.rows| <= |known| + 1
      && Count(NameColumn(log.rows), name) == (if name in log.attendance then 1 else 0)
  {
    InitialInvariant(known);
    CaptureKeepsInvariant(known, Initial, frames);
    var log := Capture(known, Initial, frames).log;
    AttendanceBound(known, log);
    WrittenOnce(known, log, name);
  }

  /**
   * The k-th camera read is processed: it and every read before it
   * succeeded, and the quit key was not pressed after any earlier one.
   */
  predicate Processed(frames: seq<Frame>, k: int) {
    && 0 <= k < |frames|
    && (forall j | 0 <= j <= k :: frames[j].ret)
    && (forall j | 0 <= j < k :: !QuitPressed(frames[j].key))
  }

  /** Some face of the camera read `f` is given the label `name`. */
  predicate LabelledIn(known: seq<string>, f: Frame, name: string)
    requires FrameFits(known, f)
  {
    exists j | 0 <= j < |f.faces| :: FaceLabel(known, f.faces[j]) == name
  }

  /** `name` is a known name given to some face of some processed camera read. */
  predicate Recognized(known: seq<string>, frames: seq<Frame>, name: string)
    requires forall k | 0 <= k < |frames| :: FrameFits(known, frames[k])
  {
    name != Unknown && exists k | 0 <= k < |frames| && Processed(frames, k) :: LabelledIn(known, frames[k], name)
  }

  /** After one camera read a name is marked exactly when it was before or some face of the read got it. */
  lemma FrameMarks(known: seq<string>, log: Log, f: Frame, name: string)
    requires FrameFits(known, f)
    ensures name in RecordAll(log, FrameLabels(known, f.faces), f.stamps).attendance <==>
      name in log.attendance || (name != Unknown && LabelledIn(known, f, name))
  {
    var names := FrameLabels(known, f.faces);
    RecordAllEffect(log, names, f.stamps);
    if name in Marked(names) {
      var j :| 0 <= j < |names| && names[j] != Unknown && names[j] == name;
      assert FaceLabel(known, f.faces[j]) == name;
    }
    if name != Unknown && LabelledIn(known, f, name) {
      var j :| 0 <= j < |f.faces| && FaceLabel(known, f.faces[j]) == name;
      assert names[j] == name;
    }
  }

  /** Nothing is recognized in a run whose first camera read fails. */
  lemma NothingRecognizedAfterFailedRead(known: seq<string>, frames: seq<Frame>, name: string)
    requires forall k | 0 <= k < |frames| :: FrameFits(known, frames[k])
    requires |frames| == 0 || !frames[0].ret
    ensures !Recognized(known, frames, name)
  {
    forall k | 0 <= k < |frames| ensures !Processed(frames, k) {
    }
  }

  /**
   * After a successful first read, a name is recognized exactly when a face
   * of that read got it, or the quit key was not pressed and it is
   * recognized in the rest of the run.
   */
  lemma RecognizedStep(known: seq<string>, frames: seq<Frame>, name: string)
    requires forall k | 0 <= k < |frames| :: FrameFits(known, frames[k])
    requires |frames| > 0 && frames[0].ret
    ensures Recognized(known, frames, name) <==>
      name != Unknown &&
      (LabelledIn(known, frames[0], name) ||
       (!QuitPressed(frames[0].key) && Recognized(known, frames[1..], name)))
  {
  }

  /**
   * The names marked at the end of the capture loop are those marked before
   * it and the known names given to faces in processed camera reads.
   */
  lemma {:induction false} CaptureMarksRecognized(known: seq<string>, log: Log, frames: seq<Frame>, name: string)
    requires forall k | 0 <= k < |frames| :: FrameFits(known, frames[k])
    ensures name in Capture(known, log, frames).log.attendance <==>
      name in log.attendance || Recognized(known, frames, name)
    decreases |frames|
  {
    if |frames| == 0 || !frames[0].ret {
      NothingRecognizedAfterFailedRead(known, frames, name);
    } else {
      var f := frames[0];
      assert FrameFits(known, f);
      var next := RecordAll(log, FrameLabels(known, f.faces), f.stamps);
      FrameMarks(known, log, f, name);
      RecognizedStep(known, frames, name);
      if !QuitPressed(f.key) {
        CaptureMarksRecognized(known, next, frames[1..], name);
        CaptureAppendsOnly(known, next, frames[1..]);
      }
    }
  }

  /**
   * After a whole run, a known name given to a face in any processed camera
   * read occurs in exactly one data row of the file, and any other name in
   * none.
   */
  lemma RunWritesRecognizedOnce(known: seq<string>, frames: seq<Frame>, name: string)
    requires forall k | 0 <= k < |frames| :: FrameFits(known, frames[k])
    ensures HasNameColumn(Capture(known, Initial, frames).log.rows)
    ensures Count(NameColumn(Capture(known, Initial, frames).log.rows), name) ==
      if Recognized(known, frames, name) then 1 else 0
  {
    RunWritesEachNameOnce(known, frames, name);
    CaptureMarksRecognized(known, Initial, frames, name);
  }

  /**
   * What the run will end with, from the point where `log` is the
   * recorder's state, `shown` the overlays shown so far and `i` the next
   * camera read: if the loop is still running, what capturing the reads from
   * `i` on adds; otherwise nothing more.
   */
  function Resume(known: seq<string>, log: Log, shown: seq<seq<Overlay>>, frames: seq<Frame>, i: nat, running: bool): Outcome
    requires forall k | 0 <= k < |frames| :: FrameFits(known, frames[k])
    requires i <= |frames|
  {
    if running then
      var rest := Capture(known, log, frames[i..]);
      Outcome(rest.log, shown + rest.shown)
    else
      Outcome(log, shown)
  }

  /** One camera read that succeeded: it is labelled, recorded and shown, then the quit key is tested. */
  lemma ResumeStep(known: seq<string>, log: Log, shown: seq<seq<Overlay>>, frames: seq<Frame>, i: nat)
    requires forall k | 0 <= k < |frames| :: FrameFits(known, frames[k])
    requires i < |frames| && frames[i].ret
    ensures var f := frames[i];
      assert FrameFits(known, f);
      var names := FrameLabels(known, f.faces);
      Resume(known, log, shown, frames, i, true) ==
        Resume(known, RecordAll(log, names, f.stamps), shown + [Overlays(f.locations, names)],
               frames, i + 1, !QuitPressed(f.key))
  {
    assert frames[i..][1..] == frames[i + 1..];
    CaptureStep(known, log, shown, frames[i..]);
  }

  /** The capture loop's first step on a camera read that succeeded, after the overlays `shown`. */
  lemma CaptureStep(known: seq<string>, log: Log, shown: seq<seq<Overlay>>, frames: seq<Frame>)
    requires forall k | 0 <= k < |frames| :: FrameFits(known, frames[k])
    requires |frames| > 0 && frames[0].ret && FrameFits(known, frames[0])
    ensures var f := frames[0];
      var names := FrameLabels(known, f.faces);
      var next := RecordAll(log, names, f.stamps);
      var drawn := Overlays(f.locations, names);
      var all := Capture(known, log, frames);
      var rest := Capture(known, next, frames[1..]);
      if QuitPressed(f.key) then all == Outcome(next, [drawn])
      else all.log == rest.log && shown + all.shown == (shown + [drawn]) + rest.shown
  {
  }

  /** A frame whose read failed ends the run with nothing recorded and nothing shown. */
  lemma FailedReadStops(known: seq<string>, log: Log, frames: seq<Frame>)
    requires forall k | 0 <= k < |frames| :: FrameFits(known, frames[k])
    requires |frames| > 0 && !frames[0].ret
    ensures Capture(known, log, frames) == Outcome(log, [])
  {
  }

  /**
   * The capture loop run on a recorder created for `known`: returns the rows
   * the file ends with and the overlays shown per frame.
   */
  method Run(known: seq<string>, frames: seq<Frame>) returns (rows: seq<seq<string>>, shown: seq<seq<Overlay>>)
    requires forall k | 0 <= k < |frames| :: FrameFits(known, frames[k])
    ensures rows == Capture(known, Initial, frames).log.rows
    ensures shown == Capture(known, Initial, frames).shown
  {
    var recorder := new Recorder(known);
    ghost var total := Capture(known, Initial, frames);
    shown := [];
    var running := true;
    var i := 0;
    while running && i < |frames|
      invariant 0 <= i <= |frames|
      invariant recorder.known == known && recorder.Valid()
      invariant total == Resume(known, recorder.State(), shown, frames, i, running)
      decreases |frames| - i, running
    {
      var f := frames[i];
      if !f.ret {
        running := false;
      } else {
        assert FrameFits(known, f);
        ResumeStep(known, recorder.State(), shown, frames, i);
        var names := recorder.ProcessFrame(f.faces, f.stamps);
        shown := shown + [Overlays(f.locations, names)];
        if QuitPressed(f.key) {
          running := false;
        } else {
          i := i + 1;
        }
      }
    }
    if running {
      assert frames[i..] == [];
    }
    rows := recorder.rows;
  }

  /** The file a run leaves behind: none when startup fails, otherwise its rows. */
  datatype CsvFile = NoFile | File(rows: seq<seq<string>>)

  /**
   * The whole program. `akash` and `bhuvan` are the encodings the library
   * extracts from the two reference photos; `frames` are the camera reads.
   * A reference photo without a face ends the program with status 1, after
   * reporting `error`, before the file is opened; otherwise the capture loop
   * runs and the status is 0.
   */
  method Program<E>(akash: seq<E>, bhuvan: seq<E>, frames: seq<Frame>) returns (exitCode: int, error: string, file: CsvFile)
    requires forall k | 0 <= k < |frames| :: FrameFits(KnownNames, frames[k])
    ensures exitCode == 1 <==> |akash| == 0 || |bhuvan| == 0
    ensures exitCode == 0 || exitCode == 1
    ensures |akash| == 0 ==> error == Message(NoFaceFound(AkashPath))
    ensures |akash| > 0 && |bhuvan| == 0 ==> error == Message(NoFaceFound(BhuvanPath))
    ensures exitCode == 0 ==> error == ""
    ensures file.NoFile? <==> exitCode == 1
    ensures file.File? ==> file.rows == Capture(KnownNames, Initial, frames).log.rows
  {
    var loaded := LoadKnownEncodings(akash, bhuvan);
    if loaded.Err? {
      exitCode, error, file := 1, Message(loaded.error), NoFile;
    } else {
      var rows, shown := Run(KnownNames, frames);
      exitCode, error, file := 0, "", File(rows);
    }
  }
}
