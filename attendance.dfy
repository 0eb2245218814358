/**
 * The attendance recorder: the set of names already marked present and the
 * rows of `Attendance.csv`, which start with a header and grow by one row per
 * first recognition of a known name.
 *
 * The recorder's state is described by the value `Log`; `Record` and
 * `RecordAll` say how one label and one frame's labels change it. The class
 * `Recorder` holds that state in fields and changes it in place, and its
 * methods are proved to follow those functions.
 */
module Attendance {
  import opened Recognition

  /** The first row of the file. */
  const Header: seq<string> := ["Name", "Time", "Date"]

  /** A clock reading, already formatted as time of day and date. */
  datatype Stamp = Stamp(time: string, date: string)

  /** The names marked present and the rows written so far, header included. */
  datatype Log = Log(attendance: set<string>, rows: seq<seq<string>>)

  /** The state right after the file is opened and the header is written. */
  const Initial: Log := Log({}, [Header])

  /** The row written when `name` is marked present at `s`. */
  function Row(name: string, s: Stamp): (row: seq<string>)
    ensures |row| == |Header|
    ensures row[0] == name && row[1] == s.time && row[2] == s.date
  {
    [name, s.time, s.date]
  }

  function ToSet(s: seq<string>): set<string> {
    set x | x in s
  }

  predicate NoDuplicates(s: seq<string>) {
    forall i, j | 0 <= i < j < |s| :: s[i] != s[j]
  }

  /** Number of occurrences of `x` in `s`. */
  function Count(s: seq<string>, x: string): nat {
    if |s| == 0 then 0
    else Count(s[..|s| - 1], x) + (if s[|s| - 1] == x then 1 else 0)
  }

  /** Rows after the header that all have a first column. */
  predicate HasNameColumn(rows: seq<seq<string>>) {
    |rows| > 0 && forall i | 1 <= i < |rows| :: |rows[i]| > 0
  }

  /** The first column of the data rows, in file order. */
  function NameColumn(rows: seq<seq<string>>): (names: seq<string>)
    requires HasNameColumn(rows)
    ensures |names| == |rows| - 1
    ensures forall i | 0 <= i < |names| :: names[i] == rows[i + 1][0]
  {
    seq(|rows| - 1, i requires 0 <= i < |rows| - 1 => rows[i + 1][0])
  }

  /**
   * What the recorder keeps true: the header stays first, every data row is
   * a name, a time and a date, the names in the data rows are exactly the
   * attendance set, no name is written twice, and only known names, never
   * the unknown label, are marked.
   */
  predicate Invariant(known: seq<string>, log: Log) {
    && |log.rows| > 0 && log.rows[0] == Header
    && (forall i | 1 <= i < |log.rows| :: |log.rows[i]| == |Header|)
    && ToSet(NameColumn(log.rows)) == log.attendance
    && NoDuplicates(NameColumn(log.rows))
    && Unknown !in log.attendance
    && log.attendance <= ToSet(known)
  }

  /**
   * One label of a frame: a name that is not the unknown label and not yet
   * marked gets a row and joins the attendance set; anything else changes
   * nothing.
   */
  function Record(log: Log, name: string, s: Stamp): (r: Log)
    ensures log.rows <= r.rows
    ensures r.attendance == if name == Unknown then log.attendance else log.attendance + {name}
    ensures |r.rows| == |log.rows| + (if name != Unknown && name !in log.attendance then 1 else 0)
    ensures name == Unknown || name in log.attendance ==> r == log
    ensures name != Unknown && name !in log.attendance ==> r.rows == log.rows + [Row(name, s)]
  {
    if name != Unknown && name !in log.attendance then
      Log(log.attendance + {name}, log.rows + [Row(name, s)])
    else
      log
  }

  /** The names among `names` that are marked present by recording them. */
  function Marked(names: seq<string>): set<string> {
    set i | 0 <= i < |names| && names[i] != Unknown :: names[i]
  }

  lemma MarkedSnoc(names: seq<string>)
    requires |names| > 0
    ensures Marked(names) == Marked(names[..|names| - 1]) + Marked([names[|names| - 1]])
  {
    var n := |names| - 1;
    forall x | x in Marked(names)
      ensures x in Marked(names[..n]) + Marked([names[n]])
    {
      var i :| 0 <= i < |names| && names[i] != Unknown && names[i] == x;
      if i < n {
        assert names[..n][i] == x;
      } else {
        assert [names[n]][0] == x;
      }
    }
    forall x | x in Marked(names[..n])
      ensures x in Marked(names)
    {
      var i :| 0 <= i < n && names[..n][i] != Unknown && names[..n][i] == x;
      assert names[i] == x;
    }
  }

  /**
   * The labels of one frame recorded in order; `stamps[i]` is the clock
   * reading taken if the i-th label is written.
   */
  function RecordAll(log: Log, names: seq<string>, stamps: seq<Stamp>): (r: Log)
    requires |names| == |stamps|
    ensures |log.rows| <= |r.rows| <= |log.rows| + |names|
    decreases |names|
  {
    if |names| == 0 then log
    else
      var n := |names| - 1;
      Record(RecordAll(log, names[..n], stamps[..n]), names[n], stamps[n])
  }

  /**
   * The rows a frame's labels add, stated without the recorder's state: in
   * label order, one row with the i-th label and the i-th clock reading for
   * each i at which the label is not the unknown label, was not marked
   * before the frame, and does not occur earlier in the frame.
   */
  function FirstSightings(marked: set<string>, names: seq<string>, stamps: seq<Stamp>): seq<seq<string>>
    requires |names| == |stamps|
    decreases |names|
  {
    if |names| == 0 then []
    else
      var n := |names| - 1;
      FirstSightings(marked, names[..n], stamps[..n]) +
        (if names[n] != Unknown && names[n] !in marked && names[n] !in names[..n]
         then [Row(names[n], stamps[n])] else [])
  }

  /**
   * Recording a frame only appends rows, exactly the first sightings of its
   * new names, each with its own clock reading; afterwards every label of
   * the frame other than the unknown label is marked, and nothing else is.
   */
  lemma {:induction false} RecordAllEffect(log: Log, names: seq<string>, stamps: seq<Stamp>)
    requires |names| == |stamps|
    ensures RecordAll(log, names, stamps).rows == log.rows + FirstSightings(log.attendance, names, stamps)
    ensures log.rows <= RecordAll(log, names, stamps).rows
    ensures RecordAll(log, names, stamps).attendance == log.attendance + Marked(names)
    decreases |names|
  {
    if |names| > 0 {
      var n := |names| - 1;
      RecordAllEffect(log, names[..n], stamps[..n]);
      MarkedSnoc(names);
      var name := names[n];
      if name != Unknown && name in names[..n] {
        var i :| 0 <= i < n && names[..n][i] == name;
        assert name in Marked(names[..n]);
      }
      var prefix := FirstSightings(log.attendance, names[..n], stamps[..n]);
      var last := if name != Unknown && name !in log.attendance && name !in names[..n]
        then [Row(name, stamps[n])] else [];
      assert log.rows + prefix + last == log.rows + (prefix + last);
    }
  }

  /** Recording one more label of a frame extends the recording of the labels before it. */
  lemma RecordAllStep(log: Log, names: seq<string>, stamps: seq<Stamp>, i: nat)
    requires |names| == |stamps| && i < |names|
    ensures RecordAll(log, names[..i + 1], stamps[..i + 1]) ==
      Record(RecordAll(log, names[..i], stamps[..i]), names[i], stamps[i])
  {
    assert names[..i + 1][..i] == names[..i];
    assert stamps[..i + 1][..i] == stamps[..i];
  }

  lemma InitialInvariant(known: seq<string>)
    ensures Invariant(known, Initial)
  {
  }

  lemma NameColumnAppend(rows: seq<seq<string>>, row: seq<string>)
    requires HasNameColumn(rows) && |row| > 0
    ensures HasNameColumn(rows + [row])
    ensures NameColumn(rows + [row]) == NameColumn(rows) + [row[0]]
  {
  }

  /** Recording a label keeps the invariant, provided the label is a known name or the unknown label. */
  lemma RecordKeepsInvariant(known: seq<string>, log: Log, name: string, s: Stamp)
    requires Invariant(known, log)
    requires name == Unknown || name in known
    ensures Invariant(known, Record(log, name, s))
  {
    if name != Unknown && name !in log.attendance {
      var r := Record(log, name, s);
      NameColumnAppend(log.rows, Row(name, s));
      var col := NameColumn(log.rows);
      assert NameColumn(r.rows) == col + [name];
      assert ToSet(col + [name]) == ToSet(col) + {name};
      forall i | 0 <= i < |col|
        ensures col[i] != name
      {
        assert col[i] in ToSet(col);
      }
    }
  }

  /** Recording a frame's labels keeps the invariant. */
  lemma {:induction false} RecordAllKeepsInvariant(known: seq<string>, log: Log, names: seq<string>, stamps: seq<Stamp>)
    requires Invariant(known, log)
    requires |names| == |stamps|
    requires forall i | 0 <= i < |names| :: names[i] == Unknown || names[i] in known
    ensures Invariant(known, RecordAll(log, names, stamps))
    decreases |names|
  {
    if |names| > 0 {
      var n := |names| - 1;
      RecordAllKeepsInvariant(known, log, names[..n], stamps[..n]);
      RecordKeepsInvariant(known, RecordAll(log, names[..n], stamps[..n]), names[n], stamps[n]);
    }
  }

  /** Labels that are all unknown or already marked leave the recorder as it was. */
  lemma {:induction false} RecordAllOfMarkedIsNoOp(log: Log, names: seq<string>, stamps: seq<Stamp>)
    requires |names| == |stamps|
    requires forall i | 0 <= i < |names| :: names[i] == Unknown || names[i] in log.attendance
    ensures RecordAll(log, names, stamps) == log
    decreases |names|
  {
    if |names| > 0 {
      var n := |names| - 1;
      RecordAllOfMarkedIsNoOp(log, names[..n], stamps[..n]);
    }
  }

  /** Seeing the same labels again, at any later time, writes nothing and marks nothing. */
  lemma RecordAllIdempotent(log: Log, names: seq<string>, stamps: seq<Stamp>, later: seq<Stamp>)
    requires |names| == |stamps| == |later|
    ensures RecordAll(RecordAll(log, names, stamps), names, later) == RecordAll(log, names, stamps)
  {
    var r := RecordAll(log, names, stamps);
    RecordAllEffect(log, names, stamps);
    forall i | 0 <= i < |names| && names[i] != Unknown
      ensures names[i] in r.attendance
    {
      assert names[i] in Marked(names);
    }
    RecordAllOfMarkedIsNoOp(r, names, later);
  }

  lemma {:induction false} ToSetBound(s: seq<string>)
    ensures |ToSet(s)| <= |s|
    decreases |s|
  {
    if |s| > 0 {
      var n := |s| - 1;
      ToSetBound(s[..n]);
      assert ToSet(s) == ToSet(s[..n]) + {s[n]} by {
        assert s == s[..n] + [s[n]];
      }
    }
  }

  lemma {:induction false} NoDuplicatesToSetSize(s: seq<string>)
    requires NoDuplicates(s)
    ensures |ToSet(s)| == |s|
    decreases |s|
  {
    if |s| > 0 {
      var n := |s| - 1;
      NoDuplicatesToSetSize(s[..n]);
      assert s[n] !in ToSet(s[..n]);
      assert ToSet(s) == ToSet(s[..n]) + {s[n]} by {
        assert s == s[..n] + [s[n]];
      }
    }
  }

  lemma {:induction false} CountNoDuplicates(s: seq<string>, x: string)
    requires NoDuplicates(s)
    ensures Count(s, x) == if x in s then 1 else 0
    decreases |s|
  {
    if |s| > 0 {
      var n := |s| - 1;
      CountNoDuplicates(s[..n], x);
      assert s == s[..n] + [s[n]];
      assert s[n] == x ==> x !in s[..n];
    }
  }

  /**
   * The attendance set never holds more names than there are known
   * identities, and the file holds the header plus one row per marked name.
   */
  lemma AttendanceBound(known: seq<string>, log: Log)
    requires Invariant(known, log)
    ensures |log.attendance| <= |known|
    ensures |log.rows| == |log.attendance| + 1
  {
    ToSetBound(known);
    assert |log.attendance| <= |ToSet(known)| by {
      var extra := ToSet(known) - log.attendance;
      assert ToSet(known) == log.attendance + extra;
    }
    NoDuplicatesToSetSize(NameColumn(log.rows));
  }

  /** Each name is written exactly once if it is marked present, and never otherwise. */
  lemma WrittenOnce(known: seq<string>, log: Log, name: string)
    requires Invariant(known, log)
    ensures Count(NameColumn(log.rows), name) == if name in log.attendance then 1 else 0
  {
    var col := NameColumn(log.rows);
    CountNoDuplicates(col, name);
    assert name in col <==> name in ToSet(col);
  }

  /**
   * The recorder as the script keeps it: the names marked so far and the
   * rows of the open file. `known` is the list of known names.
   */
  class Recorder {
    const known: seq<string>
    var attendance: set<string>
    var rows: seq<seq<string>>

    function State(): Log
      reads this
    {
      Log(attendance, rows)
    }

    ghost predicate Valid()
      reads this
    {
      Invariant(known, State())
    }

    /** An empty attendance set and a file holding only the header. */
    constructor (known: seq<string>)
      ensures this.known == known
      ensures State() == Initial && Valid()
    {
      this.known := known;
      attendance := {};
      rows := [Header];
      new;
      InitialInvariant(known);
    }

    /** Marks `name` present at `stamp` unless it is unknown or already marked. */
    method Mark(name: string, stamp: Stamp)
      requires Valid()
      requires name == Unknown || name in known
      modifies this
      ensures Valid()
      ensures State() == Record(old(State()), name, stamp)
    {
      RecordKeepsInvariant(known, State(), name, stamp);
      if name != Unknown && name !in attendance {
        rows := rows + [Row(name, stamp)];
        attendance := attendance + {name};
      }
    }

    /**
     * One frame: labels every face in order and marks each label; returns
     * the labels. `stamps[i]` is the clock reading used if face i is marked.
     */
    method ProcessFrame(faces: seq<FaceScores>, stamps: seq<Stamp>) returns (faceNames: seq<string>)
      requires Valid()
      requires forall i | 0 <= i < |faces| :: WellFormed(known, faces[i])
      requires |stamps| == |faces|
      modifies this
      ensures Valid()
      ensures faceNames == FrameLabels(known, faces)
      ensures State() == RecordAll(old(State()), faceNames, stamps)
    {
      faceNames := [];
      ghost var start := State();
      ghost var labels := FrameLabels(known, faces);
      for i := 0 to |faces|
        invariant Valid()
        invariant faceNames == labels[..i]
        invariant State() == RecordAll(start, labels[..i], stamps[..i])
      {
        var name := FaceLabel(known, faces[i]);
        RecordAllStep(start, labels, stamps, i);
        assert labels[..i + 1] == faceNames + [name];
        faceNames := faceNames + [name];
        Mark(name, stamps[i]);
      }
      assert stamps[..|stamps|] == stamps;
      assert labels[..|faces|] == labels;
    }
  }
}
