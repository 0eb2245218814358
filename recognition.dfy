/**
 * Loading of the reference encodings and the per-face label decision.
 *
 * The face library (image decoding, encoding extraction, `compare_faces`,
 * `face_distance`) is not modelled: its outputs are inputs here. An encoding
 * is an element of an arbitrary type `E`; a live face is represented by the
 * match flags and distances the library reports for it against the known
 * encodings.
 */
module Recognition {

  /** The label of a face that is not accepted as any known identity. */
  const Unknown: string := "Unknown"

  /** The distance bound: handed to the matcher as its tolerance and checked again on the best match. */
  const Tolerance: real := 0.4

  /** The reference photos, in the order they are loaded. */
  const AkashPath: string := "photos/akash.jpg"
  const BhuvanPath: string := "photos/bhuvan.jpg"

  /** The names of the known identities, index for index with the loaded encodings. */
  const KnownNames: seq<string> := ["Akash", "Bhuvan"]

  /** The one startup error: a reference photo in which no face was found. */
  datatype LoadError = NoFaceFound(path: string)

  datatype Result<T> = Ok(value: T) | Err(error: LoadError)

  /** The text reported to the user before the program exits with status 1. */
  function Message(e: LoadError): (m: string)
    ensures |m| > 23 + |e.path|
    ensures m[..23] == "No face found in image "
    ensures m[23..23 + |e.path|] == e.path
  {
    "No face found in image " + e.path + ". Please use a different image or check the file."
  }

  /**
   * The reference-encoding guard: `encodings` is what the library extracted
   * from the photo at `path`; the first one is the reference encoding.
   */
  function GetFaceEncoding<E>(path: string, encodings: seq<E>): (r: Result<E>)
    ensures r.Err? <==> |encodings| == 0
    ensures r.Err? ==> r.error == NoFaceFound(path)
    ensures r.Ok? ==> r.value == encodings[0]
  {
    if |encodings| == 0 then Err(NoFaceFound(path)) else Ok(encodings[0])
  }

  /**
   * Startup: the two reference photos are loaded in turn and the first
   * failure aborts, so the second photo is not looked at when the first fails.
   */
  function LoadKnownEncodings<E>(akash: seq<E>, bhuvan: seq<E>): (r: Result<seq<E>>)
    ensures r.Ok? <==> |akash| > 0 && |bhuvan| > 0
    ensures |akash| == 0 ==> r == Err(NoFaceFound(AkashPath))
    ensures |akash| > 0 && |bhuvan| == 0 ==> r == Err(NoFaceFound(BhuvanPath))
    ensures r.Ok? ==> r.value == [akash[0], bhuvan[0]] && |r.value| == |KnownNames|
  {
    match GetFaceEncoding(AkashPath, akash)
    case Err(e) => Err(e)
    case Ok(a) =>
      match GetFaceEncoding(BhuvanPath, bhuvan)
      case Err(e) => Err(e)
      case Ok(b) => Ok([a, b])
  }

  /**
   * Index of the smallest distance; on a tie the first such index, as
   * numpy's `argmin` returns it.
   */
  function ArgMin(d: seq<real>): (k: nat)
    requires |d| > 0
    ensures k < |d|
    ensures forall j | 0 <= j < |d| :: d[k] <= d[j]
    ensures forall j | 0 <= j < k :: d[k] < d[j]
  {
    if |d| == 1 then 0
    else
      var k := ArgMin(d[..|d| - 1]);
      if d[|d| - 1] < d[k] then |d| - 1 else k
  }

  /**
   * What the library reports for one live face: `matches[i]` is the
   * `compare_faces` flag and `distances[i]` the `face_distance` value
   * against the i-th known encoding.
   */
  datatype FaceScores = FaceScores(matches: seq<bool>, distances: seq<real>)

  /** The scores of a face cover every known identity, and there is at least one. */
  predicate WellFormed(known: seq<string>, f: FaceScores) {
    |known| > 0 && |f.matches| == |known| && |f.distances| == |known|
  }

  /** The best match is accepted when the library flags it and it is strictly under the bound. */
  predicate Accepted(known: seq<string>, f: FaceScores)
    requires WellFormed(known, f)
  {
    var b := ArgMin(f.distances);
    f.matches[b] && f.distances[b] < Tolerance
  }

  /** The label decision for one live face. */
  function FaceLabel(known: seq<string>, f: FaceScores): (name: string)
    requires WellFormed(known, f)
    ensures name == Unknown || name in known
    ensures Accepted(known, f) ==> name == known[ArgMin(f.distances)]
    ensures !Accepted(known, f) ==> name == Unknown
  {
    var b := ArgMin(f.distances);
    if f.matches[b] && f.distances[b] < Tolerance then known[b] else Unknown
  }

  /** The labels of one frame's faces, in the order the faces were found. */
  function FrameLabels(known: seq<string>, faces: seq<FaceScores>): (names: seq<string>)
    requires forall i | 0 <= i < |faces| :: WellFormed(known, faces[i])
    ensures |names| == |faces|
    ensures forall i | 0 <= i < |names| :: names[i] == FaceLabel(known, faces[i])
    ensures forall i | 0 <= i < |names| :: names[i] == Unknown || names[i] in known
  {
    seq(|faces|, i requires 0 <= i < |faces| => FaceLabel(known, faces[i]))
  }

  /**
   * A face that gets a known name is within the bound of that identity, is
   * flagged by the library for it, and no other known identity is closer.
   */
  lemma RecognizedIsNearest(known: seq<string>, f: FaceScores)
    requires WellFormed(known, f)
    requires FaceLabel(known, f) != Unknown
    ensures exists b | 0 <= b < |known| ::
      && FaceLabel(known, f) == known[b]
      && f.matches[b] && f.distances[b] < Tolerance
      && forall j | 0 <= j < |known| :: f.distances[b] <= f.distances[j]
  {
  }

  /**
   * The converse, with the tie rule: an identity that is flagged, under the
   * bound, no farther than any other and strictly nearer than every earlier
   * one gives the face its name.
   */
  lemma FirstNearestIsRecognized(known: seq<string>, f: FaceScores, b: nat)
    requires WellFormed(known, f) && b < |known|
    requires f.matches[b] && f.distances[b] < Tolerance
    requires forall j | 0 <= j < |known| :: f.distances[b] <= f.distances[j]
    requires forall j | 0 <= j < b :: f.distances[b] < f.distances[j]
    ensures FaceLabel(known, f) == known[b]
  {
  }

  /**
   * Without the tie condition the converse fails: on equal distances the
   * first index is chosen, and if only a later one is flagged the face is
   * unknown.
   */
  lemma TieGoesToFirstIndex()
    ensures FaceLabel(KnownNames, FaceScores([false, true], [0.3, 0.3])) == Unknown
  {
    var d := [0.3, 0.3];
    assert ArgMin(d) == 0 by {
      assert d[..1] == [0.3];
    }
  }

  /** A face at least the bound away from every known encoding is labelled unknown. */
  lemma FarFaceIsUnknown(known: seq<string>, f: FaceScores)
    requires WellFormed(known, f)
    requires forall i | 0 <= i < |f.distances| :: f.distances[i] >= Tolerance
    ensures FaceLabel(known, f) == Unknown
  {
  }

  /**
   * The flags `compare_faces` computes with the same tolerance: a known
   * encoding matches when its distance is at most the tolerance.
   */
  predicate LibraryFlags(f: FaceScores) {
    |f.matches| == |f.distances| &&
    forall i | 0 <= i < |f.matches| :: f.matches[i] == (f.distances[i] <= Tolerance)
  }

  /**
   * With the library's own flags the double check reduces to the distance
   * bound: a face is unknown exactly when no known encoding is strictly
   * under the bound.
   */
  lemma UnknownIffNoneClose(known: seq<string>, f: FaceScores)
    requires WellFormed(known, f) && LibraryFlags(f)
    requires Unknown !in known
    ensures FaceLabel(known, f) == Unknown <==>
      forall i | 0 <= i < |f.distances| :: f.distances[i] >= Tolerance
  {
  }

  /** A face strictly closest to identity i and under the bound is labelled with i's name. */
  lemma ClosestUnderBoundIsRecognized(known: seq<string>, f: FaceScores, i: nat)
    requires WellFormed(known, f) && LibraryFlags(f)
    requires i < |known| && f.distances[i] < Tolerance
    requires forall j | 0 <= j < |known| && j != i :: f.distances[i] < f.distances[j]
    ensures FaceLabel(known, f) == known[i]
  {
  }
}
