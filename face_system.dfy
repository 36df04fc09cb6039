/**
 * The enrolled-face database of the attendance kiosk and its nearest-match scan
 * (class FaceSystem of src/core.py).
 *
 * Face detection and embedding extraction are foreign vision-library calls: the
 * model receives their outcome as an `Option<Encoding>` (None when no face was
 * found). The cosine similarity is a parameter `sim`, so the scan's per-entry
 * scores are `Scores(query, stored, sim)`.
 */
module FaceRecognition {
  import opened Wrappers

  /** A face embedding (the recognizer's feature vector). */
  type Encoding = seq<real>

  /** The recognizer's match score between a query and a stored embedding. */
  type Similarity = (Encoding, Encoding) -> real

  /** A score must exceed this to name a person. */
  const Threshold: real := 0.4

  /** Name returned when nobody in the database matches well enough. */
  const Unknown: string := "Unknown"

  /** Name returned when the image holds no face. */
  const NoFace: string := "No Face"

  /** The score of the query against each stored embedding, in database order. */
  function Scores(query: Encoding, stored: seq<Encoding>, sim: Similarity): (s: seq<real>)
    ensures |s| == |stored|
    ensures forall i :: 0 <= i < |stored| ==> s[i] == sim(query, stored[i])
  {
    seq(|stored|, i requires 0 <= i < |stored| => sim(query, stored[i]))
  }

  /**
   * The score a scan reports: the largest of 0 and all entry scores.
   * (The body follows the scan, which starts its running maximum at 0.)
   */
  function BestScore(s: seq<real>): (m: real)
    ensures 0.0 <= m
    ensures forall i :: 0 <= i < |s| ==> s[i] <= m
    ensures m == 0.0 || m in s
  {
    if s == [] then 0.0
    else
      var prev := BestScore(s[..|s| - 1]);
      assert forall i :: 0 <= i < |s| - 1 ==> s[i] == s[..|s| - 1][i];
      if s[|s| - 1] > prev then s[|s| - 1] else prev
  }

  /** The first position of `v` in `s`. */
  function FirstIndexOf(s: seq<real>, v: real): (k: nat)
    requires v in s
    ensures k < |s| && s[k] == v
    ensures forall j :: 0 <= j < k ==> s[j] != v
  {
    if s[0] == v then 0 else 1 + FirstIndexOf(s[1..], v)
  }

  /**
   * Reference definition of the name a scan over `names` with per-entry
   * `scores` settles on: the name at the first entry attaining the best score,
   * if that score is above the threshold, and Unknown otherwise.
   */
  function Selection(names: seq<string>, scores: seq<real>): (r: string)
    requires |names| == |scores|
    ensures BestScore(scores) <= Threshold ==> r == Unknown
    ensures BestScore(scores) > Threshold ==>
      exists k :: 0 <= k < |scores| && r == names[k] && scores[k] == BestScore(scores) &&
        forall j :: 0 <= j < k ==> scores[j] < scores[k]
  {
    var m := BestScore(scores);
    if m > Threshold then names[FirstIndexOf(scores, m)] else Unknown
  }

  /**
   * One step of the scan: a new entry with score `x` displaces the current
   * choice only when it beats the running maximum strictly and exceeds the
   * threshold; otherwise the choice stays. The running maximum grows to `x`
   * exactly when `x` beats it. The proof is a case split, not an induction;
   * automatic induction is switched off because it only burdens the solver.
   */
  lemma {:induction false} SelectionStep(names: seq<string>, scores: seq<real>, n: string, x: real)
    requires |names| == |scores|
    ensures BestScore(scores + [x]) == if x > BestScore(scores) then x else BestScore(scores)
    ensures Selection(names + [n], scores + [x]) ==
      if x > BestScore(scores) && x > Threshold then n else Selection(names, scores)
  {
    var s' := scores + [x];
    assert s'[..|s'| - 1] == scores;
    var m := BestScore(scores);
    if x > m {
      assert x !in scores;
      if x > Threshold {
        assert FirstIndexOf(s', x) == |scores|;
      }
    } else if m > Threshold {
      var k := FirstIndexOf(scores, m);
      var k' := FirstIndexOf(s', m);
      assert s'[k] == m;
      assert k' == k;
    }
  }

  /** SelectionStep restated for the scan's prefixes. */
  lemma ScanStep(names: seq<string>, scores: seq<real>, i: nat)
    requires |names| == |scores| && i < |scores|
    ensures BestScore(scores[..i + 1]) ==
      if scores[i] > BestScore(scores[..i]) then scores[i] else BestScore(scores[..i])
    ensures Selection(names[..i + 1], scores[..i + 1]) ==
      if scores[i] > BestScore(scores[..i]) && scores[i] > Threshold then names[i]
      else Selection(names[..i], scores[..i])
  {
    assert scores[..i + 1] == scores[..i] + [scores[i]];
    assert names[..i + 1] == names[..i] + [names[i]];
    SelectionStep(names[..i], scores[..i], names[i], scores[i]);
  }

  /**
   * When "Unknown" is not itself an enrolled name, the scan reports Unknown
   * exactly when no score exceeds the threshold.
   */
  lemma SelectionIsUnknownIff(names: seq<string>, scores: seq<real>)
    requires |names| == |scores|
    requires Unknown !in names
    ensures Selection(names, scores) == Unknown <==> BestScore(scores) <= Threshold
  {
  }

  /** A recognised name is an enrolled one, and its entry scores above the threshold. */
  lemma RecognizedIsEnrolled(names: seq<string>, scores: seq<real>)
    requires |names| == |scores|
    ensures Selection(names, scores) != Unknown ==>
      Selection(names, scores) in names && BestScore(scores) > Threshold &&
      exists k :: 0 <= k < |names| && names[k] == Selection(names, scores) && scores[k] > Threshold
  {
  }

  /**
   * Ties go to the earlier entry: the first entry attaining a best score above
   * the threshold is the one named, whatever later entries share its score.
   */
  lemma TieGoesToEarliest(names: seq<string>, scores: seq<real>, i: nat)
    requires |names| == |scores|
    requires i < |scores| && scores[i] == BestScore(scores) && scores[i] > Threshold
    requires forall j :: 0 <= j < i ==> scores[j] < scores[i]
    ensures Selection(names, scores) == names[i]
  {
  }

  /** An empty database never names anybody and reports a score of 0. */
  lemma EmptyDatabaseIsUnknown()
    ensures Selection([], []) == Unknown && BestScore([]) == 0.0
  {
  }

  /**
   * The database of enrolled people: two parallel lists, `names` and
   * `encodings`, appended to together.
   */
  class FaceSystem {
    var names: seq<string>
    var encodings: seq<Encoding>

    /** The two lists stay the same length. */
    ghost predicate Valid()
      reads this
    {
      |names| == |encodings|
    }

    /** The number of entries a pairwise (zip) scan visits. */
    function Entries(): (n: nat)
      reads this
      ensures n <= |names| && n <= |encodings|
      ensures n == |names| || n == |encodings|
      ensures Valid() ==> n == |names| == |encodings|
    {
      if |names| < |encodings| then |names| else |encodings|
    }

    /** A fresh, empty database (nothing persisted yet). */
    constructor ()
      ensures Valid() && names == [] && encodings == []
    {
      names, encodings := [], [];
    }

    /**
     * Enrolls `name` with the embedding of the detected face. Without a face,
     * nothing changes and the call reports failure.
     */
    method RegisterUser(face: Option<Encoding>, name: string) returns (ok: bool)
      modifies this
      ensures ok <==> face.Some?
      ensures !ok ==> names == old(names) && encodings == old(encodings)
      ensures ok ==> names == old(names) + [name] && encodings == old(encodings) + [face.value]
      ensures old(Valid()) ==> Valid()
    {
      if face.None? {
        return false;
      }
      names := names + [name];
      encodings := encodings + [face.value];
      ok := true;
    }

    /**
     * Identifies the detected face: "No Face" and 0 without a face; otherwise
     * the best score over the stored entries (at least 0) and the name the
     * reference `Selection` picks for those scores.
     */
    method Identify(face: Option<Encoding>, sim: Similarity) returns (name: string, score: real)
      ensures face.None? ==> name == NoFace && score == 0.0
      ensures face.Some? ==>
        var s := Scores(face.value, encodings[..Entries()], sim);
        score == BestScore(s) && name == Selection(names[..Entries()], s)
    {
      if face.None? {
        return NoFace, 0.0;
      }
      if encodings == [] {
        return Unknown, 0.0;
      }
      var feature := face.value;
      var n := Entries();
      var enrolled, stored := names[..n], encodings[..n];
      ghost var s := Scores(feature, stored, sim);
      score, name := 0.0, Unknown;
      var i := 0;
      while i < n
        invariant 0 <= i <= n
        invariant score == BestScore(s[..i])
        invariant name == Selection(enrolled[..i], s[..i])
      {
        var x := sim(feature, stored[i]);
        ScanStep(enrolled, s, i);
        if x > score {
          score := x;
          if x > Threshold {
            name := enrolled[i];
          }
        }
        i := i + 1;
      }
      assert s[..n] == s && enrolled[..n] == enrolled;
    }
  }
}
