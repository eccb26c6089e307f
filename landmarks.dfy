/**
 * The pure logic of the landmark detector (finalhistoryapp.py): picking the
 * best-scoring label, the three-way display decision with its similarity
 * threshold, the summary fallback, reading the landmark table and placing
 * the lines of the overlay text.
 *
 * The CLIP similarity scores are an input: a frame's score vector, or
 * `None` when preprocessing or encoding raised.
 */
module Landmarks {
  import opened Wrappers
  import opened Text

  /** `SIMILARITY_THRESHOLD`: the least score displayed as a detection. */
  const SimilarityThreshold: real := 22.0

  /** What the worker publishes for one frame: `(name, score)` or `(None, None)`. */
  datatype Detection = Detected(name: string, score: real) | NoDetection

  /**
   * `topk(1)`: the first index holding the largest score. Every score is at
   * most the chosen one and every earlier score is strictly smaller.
   */
  function ArgMax(scores: seq<real>): (i: nat)
    requires |scores| > 0
    ensures i < |scores|
    ensures forall k :: 0 <= k < |scores| ==> scores[k] <= scores[i]
    ensures forall k :: 0 <= k < i ==> scores[k] < scores[i]
  {
    if |scores| == 1 then 0
    else
      var j := 1 + ArgMax(scores[1..]);
      if scores[0] >= scores[j] then 0 else j
  }

  /**
   * The body of the worker's `try`: the label with the best score and that
   * score, or `NoDetection` when scoring raised (no scores, an empty score
   * vector, or a best index with no label).
   */
  function Classify(names: seq<string>, scores: Option<seq<real>>): (d: Detection)
    ensures d.Detected? ==> d.name in names && scores.Some? && d.score in scores.value
  {
    if scores.None? || |scores.value| == 0 then NoDetection
    else
      var i := ArgMax(scores.value);
      if i < |names| then Detected(names[i], scores.value[i]) else NoDetection
  }

  /**
   * A detection names one of the labels, carries that label's score, and no
   * label scores higher; scoring fails exactly when there is no score
   * vector, it is empty, or its best entry has no label.
   */
  lemma ClassifyPicksBest(names: seq<string>, scores: Option<seq<real>>)
    ensures var d := Classify(names, scores);
      d.Detected? ==>
        && scores.Some?
        && (exists i :: 0 <= i < |names| && i < |scores.value|
              && d.name == names[i] && d.score == scores.value[i])
        && (forall k :: 0 <= k < |scores.value| ==> scores.value[k] <= d.score)
    ensures Classify(names, scores).NoDetection? <==>
      scores.None? || |scores.value| == 0 || ArgMax(scores.value) >= |names|
  {
    var d := Classify(names, scores);
    if d.Detected? {
      var i := ArgMax(scores.value);
      assert d.name == names[i] && d.score == scores.value[i];
    }
  }

  /** When every label has a score, scoring always yields a detection. */
  lemma ClassifyTotal(names: seq<string>, scores: seq<real>)
    requires |scores| == |names| > 0
    ensures Classify(names, Some(scores)).Detected?
  {
  }

  // ---- The display decision ----

  /** The three things the user can be shown for a frame. */
  datatype Display = Found(name: string, score: real, summary: string) | NoLandmark | Processing

  /**
   * The text under the header: the summary service's answer, or when that
   * raised, the bundled description of the landmark, or "" when it has none.
   */
  function Summary(lookup: Option<string>, descs: map<string, string>, name: string): (text: string)
    ensures lookup.Some? ==> text == lookup.value
    ensures lookup.None? && name in descs ==> text == descs[name]
    ensures lookup.None? && name !in descs ==> text == ""
  {
    match lookup
    case Some(s) => s
    case None => if name in descs then descs[name] else ""
  }

  /**
   * Lines 93-107: `received` is what `out_q.get(timeout=5)` returned (`None`
   * for the `Empty` timeout); `lookup` is the summary service's answer.
   */
  function Decide(received: Option<Detection>, lookup: Option<string>, descs: map<string, string>): (shown: Display)
    ensures shown.Processing? <==> received.None?
    ensures shown.Found? ==> shown.name != "" && shown.score >= SimilarityThreshold
  {
    match received
    case None => Processing
    case Some(NoDetection) => NoLandmark
    case Some(Detected(name, score)) =>
      if name != "" && score >= SimilarityThreshold then Found(name, score, Summary(lookup, descs, name))
      else NoLandmark
  }

  /**
   * Exactly one of the three states is shown: "Processing..." exactly when
   * nothing arrived in time; a detection exactly when a non-empty label
   * arrived with a score at or above the threshold (with that label, score
   * and summary); "No landmark detected" in every other case.
   */
  lemma DecideCases(received: Option<Detection>, lookup: Option<string>, descs: map<string, string>)
    ensures var shown := Decide(received, lookup, descs);
      && (shown.Processing? <==> received.None?)
      && (shown.Found? <==>
            received.Some? && received.value.Detected? && received.value.name != ""
            && received.value.score >= SimilarityThreshold)
      && (shown.NoLandmark? <==> !shown.Processing? && !shown.Found?)
      && (shown.Found? ==>
            shown.name == received.value.name && shown.score == received.value.score
            && shown.summary == Summary(lookup, descs, shown.name))
  {
  }

  /** A score below the threshold is never displayed as a landmark, whatever the label. */
  lemma BelowThresholdNotFound(d: Detection, lookup: Option<string>, descs: map<string, string>)
    requires d.Detected? ==> d.score < SimilarityThreshold
    ensures Decide(Some(d), lookup, descs) == NoLandmark
  {
  }

  /** Two labels; the frame is closest to the first (35 against 10): it is found. */
  lemma ScenarioFound()
    ensures Classify(["Taj Mahal", "Eiffel Tower"], Some([35.0, 10.0])) == Detected("Taj Mahal", 35.0)
    ensures Decide(Some(Detected("Taj Mahal", 35.0)), Some("A white marble mausoleum."), map[])
      == Found("Taj Mahal", 35.0, "A white marble mausoleum.")
  {
    assert ArgMax([35.0, 10.0]) == 0 by {
      assert [35.0, 10.0][1..] == [10.0];
    }
  }

  /** Same labels, best score 10: the label is kept in the detection but not shown. */
  lemma ScenarioBelowThreshold()
    ensures Classify(["Taj Mahal", "Eiffel Tower"], Some([10.0, 4.0])) == Detected("Taj Mahal", 10.0)
    ensures Decide(Some(Detected("Taj Mahal", 10.0)), None, map[]) == NoLandmark
  {
    assert ArgMax([10.0, 4.0]) == 0 by {
      assert [10.0, 4.0][1..] == [4.0];
    }
  }

  // ---- The landmark table ----

  /** The label set: names in file order and the description of each. */
  datatype LabelSet = LabelSet(names: seq<string>, descs: map<string, string>)

  ghost predicate NoDuplicates(s: seq<string>) {
    forall i, j :: 0 <= i < j < |s| ==> s[i] != s[j]
  }

  /**
   * `load_landmarks` on a JSON object given as its members in file order.
   * As for a Python `dict`, a repeated key keeps the position of its first
   * occurrence and the value of its last.
   */
  function LoadLandmarks(members: seq<(string, string)>): (labels: LabelSet)
    ensures |labels.names| <= |members|
    ensures forall n :: n in labels.names <==> n in labels.descs
    ensures forall i :: 0 <= i < |members| ==> members[i].0 in labels.descs
  {
    if members == [] then LabelSet([], map[])
    else
      var prefix := LoadLandmarks(members[..|members| - 1]);
      var (key, value) := members[|members| - 1];
      var names := if key in prefix.descs then prefix.names else prefix.names + [key];
      LabelSet(names, prefix.descs[key := value])
  }

  /**
   * Every name read from the file is listed once, and a key's description is
   * the value of its last occurrence in the file.
   */
  lemma {:induction false} LoadLandmarksFaithful(members: seq<(string, string)>)
    ensures NoDuplicates(LoadLandmarks(members).names)
    ensures forall i ::
      (0 <= i < |members| && forall j :: i < j < |members| ==> members[j].0 != members[i].0)
      ==> LoadLandmarks(members).descs[members[i].0] == members[i].1
  {
    if members != [] {
      var init := members[..|members| - 1];
      LoadLandmarksFaithful(init);
      var labels := LoadLandmarks(members);
      forall i | 0 <= i < |members| && forall j :: i < j < |members| ==> members[j].0 != members[i].0
        ensures labels.descs[members[i].0] == members[i].1
      {
        if i < |init| {
          assert init[i] == members[i];
        }
      }
    }
  }

  /** `idx[p]` is the position where `names[p]` first appears among the keys. */
  ghost predicate FirstOccurrences(members: seq<(string, string)>, names: seq<string>, idx: seq<nat>) {
    && |idx| == |names|
    && forall p :: 0 <= p < |idx| ==>
         && idx[p] < |members| && members[idx[p]].0 == names[p]
         && forall j :: 0 <= j < idx[p] ==> members[j].0 != names[p]
  }

  ghost predicate Increasing(idx: seq<nat>) {
    forall p, q :: 0 <= p < q < |idx| ==> idx[p] < idx[q]
  }

  /** Every key of the file is among the names. */
  ghost predicate CoversKeys(members: seq<(string, string)>, names: seq<string>) {
    forall i :: 0 <= i < |members| ==> members[i].0 in names
  }

  /**
   * The names are exactly the file's keys in the order of their first
   * occurrence: `idx[p]` is where `names[p]` first appears, the positions
   * increase, and every key of the file is a name.
   */
  lemma {:induction false} LoadLandmarksKeyOrder(members: seq<(string, string)>) returns (idx: seq<nat>)
    ensures FirstOccurrences(members, LoadLandmarks(members).names, idx)
    ensures Increasing(idx)
    ensures CoversKeys(members, LoadLandmarks(members).names)
  {
    if members == [] {
      idx := [];
    } else {
      var n := |members| - 1;
      var init, last := members[..n], members[n];
      assert members == init + [last];
      var idx0 := LoadLandmarksKeyOrder(init);
      var names := LoadLandmarks(init).names;
      if last.0 in LoadLandmarks(init).descs {
        idx := idx0;
        KeyOrderRepeat(init, last, names, idx0);
      } else {
        idx := idx0 + [n];
        KeyOrderNew(init, last, names, idx0);
      }
    }
  }

  /** A member whose key is already a name changes neither the names nor their first positions. */
  lemma KeyOrderRepeat(init: seq<(string, string)>, last: (string, string), names: seq<string>, idx: seq<nat>)
    requires FirstOccurrences(init, names, idx) && CoversKeys(init, names) && last.0 in names
    ensures FirstOccurrences(init + [last], names, idx)
    ensures CoversKeys(init + [last], names)
  {
    var members := init + [last];
    assert forall i :: 0 <= i < |init| ==> members[i] == init[i];
  }

  /** A member with a new key appends that key, first seen at the member's own position. */
  lemma KeyOrderNew(init: seq<(string, string)>, last: (string, string), names: seq<string>, idx: seq<nat>)
    requires FirstOccurrences(init, names, idx) && Increasing(idx) && CoversKeys(init, names)
    requires last.0 !in names
    ensures FirstOccurrences(init + [last], names + [last.0], idx + [|init|])
    ensures Increasing(idx + [|init|])
    ensures CoversKeys(init + [last], names + [last.0])
  {
    var members := init + [last];
    assert forall i :: 0 <= i < |init| ==> members[i] == init[i];
    assert forall j :: 0 <= j < |init| ==> members[j].0 != last.0;
  }

  /**
   * A repeated key keeps its first place and its last value:
   * `{"b": "1", "a": "2", "b": "3"}` gives the labels `b`, `a`, with `b`
   * described by "3".
   */
  lemma ScenarioRepeatedKey()
    ensures LoadLandmarks([("b", "1"), ("a", "2"), ("b", "3")])
         == LabelSet(["b", "a"], map["b" := "3", "a" := "2"])
  {
    var m := [("b", "1"), ("a", "2"), ("b", "3")];
    assert m[..2] == [("b", "1"), ("a", "2")];
    assert m[..2][..1] == [("b", "1")];
    assert m[..2][..1][..0] == [];
    assert LoadLandmarks(m[..2]) == LabelSet(["b", "a"], map["b" := "1", "a" := "2"]);
  }

  /** With distinct keys, the names are exactly the keys in file order. */
  lemma {:induction false} LoadLandmarksDistinctKeys(members: seq<(string, string)>)
    requires forall i, j :: 0 <= i < j < |members| ==> members[i].0 != members[j].0
    ensures LoadLandmarks(members).names == seq(|members|, i requires 0 <= i < |members| => members[i].0)
  {
    if members != [] {
      var init := members[..|members| - 1];
      LoadLandmarksDistinctKeys(init);
      assert members[|members| - 1].0 !in LoadLandmarks(init).names;
    }
  }

  // ---- Overlay text ----

  /** One line of overlay text and where it is drawn. */
  datatype TextLine = TextLine(text: string, x: int, y: int)

  /**
   * `overlay_multiline_text`: one line per `\n`-separated piece, all at `x`,
   * the i-th at `y + i * lineHeight`.
   */
  function OverlayLines(text: string, x: int, y: int, lineHeight: int): (lines: seq<TextLine>)
    ensures |lines| == Count(text, '\n') + 1
    ensures forall i :: 0 <= i < |lines| ==>
      lines[i].x == x && lines[i].y == y + i * lineHeight && '\n' !in lines[i].text
  {
    var pieces := Split(text, '\n');
    seq(|pieces|, i requires 0 <= i < |pieces| => TextLine(pieces[i], x, y + i * lineHeight))
  }

  /** The drawn lines, read top to bottom and rejoined, give back the text. */
  lemma OverlayLinesCoverText(text: string, x: int, y: int, lineHeight: int)
    ensures var lines := OverlayLines(text, x, y, lineHeight);
      Join(seq(|lines|, i requires 0 <= i < |lines| => lines[i].text), '\n') == text
  {
    var lines := OverlayLines(text, x, y, lineHeight);
    assert seq(|lines|, i requires 0 <= i < |lines| => lines[i].text) == Split(text, '\n');
    JoinSplit(text, '\n');
  }
}
