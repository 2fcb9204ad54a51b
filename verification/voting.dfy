/** The classification half of the upload endpoint (`upload_video` in
    videotoimage_app/views.py): each listed .jpg file's probability vector is
    turned into a vote (first argmax label and its probability), the votes are
    counted per label, the most confident frame is tracked, and the run ends
    rejected, predicted, or in an internal error. */
module Voting {
  import opened PyOps

  /** The classifier's labels. */
  datatype Label = Aom | Csom | Earwax | Normal

  /** `class_labels`: the order of the classifier's outputs and of the
      counter dictionary's keys. */
  const ClassLabels: seq<Label> := [Aom, Csom, Earwax, Normal]

  /** The position of a label in `class_labels`. */
  function LabelIndex(l: Label): (i: nat)
    ensures i < |ClassLabels| && ClassLabels[i] == l
  {
    match l
    case Aom => 0
    case Csom => 1
    case Earwax => 2
    case Normal => 3
  }

  /** The classifier's output for one image: one probability per label. */
  type ProbVector = v: seq<real> | |v| == |ClassLabels| witness [0.0, 0.0, 0.0, 0.0]

  /** One entry of the output folder's listing, with the classifier's output
      for the image stored under that name. */
  datatype ListedFile = ListedFile(name: string, probs: ProbVector)

  /** One frame's classification: its label and that label's probability. */
  datatype Vote = Vote(classLabel: Label, confidence: real)

  /** i is the first position holding the maximum of v. */
  ghost predicate IsFirstMax(v: seq<real>, i: int)
  {
    && 0 <= i < |v|
    && (forall j :: 0 <= j < |v| ==> v[j] <= v[i])
    && (forall j :: 0 <= j < i ==> v[j] < v[i])
  }

  /** At most one position is the first maximum. */
  lemma FirstMaxUnique(v: seq<real>, i: int, j: int)
    requires IsFirstMax(v, i) && IsFirstMax(v, j)
    ensures i == j
  {
    assert v[j] <= v[i] && v[i] <= v[j];
  }

  /** The scan behind `np.argmax` and `max(..., key=...)`: the candidate is
      replaced only by a strictly greater value, so the first maximum wins. */
  function ArgmaxFrom(v: seq<real>, k: nat, best: nat): (i: nat)
    requires best < k <= |v|
    requires IsFirstMax(v[..k], best)
    ensures IsFirstMax(v, i)
    decreases |v| - k
  {
    if k == |v| then
      assert v[..k] == v;
      best
    else if v[k] > v[best] then
      ArgmaxFrom(v, k + 1, k)
    else
      ArgmaxFrom(v, k + 1, best)
  }

  function Argmax(v: seq<real>): (i: nat)
    requires |v| > 0
    ensures IsFirstMax(v, i)
  {
    ArgmaxFrom(v, 1, 0)
  }

  /** A frame's vote: the label at the first maximal probability, and that
      probability as the frame's confidence. */
  function Classify(probs: ProbVector): (vote: Vote)
    ensures IsFirstMax(probs, LabelIndex(vote.classLabel))
    ensures vote.confidence == probs[LabelIndex(vote.classLabel)]
  {
    var i := Argmax(probs);
    Vote(ClassLabels[i], probs[i])
  }

  /** `filename.endswith('.jpg')`. */
  predicate IsJpg(f: ListedFile)
  {
    EndsWith(f.name, ".jpg")
  }

  /** The listed files the loop processes, in listing order. */
  function JpgFiles(listing: seq<ListedFile>): (jpgs: seq<ListedFile>)
    ensures forall f :: f in jpgs <==> f in listing && IsJpg(f)
    ensures |jpgs| <= |listing|
  {
    if |listing| == 0 then []
    else if IsJpg(listing[0]) then [listing[0]] + JpgFiles(listing[1..])
    else JpgFiles(listing[1..])
  }

  /** The filter keeps listing order: filtering a concatenation is the
      concatenation of the filtered parts. */
  lemma {:induction false} JpgFilesAppend(a: seq<ListedFile>, b: seq<ListedFile>)
    ensures JpgFiles(a + b) == JpgFiles(a) + JpgFiles(b)
    decreases |a|
  {
    var c := a + b;
    if |a| == 0 {
      assert c == b;
    } else {
      assert c[0] == a[0] && c[1..] == a[1..] + b;
      JpgFilesAppend(a[1..], b);
      if IsJpg(a[0]) {
        calc {
          JpgFiles(c);
          [a[0]] + JpgFiles(a[1..] + b);
          [a[0]] + (JpgFiles(a[1..]) + JpgFiles(b));
          ([a[0]] + JpgFiles(a[1..])) + JpgFiles(b);
        }
      }
    }
  }

  /** A single listed file is processed exactly when it is a .jpg. */
  lemma JpgFilesSingle(f: ListedFile)
    ensures JpgFiles([f]) == if IsJpg(f) then [f] else []
  {
    assert [f][1..] == [];
  }

  /** The elementwise image of a sequence. */
  function Map<A, B>(f: A -> B, s: seq<A>): (r: seq<B>)
  {
    seq(|s|, i requires 0 <= i < |s| => f(s[i]))
  }

  lemma MapConcat<A, B>(f: A -> B, a: seq<A>, b: seq<A>)
    ensures Map(f, a + b) == Map(f, a) + Map(f, b)
  {
  }

  lemma MapSingleton<A, B>(f: A -> B, x: A)
    ensures Map(f, [x]) == [f(x)]
  {
    assert Map(f, [x])[0] == f(x);
  }

  function VoteOf(f: ListedFile): Vote
  {
    Classify(f.probs)
  }

  function LabelOf(v: Vote): Label
  {
    v.classLabel
  }

  function Votes(jpgs: seq<ListedFile>): seq<Vote>
  {
    Map(VoteOf, jpgs)
  }

  function Labels(votes: seq<Vote>): seq<Label>
  {
    Map(LabelOf, votes)
  }

  /** How many votes carry label l. */
  function CountOf(votes: seq<Vote>, l: Label): nat
  {
    multiset(Labels(votes))[l]
  }

  /** `{label: 0 for label in class_labels}`. */
  function InitialCounters(): (counters: map<Label, nat>)
    ensures forall l: Label :: l in counters && counters[l] == 0
  {
    var c := map l | l in ClassLabels :: 0;
    assert forall l: Label :: l in c by {
      forall l: Label ensures l in c {
        assert ClassLabels[LabelIndex(l)] == l;
      }
    }
    c
  }

  /** `class_counters[label] += 1` for every vote in turn. */
  function Tally(votes: seq<Vote>): (counters: map<Label, nat>)
    ensures forall l: Label :: l in counters && counters[l] == CountOf(votes, l)
    decreases |votes|
  {
    if |votes| == 0 then InitialCounters()
    else
      var init := votes[..|votes| - 1];
      var last := votes[|votes| - 1];
      var c := Tally(init);
      assert votes == init + [last];
      MapConcat(LabelOf, init, [last]);
      MapSingleton(LabelOf, last);
      assert Labels(votes) == Labels(init) + [last.classLabel];
      c[last.classLabel := c[last.classLabel] + 1]
  }

  /** The running best of lines 119 and 131-134: the highest confidence so
      far (0 before any frame beat it) and the frame that first reached it. */
  datatype Best = Best(maxAccuracy: real, frame: Option<nat>)

  function TrackBest(votes: seq<Vote>): (b: Best)
    ensures b.frame.None? ==> b.maxAccuracy == 0.0
    ensures b.frame.None? <==> forall i :: 0 <= i < |votes| ==> votes[i].confidence <= 0.0
    ensures b.frame.Some? ==>
              && b.frame.value < |votes|
              && b.maxAccuracy == votes[b.frame.value].confidence
              && b.maxAccuracy > 0.0
              && (forall i :: 0 <= i < |votes| ==> votes[i].confidence <= b.maxAccuracy)
              && (forall i :: 0 <= i < b.frame.value ==> votes[i].confidence < b.maxAccuracy)
    decreases |votes|
  {
    if |votes| == 0 then Best(0.0, None)
    else
      var last := |votes| - 1;
      var b := TrackBest(votes[..last]);
      if votes[last].confidence > b.maxAccuracy then Best(votes[last].confidence, Some(last)) else b
  }

  /** The counters as a vector in key order. */
  function CountVector(counters: map<Label, nat>): (v: seq<real>)
    requires forall l: Label :: l in counters
    ensures |v| == |ClassLabels|
    ensures forall l: Label :: v[LabelIndex(l)] == counters[l] as real
  {
    [counters[Aom] as real, counters[Csom] as real, counters[Earwax] as real, counters[Normal] as real]
  }

  /** `max(class_counters, key=class_counters.get)`: the first key, in
      `class_labels` order, whose count is maximal. */
  function Winner(counters: map<Label, nat>): (w: Label)
    requires forall l: Label :: l in counters
    ensures forall l: Label :: counters[l] <= counters[w]
    ensures forall l: Label :: LabelIndex(l) < LabelIndex(w) ==> counters[l] < counters[w]
  {
    var v := CountVector(counters);
    var i := Argmax(v);
    var w := ClassLabels[i];
    assert LabelIndex(w) == i;
    forall l: Label ensures counters[l] <= counters[w] {
      assert v[LabelIndex(l)] <= v[i];
    }
    w
  }

  /** A label count above this rejects the whole run. */
  const Threshold: nat := 22

  /** The endpoint's answers. `Predicted` carries the aggregate label, the
      single best frame's confidence, the file whose image is annotated and
      returned, and the label written onto that image. */
  datatype Outcome =
    | NoVideo
    | Rejected
    | InternalError
    | Predicted(prediction: Label, accuracy: real, bestImage: string, overlayLabel: Label)

  /** The HTTP status of each answer. */
  function Status(o: Outcome): int
  {
    match o
    case NoVideo => 500
    case Rejected => 400
    case InternalError => 500
    case Predicted(_, _, _, _) => 200
  }

  predicate AnyOverThreshold(votes: seq<Vote>)
  {
    exists l: Label :: CountOf(votes, l) > Threshold
  }

  function FileName(f: ListedFile): string
  {
    f.name
  }

  /** Everything after the loop over the processed .jpg files, given their
      votes and names in processing order: the rejection check, then the
      winner, then the use of the best frame (which raises when no frame's
      confidence ever exceeded 0, leaving it unbound). */
  function Aggregate(votes: seq<Vote>, names: seq<string>): (o: Outcome)
    requires |names| == |votes|
    ensures o != NoVideo
    ensures o == Rejected <==> AnyOverThreshold(votes)
    ensures o == InternalError <==>
              !AnyOverThreshold(votes) && forall i :: 0 <= i < |votes| ==> votes[i].confidence <= 0.0
    ensures o.Predicted? ==>
              && (forall l: Label :: CountOf(votes, l) <= CountOf(votes, o.prediction))
              && (forall l: Label :: LabelIndex(l) < LabelIndex(o.prediction) ==>
                    CountOf(votes, l) < CountOf(votes, o.prediction))
    ensures o.Predicted? ==>
              exists i :: && 0 <= i < |votes|
                          && names[i] == o.bestImage
                          && votes[i] == Vote(o.overlayLabel, o.accuracy)
                          && o.accuracy > 0.0
                          && (forall j :: 0 <= j < |votes| ==> votes[j].confidence <= o.accuracy)
                          && (forall j :: 0 <= j < i ==> votes[j].confidence < o.accuracy)
  {
    var counters := Tally(votes);
    var best := TrackBest(votes);
    if exists l: Label :: counters[l] > Threshold then Rejected
    else
      var prediction := Winner(counters);
      match best.frame
      case None => InternalError
      case Some(i) => Predicted(prediction, best.maxAccuracy, names[i], votes[i].classLabel)
  }

  /** `upload_video`: without a video file the endpoint answers 500 at once;
      otherwise the .jpg files of the (already populated) output folder are
      classified in listing order and their votes aggregated. */
  function UploadVideo(hasVideo: bool, listing: seq<ListedFile>): (o: Outcome)
    ensures o == NoVideo <==> !hasVideo
    ensures Status(o) == 400 <==> hasVideo && AnyOverThreshold(Votes(JpgFiles(listing)))
    ensures Status(o) == 200 <==> o.Predicted?
    ensures o.Predicted? ==> exists f :: f in listing && IsJpg(f) && f.name == o.bestImage
  {
    if !hasVideo then NoVideo
    else
      var jpgs := JpgFiles(listing);
      var o := Aggregate(Votes(jpgs), Map(FileName, jpgs));
      BestImageIsListed(listing);
      o
  }

  /** The annotated image of a prediction is one of the processed files. */
  lemma BestImageIsListed(listing: seq<ListedFile>)
    ensures var o := Aggregate(Votes(JpgFiles(listing)), Map(FileName, JpgFiles(listing)));
            o.Predicted? ==> exists f :: f in listing && IsJpg(f) && f.name == o.bestImage
  {
    var jpgs := JpgFiles(listing);
    var names := Map(FileName, jpgs);
    var o := Aggregate(Votes(jpgs), names);
    if o.Predicted? {
      var i :| 0 <= i < |names| && names[i] == o.bestImage;
      assert names[i] == FileName(jpgs[i]) == jpgs[i].name;
      assert jpgs[i] in jpgs;
      assert jpgs[i] in listing && IsJpg(jpgs[i]);
    }
  }
}
