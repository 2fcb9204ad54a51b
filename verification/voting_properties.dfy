/** Properties of the vote aggregation that relate several runs: counters
    account for every processed frame, the listing order cannot change the
    aggregate answer, the aggregate label ignores confidences, and the pinned
    scenarios (rejection, tie-break, best frame of another label). */
module VotingProperties {
  import opened PyOps
  import opened Voting

  lemma {:induction false} LabelCountsSum(s: seq<Label>)
    ensures multiset(s)[Aom] + multiset(s)[Csom] + multiset(s)[Earwax] + multiset(s)[Normal] == |s|
  {
    if |s| > 0 {
      var init, x := s[..|s| - 1], s[|s| - 1];
      LabelCountsSum(init);
      assert s == init + [x];
      assert multiset(s) == multiset(init) + multiset{x};
      match x
      case Aom => {}
      case Csom => {}
      case Earwax => {}
      case Normal => {}
    }
  }

  /** The four counters add up to the number of processed .jpg files. */
  lemma CountersSumToFrames(listing: seq<ListedFile>)
    ensures var c := Tally(Votes(JpgFiles(listing)));
            c[Aom] + c[Csom] + c[Earwax] + c[Normal] == |JpgFiles(listing)|
  {
    LabelCountsSum(Labels(Votes(JpgFiles(listing))));
  }

  /** Reordering a sequence reorders its elementwise image. */
  lemma {:induction false} MapMultiset<A, B>(f: A -> B, a: seq<A>, b: seq<A>)
    requires multiset(a) == multiset(b)
    ensures multiset(Map(f, a)) == multiset(Map(f, b))
    decreases |a|
  {
    if |a| == 0 {
      assert |b| == |multiset(b)| == 0;
    } else {
      var x := a[0];
      assert x in multiset(b);
      var i :| 0 <= i < |b| && b[i] == x;
      var rest := b[..i] + b[i + 1..];
      assert b == b[..i] + [x] + b[i + 1..];
      assert multiset(rest) == multiset(b) - multiset{x};
      assert a == [x] + a[1..];
      MapMultiset(f, a[1..], rest);
      MapConcat(f, [x], a[1..]);
      MapConcat(f, b[..i], [x]);
      MapConcat(f, b[..i] + [x], b[i + 1..]);
      MapConcat(f, b[..i], b[i + 1..]);
      assert Map(f, [x]) == [f(x)];
    }
  }

  /** How often a file occurs among the processed ones: as often as in the
      listing when its name ends with .jpg, never otherwise. */
  lemma {:induction false} JpgFilesCount(listing: seq<ListedFile>, f: ListedFile)
    ensures multiset(JpgFiles(listing))[f] == if IsJpg(f) then multiset(listing)[f] else 0
  {
    if |listing| > 0 {
      JpgFilesCount(listing[1..], f);
      assert listing == [listing[0]] + listing[1..];
    }
  }

  /** Listing the same files in another order processes the same votes in
      another order. */
  lemma PermutedVotes(l1: seq<ListedFile>, l2: seq<ListedFile>)
    requires multiset(l1) == multiset(l2)
    ensures multiset(Votes(JpgFiles(l1))) == multiset(Votes(JpgFiles(l2)))
  {
    forall f ensures multiset(JpgFiles(l1))[f] == multiset(JpgFiles(l2))[f] {
      JpgFilesCount(l1, f);
      JpgFilesCount(l2, f);
    }
    assert multiset(JpgFiles(l1)) == multiset(JpgFiles(l2));
    MapMultiset(VoteOf, JpgFiles(l1), JpgFiles(l2));
  }

  /** Aggregating the same votes in another order gives the same kind of
      outcome, the same aggregate label and the same best confidence; only
      which equally confident frame is annotated may differ. */
  lemma AggregateOrderIndependent(v1: seq<Vote>, n1: seq<string>, v2: seq<Vote>, n2: seq<string>)
    requires |n1| == |v1| && |n2| == |v2|
    requires multiset(v1) == multiset(v2)
    ensures Aggregate(v1, n1) == Rejected <==> Aggregate(v2, n2) == Rejected
    ensures Aggregate(v1, n1) == InternalError <==> Aggregate(v2, n2) == InternalError
    ensures Aggregate(v1, n1).Predicted? <==> Aggregate(v2, n2).Predicted?
    ensures Aggregate(v1, n1).Predicted? ==>
              && Aggregate(v1, n1).prediction == Aggregate(v2, n2).prediction
              && Aggregate(v1, n1).accuracy == Aggregate(v2, n2).accuracy
  {
    MapMultiset(LabelOf, v1, v2);
    assert forall l: Label :: CountOf(v1, l) == CountOf(v2, l);
    assert AnyOverThreshold(v1) <==> AnyOverThreshold(v2);
    forall x ensures x in v1 <==> x in v2 {
      assert x in v1 <==> x in multiset(v1);
      assert x in v2 <==> x in multiset(v2);
    }
    NonPositiveTransfers(v1, v2);
    NonPositiveTransfers(v2, v1);
    var o1, o2 := Aggregate(v1, n1), Aggregate(v2, n2);
    if o1.Predicted? {
      SameCountsSameWinner(v1, v2, o1.prediction, o2.prediction);
      SameVotesSameMax(v1, v2, o1.accuracy, o2.accuracy);
    }
  }

  /** Whatever order the folder listing yields its files in, the endpoint
      gives the same kind of answer with the same aggregate label and the
      same returned confidence. */
  lemma UploadOrderIndependent(l1: seq<ListedFile>, l2: seq<ListedFile>)
    requires multiset(l1) == multiset(l2)
    ensures Status(UploadVideo(true, l1)) == Status(UploadVideo(true, l2))
    ensures UploadVideo(true, l1).Predicted? ==>
              && UploadVideo(true, l1).prediction == UploadVideo(true, l2).prediction
              && UploadVideo(true, l1).accuracy == UploadVideo(true, l2).accuracy
  {
    PermutedVotes(l1, l2);
    var j1, j2 := JpgFiles(l1), JpgFiles(l2);
    AggregateOrderIndependent(Votes(j1), Map(FileName, j1), Votes(j2), Map(FileName, j2));
  }

  /** Under equal counts, the first label with the maximal count is unique. */
  lemma SameCountsSameWinner(v1: seq<Vote>, v2: seq<Vote>, p1: Label, p2: Label)
    requires forall l: Label :: CountOf(v1, l) == CountOf(v2, l)
    requires forall l: Label :: CountOf(v1, l) <= CountOf(v1, p1)
    requires forall l: Label :: LabelIndex(l) < LabelIndex(p1) ==> CountOf(v1, l) < CountOf(v1, p1)
    requires forall l: Label :: CountOf(v2, l) <= CountOf(v2, p2)
    requires forall l: Label :: LabelIndex(l) < LabelIndex(p2) ==> CountOf(v2, l) < CountOf(v2, p2)
    ensures p1 == p2
  {
    assert CountOf(v1, p2) <= CountOf(v1, p1) && CountOf(v2, p1) <= CountOf(v2, p2);
  }

  /** Two runs over the same votes reach the same maximal confidence. */
  lemma SameVotesSameMax(v1: seq<Vote>, v2: seq<Vote>, m1: real, m2: real)
    requires forall x :: x in v1 <==> x in v2
    requires exists i :: 0 <= i < |v1| && v1[i].confidence == m1
    requires forall i :: 0 <= i < |v1| ==> v1[i].confidence <= m1
    requires exists i :: 0 <= i < |v2| && v2[i].confidence == m2
    requires forall i :: 0 <= i < |v2| ==> v2[i].confidence <= m2
    ensures m1 == m2
  {
    var i1 :| 0 <= i1 < |v1| && v1[i1].confidence == m1;
    var i2 :| 0 <= i2 < |v2| && v2[i2].confidence == m2;
    assert v1[i1] in v2;
    assert v2[i2] in v1;
  }

  lemma NonPositiveTransfers(v1: seq<Vote>, v2: seq<Vote>)
    requires forall x :: x in v1 ==> x in v2
    ensures (forall i :: 0 <= i < |v2| ==> v2[i].confidence <= 0.0) ==>
            (forall i :: 0 <= i < |v1| ==> v1[i].confidence <= 0.0)
  {
    if forall i :: 0 <= i < |v2| ==> v2[i].confidence <= 0.0 {
      forall i | 0 <= i < |v1| ensures v1[i].confidence <= 0.0 {
        assert v1[i] in v2;
      }
    }
  }

  /** The aggregate label and the rejection depend only on the frames'
      labels, never on their confidences. */
  lemma PredictionIgnoresConfidences(v1: seq<Vote>, n1: seq<string>, v2: seq<Vote>, n2: seq<string>)
    requires |n1| == |v1| && |n2| == |v2|
    requires Labels(v1) == Labels(v2)
    ensures Aggregate(v1, n1) == Rejected <==> Aggregate(v2, n2) == Rejected
    ensures Aggregate(v1, n1).Predicted? && Aggregate(v2, n2).Predicted? ==>
              Aggregate(v1, n1).prediction == Aggregate(v2, n2).prediction
  {
    assert forall l: Label :: CountOf(v1, l) == CountOf(v2, l);
    var o1, o2 := Aggregate(v1, n1), Aggregate(v2, n2);
    if o1.Predicted? && o2.Predicted? {
      SameCountsSameWinner(v1, v2, o1.prediction, o2.prediction);
    }
  }

  lemma {:induction false} RepeatCount<T>(x: T, n: nat, y: T)
    ensures multiset(seq(n, _ => x))[y] == if x == y then n else 0
  {
    if n > 0 {
      RepeatCount(x, n - 1, y);
      assert seq(n, _ => x) == seq(n - 1, _ => x) + [x];
    }
  }

  /** 23 frames labelled aom and 7 labelled normal: 23 > 22, so the run is
      rejected whatever the confidences. */
  lemma RejectionExample(votes: seq<Vote>, names: seq<string>)
    requires |names| == |votes|
    requires Labels(votes) == seq(23, _ => Aom) + seq(7, _ => Normal)
    ensures Aggregate(votes, names) == Rejected
    ensures Status(Aggregate(votes, names)) == 400
  {
    RepeatCount(Aom, 23, Aom);
    RepeatCount(Normal, 7, Aom);
    assert CountOf(votes, Aom) == 23;
  }

  /** The label counts of the tie-break scenario. */
  lemma TieCounts(votes: seq<Vote>)
    requires Labels(votes) == seq(10, _ => Normal) + seq(10, _ => Aom) + seq(10, _ => Csom)
    ensures forall l: Label :: CountOf(votes, l) == if l == Earwax then 0 else 10
  {
    forall l: Label ensures CountOf(votes, l) == if l == Earwax then 0 else 10 {
      RepeatCount(Normal, 10, l);
      RepeatCount(Aom, 10, l);
      RepeatCount(Csom, 10, l);
    }
  }

  /** 10 normal, then 10 aom, then 10 csom: a three-way tie that `class_labels`
      order breaks in favour of aom, though normal was processed first. */
  lemma TieBreakExample(votes: seq<Vote>, names: seq<string>)
    requires |names| == |votes|
    requires Labels(votes) == seq(10, _ => Normal) + seq(10, _ => Aom) + seq(10, _ => Csom)
    ensures Aggregate(votes, names) != Rejected
    ensures Aggregate(votes, names).Predicted? ==> Aggregate(votes, names).prediction == Aom
  {
    TieCounts(votes);
    var o := Aggregate(votes, names);
    if o.Predicted? {
      assert CountOf(votes, Aom) <= CountOf(votes, o.prediction);
    }
  }

  /** The labels and counts of the divergence scenario. */
  lemma DivergenceCounts(v: seq<Vote>)
    requires v == [Vote(Aom, 0.5), Vote(Aom, 0.5), Vote(Normal, 0.9)]
    ensures CountOf(v, Aom) == 2 && CountOf(v, Normal) == 1
    ensures CountOf(v, Csom) == 0 && CountOf(v, Earwax) == 0
  {
    assert Labels(v)[0] == LabelOf(v[0]) && Labels(v)[1] == LabelOf(v[1]) && Labels(v)[2] == LabelOf(v[2]);
    assert Labels(v) == [Aom, Aom, Normal];
  }

  /** Two frames vote aom at 0.5 and a third votes normal at 0.9: the answer
      is aom, while the returned confidence and the annotated frame (with its
      "normal" overlay) come from the third frame. */
  lemma DivergenceFromVotes(names: seq<string>)
    requires |names| == 3
    ensures Aggregate([Vote(Aom, 0.5), Vote(Aom, 0.5), Vote(Normal, 0.9)], names)
         == Predicted(Aom, 0.9, names[2], Normal)
  {
    var v := [Vote(Aom, 0.5), Vote(Aom, 0.5), Vote(Normal, 0.9)];
    DivergenceCounts(v);
    var o := Aggregate(v, names);
    assert !AnyOverThreshold(v);
    assert v[2].confidence > 0.0;
    assert CountOf(v, Aom) <= CountOf(v, o.prediction);
    var i :| 0 <= i < |v| && names[i] == o.bestImage && v[i] == Vote(o.overlayLabel, o.accuracy)
             && (forall j :: 0 <= j < |v| ==> v[j].confidence <= o.accuracy)
             && (forall j :: 0 <= j < i ==> v[j].confidence < o.accuracy);
    assert v[2].confidence <= o.accuracy;
  }

  /** Three listed frames: two whose classifier output peaks at aom (0.5),
      one whose output peaks at normal (0.9). */
  function DivergentListing(): seq<ListedFile>
  {
    [ ListedFile("frame_0.jpg", [0.5, 0.2, 0.2, 0.1])
    , ListedFile("frame_1.jpg", [0.5, 0.3, 0.1, 0.1])
    , ListedFile("frame_2.jpg", [0.02, 0.02, 0.06, 0.9]) ]
  }

  /** A vector whose first maximum is at i votes for the i-th label. */
  lemma ClassifyAt(probs: ProbVector, i: nat)
    requires IsFirstMax(probs, i)
    ensures Classify(probs) == Vote(ClassLabels[i], probs[i])
  {
    FirstMaxUnique(probs, i, LabelIndex(Classify(probs).classLabel));
  }

  lemma DivergentListingAllJpg()
    ensures JpgFiles(DivergentListing()) == DivergentListing()
  {
    var listing := DivergentListing();
    assert IsJpg(listing[0]) && IsJpg(listing[1]) && IsJpg(listing[2]);
    assert listing[1..][1..] == [listing[2]];
  }

  lemma DivergentListingVotes()
    ensures Votes(DivergentListing()) == [Vote(Aom, 0.5), Vote(Aom, 0.5), Vote(Normal, 0.9)]
  {
    var listing := DivergentListing();
    ClassifyAt(listing[0].probs, 0);
    ClassifyAt(listing[1].probs, 0);
    ClassifyAt(listing[2].probs, 3);
    var v := Votes(listing);
    assert v[0] == VoteOf(listing[0]) && v[1] == VoteOf(listing[1]) && v[2] == VoteOf(listing[2]);
  }

  /** The same scenario from concrete classifier outputs, through the endpoint. */
  lemma DivergenceExample()
    ensures UploadVideo(true, DivergentListing()) == Predicted(Aom, 0.9, "frame_2.jpg", Normal)
  {
    DivergentListingAllJpg();
    DivergentListingVotes();
    var names := Map(FileName, DivergentListing());
    assert names[2] == FileName(DivergentListing()[2]);
    DivergenceFromVotes(names);
  }
}
