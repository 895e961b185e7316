/** What `read_mode_amplitudes` computes, stated independently of how its loops
    compute it: which boxes give amplitudes, which paragraphs become mode
    paragraphs, when the parse succeeds and what the result dict then holds. */
module FindModesProps {
  import opened Wrappers
  import opened Strings
  import opened Dicts
  import opened FindModes

  // ---------------------------------------------------------------------------
  // The amplitude boxes.

  /** The amplitudes are the values of the kept boxes, and the kept boxes are
      exactly the boxes with an amplitude name, in page order. */
  lemma {:induction false} AmplitudesAreKept<A>(boxes: seq<TextBox<A>>)
    ensures |KeptIndices(boxes)| == |Amplitudes(boxes)|
    ensures forall p :: 0 <= p < |KeptIndices(boxes)| ==>
      KeptIndices(boxes)[p] < |boxes| && IsAmplitudeName(boxes[KeptIndices(boxes)[p]].name) &&
      Amplitudes(boxes)[p] == boxes[KeptIndices(boxes)[p]].value
    decreases |boxes|
  {
    if |boxes| > 0 {
      AmplitudesAreKept(boxes[..|boxes| - 1]);
    }
  }

  /** The kept positions are positions of boxes and increase. */
  lemma {:induction false} KeptIndicesIncrease<A>(boxes: seq<TextBox<A>>)
    ensures forall p :: 0 <= p < |KeptIndices(boxes)| ==> KeptIndices(boxes)[p] < |boxes|
    ensures forall p, q :: 0 <= p < q < |KeptIndices(boxes)| ==> KeptIndices(boxes)[p] < KeptIndices(boxes)[q]
    decreases |boxes|
  {
    if |boxes| > 0 {
      KeptIndicesIncrease(boxes[..|boxes| - 1]);
    }
  }

  /** Every box with an amplitude name is kept, and no other box is. */
  lemma {:induction false} KeptIndicesComplete<A>(boxes: seq<TextBox<A>>)
    ensures forall i :: 0 <= i < |boxes| ==> (i in KeptIndices(boxes) <==> IsAmplitudeName(boxes[i].name))
    decreases |boxes|
  {
    if |boxes| > 0 {
      var n := |boxes| - 1;
      var init := boxes[..n];
      var ks := KeptIndices(init);
      KeptIndicesComplete(init);
      KeptIndicesIncrease(init);
      assert forall p :: 0 <= p < |ks| ==> ks[p] != n;
      forall i | 0 <= i < |boxes|
        ensures i in KeptIndices(boxes) <==> IsAmplitudeName(boxes[i].name)
      {
        if i < n {
          assert init[i] == boxes[i];
        }
      }
    }
  }

  // ---------------------------------------------------------------------------
  // The markers and the flag.

  /** No paragraph starts with two of the markers: their first letters differ,
      except for "Space Group:" and "Subgroup:", whose second letters differ. */
  lemma MarkersExclusive(p: string)
    ensures IsStart(p) ==> !StartsWith(p, SPACE_GROUP) && !StartsWith(p, SUBGROUP) && !IsEnd(p)
    ensures IsEnd(p) ==> !StartsWith(p, SPACE_GROUP) && !StartsWith(p, SUBGROUP)
    ensures !(StartsWith(p, SPACE_GROUP) && StartsWith(p, SUBGROUP))
  {
    if StartsWith(p, SPACE_GROUP) {
      assert p[1] == SPACE_GROUP[1];
    }
    if IsStart(p) {
      assert p[0] == START_MARKER[0];
    }
    if IsEnd(p) {
      assert p[0] == END_MARKER[0];
    }
  }

  /** The flag is set by the start marker, cleared by "Parameters:" and otherwise kept. */
  lemma NextFlagCases(p: string, formStart: bool)
    ensures NextFlag(p, formStart) == if IsStart(p) then true else if IsEnd(p) then false else formStart
  {
    MarkersExclusive(p);
  }

  /** Paragraph j starts with the start marker and no later paragraph of ps
      starts with "Parameters:". */
  predicate StartsRegion(ps: seq<string>, j: int) {
    0 <= j < |ps| && IsStart(ps[j]) && forall l :: j < l < |ps| ==> !IsEnd(ps[l])
  }

  /** After ps the flag is set exactly when some paragraph of ps starts with the
      start marker and none after it starts with "Parameters:". */
  lemma {:induction false} FlagAfterIff(ps: seq<string>)
    ensures FlagAfter(ps) <==> exists j :: StartsRegion(ps, j)
    decreases |ps|
  {
    if |ps| > 0 {
      var n := |ps| - 1;
      var init := ps[..n];
      FlagAfterIff(init);
      NextFlagCases(ps[n], FlagAfter(init));
      if IsStart(ps[n]) {
        assert StartsRegion(ps, n);
      } else if IsEnd(ps[n]) {
        forall j | 0 <= j < |ps|
          ensures !StartsRegion(ps, j)
        {
          if j < n {
            assert IsEnd(ps[n]);
          }
        }
      } else {
        if FlagAfter(init) {
          var j :| StartsRegion(init, j);
          assert StartsRegion(ps, j);
        }
        if exists j :: StartsRegion(ps, j) {
          var j :| StartsRegion(ps, j);
          assert StartsRegion(init, j);
        }
      }
    }
  }

  // ---------------------------------------------------------------------------
  // The collected paragraphs.

  /** The collected paragraphs are the lines of the paragraphs in the region,
      where the region is the positions after which the flag is set. */
  lemma {:induction false} CollectedRegion(ps: seq<string>)
    ensures |Collected(ps)| == |RegionIndices(ps)|
    ensures forall q :: 0 <= q < |RegionIndices(ps)| ==>
      RegionIndices(ps)[q] < |ps| && FlagAfter(ps[..RegionIndices(ps)[q] + 1]) &&
      Collected(ps)[q] == Lines(ps[RegionIndices(ps)[q]])
    decreases |ps|
  {
    if |ps| > 0 {
      var n := |ps| - 1;
      CollectedRegion(ps[..n]);
      forall q | 0 <= q < |RegionIndices(ps[..n])|
        ensures ps[..n][RegionIndices(ps[..n])[q]] == ps[RegionIndices(ps[..n])[q]]
        ensures ps[..n][..RegionIndices(ps[..n])[q] + 1] == ps[..RegionIndices(ps[..n])[q] + 1]
      {
      }
      assert ps[..n + 1] == ps;
    }
  }

  /** The region lists positions of paragraphs in increasing order. */
  lemma {:induction false} RegionIncreases(ps: seq<string>)
    ensures forall q :: 0 <= q < |RegionIndices(ps)| ==> RegionIndices(ps)[q] < |ps|
    ensures forall p, q :: 0 <= p < q < |RegionIndices(ps)| ==> RegionIndices(ps)[p] < RegionIndices(ps)[q]
    decreases |ps|
  {
    if |ps| > 0 {
      RegionIncreases(ps[..|ps| - 1]);
    }
  }

  /** A paragraph is in the region exactly when the flag is set after it. */
  lemma {:induction false} RegionComplete(ps: seq<string>)
    ensures forall i :: 0 <= i < |ps| ==> (i in RegionIndices(ps) <==> FlagAfter(ps[..i + 1]))
    decreases |ps|
  {
    if |ps| > 0 {
      var n := |ps| - 1;
      var init := ps[..n];
      RegionComplete(init);
      RegionIncreases(init);
      assert forall p :: 0 <= p < |RegionIndices(init)| ==> RegionIndices(init)[p] != n;
      forall i | 0 <= i < |ps|
        ensures i in RegionIndices(ps) <==> FlagAfter(ps[..i + 1])
      {
        if i < n {
          assert init[..i + 1] == ps[..i + 1];
        } else {
          assert ps[..i + 1] == ps;
        }
      }
    }
  }

  /** The "Parameters:" paragraph that clears the flag is never collected. */
  lemma EndNeverCollected(ps: seq<string>)
    ensures forall q :: 0 <= q < |RegionIndices(ps)| ==>
      RegionIndices(ps)[q] < |ps| && !IsEnd(ps[RegionIndices(ps)[q]])
  {
    CollectedRegion(ps);
    forall q | 0 <= q < |RegionIndices(ps)|
      ensures RegionIndices(ps)[q] < |ps| && !IsEnd(ps[RegionIndices(ps)[q]])
    {
      var i := RegionIndices(ps)[q];
      assert i < |ps| && FlagAfter(ps[..i + 1]);
      assert ps[..i + 1][..i] == ps[..i];
      assert FlagAfter(ps[..i + 1]) == NextFlag(ps[i], FlagAfter(ps[..i]));
      NextFlagCases(ps[i], FlagAfter(ps[..i]));
      MarkersExclusive(ps[i]);
    }
  }

  /** The paragraphs collected from a prefix start the paragraphs collected from the whole. */
  lemma {:induction false} CollectedPrefix(ps: seq<string>, m: nat)
    requires m <= |ps|
    ensures Collected(ps[..m]) <= Collected(ps)
    decreases |ps| - m
  {
    if m < |ps| {
      CollectedPrefix(ps, m + 1);
      assert ps[..m + 1][..m] == ps[..m];
    }
    else {
      assert ps[..m] == ps;
    }
  }

  /** No mode is found (the "No modes found!" warning) exactly when no paragraph
      starts with the start marker. */
  lemma {:induction false} NoModesIff(ps: seq<string>)
    ensures |Collected(ps)| == 0 <==> forall i :: 0 <= i < |ps| ==> !IsStart(ps[i])
    decreases |ps|
  {
    if |ps| > 0 {
      var n := |ps| - 1;
      var init := ps[..n];
      NoModesIff(init);
      NextFlagCases(ps[n], FlagAfter(init));
      if forall i :: 0 <= i < |ps| ==> !IsStart(ps[i]) {
        assert forall i :: 0 <= i < n ==> !IsStart(init[i]);
        FlagAfterIff(ps);
      } else {
        var i :| 0 <= i < |ps| && IsStart(ps[i]);
        if i < n {
          assert IsStart(init[i]);
        }
      }
    }
  }

  /** The first collected paragraph, the one `pop(0)` drops, is the first
      paragraph that starts with the start marker. */
  lemma FirstCollected(ps: seq<string>, i: nat)
    requires i < |ps| && IsStart(ps[i])
    requires forall j :: 0 <= j < i ==> !IsStart(ps[j])
    ensures |Collected(ps)| >= 1 && Collected(ps)[0] == Lines(ps[i])
  {
    var pre := ps[..i];
    assert forall j :: 0 <= j < |pre| ==> !IsStart(pre[j]);
    NoModesIff(pre);
    assert ps[..i + 1][..i] == pre;
    NextFlagCases(ps[i], FlagAfter(pre));
    CollectedPrefix(ps, i + 1);
  }
}
