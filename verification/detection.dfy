/** Object detection on a camera frame: the detector's boxes are filtered by a
    confidence threshold, sorted by descending confidence (stably, as Python's
    list sort is), and the labels of at most three are kept.  The detector
    itself is abstract: its boxes are an input. */
module Detection {
  import opened Wrappers
  import Framing

  const ConfThreshold: real := 0.4
  const MaxLabels: nat := 3

  /** One detector box: its confidence and its class index. */
  datatype Box = Box(conf: real, cls: int)

  /** One kept detection: its confidence and its class name. */
  datatype Det = Det(conf: real, name: string)

  /** The class-name table covers every box that passes the threshold (the
      lookup happens only after the threshold test). */
  predicate NamesCover(boxes: seq<Box>, names: map<int, string>, threshold: real)
  {
    forall b :: b in boxes && b.conf >= threshold ==> b.cls in names
  }

  /** The detections appended by the filtering loop, in box order. */
  function Kept(boxes: seq<Box>, names: map<int, string>, threshold: real): seq<Det>
    requires NamesCover(boxes, names, threshold)
  {
    if boxes == [] then []
    else
      var b := boxes[0];
      assert forall x :: x in boxes[1..] ==> x in boxes;
      (if b.conf < threshold then [] else [Det(b.conf, names[b.cls])]) + Kept(boxes[1..], names, threshold)
  }

  /** Filtering: a detection is kept exactly for each box at or above the
      threshold, carrying that box's class name; nothing is kept when no box
      reaches the threshold. */
  lemma {:induction false} KeptExactly(boxes: seq<Box>, names: map<int, string>, threshold: real)
    requires NamesCover(boxes, names, threshold)
    ensures forall d :: d in Kept(boxes, names, threshold) ==>
      exists b :: b in boxes && b.conf >= threshold && b.cls in names && d == Det(b.conf, names[b.cls])
    ensures forall b :: b in boxes && b.conf >= threshold ==> Det(b.conf, names[b.cls]) in Kept(boxes, names, threshold)
    ensures Kept(boxes, names, threshold) == [] <==> forall b :: b in boxes ==> b.conf < threshold
  {
    if boxes != [] {
      assert forall x :: x in boxes[1..] ==> x in boxes;
      KeptExactly(boxes[1..], names, threshold);
      assert forall x :: x in boxes ==> x == boxes[0] || x in boxes[1..];
    }
  }

  lemma {:induction false} KeptAppend(a: seq<Box>, b: seq<Box>, names: map<int, string>, threshold: real)
    requires NamesCover(a + b, names, threshold)
    ensures NamesCover(a, names, threshold) && NamesCover(b, names, threshold)
    ensures Kept(a + b, names, threshold) == Kept(a, names, threshold) + Kept(b, names, threshold)
  {
    assert forall x :: x in a ==> x in a + b;
    assert forall x :: x in b ==> x in a + b;
    if a == [] {
      assert a + b == b;
    } else {
      var head := if a[0].conf < threshold then [] else [Det(a[0].conf, names[a[0].cls])];
      assert (a + b)[0] == a[0];
      assert (a + b)[1..] == a[1..] + b;
      assert forall x :: x in a[1..] + b ==> x in a + b;
      KeptAppend(a[1..], b, names, threshold);
      assert Kept(a + b, names, threshold) == head + Kept(a[1..] + b, names, threshold);
      assert Kept(a, names, threshold) == head + Kept(a[1..], names, threshold);
    }
  }

  // ---------------------------------------------------------------------------
  // Stable sort by descending confidence

  /** Places `d` before the first element whose confidence it reaches, so that
      it precedes the equal-confidence elements that come after it in input. */
  function InsertDesc(d: Det, s: seq<Det>): seq<Det>
  {
    if s == [] || d.conf >= s[0].conf then [d] + s else [s[0]] + InsertDesc(d, s[1..])
  }

  /** `detections.sort(reverse=True, key=conf)`. */
  function SortDesc(s: seq<Det>): seq<Det>
  {
    if s == [] then [] else InsertDesc(s[0], SortDesc(s[1..]))
  }

  ghost predicate NonIncreasing(s: seq<Det>)
  {
    forall i, j :: 0 <= i < j < |s| ==> s[j].conf <= s[i].conf
  }

  /** The elements of `s` whose confidence is `c`, in order. */
  function WithConf(s: seq<Det>, c: real): seq<Det>
  {
    if s == [] then [] else (if s[0].conf == c then [s[0]] else []) + WithConf(s[1..], c)
  }

  lemma ConsNonIncreasing(x: Det, r: seq<Det>)
    requires NonIncreasing(r)
    requires forall k :: 0 <= k < |r| ==> r[k].conf <= x.conf
    ensures NonIncreasing([x] + r)
  {
    forall i, j | 0 <= i < j < |[x] + r|
      ensures ([x] + r)[j].conf <= ([x] + r)[i].conf
    {
      if i > 0 {
        assert ([x] + r)[i] == r[i - 1];
      }
      assert ([x] + r)[j] == r[j - 1];
    }
  }

  lemma {:induction false} InsertDescPermutes(d: Det, s: seq<Det>)
    ensures multiset(InsertDesc(d, s)) == multiset([d] + s)
  {
    if s != [] && d.conf < s[0].conf {
      InsertDescPermutes(d, s[1..]);
      assert s == [s[0]] + s[1..];
    }
  }

  lemma {:induction false} InsertDescSorted(d: Det, s: seq<Det>)
    requires NonIncreasing(s)
    ensures NonIncreasing(InsertDesc(d, s))
  {
    if s != [] && d.conf < s[0].conf {
      InsertDescSorted(d, s[1..]);
      InsertDescPermutes(d, s[1..]);
      var r := InsertDesc(d, s[1..]);
      forall k | 0 <= k < |r|
        ensures r[k].conf <= s[0].conf
      {
        assert r[k] in multiset([d] + s[1..]);
        if r[k] != d {
          var m :| 0 <= m < |s[1..]| && s[1..][m] == r[k];
          assert s[m + 1] == r[k];
        }
      }
      ConsNonIncreasing(s[0], r);
    } else if s != [] {
      ConsNonIncreasing(d, s);
    }
  }

  lemma {:induction false} InsertDescStable(d: Det, s: seq<Det>, c: real)
    ensures WithConf(InsertDesc(d, s), c) == WithConf([d] + s, c)
  {
    if s != [] && d.conf < s[0].conf {
      InsertDescStable(d, s[1..], c);
      var r := InsertDesc(d, s[1..]);
      assert ([s[0]] + r)[1..] == r;
      assert ([d] + s[1..])[1..] == s[1..];
      assert ([d] + s)[1..] == s;
    }
  }

  /** The sort yields a non-increasing permutation of its input that keeps
      the input order among equal confidences (stability). */
  lemma {:induction false} SortDescCorrect(s: seq<Det>)
    ensures NonIncreasing(SortDesc(s))
    ensures multiset(SortDesc(s)) == multiset(s)
    ensures forall c :: WithConf(SortDesc(s), c) == WithConf(s, c)
  {
    if s != [] {
      var r := SortDesc(s[1..]);
      SortDescCorrect(s[1..]);
      InsertDescSorted(s[0], r);
      InsertDescPermutes(s[0], r);
      assert s == [s[0]] + s[1..];
      forall c
        ensures WithConf(SortDesc(s), c) == WithConf(s, c)
      {
        InsertDescStable(s[0], r, c);
        assert ([s[0]] + r)[1..] == r;
      }
    }
  }

  // ---------------------------------------------------------------------------
  // The top three labels

  /** The first three (or fewer) detections after the sort. */
  function Top(kept: seq<Det>): seq<Det>
  {
    var sorted := SortDesc(kept);
    sorted[..Min(MaxLabels, |sorted|)]
  }

  function Labels(ds: seq<Det>): seq<string>
  {
    seq(|ds|, i requires 0 <= i < |ds| => ds[i].name)
  }

  /** The labels `detect` returns for the detector's boxes. */
  function TopLabels(boxes: seq<Box>, names: map<int, string>, threshold: real): seq<string>
    requires NamesCover(boxes, names, threshold)
  {
    Labels(Top(Kept(boxes, names, threshold)))
  }

  /** In a non-increasing sequence, nothing after the first `n` elements
      outranks any of them. */
  lemma PrefixOutranksRest(sorted: seq<Det>, n: nat)
    requires NonIncreasing(sorted) && n <= |sorted|
    ensures multiset(sorted[..n]) <= multiset(sorted)
    ensures forall a, b :: a in sorted[..n] && b in multiset(sorted) - multiset(sorted[..n]) ==> b.conf <= a.conf
  {
    var t, rest := sorted[..n], sorted[n..];
    assert sorted == t + rest;
    assert multiset(sorted) == multiset(t) + multiset(rest);
    forall a, b | a in t && b in multiset(sorted) - multiset(t)
      ensures b.conf <= a.conf
    {
      assert b in multiset(rest);
      var i :| 0 <= i < |t| && t[i] == a;
      var j :| 0 <= j < |rest| && rest[j] == b;
      assert sorted[i] == a && sorted[n + j] == b;
    }
  }

  /** Ranking: at most three detections are kept, in non-increasing confidence
      order; they are drawn from the kept detections, and every kept detection
      left out has a confidence no higher than any of them. */
  lemma TopAreHighest(kept: seq<Det>)
    ensures var t := Top(kept);
      && |t| == Min(MaxLabels, |kept|)
      && NonIncreasing(t)
      && multiset(t) <= multiset(kept)
      && forall a, b :: a in t && b in multiset(kept) - multiset(t) ==> b.conf <= a.conf
  {
    SortDescCorrect(kept);
    var sorted := SortDesc(kept);
    assert |sorted| == |multiset(sorted)| == |kept|;
    PrefixOutranksRest(sorted, Min(MaxLabels, |kept|));
  }

  /** The labels `detect` returns, in terms of the boxes: at most three; none
      exactly when no box reaches the threshold; each the class name of a box
      at or above the threshold. */
  lemma TopLabelsFromBoxes(boxes: seq<Box>, names: map<int, string>, threshold: real)
    requires NamesCover(boxes, names, threshold)
    ensures var labels := TopLabels(boxes, names, threshold);
      && |labels| <= MaxLabels
      && (labels == [] <==> forall b :: b in boxes ==> b.conf < threshold)
      && forall i :: 0 <= i < |labels| ==>
           exists b :: b in boxes && b.conf >= threshold && b.cls in names && labels[i] == names[b.cls]
  {
    var kept := Kept(boxes, names, threshold);
    var t := Top(kept);
    KeptExactly(boxes, names, threshold);
    TopAreHighest(kept);
    forall i | 0 <= i < |t|
      ensures t[i] in kept
    {
      assert t[i] in multiset(t);
    }
  }

  /** `detect` after the detector has run: the filtering loop, the early
      returns, the sort, the slice and the label comprehension. */
  method Detect(boxes: seq<Box>, names: map<int, string>) returns (labels: seq<string>)
    requires NamesCover(boxes, names, ConfThreshold)
    ensures labels == TopLabels(boxes, names, ConfThreshold)
    ensures |labels| == Min(MaxLabels, |Kept(boxes, names, ConfThreshold)|)
  {
    labels := [];
    if |boxes| == 0 {
      return;
    }

    var detections: seq<Det> := [];
    for i := 0 to |boxes|
      invariant NamesCover(boxes[..i], names, ConfThreshold)
      invariant detections == Kept(boxes[..i], names, ConfThreshold)
    {
      KeepStep(boxes, i, names, ConfThreshold);
      var box := boxes[i];
      if box.conf < ConfThreshold {
        continue;
      }
      var name := names[box.cls];
      detections := detections + [Det(box.conf, name)];
    }
    assert boxes[..|boxes|] == boxes;

    TopAreHighest(detections);
    if |detections| == 0 {
      return;
    }

    var sorted := SortDesc(detections);
    var top3 := sorted[..Min(MaxLabels, |sorted|)];
    labels := Labels(top3);
  }

  /** One turn of the filtering loop extends the kept prefix by the next box. */
  lemma KeepStep(boxes: seq<Box>, i: nat, names: map<int, string>, threshold: real)
    requires i < |boxes| && NamesCover(boxes, names, threshold)
    ensures NamesCover(boxes[..i + 1], names, threshold)
    ensures boxes[i].conf >= threshold ==> boxes[i].cls in names
    ensures NamesCover(boxes[..i], names, threshold)
    ensures Kept(boxes[..i + 1], names, threshold) ==
      Kept(boxes[..i], names, threshold) +
      (if boxes[i].conf < threshold then [] else [Det(boxes[i].conf, names[boxes[i].cls])])
  {
    assert boxes[..i + 1] == boxes[..i] + [boxes[i]];
    assert boxes[i] in boxes;
    assert forall x :: x in boxes[..i + 1] ==> x in boxes;
    KeptAppend(boxes[..i], [boxes[i]], names, threshold);
    assert [boxes[i]][1..] == [];
  }

  /** `run_detection`: no frame from the camera gives no labels; otherwise the
      labels `detect` returns for the boxes the detector finds on that frame. */
  method RunDetection(stream: seq<Framing.byte>, boxes: seq<Box>, names: map<int, string>) returns (labels: seq<string>)
    requires NamesCover(boxes, names, ConfThreshold)
    ensures Framing.ParseFrame(stream).frame.None? ==> labels == []
    ensures Framing.ParseFrame(stream).frame.Some? ==> labels == TopLabels(boxes, names, ConfThreshold)
  {
    var frame, _ := Framing.GrabFrame(stream);
    if frame.None? {
      return [];
    }
    labels := Detect(boxes, names);
  }
}
