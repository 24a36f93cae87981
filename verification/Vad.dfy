/** Voice-activity post-processing (src/inference.rs, `process_vad_output`), in frames of 10 ms. */
module Vad {

  const SPEECH_THRESHOLD := 0.5

  datatype Segment = Segment(start: nat, end: nat)

  ghost function Mask(output: seq<real>): (mask: seq<bool>)
    ensures |mask| == |output| && forall i :: 0 <= i < |output| ==> mask[i] == (output[i] > 0.5)
  {
    seq(|output|, i requires 0 <= i < |output| => output[i] > 0.5)
  }

  ghost predicate InSegment(segments: seq<Segment>, frame: int) {
    exists k :: 0 <= k < |segments| && segments[k].start <= frame < segments[k].end
  }

  /** The segments are non-empty, in order, and apart: at least one frame lies between neighbours. */
  ghost predicate Apart(segments: seq<Segment>) {
    && (forall k :: 0 <= k < |segments| ==> segments[k].start < segments[k].end)
    && (forall j, k :: 0 <= j < k < |segments| ==> segments[j].end < segments[k].start)
  }

  /** The maximal runs of speech in the mask. */
  ghost predicate Runs(mask: seq<bool>, segments: seq<Segment>) {
    && Apart(segments)
    && (forall k :: 0 <= k < |segments| ==> segments[k].end <= |mask|)
    && (forall i :: 0 <= i < |mask| ==> (mask[i] <==> InSegment(segments, i)))
  }

  /** The mask that segments stand for. */
  ghost function Expand(segments: seq<Segment>, n: nat): seq<bool> {
    seq(n, i => InSegment(segments, i))
  }

  lemma RunsExpand(mask: seq<bool>, segments: seq<Segment>)
    requires Runs(mask, segments)
    ensures Expand(segments, |mask|) == mask
  {
  }

  /** Runs are maximal: the frames just outside a run are not speech. */
  lemma RunBoundaries(mask: seq<bool>, segments: seq<Segment>, k: nat)
    requires Runs(mask, segments) && k < |segments|
    ensures forall f :: segments[k].start <= f < segments[k].end ==> mask[f]
    ensures segments[k].end < |mask| ==> !mask[segments[k].end]
    ensures segments[k].start > 0 ==> !mask[segments[k].start - 1]
  {
  }

  lemma OverlappingRunsEqual(mask: seq<bool>, a: seq<Segment>, j: nat, b: seq<Segment>, k: nat, f: nat)
    requires Runs(mask, a) && Runs(mask, b) && j < |a| && k < |b|
    requires a[j].start <= f < a[j].end && b[k].start <= f < b[k].end
    ensures a[j] == b[k]
  {
    RunBoundaries(mask, a, j);
    RunBoundaries(mask, b, k);
  }

  lemma RunFound(mask: seq<bool>, a: seq<Segment>, b: seq<Segment>, k: nat) returns (j: nat)
    requires Runs(mask, a) && Runs(mask, b) && k < |a|
    ensures j < |b| && a[k] == b[j]
  {
    var f := a[k].start;
    assert InSegment(a, f);
    j :| 0 <= j < |b| && b[j].start <= f < b[j].end;
    OverlappingRunsEqual(mask, a, k, b, j, f);
  }

  lemma {:induction false} RunsAgree(mask: seq<bool>, a: seq<Segment>, b: seq<Segment>, k: nat)
    requires Runs(mask, a) && Runs(mask, b) && k < |a|
    ensures k < |b| && a[k] == b[k]
  {
    if k > 0 {
      RunsAgree(mask, a, b, k - 1);
    }
    forall i | 0 <= i < k ensures i < |b| && a[i] == b[i] {
      RunsAgree(mask, a, b, i);
    }
    var j := RunFound(mask, a, b, k);
    if j > k {
      var i := RunFound(mask, b, a, k);
      assert b[k].start < b[j].start;
    }
  }

  /** Mask and runs determine each other. */
  lemma RunsUnique(mask: seq<bool>, a: seq<Segment>, b: seq<Segment>)
    requires Runs(mask, a) && Runs(mask, b)
    ensures a == b
  {
    if |a| > 0 {
      RunsAgree(mask, a, b, |a| - 1);
    }
    if |b| > 0 {
      RunsAgree(mask, b, a, |b| - 1);
    }
    forall k | 0 <= k < |a| ensures a[k] == b[k] {
      RunsAgree(mask, a, b, k);
    }
  }

  // ----- the scan

  ghost predicate EndsInSpeech(output: seq<real>) {
    output != [] && output[|output| - 1] > 0.5
  }

  /** The runs, except that a run still open at the last frame is given the declared number of frames as its end. */
  ghost function Declared(runs: seq<Segment>, open: bool, numFrames: nat): seq<Segment> {
    if open && runs != [] then runs[..|runs| - 1] + [runs[|runs| - 1].(end := numFrames)] else runs
  }

  lemma InLast(segments: seq<Segment>, s: Segment, f: int)
    ensures InSegment(segments + [s], f) <==> InSegment(segments, f) || s.start <= f < s.end
  {
    var all := segments + [s];
    if InSegment(segments, f) {
      var k :| 0 <= k < |segments| && segments[k].start <= f < segments[k].end;
      assert all[k] == segments[k];
    }
    assert all[|segments|] == s;
  }

  lemma SilentFrame(mask: seq<bool>, runs: seq<Segment>)
    requires Runs(mask, runs)
    ensures Runs(mask + [false], runs)
  {
  }

  lemma SpeechContinues(mask: seq<bool>, closed: seq<Segment>, start: nat)
    requires Runs(mask, closed + [Segment(start, |mask|)])
    ensures Runs(mask + [true], closed + [Segment(start, |mask| + 1)])
  {
    var was, now := closed + [Segment(start, |mask|)], closed + [Segment(start, |mask| + 1)];
    assert was[|closed|] == Segment(start, |mask|);
    assert forall k :: 0 <= k < |closed| ==> now[k] == was[k];
    forall f | 0 <= f < |mask| + 1 ensures (mask + [true])[f] <==> InSegment(now, f) {
      InLast(closed, Segment(start, |mask|), f);
      InLast(closed, Segment(start, |mask| + 1), f);
    }
  }

  lemma SpeechStarts(mask: seq<bool>, closed: seq<Segment>)
    requires Runs(mask, closed) && (mask != [] ==> !mask[|mask| - 1])
    ensures Runs(mask + [true], closed + [Segment(|mask|, |mask| + 1)])
  {
    if closed != [] {
      RunBoundaries(mask, closed, |closed| - 1);
    }
    forall f | 0 <= f < |mask| + 1
      ensures (mask + [true])[f] <==> InSegment(closed + [Segment(|mask|, |mask| + 1)], f)
    {
      InLast(closed, Segment(|mask|, |mask| + 1), f);
    }
  }

  /** The runs found so far: the closed ones, and the open one up to frame `i` if the scan is inside speech. */
  function Scanned(closed: seq<Segment>, inSpeech: bool, start: nat, i: nat): seq<Segment> {
    if inSpeech then closed + [Segment(start, i)] else closed
  }

  /** The segments are the runs of the mask, up to the end that is given to a run still open at the last frame. */
  method FindSegments(output: seq<real>, numFrames: nat) returns (segments: seq<Segment>)
    ensures exists runs :: Runs(Mask(output), runs) && segments == Declared(runs, EndsInSpeech(output), numFrames)
  {
    segments := [];
    var inSpeech, startFrame := false, 0;
    ghost var mask := Mask(output);
    for i := 0 to |output|
      invariant Runs(mask[..i], Scanned(segments, inSpeech, startFrame, i))
      invariant inSpeech == (i > 0 && mask[i - 1])
    {
      var prob := output[i];
      assert mask[..i + 1] == mask[..i] + [mask[i]];
      if prob > SPEECH_THRESHOLD && !inSpeech {
        SpeechStarts(mask[..i], segments);
        startFrame, inSpeech := i, true;
      } else if prob <= SPEECH_THRESHOLD && inSpeech {
        SilentFrame(mask[..i], Scanned(segments, inSpeech, startFrame, i));
        segments, inSpeech := segments + [Segment(startFrame, i)], false;
      } else if inSpeech {
        SpeechContinues(mask[..i], segments, startFrame);
      } else {
        SilentFrame(mask[..i], segments);
      }
    }
    assert mask[..|output|] == mask;
    ghost var runs := Scanned(segments, inSpeech, startFrame, |output|);
    if inSpeech {
      segments := segments + [Segment(startFrame, numFrames)];
    }
    assert segments == Declared(runs, EndsInSpeech(output), numFrames);
  }

  lemma OpenRunIsLast(mask: seq<bool>, runs: seq<Segment>)
    requires Runs(mask, runs) && mask != [] && mask[|mask| - 1]
    ensures runs != [] && runs[|runs| - 1].end == |mask|
  {
  }

  /** Giving the last run another end changes only the frames of that run and beyond. */
  lemma DeclaredFrames(init: seq<Segment>, last: Segment, numFrames: nat, f: int)
    ensures InSegment(Declared(init + [last], true, numFrames), f)
      <==> InSegment(init, f) || last.start <= f < numFrames
  {
    assert (init + [last])[..|init|] == init;
    InLast(init, last.(end := numFrames), f);
  }

  /** The segments rebuild the mask of the output exactly when no run is open at its end, or the declared number of
      frames covers the output; with the two numbers equal, they are exactly the runs. */
  lemma SegmentsRebuildMask(output: seq<real>, runs: seq<Segment>, numFrames: nat)
    requires Runs(Mask(output), runs)
    ensures Expand(Declared(runs, EndsInSpeech(output), numFrames), |output|) == Mask(output)
      <==> !EndsInSpeech(output) || |output| <= numFrames
    ensures numFrames == |output| ==> Declared(runs, EndsInSpeech(output), numFrames) == runs
  {
    var mask := Mask(output);
    RunsExpand(mask, runs);
    if EndsInSpeech(output) {
      OpenRunIsLast(mask, runs);
      var init, last := runs[..|runs| - 1], runs[|runs| - 1];
      assert runs == init + [last];
      OpenRunRebuilt(mask, init, last, numFrames);
    }
  }

  lemma OpenRunRebuilt(mask: seq<bool>, init: seq<Segment>, last: Segment, numFrames: nat)
    requires Runs(mask, init + [last]) && last.end == |mask|
    ensures Expand(Declared(init + [last], true, numFrames), |mask|) == mask <==> |mask| <= numFrames
    ensures numFrames == |mask| ==> Declared(init + [last], true, numFrames) == init + [last]
  {
    assert (init + [last])[|init|] == last;
    var declared := Declared(init + [last], true, numFrames);
    forall f ensures InSegment(declared, f) <==> InSegment(init, f) || last.start <= f < numFrames {
      DeclaredFrames(init, last, numFrames, f);
    }
    forall f ensures InSegment(init + [last], f) <==> InSegment(init, f) || last.start <= f < last.end {
      InLast(init, last, f);
    }
    forall f | last.start <= f ensures !InSegment(init, f) {
      assert forall k :: 0 <= k < |init| ==> (init + [last])[k] == init[k];
    }
    hide Declared, InSegment;
    if numFrames < |mask| {
      var f := if last.start <= numFrames then numFrames else last.start;
      assert mask[f] && !Expand(declared, |mask|)[f];
    }
  }
}
