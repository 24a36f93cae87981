/** Greedy CTC decoding of a channel-major score matrix (src/inference.rs, `ctc_decode`). The exponential function
    is a parameter, of which only positivity is used. */
module Ctc {
  import opened Options
  import opened Sequences

  // ----- the label of a time step

  /** Scores are stored vocabulary-major. */
  function Offset(seqLen: nat, t: nat, v: nat): nat { v * seqLen + t }

  /** The output may be shorter than the shape says. */
  ghost predicate InRange(output: seq<real>, vocabSize: nat, seqLen: nat, t: nat, v: int) {
    0 <= v < vocabSize && Offset(seqLen, t, v) < |output|
  }

  ghost function Score(output: seq<real>, vocabSize: nat, seqLen: nat, t: nat, v: nat): real
    requires InRange(output, vocabSize, seqLen, t, v)
  {
    output[Offset(seqLen, t, v)]
  }

  /** The last vocabulary entry. */
  function Blank(vocabSize: nat): nat { if vocabSize == 0 then 0 else vocabSize - 1 }

  /** `best` is the first of the best scores of step `t`, or blank if the step has no score at all. */
  ghost predicate IsLabel(output: seq<real>, vocabSize: nat, seqLen: nat, t: nat, best: nat) {
    if InRange(output, vocabSize, seqLen, t, 0) then
      && InRange(output, vocabSize, seqLen, t, best)
      && forall v :: InRange(output, vocabSize, seqLen, t, v) ==>
           var s := Score(output, vocabSize, seqLen, t, v);
           && s <= Score(output, vocabSize, seqLen, t, best)
           && (v < best ==> s < Score(output, vocabSize, seqLen, t, best))
    else best == Blank(vocabSize)
  }

  lemma LabelUnique(output: seq<real>, vocabSize: nat, seqLen: nat, t: nat, a: nat, b: nat)
    requires IsLabel(output, vocabSize, seqLen, t, a) && IsLabel(output, vocabSize, seqLen, t, b)
    ensures a == b
  {
  }

  lemma RangeIsPrefix(output: seq<real>, vocabSize: nat, seqLen: nat, t: nat, u: nat, v: nat)
    requires u <= v && InRange(output, vocabSize, seqLen, t, v)
    ensures InRange(output, vocabSize, seqLen, t, u)
  {
    assert u * seqLen <= v * seqLen;
  }

  /** The best of the scores below `v`; nothing yet when there is none. */
  ghost predicate BestBelow(output: seq<real>, vocabSize: nat, seqLen: nat, t: nat, v: nat, best: nat,
                            max: Option<real>)
  {
    && (max.None? <==> v == 0)
    && (max.None? ==> best == Blank(vocabSize))
    && (max.Some? ==>
          && best < v && InRange(output, vocabSize, seqLen, t, best)
          && max.value == Score(output, vocabSize, seqLen, t, best))
    && (forall u :: 0 <= u < v ==>
          && InRange(output, vocabSize, seqLen, t, u)
          && Score(output, vocabSize, seqLen, t, u) <= max.value
          && (u < best ==> Score(output, vocabSize, seqLen, t, u) < max.value))
  }

  method BestLabel(output: seq<real>, vocabSize: nat, seqLen: nat, t: nat) returns (maxIdx: nat, maxLogit: Option<real>)
    ensures IsLabel(output, vocabSize, seqLen, t, maxIdx)
    ensures maxLogit.Some? <==> InRange(output, vocabSize, seqLen, t, 0)
    ensures maxLogit.Some? ==> InRange(output, vocabSize, seqLen, t, maxIdx)
                               && maxLogit.value == Score(output, vocabSize, seqLen, t, maxIdx)
  {
    maxIdx, maxLogit := Blank(vocabSize), None;
    var v := 0;
    while v < vocabSize
      invariant v <= vocabSize && BestBelow(output, vocabSize, seqLen, t, v, maxIdx, maxLogit)
    {
      var idx := Offset(seqLen, t, v);
      if idx >= |output| {
        break;
      }
      var logit := output[idx];
      assert InRange(output, vocabSize, seqLen, t, v);
      if maxLogit.None? || logit > maxLogit.value {
        maxLogit := Some(logit);
        maxIdx := v;
      }
      v := v + 1;
    }
    forall u | InRange(output, vocabSize, seqLen, t, u) ensures u < v {
      if u >= v {
        RangeIsPrefix(output, vocabSize, seqLen, t, v, u);
      }
    }
  }

  // ----- from labels to text

  /** Runs of equal labels become single labels. */
  ghost function Collapse(labels: seq<nat>): seq<nat> {
    if labels == [] then []
    else
      var init, last := labels[..|labels| - 1], labels[|labels| - 1];
      if init != [] && init[|init| - 1] == last then Collapse(init) else Collapse(init) + [last]
  }

  function NonBlank(blank: nat): nat -> bool { (l: nat) => l != blank }

  function Known(size: nat): nat -> bool { (l: nat) => l < size }

  /** What the labels stand for: collapse repeats, then drop blanks. */
  ghost function Squash(labels: seq<nat>, blank: nat): seq<nat> {
    Filter<nat>(NonBlank(blank), Collapse(labels))
  }

  /** The dictionary entries that are spelled out: labels beyond the dictionary are skipped. */
  ghost function Ids(labels: seq<nat>, blank: nat, size: nat): seq<nat> {
    Filter<nat>(Known(size), Squash(labels, blank))
  }

  ghost function Spell(ids: seq<nat>, dictionary: seq<string>): string
    requires forall i :: 0 <= i < |ids| ==> ids[i] < |dictionary|
  {
    if ids == [] then "" else Spell(ids[..|ids| - 1], dictionary) + dictionary[ids[|ids| - 1]]
  }

  lemma CollapseUnfold(labels: seq<nat>)
    requires labels != []
    ensures var init, last := labels[..|labels| - 1], labels[|labels| - 1];
            Collapse(labels) ==
              if init != [] && init[|init| - 1] == last then Collapse(init) else Collapse(init) + [last]
  {
  }

  lemma CollapseLast(labels: seq<nat>, l: nat)
    ensures Collapse(labels + [l]) ==
      if labels != [] && labels[|labels| - 1] == l then Collapse(labels) else Collapse(labels) + [l]
  {
    hide Collapse;
    CollapseUnfold(labels + [l]);
    assert (labels + [l])[..|labels|] == labels;
  }

  lemma IdsLast(labels: seq<nat>, l: nat, blank: nat, size: nat)
    ensures Ids(labels + [l], blank, size) ==
      if (labels != [] && labels[|labels| - 1] == l) || l == blank || l >= size then Ids(labels, blank, size)
      else Ids(labels, blank, size) + [l]
  {
    CollapseLast(labels, l);
    if labels == [] || labels[|labels| - 1] != l {
      FilterLast<nat>(NonBlank(blank), Collapse(labels), l);
      if l != blank {
        FilterLast<nat>(Known(size), Squash(labels, blank), l);
      }
    }
  }

  lemma SpellLast(ids: seq<nat>, id: nat, dictionary: seq<string>)
    requires id < |dictionary| && forall i :: 0 <= i < |ids| ==> ids[i] < |dictionary|
    ensures Spell(ids + [id], dictionary) == Spell(ids, dictionary) + dictionary[id]
  {
  }

  // ----- the paths of a label string

  ghost function Repeat(l: nat, n: nat): seq<nat> {
    seq(n, _ => l)
  }

  /** One way to spread `ids` over time: each repeated, with blanks before, between and after. */
  ghost function Path(ids: seq<nat>, reps: seq<nat>, gaps: seq<nat>, blank: nat): seq<nat>
    requires |reps| == |ids| && |gaps| == |ids| + 1
  {
    var n := |ids|;
    if n == 0 then Repeat(blank, gaps[0])
    else Path(ids[..n - 1], reps[..n - 1], gaps[..n], blank) + Repeat(ids[n - 1], reps[n - 1]) + Repeat(blank, gaps[n])
  }

  /** No id is blank, each takes at least one step, and equal neighbours are kept apart by a blank. */
  ghost predicate Proper(ids: seq<nat>, reps: seq<nat>, gaps: seq<nat>, blank: nat) {
    && |reps| == |ids| && |gaps| == |ids| + 1
    && (forall i :: 0 <= i < |ids| ==> ids[i] != blank && reps[i] >= 1)
    && (forall i :: 0 < i < |ids| && ids[i - 1] == ids[i] ==> gaps[i] >= 1)
  }

  ghost predicate EndsIn(labels: seq<nat>, l: nat) {
    labels != [] && labels[|labels| - 1] == l
  }

  lemma {:induction false} SquashRun(labels: seq<nat>, l: nat, n: nat, blank: nat)
    ensures Squash(labels + Repeat(l, n), blank) ==
      if n == 0 || l == blank || EndsIn(labels, l) then Squash(labels, blank) else Squash(labels, blank) + [l]
  {
    if n == 0 {
      assert labels + Repeat(l, 0) == labels;
    } else {
      SquashRun(labels, l, n - 1, blank);
      var before := labels + Repeat(l, n - 1);
      assert labels + Repeat(l, n) == before + [l];
      assert EndsIn(before, l) <==> n > 1 || EndsIn(labels, l);
      hide Squash, EndsIn, Repeat;
      SquashLast(before, l, blank);
    }
  }

  lemma SquashLast(labels: seq<nat>, l: nat, blank: nat)
    ensures Squash(labels + [l], blank)
         == if l == blank || EndsIn(labels, l) then Squash(labels, blank) else Squash(labels, blank) + [l]
  {
    CollapseLast(labels, l);
    hide Collapse;
    FilterLast<nat>(NonBlank(blank), Collapse(labels), l);
  }

  lemma PathEnd(ids: seq<nat>, reps: seq<nat>, gaps: seq<nat>, blank: nat, l: nat)
    requires Proper(ids, reps, gaps, blank)
    ensures EndsIn(Path(ids, reps, gaps, blank), l) <==>
      if gaps[|ids|] > 0 then l == blank else ids != [] && l == ids[|ids| - 1]
  {
  }

  /** Decoding a proper path gives back what was spread out. */
  lemma {:induction false} SquashOfPath(ids: seq<nat>, reps: seq<nat>, gaps: seq<nat>, blank: nat)
    requires Proper(ids, reps, gaps, blank)
    ensures Squash(Path(ids, reps, gaps, blank), blank) == ids
  {
    var n := |ids|;
    if n == 0 {
      SquashRun([], blank, gaps[0], blank);
      assert [] + Repeat(blank, gaps[0]) == Path(ids, reps, gaps, blank);
    } else {
      var before := Path(ids[..n - 1], reps[..n - 1], gaps[..n], blank);
      SquashOfPath(ids[..n - 1], reps[..n - 1], gaps[..n], blank);
      PathEnd(ids[..n - 1], reps[..n - 1], gaps[..n], blank, ids[n - 1]);
      hide Squash, Repeat, EndsIn;
      SquashRun(before, ids[n - 1], reps[n - 1], blank);
      SquashRun(before + Repeat(ids[n - 1], reps[n - 1]), blank, gaps[n], blank);
    }
  }

  lemma ProperSizes(ids: seq<nat>, reps: seq<nat>, gaps: seq<nat>, blank: nat)
    requires Proper(ids, reps, gaps, blank)
    ensures |reps| == |ids| && |gaps| == |ids| + 1
  {
  }

  lemma LongerGap(ids: seq<nat>, reps: seq<nat>, gaps: seq<nat>, blank: nat)
    requires Proper(ids, reps, gaps, blank)
    ensures var n := |ids|;
            Proper(ids, reps, gaps[n := gaps[n] + 1], blank)
            && Path(ids, reps, gaps[n := gaps[n] + 1], blank) == Path(ids, reps, gaps, blank) + [blank]
  {
  }

  lemma LongerRun(ids: seq<nat>, reps: seq<nat>, gaps: seq<nat>, blank: nat)
    requires Proper(ids, reps, gaps, blank) && ids != [] && gaps[|ids|] == 0
    ensures var n := |ids|;
            Proper(ids, reps[n - 1 := reps[n - 1] + 1], gaps, blank)
            && Path(ids, reps[n - 1 := reps[n - 1] + 1], gaps, blank) == Path(ids, reps, gaps, blank) + [ids[n - 1]]
  {
  }

  lemma NewRun(ids: seq<nat>, reps: seq<nat>, gaps: seq<nat>, blank: nat, l: nat)
    requires Proper(ids, reps, gaps, blank) && l != blank && !EndsIn(Path(ids, reps, gaps, blank), l)
    ensures Proper(ids + [l], reps + [1], gaps + [0], blank)
    ensures Path(ids + [l], reps + [1], gaps + [0], blank) == Path(ids, reps, gaps, blank) + [l]
  {
  }

  lemma RepeatOnce(l: nat)
    ensures Repeat(l, 1) == [l]
  {
  }

  /** Every label sequence is a proper path of what it decodes to, so the label sequences that decode to `ids` are
      exactly its proper paths. */
  lemma {:induction false} PathOfSquash(labels: seq<nat>, blank: nat) returns (reps: seq<nat>, gaps: seq<nat>)
    ensures Proper(Squash(labels, blank), reps, gaps, blank)
    ensures Path(Squash(labels, blank), reps, gaps, blank) == labels
  {
    if labels == [] {
      reps, gaps := [], [0];
    } else {
      hide Path, Squash, Proper, Collapse, Repeat;
      var init, l := labels[..|labels| - 1], labels[|labels| - 1];
      reps, gaps := PathOfSquash(init, blank);
      assert |reps| == |Squash(init, blank)| && |gaps| == |reps| + 1 by {
        ProperSizes(Squash(init, blank), reps, gaps, blank);
      }
      var ids := Squash(init, blank);
      RepeatOnce(l);
      assert labels == init + [l];
      SquashRun(init, l, 1, blank);
      PathEnd(ids, reps, gaps, blank, l);
      if l == blank {
        LongerGap(ids, reps, gaps, blank);
        gaps := gaps[|ids| := gaps[|ids|] + 1];
      } else if EndsIn(init, l) {
        LongerRun(ids, reps, gaps, blank);
        reps := reps[|ids| - 1 := reps[|ids| - 1] + 1];
      } else {
        NewRun(ids, reps, gaps, blank, l);
        reps, gaps := reps + [1], gaps + [0];
      }
    }
  }

  // ----- trimming

  predicate IsWhitespace(c: char) {
    '\U{9}' <= c <= '\U{D}' || c == ' ' || c == '\U{85}' || c == '\U{A0}' || c == '\U{1680}'
    || '\U{2000}' <= c <= '\U{200A}' || c == '\U{2028}' || c == '\U{2029}' || c == '\U{202F}'
    || c == '\U{205F}' || c == '\U{3000}'
  }

  function TrimStart(s: string): string {
    if s != "" && IsWhitespace(s[0]) then TrimStart(s[1..]) else s
  }

  function TrimEnd(s: string): string {
    if s != "" && IsWhitespace(s[|s| - 1]) then TrimEnd(s[..|s| - 1]) else s
  }

  function Trim(s: string): string { TrimEnd(TrimStart(s)) }

  // ----- the decoder

  /** Both `[1, v, s]` and `[v, s]` are accepted. */
  function Dimensions(shape: seq<nat>): Option<(nat, nat)> {
    if |shape| == 3 && shape[0] == 1 then Some((shape[1], shape[2]))
    else if |shape| == 2 then Some((shape[0], shape[1]))
    else None
  }

  ghost predicate Positive(exp: real -> real) {
    forall x :: exp(x) > 0.0
  }

  function Apply(exp: real -> real, x: real): (r: real)
    requires Positive(exp)
    ensures r > 0.0
  {
    exp(x)
  }

  /** The sum of the exponentials of the scores of step `t` below `v`. */
  ghost function ExpsBelow(output: seq<real>, seqLen: nat, t: nat, exp: real -> real, v: nat): (sum: real)
    requires Positive(exp)
    ensures sum >= 0.0
  {
    if v == 0 then 0.0
    else
      var idx := Offset(seqLen, t, v - 1);
      ExpsBelow(output, seqLen, t, exp, v - 1) + if idx < |output| then Apply(exp, output[idx]) else 0.0
  }

  lemma {:induction false} ExpsInclude(output: seq<real>, seqLen: nat, t: nat, exp: real -> real, v: nat, best: nat)
    requires Positive(exp) && best < v && Offset(seqLen, t, best) < |output|
    ensures ExpsBelow(output, seqLen, t, exp, v) >= Apply(exp, output[Offset(seqLen, t, best)])
  {
    if best < v - 1 {
      ExpsInclude(output, seqLen, t, exp, v - 1, best);
    }
  }

  method ExpSum(output: seq<real>, vocabSize: nat, seqLen: nat, t: nat, exp: real -> real) returns (sum: real)
    requires Positive(exp)
    ensures sum == ExpsBelow(output, seqLen, t, exp, vocabSize)
  {
    sum := 0.0;
    for v := 0 to vocabSize
      invariant sum == ExpsBelow(output, seqLen, t, exp, v)
    {
      var idx := Offset(seqLen, t, v);
      if idx < |output| {
        sum := sum + Apply(exp, output[idx]);
      }
    }
  }

  /** The softmax probability of a label at step `t`. */
  ghost function Probability(output: seq<real>, vocabSize: nat, seqLen: nat, t: nat, exp: real -> real, l: nat): real
    requires Positive(exp)
  {
    var sum := ExpsBelow(output, seqLen, t, exp, vocabSize);
    if InRange(output, vocabSize, seqLen, t, l) && sum > 0.0
    then Apply(exp, Score(output, vocabSize, seqLen, t, l)) / sum else 0.0
  }

  lemma ProbabilityRange(output: seq<real>, vocabSize: nat, seqLen: nat, t: nat, exp: real -> real, best: nat)
    requires Positive(exp) && InRange(output, vocabSize, seqLen, t, best)
    ensures ExpsBelow(output, seqLen, t, exp, vocabSize) > 0.0
    ensures 0.0 < Probability(output, vocabSize, seqLen, t, exp, best) <= 1.0
  {
    ExpsInclude(output, seqLen, t, exp, vocabSize, best);
    Fraction(Apply(exp, Score(output, vocabSize, seqLen, t, best)), ExpsBelow(output, seqLen, t, exp, vocabSize));
  }

  /** The last label starts a run and is spelled out. */
  ghost predicate LastSpelled(labels: seq<nat>, blank: nat, size: nat)
    requires labels != []
  {
    var n := |labels| - 1;
    labels[n] != blank && labels[n] < size && (n == 0 || labels[n - 1] != labels[n])
  }

  /** The probabilities of the labels that are spelled out, added up. */
  ghost function SpelledMass(output: seq<real>, vocabSize: nat, seqLen: nat, exp: real -> real, labels: seq<nat>,
                             size: nat): real
    requires Positive(exp)
  {
    if labels == [] then 0.0
    else
      var n := |labels| - 1;
      SpelledMass(output, vocabSize, seqLen, exp, labels[..n], size)
      + if LastSpelled(labels, Blank(vocabSize), size)
        then Probability(output, vocabSize, seqLen, n, exp, labels[n]) else 0.0
  }

  lemma Fraction(a: real, b: real)
    requires 0.0 < a <= b
    ensures 0.0 < a / b <= 1.0
  {
    var q := a / b;
    assert q * b == a;
  }

  /** Decodes the best labels of all steps; the confidence is the mean probability of those that are spelled. */
  method CtcDecode(output: seq<real>, shape: seq<nat>, dictionary: seq<string>, exp: real -> real)
    returns (text: string, confidence: real)
    requires Positive(exp)
    ensures |shape| == 3 && shape[0] == 1 ==>
      exists labels :: Decodes(output, shape[1], shape[2], dictionary, exp, labels, text, confidence)
    ensures |shape| == 2 ==>
      exists labels :: Decodes(output, shape[0], shape[1], dictionary, exp, labels, text, confidence)
    ensures |shape| != 2 && !(|shape| == 3 && shape[0] == 1) ==> text == "" && confidence == 0.0
  {
    if Dimensions(shape).None? {
      return "", 0.0;
    }
    hide IsLabel, Probability, Spell, Ids, Trim;
    var (vocabSize, seqLen) := Dimensions(shape).value;
    var blank := Blank(vocabSize);
    var result, sum, count := "", 0.0, 0;
    var prev: Option<nat> := None;
    ghost var labels: seq<nat> := [];
    DecodingStart(output, vocabSize, seqLen, dictionary, exp);
    for t := 0 to seqLen
      invariant Decoding(output, vocabSize, seqLen, dictionary, exp, labels, t, result, prev, sum, count)
    {
      var maxIdx, maxLogit := BestLabel(output, vocabSize, seqLen, t);
      ghost var before := labels;
      labels := labels + [maxIdx];
      if prev == Some(maxIdx) {
        DecodeSkip(output, vocabSize, seqLen, dictionary, exp, before, t, result, prev, sum, count, maxIdx);
        continue;
      }
      if maxIdx == blank {
        DecodeSkip(output, vocabSize, seqLen, dictionary, exp, before, t, result, prev, sum, count, maxIdx);
        prev := Some(maxIdx);
        continue;
      }
      if maxIdx < |dictionary| {
        BestInRange(output, vocabSize, seqLen, t, maxIdx);
        DecodeSpell(output, vocabSize, seqLen, dictionary, exp, before, t, result, prev, sum, count, maxIdx);
        result := result + dictionary[maxIdx];
        var expSum := ExpSum(output, vocabSize, seqLen, t, exp);
        var prob := if expSum > 0.0 then Apply(exp, maxLogit.value) / expSum else 0.0;
        assert prob == Probability(output, vocabSize, seqLen, t, exp, maxIdx) by {
          ProbabilityIs(output, vocabSize, seqLen, t, exp, maxIdx, maxLogit.value, expSum);
        }
        sum, count := sum + prob, count + 1;
      } else {
        DecodeSkip(output, vocabSize, seqLen, dictionary, exp, before, t, result, prev, sum, count, maxIdx);
      }
      prev := Some(maxIdx);
    }
    text := Trim(result);
    confidence := if count > 0 then sum / count as real else 0.0;
    if count > 0 {
      Fraction(sum, count as real);
    }
    assert Decodes(output, vocabSize, seqLen, dictionary, exp, labels, text, confidence);
  }

  lemma ProbabilityIs(output: seq<real>, vocabSize: nat, seqLen: nat, t: nat, exp: real -> real, best: nat,
                      logit: real, expSum: real)
    requires Positive(exp) && InRange(output, vocabSize, seqLen, t, best)
    requires logit == Score(output, vocabSize, seqLen, t, best)
    requires expSum == ExpsBelow(output, seqLen, t, exp, vocabSize)
    ensures Probability(output, vocabSize, seqLen, t, exp, best)
         == if expSum > 0.0 then Apply(exp, logit) / expSum else 0.0
  {
  }

  lemma BestInRange(output: seq<real>, vocabSize: nat, seqLen: nat, t: nat, best: nat)
    requires IsLabel(output, vocabSize, seqLen, t, best) && best != Blank(vocabSize)
    ensures InRange(output, vocabSize, seqLen, t, 0) && InRange(output, vocabSize, seqLen, t, best)
  {
  }

  /** The labels of the steps before `t`, and what has been decoded from them. */
  ghost predicate Decoding(output: seq<real>, vocabSize: nat, seqLen: nat, dictionary: seq<string>, exp: real -> real,
                           labels: seq<nat>, t: nat, result: string, prev: Option<nat>, sum: real, count: nat)
    requires Positive(exp)
  {
    var ids := Ids(labels, Blank(vocabSize), |dictionary|);
    && |labels| == t
    && (forall i :: 0 <= i < t ==> IsLabel(output, vocabSize, seqLen, i, labels[i]))
    && prev == (if t == 0 then None else Some(labels[t - 1]))
    && (forall i :: 0 <= i < |ids| ==> ids[i] < |dictionary|)
    && result == Spell(ids, dictionary)
    && sum == SpelledMass(output, vocabSize, seqLen, exp, labels, |dictionary|)
    && count == |ids| && 0.0 <= sum <= count as real && (sum > 0.0 <==> count > 0)
  }

  lemma DecodingStart(output: seq<real>, vocabSize: nat, seqLen: nat, dictionary: seq<string>, exp: real -> real)
    requires Positive(exp)
    ensures Decoding(output, vocabSize, seqLen, dictionary, exp, [], 0, "", None, 0.0, 0)
  {
  }

  lemma MassLast(output: seq<real>, vocabSize: nat, seqLen: nat, exp: real -> real, labels: seq<nat>, l: nat, size: nat)
    requires Positive(exp)
    ensures SpelledMass(output, vocabSize, seqLen, exp, labels + [l], size)
         == SpelledMass(output, vocabSize, seqLen, exp, labels, size)
            + if LastSpelled(labels + [l], Blank(vocabSize), size)
              then Probability(output, vocabSize, seqLen, |labels|, exp, l) else 0.0
  {
    assert (labels + [l])[..|labels|] == labels;
  }

  lemma DecodeSkip(output: seq<real>, vocabSize: nat, seqLen: nat, dictionary: seq<string>, exp: real -> real,
                   labels: seq<nat>, t: nat, result: string, prev: Option<nat>, sum: real, count: nat, l: nat)
    requires Positive(exp)
    requires Decoding(output, vocabSize, seqLen, dictionary, exp, labels, t, result, prev, sum, count)
    requires IsLabel(output, vocabSize, seqLen, t, l)
    requires prev == Some(l) || l == Blank(vocabSize) || l >= |dictionary|
    ensures Decoding(output, vocabSize, seqLen, dictionary, exp, labels + [l], t + 1, result, Some(l), sum, count)
  {
    hide IsLabel, Probability, SpelledMass, Spell, Ids, InRange, ExpsBelow, Squash, Collapse, Apply, Score, Offset;
    IdsLast(labels, l, Blank(vocabSize), |dictionary|);
    MassLast(output, vocabSize, seqLen, exp, labels, l, |dictionary|);
  }

  lemma DecodeSpell(output: seq<real>, vocabSize: nat, seqLen: nat, dictionary: seq<string>, exp: real -> real,
                    labels: seq<nat>, t: nat, result: string, prev: Option<nat>, sum: real, count: nat, l: nat)
    requires Positive(exp) && InRange(output, vocabSize, seqLen, t, l)
    requires Decoding(output, vocabSize, seqLen, dictionary, exp, labels, t, result, prev, sum, count)
    requires IsLabel(output, vocabSize, seqLen, t, l)
    requires prev != Some(l) && l != Blank(vocabSize) && l < |dictionary|
    ensures Decoding(output, vocabSize, seqLen, dictionary, exp, labels + [l], t + 1, result + dictionary[l], Some(l),
                     sum + Probability(output, vocabSize, seqLen, t, exp, l), count + 1)
  {
    hide IsLabel, Probability, SpelledMass, Spell, Ids, InRange, ExpsBelow, Squash, Collapse, Apply, Score, Offset;
    IdsLast(labels, l, Blank(vocabSize), |dictionary|);
    MassLast(output, vocabSize, seqLen, exp, labels, l, |dictionary|);
    SpellLast(Ids(labels, Blank(vocabSize), |dictionary|), l, dictionary);
    ProbabilityRange(output, vocabSize, seqLen, t, exp, l);
  }

  ghost predicate Decodes(output: seq<real>, vocabSize: nat, seqLen: nat, dictionary: seq<string>, exp: real -> real,
                          labels: seq<nat>, text: string, confidence: real)
    requires Positive(exp)
  {
    var ids := Ids(labels, Blank(vocabSize), |dictionary|);
    && |labels| == seqLen
    && (forall t :: 0 <= t < seqLen ==> IsLabel(output, vocabSize, seqLen, t, labels[t]))
    && (forall i :: 0 <= i < |ids| ==> ids[i] < |dictionary|)
    && text == Trim(Spell(ids, dictionary))
    && 0.0 <= confidence <= 1.0 && (confidence > 0.0 <==> ids != [])
    && (ids != [] ==>
          confidence == SpelledMass(output, vocabSize, seqLen, exp, labels, |dictionary|) / |ids| as real)
  }

  // ----- what labels, probabilities and texts are

  /** Where the score of entry `v` at step `t` is: one row for each entry of the vocabulary. */
  function Place(seqLen: nat, t: nat, v: nat): nat { v * seqLen + t }

  /** The label of a step is the first of its greatest scores, or the last entry of the vocabulary if it has none. */
  lemma LabelMeans(output: seq<real>, vocabSize: nat, seqLen: nat, t: nat, best: nat)
    requires vocabSize > 0
    ensures IsLabel(output, vocabSize, seqLen, t, best) <==>
      if t >= |output| then best == vocabSize - 1
      else
        && best < vocabSize && Place(seqLen, t, best) < |output|
        && forall v: nat :: v < vocabSize && Place(seqLen, t, v) < |output| ==>
             && output[Place(seqLen, t, v)] <= output[Place(seqLen, t, best)]
             && (v < best ==> output[Place(seqLen, t, v)] < output[Place(seqLen, t, best)])
  {
    forall v: nat
      ensures InRange(output, vocabSize, seqLen, t, v) <==> v < vocabSize && Place(seqLen, t, v) < |output|
    {
    }
    forall v: nat | InRange(output, vocabSize, seqLen, t, v)
      ensures Score(output, vocabSize, seqLen, t, v) == output[Place(seqLen, t, v)]
    {
    }
    assert InRange(output, vocabSize, seqLen, t, 0) <==> t < |output|;
    hide InRange, Score, Place;
  }

  lemma ScorePlace(vocabSize: nat, seqLen: nat, t: nat, v: nat)
    requires v < vocabSize && t < seqLen
    ensures v * seqLen + t < vocabSize * seqLen
  {
    assert (vocabSize - v - 1) * seqLen >= 0;
    assert vocabSize * seqLen == v * seqLen + seqLen + (vocabSize - v - 1) * seqLen;
  }

  /** The labels of the path are the strict winners of their steps. */
  ghost predicate Winners(output: seq<real>, vocabSize: nat, seqLen: nat, path: seq<nat>)
    requires |output| == vocabSize * seqLen
  {
    && |path| == seqLen
    && forall t :: 0 <= t < seqLen ==>
         && path[t] < vocabSize
         && forall v :: 0 <= v < vocabSize && v != path[t] ==>
              ScoreAt(output, vocabSize, seqLen, t, v) < ScoreAt(output, vocabSize, seqLen, t, path[t])
  }

  ghost function ScoreAt(output: seq<real>, vocabSize: nat, seqLen: nat, t: nat, v: nat): real
    requires |output| == vocabSize * seqLen && t < seqLen && v < vocabSize
  {
    ScorePlace(vocabSize, seqLen, t, v);
    output[Place(seqLen, t, v)]
  }

  lemma WinnerIsLabel(output: seq<real>, vocabSize: nat, seqLen: nat, path: seq<nat>, t: nat, best: nat)
    requires |output| == vocabSize * seqLen && Winners(output, vocabSize, seqLen, path) && t < seqLen
    requires IsLabel(output, vocabSize, seqLen, t, best)
    ensures best == path[t]
  {
    ScorePlace(vocabSize, seqLen, t, path[t]);
    ScorePlace(vocabSize, seqLen, t, 0);
    LabelMeans(output, vocabSize, seqLen, t, best);
    hide IsLabel;
    assert best != path[t] ==>
      ScoreAt(output, vocabSize, seqLen, t, best) < ScoreAt(output, vocabSize, seqLen, t, path[t]);
  }

  lemma {:induction false} KnownStay(ids: seq<nat>, size: nat)
    requires forall i :: 0 <= i < |ids| ==> ids[i] < size
    ensures Filter<nat>(Known(size), ids) == ids
  {
    FilterAll<nat>(Known(size), ids);
  }

  /** Decoding undoes encoding: if the winners of the steps spread dictionary entries out in time, as a proper path, the
      text is those entries one after the other, trimmed. */
  lemma PathIsDecoded(output: seq<real>, vocabSize: nat, seqLen: nat, dictionary: seq<string>, exp: real -> real,
                      labels: seq<nat>, text: string, confidence: real, ids: seq<nat>, reps: seq<nat>, gaps: seq<nat>)
    requires Positive(exp) && vocabSize > 0 && |output| == vocabSize * seqLen
    requires Proper(ids, reps, gaps, vocabSize - 1) && forall i :: 0 <= i < |ids| ==> ids[i] < |dictionary|
    requires Winners(output, vocabSize, seqLen, Path(ids, reps, gaps, vocabSize - 1))
    requires Decodes(output, vocabSize, seqLen, dictionary, exp, labels, text, confidence)
    ensures text == Trim(Spell(ids, dictionary))
  {
    var path := Path(ids, reps, gaps, vocabSize - 1);
    hide Squash, Path, Proper, Winners, Filter, SpelledMass, IsLabel;
    WinnersAreLabels(output, vocabSize, seqLen, path, labels);
    SquashOfPath(ids, reps, gaps, vocabSize - 1);
    KnownStay(ids, |dictionary|);
  }

  lemma WinnersAreLabels(output: seq<real>, vocabSize: nat, seqLen: nat, path: seq<nat>, labels: seq<nat>)
    requires |output| == vocabSize * seqLen && Winners(output, vocabSize, seqLen, path) && |labels| == seqLen
    requires forall t :: 0 <= t < seqLen ==> IsLabel(output, vocabSize, seqLen, t, labels[t])
    ensures labels == path
  {
    assert |path| == seqLen;
    hide IsLabel, Winners;
    forall t | 0 <= t < seqLen ensures labels[t] == path[t] {
      WinnerIsLabel(output, vocabSize, seqLen, path, t, labels[t]);
    }
  }

  lemma SpellOne(id: nat, dictionary: seq<string>)
    requires id < |dictionary|
    ensures Spell([id], dictionary) == dictionary[id]
  {
  }

  /** Spelling puts entries one after the other. */
  lemma {:induction false} SpellConcat(a: seq<nat>, b: seq<nat>, dictionary: seq<string>)
    requires forall i :: 0 <= i < |a| ==> a[i] < |dictionary|
    requires forall i :: 0 <= i < |b| ==> b[i] < |dictionary|
    ensures Spell(a + b, dictionary) == Spell(a, dictionary) + Spell(b, dictionary)
    decreases |b|
  {
    if b == [] {
      assert a + b == a;
    } else {
      hide Spell;
      var init, last := b[..|b| - 1], b[|b| - 1];
      SpellConcat(a, init, dictionary);
      assert a + b == a + init + [last] && b == init + [last];
      Regroup(Spell(a, dictionary), Spell(init, dictionary), dictionary[last]);
      SpellLast(a + init, last, dictionary);
      SpellLast(init, last, dictionary);
    }
  }

  /** The probabilities of the labels below `v` added up. */
  ghost function TotalProbability(output: seq<real>, vocabSize: nat, seqLen: nat, t: nat, exp: real -> real, v: nat)
    : real
    requires Positive(exp)
  {
    if v == 0 then 0.0
    else
      TotalProbability(output, vocabSize, seqLen, t, exp, v - 1)
      + Probability(output, vocabSize, seqLen, t, exp, v - 1)
  }

  lemma {:induction false} PartialTotal(output: seq<real>, vocabSize: nat, seqLen: nat, t: nat, exp: real -> real,
                                        v: nat)
    requires Positive(exp) && v <= vocabSize && ExpsBelow(output, seqLen, t, exp, vocabSize) > 0.0
    ensures TotalProbability(output, vocabSize, seqLen, t, exp, v)
         == ExpsBelow(output, seqLen, t, exp, v) / ExpsBelow(output, seqLen, t, exp, vocabSize)
  {
    var sum := ExpsBelow(output, seqLen, t, exp, vocabSize);
    if v > 0 {
      PartialTotal(output, vocabSize, seqLen, t, exp, v - 1);
      var last := if Offset(seqLen, t, v - 1) < |output| then Apply(exp, output[Offset(seqLen, t, v - 1)]) else 0.0;
      FractionsAdd(ExpsBelow(output, seqLen, t, exp, v - 1), last, sum);
      assert Probability(output, vocabSize, seqLen, t, exp, v - 1) == last / sum;
    }
  }

  lemma FractionsAdd(a: real, b: real, sum: real)
    requires sum > 0.0
    ensures a / sum + b / sum == (a + b) / sum
  {
  }

  lemma CrossProducts(a: real, b: real, sum: real)
    requires sum > 0.0
    ensures a / sum * b == b / sum * a
    ensures sum / sum == 1.0
  {
  }

  /** The probabilities of a step that has scores add up to 1. */
  lemma ProbabilitiesAddUp(output: seq<real>, vocabSize: nat, seqLen: nat, t: nat, exp: real -> real)
    requires Positive(exp) && vocabSize > 0 && t < |output|
    ensures TotalProbability(output, vocabSize, seqLen, t, exp, vocabSize) == 1.0
  {
    ProbabilityRange(output, vocabSize, seqLen, t, exp, 0);
    PartialTotal(output, vocabSize, seqLen, t, exp, vocabSize);
    hide *;
    CrossProducts(1.0, 1.0, ExpsBelow(output, seqLen, t, exp, vocabSize));
  }

  /** They are to each other as the exponentials of their scores. */
  lemma ProbabilitiesCompare(output: seq<real>, vocabSize: nat, seqLen: nat, t: nat, exp: real -> real, a: nat, b: nat)
    requires Positive(exp) && a < vocabSize && b < vocabSize
    requires Place(seqLen, t, a) < |output| && Place(seqLen, t, b) < |output|
    ensures Probability(output, vocabSize, seqLen, t, exp, a) * exp(output[Place(seqLen, t, b)])
         == Probability(output, vocabSize, seqLen, t, exp, b) * exp(output[Place(seqLen, t, a)])
  {
    var sum := ExpsBelow(output, seqLen, t, exp, vocabSize);
    var x, y := exp(output[Place(seqLen, t, a)]), exp(output[Place(seqLen, t, b)]);
    ProbabilityRange(output, vocabSize, seqLen, t, exp, a);
    ProbabilityOf(output, vocabSize, seqLen, t, exp, a, x, sum);
    ProbabilityOf(output, vocabSize, seqLen, t, exp, b, y, sum);
    hide *;
    CrossProducts(x, y, sum);
  }

  lemma ProbabilityOf(output: seq<real>, vocabSize: nat, seqLen: nat, t: nat, exp: real -> real, l: nat, x: real,
                      sum: real)
    requires Positive(exp) && l < vocabSize && Place(seqLen, t, l) < |output| && x == exp(output[Place(seqLen, t, l)])
    requires sum == ExpsBelow(output, seqLen, t, exp, vocabSize) > 0.0
    ensures Probability(output, vocabSize, seqLen, t, exp, l) == x / sum
  {
  }

  // ----- trimming

  const WHITESPACE := "\U{9}\U{A}\U{B}\U{C}\U{D} \U{85}\U{A0}\U{1680}\U{2000}\U{2001}\U{2002}\U{2003}\U{2004}"
    + "\U{2005}\U{2006}\U{2007}\U{2008}\U{2009}\U{200A}\U{2028}\U{2029}\U{202F}\U{205F}\U{3000}"

  ghost predicate Blanks(s: string) { forall i :: 0 <= i < |s| ==> IsWhitespace(s[i]) }

  lemma {:induction false} TrimStartExact(s: string) returns (left: string)
    ensures s == left + TrimStart(s) && Blanks(left) && (TrimStart(s) != "" ==> !IsWhitespace(TrimStart(s)[0]))
  {
    left := "";
    if s != "" && IsWhitespace(s[0]) {
      left := TrimStartExact(s[1..]);
      left := [s[0]] + left;
    }
  }

  lemma {:induction false} TrimEndExact(s: string) returns (right: string)
    ensures s == TrimEnd(s) + right && Blanks(right)
    ensures TrimEnd(s) != "" ==> !IsWhitespace(TrimEnd(s)[|TrimEnd(s)| - 1]) && TrimEnd(s)[0] == s[0]
  {
    right := "";
    if s != "" && IsWhitespace(s[|s| - 1]) {
      right := TrimEndExact(s[..|s| - 1]);
      right := right + [s[|s| - 1]];
    }
  }

  /** Trimming takes whitespace off both ends, all of it and nothing else. */
  lemma TrimExact(s: string) returns (left: string, right: string)
    ensures s == left + Trim(s) + right && Blanks(left) && Blanks(right)
    ensures Trim(s) != "" ==> !IsWhitespace(Trim(s)[0]) && !IsWhitespace(Trim(s)[|Trim(s)| - 1])
  {
    left := TrimStartExact(s);
    right := TrimEndExact(TrimStart(s));
  }

  /** The characters of the Unicode property White_Space. */
  lemma WhitespaceExact(c: char)
    ensures IsWhitespace(c) <==> c in WHITESPACE
  {
  }
}
