/**
 * The scoring rule of the evaluation task (`process_results` in
 * tasks/medschool-test/utils.py): the prediction is the first index of a
 * largest probability, and the score is 0.0 for the abstention index 5,
 * 1.5 for the gold index and -0.4 otherwise; `acc_norm` applies the same
 * rule after dividing each probability by the length of its choice.
 *
 * The probabilities are given: the softmax over log-likelihoods that
 * produces them is not modelled.
 */
module Scoring {
  import opened Wrappers
  import opened Text
  import opened Questions
  import opened Prompts

  /** The index the rule treats as "prefer not to answer". */
  const Abstain: nat := 5

  /** `i` is where `numpy.argmax` lands: a largest value, and the first one. */
  predicate IsFirstMax(p: seq<real>, i: int) {
    0 <= i < |p| &&
    (forall j :: 0 <= j < |p| ==> p[j] <= p[i]) &&
    (forall j :: 0 <= j < i ==> p[j] < p[i])
  }

  /** There is at most one first maximum. */
  lemma FirstMaxUnique(p: seq<real>, i: int, k: int)
    requires IsFirstMax(p, i) && IsFirstMax(p, k)
    ensures i == k
  {
    assert p[i] <= p[k] && p[k] <= p[i];
  }

  /** `numpy.argmax`: the first index of a largest value. */
  function Argmax(p: seq<real>): (r: nat)
    requires |p| > 0
    ensures IsFirstMax(p, r)
    decreases |p|
  {
    if |p| == 1 then 0
    else
      var k := Argmax(p[..|p| - 1]);
      if p[|p| - 1] > p[k] then |p| - 1 else k
  }

  /** `score` / `normalized_score`: the abstention index is checked first. */
  function Score(prediction: nat, gold: Option<nat>): (r: real)
    ensures r == 0.0 <==> prediction == Abstain
    ensures r == 1.5 <==> prediction != Abstain && gold == Some(prediction)
    ensures r == -0.4 <==> prediction != Abstain && gold != Some(prediction)
  {
    if prediction == Abstain then 0.0
    else if gold == Some(prediction) then 1.5
    else -0.4
  }

  /** `probabilities / np.array([len(c) for c in doc["choices"]])`. */
  function Normalized(p: seq<real>, choices: seq<string>): (r: seq<real>)
    requires |p| == |choices|
    requires forall i :: 0 <= i < |choices| ==> |choices[i]| > 0
    ensures |r| == |p|
    ensures forall i :: 0 <= i < |p| ==> r[i] * (|choices[i]| as real) == p[i]
  {
    seq(|p|, i requires 0 <= i < |p| => p[i] / (|choices[i]| as real))
  }

  /** The two scores `process_results` returns. */
  datatype Scores = Scores(acc: real, accNorm: real)

  /** The score earned by the probabilities `p` against `gold`, stated
      through the first maximum rather than through `Argmax`. */
  predicate Earns(p: seq<real>, gold: Option<nat>, score: real) {
    (score == 0.0 <==> IsFirstMax(p, Abstain)) &&
    (score == 1.5 <==> gold.Some? && gold.value != Abstain && IsFirstMax(p, gold.value)) &&
    (score == -0.4 <==> !IsFirstMax(p, Abstain) && !(gold.Some? && IsFirstMax(p, gold.value)))
  }

  /** `process_results`: one probability per choice, every choice non-empty. */
  function ProcessResults(doc: Prompt, probabilities: seq<real>): (r: Scores)
    requires |probabilities| == |doc.choices| > 0
    requires forall i :: 0 <= i < |doc.choices| ==> |doc.choices[i]| > 0
    ensures Earns(probabilities, doc.gold, r.acc)
    ensures Earns(Normalized(probabilities, doc.choices), doc.gold, r.accNorm)
  {
    var prediction := Argmax(probabilities);
    var normalized := Argmax(Normalized(probabilities, doc.choices));
    ScoreEarns(probabilities, doc.gold);
    ScoreEarns(Normalized(probabilities, doc.choices), doc.gold);
    Scores(Score(prediction, doc.gold), Score(normalized, doc.gold))
  }

  /** The score of the argmax is what the first maximum earns. */
  lemma ScoreEarns(p: seq<real>, gold: Option<nat>)
    requires |p| > 0
    ensures Earns(p, gold, Score(Argmax(p), gold))
  {
    var k := Argmax(p);
    if IsFirstMax(p, Abstain) {
      FirstMaxUnique(p, k, Abstain);
    }
    if gold.Some? && IsFirstMax(p, gold.value) {
      FirstMaxUnique(p, k, gold.value);
    }
  }

  /** Dividing every probability by the same positive length keeps the
      first maximum where it is. */
  lemma {:induction false} UniformScaling(p: seq<real>, choices: seq<string>, i: int)
    requires |p| == |choices|
    requires forall j :: 0 <= j < |choices| ==> |choices[j]| > 0 && |choices[j]| == |choices[0]|
    ensures IsFirstMax(p, i) <==> IsFirstMax(Normalized(p, choices), i)
  {
    if |p| > 0 {
      var q := Normalized(p, choices);
      var c := |choices[0]| as real;
      assert c > 0.0;
      forall j | 0 <= j < |p| ensures q[j] == p[j] / c {
        assert q[j] * c == p[j];
      }
      forall j, k | 0 <= j < |p| && 0 <= k < |p| ensures p[j] <= p[k] <==> q[j] <= q[k] {
        Monotone(p[j], p[k], c);
      }
      forall j, k | 0 <= j < |p| && 0 <= k < |p| ensures p[j] < p[k] <==> q[j] < q[k] {
        Monotone(p[j], p[k], c);
      }
    }
  }

  lemma Monotone(x: real, y: real, c: real)
    requires c > 0.0
    ensures x <= y <==> x / c <= y / c
    ensures x < y <==> x / c < y / c
  {
    assert x / c * c == x;
    assert y / c * c == y;
  }

  /** Choices of one common length give `acc_norm == acc`. */
  lemma UniformLengthsSameScore(doc: Prompt, probabilities: seq<real>)
    requires |probabilities| == |doc.choices| > 0
    requires forall i :: 0 <= i < |doc.choices| ==> |doc.choices[i]| > 0 && |doc.choices[i]| == |doc.choices[0]|
    ensures ProcessResults(doc, probabilities).accNorm == ProcessResults(doc, probabilities).acc
  {
    var k := Argmax(probabilities);
    UniformScaling(probabilities, doc.choices, k);
    FirstMaxUnique(Normalized(probabilities, doc.choices), k, Argmax(Normalized(probabilities, doc.choices)));
  }

  /** In the multiple-choice template the six choices are single letters,
      so length normalisation changes nothing: `acc_norm == acc`. */
  lemma MultipleChoiceSameScore(doc: Question, language: Language, abstention: string, probabilities: seq<real>)
    requires |probabilities| == 6
    ensures ProcessResults(MultipleChoiceDoc(doc, language, abstention), probabilities).accNorm
         == ProcessResults(MultipleChoiceDoc(doc, language, abstention), probabilities).acc
  {
    UniformLengthsSameScore(MultipleChoiceDoc(doc, language, abstention), probabilities);
  }

  /** A gold index of 5 is never rewarded: the abstention check comes first. */
  lemma GoldAtFiveNeverRewarded(doc: Prompt, probabilities: seq<real>)
    requires |probabilities| == |doc.choices| > 0
    requires forall i :: 0 <= i < |doc.choices| ==> |doc.choices[i]| > 0
    requires doc.gold == Some(Abstain)
    ensures ProcessResults(doc, probabilities).acc != 1.5
    ensures ProcessResults(doc, probabilities).accNorm != 1.5
  {
  }

  /** For a cloze prompt with five answers, a model whose top choice is the
      abstention string scores 0.0. */
  lemma ClozeAbstentionScoresZero(doc: Question, language: Language, probabilities: seq<real>)
    requires |doc.answers| == 5 && |probabilities| == 6
    requires forall i :: 0 <= i < 6 ==> |ClozeDoc(doc, language, Abstention).choices[i]| > 0
    requires IsFirstMax(probabilities, 5)
    ensures ClozeDoc(doc, language, Abstention).choices[Argmax(probabilities)] == Strip(Abstention)
    ensures ProcessResults(ClozeDoc(doc, language, Abstention), probabilities).acc == 0.0
  {
    FirstMaxUnique(probabilities, 5, Argmax(probabilities));
    AbstentionAtFive(doc, language, Abstention);
  }
}
