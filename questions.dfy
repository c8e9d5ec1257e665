/**
 * `process_questions` and the id ordering of `save_questions` in the
 * question-collection script (src/data/collection/collect_questions.py).
 *
 * Records come from the quiz API; accepted ones are cleaned and stored in
 * a dictionary keyed by question id, where a later record with the same
 * id replaces the earlier one. Saving emits the stored records in
 * ascending id order.
 */
module Questions {
  import opened Wrappers
  import opened Text
  import opened Substitutions
  import opened Cleaning

  /** One answer as the API returns it: `id` is a letter, `a` marks the right one. */
  datatype RawAnswer = RawAnswer(id: string, text: string)

  /** One record as the API returns it (`id`, `argomento`, `domanda`, `risposte`). */
  datatype RawQuestion = RawQuestion(id: int, topic: string, text: string, answers: seq<RawAnswer>)

  /** A stored record: cleaned text, cleaned answer texts, and the index of
      the right answer, if any. */
  datatype Question = Question(id: int, topic: string, text: string, answers: seq<string>, correct: Option<nat>)

  /** The record is skipped: empty text, no answers, or an image in the text.
      An image inside an answer does not cause a skip. */
  predicate Rejected(q: RawQuestion) {
    q.text == [] || q.answers == [] || Contains(q.text, "<img")
  }

  /** `clean_text` followed by the removal of every `<...>` tag. */
  function CleanField(s: string): (r: string)
    ensures NoClosedTag(r)
  {
    StripTags(CleanText(s))
  }

  /** The label: the index of the first answer whose id is `a`, or none. */
  function LabelOf(answers: seq<RawAnswer>): (r: Option<nat>)
    ensures r.Some? ==> r.value < |answers| && answers[r.value].id == "a"
    ensures r.Some? ==> forall i :: 0 <= i < r.value ==> answers[i].id != "a"
    ensures r.None? ==> forall i :: 0 <= i < |answers| ==> answers[i].id != "a"
  {
    if answers == [] then None
    else if answers[0].id == "a" then Some(0)
    else
      var rest := LabelOf(answers[1..]);
      if rest.Some? then Some(rest.value + 1) else None
  }

  /** Answers with the same ids in the same order have the same label. */
  lemma LabelOfIds(a: seq<RawAnswer>, b: seq<RawAnswer>)
    requires |a| == |b| && forall i :: 0 <= i < |a| ==> a[i].id == b[i].id
    ensures LabelOf(a) == LabelOf(b)
  {
    match LabelOf(a)
    case None =>
      assert forall i :: 0 <= i < |b| ==> b[i].id != "a" by {
        forall i | 0 <= i < |b| ensures b[i].id != "a" {
          assert a[i].id == b[i].id;
        }
      }
    case Some(k) =>
      assert b[k].id == "a";
  }

  /** The search loop of the script: the first answer whose id is `a`. */
  method FindLabel(answers: seq<RawAnswer>) returns (index: Option<nat>)
    ensures index == LabelOf(answers)
  {
    index := None;
    var i := 0;
    while i < |answers|
      invariant 0 <= i <= |answers|
      invariant forall j :: 0 <= j < i ==> answers[j].id != "a"
    {
      if answers[i].id == "a" {
        index := Some(i);
        break;
      }
      i := i + 1;
    }
  }

  /** The stored form of an accepted record. */
  function Process(q: RawQuestion): Question
  {
    Question(q.id, q.topic, CleanField(q.text), CleanAnswers(q.answers), LabelOf(q.answers))
  }

  /** The cleaned text of every answer, in order. */
  function CleanAnswers(answers: seq<RawAnswer>): (r: seq<string>)
    ensures |r| == |answers|
    ensures forall i :: 0 <= i < |answers| ==> r[i] == CleanField(answers[i].text)
  {
    seq(|answers|, i requires 0 <= i < |answers| => CleanField(answers[i].text))
  }

  /** The dictionary after the records `qs`, one after the other. */
  function Collect(qs: seq<RawQuestion>): map<int, Question>
  {
    if qs == [] then map[]
    else
      var m := Collect(qs[..|qs| - 1]);
      var q := qs[|qs| - 1];
      if Rejected(q) then m else m[q.id := Process(q)]
  }

  /** `[{"id": a["id"], "text": clean_text(a["text"])} for a in answers]` */
  function CleanAnswerTexts(answers: seq<RawAnswer>): (r: seq<RawAnswer>)
    ensures |r| == |answers|
    ensures forall j :: 0 <= j < |r| ==> r[j] == RawAnswer(answers[j].id, CleanText(answers[j].text))
  {
    seq(|answers|, j requires 0 <= j < |answers| => RawAnswer(answers[j].id, CleanText(answers[j].text)))
  }

  /** `[{"id": a["id"], "text": re.sub(r"<[^>]*>", "", a["text"])} for a in answers]` */
  function StripAnswerTags(answers: seq<RawAnswer>): (r: seq<RawAnswer>)
    ensures |r| == |answers|
    ensures forall j :: 0 <= j < |r| ==> r[j] == RawAnswer(answers[j].id, StripTags(answers[j].text))
  {
    seq(|answers|, j requires 0 <= j < |answers| => RawAnswer(answers[j].id, StripTags(answers[j].text)))
  }

  /** `[a["text"] for a in answers]` */
  function AnswerTexts(answers: seq<RawAnswer>): (r: seq<string>)
    ensures |r| == |answers|
    ensures forall j :: 0 <= j < |r| ==> r[j] == answers[j].text
  {
    seq(|answers|, j requires 0 <= j < |answers| => answers[j].text)
  }

  /** The cleaning of one accepted record: `clean_text` on the text and on
      every answer, tag removal, then the search for the right answer. */
  method CleanRecord(question: RawQuestion) returns (stored: Question)
    ensures stored == Process(question)
  {
    var text := CleanText(question.text);
    var answers := CleanAnswerTexts(question.answers);
    ghost var cleaned := answers;
    text := StripTags(text);
    answers := StripAnswerTags(answers);
    var correct := FindLabel(answers);
    var texts := AnswerTexts(answers);
    stored := Question(question.id, question.topic, text, texts, correct);
    StoredRecord(question, cleaned, answers, texts, correct);
  }

  lemma StoredRecord(question: RawQuestion, cleaned: seq<RawAnswer>, answers: seq<RawAnswer>,
                     texts: seq<string>, correct: Option<nat>)
    requires |cleaned| == |answers| == |texts| == |question.answers|
    requires forall j :: 0 <= j < |cleaned| ==>
      cleaned[j] == RawAnswer(question.answers[j].id, CleanText(question.answers[j].text))
    requires forall j :: 0 <= j < |answers| ==> answers[j] == RawAnswer(cleaned[j].id, StripTags(cleaned[j].text))
    requires forall j :: 0 <= j < |texts| ==> texts[j] == answers[j].text
    requires correct == LabelOf(answers)
    ensures Question(question.id, question.topic, StripTags(CleanText(question.text)), texts, correct) == Process(question)
  {
    CleanedTexts(question, cleaned, answers, texts);
    ProcessedAnswers(question, texts);
    CleanedIds(question, cleaned, answers);
  }

  lemma CleanedTexts(question: RawQuestion, cleaned: seq<RawAnswer>, answers: seq<RawAnswer>, texts: seq<string>)
    requires |cleaned| == |answers| == |texts| == |question.answers|
    requires forall j :: 0 <= j < |cleaned| ==>
      cleaned[j] == RawAnswer(question.answers[j].id, CleanText(question.answers[j].text))
    requires forall j :: 0 <= j < |answers| ==> answers[j] == RawAnswer(cleaned[j].id, StripTags(cleaned[j].text))
    requires forall j :: 0 <= j < |texts| ==> texts[j] == answers[j].text
    ensures forall j :: 0 <= j < |texts| ==> texts[j] == CleanField(question.answers[j].text)
  {
  }

  lemma ProcessedAnswers(question: RawQuestion, texts: seq<string>)
    requires |texts| == |question.answers|
    requires forall j :: 0 <= j < |texts| ==> texts[j] == CleanField(question.answers[j].text)
    ensures texts == Process(question).answers
  {
  }

  lemma CleanedIds(question: RawQuestion, cleaned: seq<RawAnswer>, answers: seq<RawAnswer>)
    requires |cleaned| == |answers| == |question.answers|
    requires forall j :: 0 <= j < |cleaned| ==> cleaned[j].id == question.answers[j].id
    requires forall j :: 0 <= j < |answers| ==> answers[j].id == cleaned[j].id
    ensures LabelOf(answers) == LabelOf(question.answers)
  {
    LabelOfIds(answers, question.answers);
  }

  /** `process_questions`: one pass over the records, skipping rejected
      ones and storing the cleaned form of the others under their id. */
  method ProcessQuestions(questions: seq<RawQuestion>) returns (processed: map<int, Question>)
    ensures processed == Collect(questions)
    ensures |processed| <= |questions|
  {
    processed := map[];
    for i := 0 to |questions|
      invariant processed == Collect(questions[..i])
    {
      CollectStep(questions, i);
      var question := questions[i];
      if question.text == [] || question.answers == [] {
        continue;
      }
      if Contains(question.text, "<img") {
        continue;
      }
      var stored := CleanRecord(question);
      processed := processed[question.id := stored];
    }
    assert questions[..|questions|] == questions;
    CollectSize(questions);
  }

  /** One more record: skipped when rejected, otherwise stored under its id. */
  lemma CollectStep(qs: seq<RawQuestion>, i: nat)
    requires i < |qs|
    ensures Collect(qs[..i + 1])
         == if Rejected(qs[i]) then Collect(qs[..i]) else Collect(qs[..i])[qs[i].id := Process(qs[i])]
  {
    assert qs[..i + 1][..i] == qs[..i];
    assert qs[..i + 1][i] == qs[i];
  }

  /** The dictionary never holds more entries than there were records. */
  lemma {:induction false} CollectSize(qs: seq<RawQuestion>)
    ensures |Collect(qs)| <= |qs|
    decreases |qs|
  {
    if qs != [] {
      CollectSize(qs[..|qs| - 1]);
    }
  }

  /** An id is stored exactly when some record with that id was accepted. */
  lemma {:induction false} CollectKeys(qs: seq<RawQuestion>, k: int)
    ensures k in Collect(qs) <==> exists i :: 0 <= i < |qs| && qs[i].id == k && !Rejected(qs[i])
    decreases |qs|
  {
    if qs != [] {
      var init := qs[..|qs| - 1];
      CollectKeys(init, k);
      if k in Collect(init) {
        var i :| 0 <= i < |init| && init[i].id == k && !Rejected(init[i]);
        assert qs[i] == init[i];
      }
      if exists i :: 0 <= i < |qs| && qs[i].id == k && !Rejected(qs[i]) {
        var i :| 0 <= i < |qs| && qs[i].id == k && !Rejected(qs[i]);
        if i < |init| {
          assert init[i] == qs[i];
        }
      }
    }
  }

  /** The stored entry for an id is the cleaned form of the last accepted
      record with that id: later records with the same id are all rejected. */
  lemma {:induction false} CollectLastWins(qs: seq<RawQuestion>, k: int) returns (i: nat)
    requires k in Collect(qs)
    ensures i < |qs| && qs[i].id == k && !Rejected(qs[i])
    ensures Collect(qs)[k] == Process(qs[i])
    ensures forall j :: i < j < |qs| && qs[j].id == k ==> Rejected(qs[j])
    decreases |qs|
  {
    assert qs != [];
    var init := qs[..|qs| - 1];
    var q := qs[|qs| - 1];
    if !Rejected(q) && q.id == k {
      CollectLast(qs);
      i := |qs| - 1;
    } else {
      CollectOther(qs, k);
      i := CollectLastWins(init, k);
      EntryCarried(qs, init, i, k);
      assert Collect(qs)[k] == Collect(init)[k] == Process(init[i]);
    }
  }

  /** What holds of record `i` in all but the last record holds of it in `qs`. */
  lemma EntryCarried(qs: seq<RawQuestion>, init: seq<RawQuestion>, i: nat, k: int)
    requires qs != [] && init == qs[..|qs| - 1] && i < |init|
    requires init[i].id == k && !Rejected(init[i])
    requires forall j :: i < j < |init| && init[j].id == k ==> Rejected(init[j])
    requires Rejected(qs[|qs| - 1]) || qs[|qs| - 1].id != k
    ensures qs[i] == init[i] && qs[i].id == k && !Rejected(qs[i])
    ensures forall j :: i < j < |qs| && qs[j].id == k ==> Rejected(qs[j])
  {
    LaterRejected(qs, init, i, k);
  }

  lemma LaterRejected(qs: seq<RawQuestion>, init: seq<RawQuestion>, i: nat, k: int)
    requires qs != [] && init == qs[..|qs| - 1] && i < |init|
    requires forall j :: i < j < |init| && init[j].id == k ==> Rejected(init[j])
    requires Rejected(qs[|qs| - 1]) || qs[|qs| - 1].id != k
    ensures forall j :: i < j < |qs| && qs[j].id == k ==> Rejected(qs[j])
  {
    forall j | i < j < |qs| && qs[j].id == k ensures Rejected(qs[j]) {
      if j < |qs| - 1 {
        assert qs[j] == init[j];
      }
    }
  }

  /** The last record, when accepted, is what its id maps to. */
  lemma CollectLast(qs: seq<RawQuestion>)
    requires qs != [] && !Rejected(qs[|qs| - 1])
    ensures Collect(qs)[qs[|qs| - 1].id] == Process(qs[|qs| - 1])
  {
  }

  /** A last record that is rejected or has another id leaves the entry for `k` alone. */
  lemma CollectOther(qs: seq<RawQuestion>, k: int)
    requires qs != [] && (Rejected(qs[|qs| - 1]) || qs[|qs| - 1].id != k)
    ensures k in Collect(qs) <==> k in Collect(qs[..|qs| - 1])
    ensures k in Collect(qs) ==> Collect(qs)[k] == Collect(qs[..|qs| - 1])[k]
  {
  }

  /** An accepted record with no later record of the same id is stored. */
  lemma LastAcceptedStored(qs: seq<RawQuestion>, i: nat)
    requires i < |qs| && !Rejected(qs[i])
    requires forall j :: i < j < |qs| ==> qs[j].id != qs[i].id
    ensures qs[i].id in Collect(qs) && Collect(qs)[qs[i].id] == Process(qs[i])
  {
    CollectKeys(qs, qs[i].id);
    var w := CollectLastWins(qs, qs[i].id);
    assert w == i;
  }

  /** A record whose text holds `<img` is never stored unless another
      record with its id is accepted. */
  lemma ImageInTextSkipped(qs: seq<RawQuestion>, i: nat)
    requires i < |qs| && Contains(qs[i].text, "<img")
    requires forall j :: 0 <= j < |qs| && j != i ==> qs[j].id != qs[i].id
    ensures qs[i].id !in Collect(qs)
  {
    CollectKeys(qs, qs[i].id);
  }

  /** An image inside an answer does not keep the record out. */
  lemma ImageInAnswerKept(qs: seq<RawQuestion>, q: RawQuestion, a: nat)
    requires q.text != [] && !Contains(q.text, "<img")
    requires a < |q.answers| && Contains(q.answers[a].text, "<img")
    ensures q.id in Collect(qs + [q]) && Collect(qs + [q])[q.id] == Process(q)
  {
    assert (qs + [q])[..|qs|] == qs;
  }

  /** Every stored entry carries its own key as id. */
  lemma {:induction false} CollectIds(qs: seq<RawQuestion>)
    ensures forall k :: k in Collect(qs) ==> Collect(qs)[k].id == k
    decreases |qs|
  {
    if qs != [] {
      CollectIds(qs[..|qs| - 1]);
    }
  }

  /** Every stored entry is tag-free and has as many answers, in the same
      order, as the record it came from; its label is the first answer
      whose id is `a`. */
  lemma CollectEntries(qs: seq<RawQuestion>, k: int) returns (i: nat)
    requires k in Collect(qs)
    ensures i < |qs| && qs[i].id == k && !Rejected(qs[i])
    ensures NoClosedTag(Collect(qs)[k].text)
    ensures forall a :: 0 <= a < |Collect(qs)[k].answers| ==> NoClosedTag(Collect(qs)[k].answers[a])
    ensures |Collect(qs)[k].answers| == |qs[i].answers|
    ensures forall a :: 0 <= a < |qs[i].answers| ==> Collect(qs)[k].answers[a] == CleanField(qs[i].answers[a].text)
    ensures Collect(qs)[k].correct == LabelOf(qs[i].answers)
  {
    i := CollectLastWins(qs, k);
    ProcessShape(qs[i]);
  }

  /** The stored form of one record, field by field. */
  lemma ProcessShape(q: RawQuestion)
    ensures NoClosedTag(Process(q).text)
    ensures forall a :: 0 <= a < |Process(q).answers| ==> NoClosedTag(Process(q).answers[a])
    ensures |Process(q).answers| == |q.answers|
    ensures forall a :: 0 <= a < |q.answers| ==> Process(q).answers[a] == CleanField(q.answers[a].text)
    ensures Process(q).correct == LabelOf(q.answers)
  {
    CleanedTagFree(q.answers, Process(q).answers);
  }

  lemma CleanedTagFree(answers: seq<RawAnswer>, texts: seq<string>)
    requires |texts| == |answers|
    requires forall a :: 0 <= a < |answers| ==> texts[a] == CleanField(answers[a].text)
    ensures forall a :: 0 <= a < |texts| ==> NoClosedTag(texts[a])
  {
    forall a | 0 <= a < |texts| ensures NoClosedTag(texts[a]) {
      assert texts[a] == CleanField(answers[a].text);
    }
  }

  // ---------------------------------------------------------------------
  // save_questions: ids in ascending order
  // ---------------------------------------------------------------------

  predicate StrictlyIncreasing(s: seq<int>) {
    forall i, j :: 0 <= i < j < |s| ==> s[i] < s[j]
  }

  /** The smallest element of a non-empty set of ids. */
  function Min(keys: set<int>): (m: int)
    requires keys != {}
    ensures m in keys && forall k :: k in keys ==> m <= k
  {
    MinExists(keys);
    var m :| m in keys && forall k :: k in keys ==> m <= k;
    m
  }

  /** Tag removal drops a wrapper `<t>...</t>` around text without `<`. */
  lemma StripWrapper(t: string, body: string)
    requires '>' !in t && '<' !in body
    ensures StripTags("<" + t + ">" + body + "</" + t + ">") == body
  {
    var close := "<" + ("/" + t) + ">" + [];
    assert "<" + t + ">" + body + "</" + t + ">" == "<" + t + ">" + (body + close);
    StripTagsDropsTag(t, body + close);
    StripTagsPrefix(body, close);
    StripTagsDropsTag("/" + t, []);
    assert StripTags([]) == [];
  }

  lemma WrappedFieldText()
    ensures "<" + "p" + ">" + "H_2O" + "</" + "p" + ">" == "<p>H_2O</p>"
  {}

  /** A field in the quiz API's `<p>` wrapper: the subscript is rewritten
      and the wrapper removed, so `<p>H<sub>2</sub>O</p>` becomes `H_2O`. */
  lemma CleanFieldWrapped()
    ensures CleanField("<p>H<sub>2</sub>O</p>") == "H_2O"
  {
    CleanTextWrappedSub();
    WrappedFieldStripped();
  }

  lemma WrappedFieldStripped()
    ensures StripTags("<p>H_2O</p>") == "H_2O"
  {
    WrappedFieldText();
    StripWrapper("p", "H_2O");
  }

  /** An element of a non-empty set. */
  lemma Pick(keys: set<int>) returns (x: int)
    requires keys != {}
    ensures x in keys
  {
    if forall y :: y !in keys {
      assert false;
    }
    x :| x in keys;
  }

  lemma MinExists(keys: set<int>)
    requires keys != {}
    ensures exists m :: m in keys && forall k :: k in keys ==> m <= k
  {
    var m := MinOf(keys);
  }

  /** Induction on the size of the set: the smaller of one element and the
      least of the others. */
  lemma {:induction false} MinOf(keys: set<int>) returns (m: int)
    requires keys != {}
    ensures m in keys && forall k :: k in keys ==> m <= k
    decreases |keys|
  {
    var x := Pick(keys);
    if keys == {x} {
      m := x;
    } else {
      var rest := keys - {x};
      assert |rest| == |keys| - 1;
      var r := MinOf(rest);
      m := if x < r then x else r;
      forall k | k in keys ensures m <= k {
        if k != x {
          assert k in rest;
        }
      }
    }
  }

  /** `sorted(keys)`: every id once, in strictly ascending order. */
  function SortedIds(keys: set<int>): (r: seq<int>)
    ensures |r| == |keys| && StrictlyIncreasing(r)
    ensures forall k :: k in keys <==> k in r
    decreases |keys|
  {
    if keys == {} then []
    else
      var m := Min(keys);
      var rest := SortedIds(keys - {m});
      [m] + rest
  }

  /** `save_questions`: the stored records, one line each, in ascending id
      order (the JSON encoding of each line is not modelled). */
  method SaveQuestions(questions: map<int, Question>) returns (lines: seq<Question>)
    ensures |lines| == |questions|
    ensures forall i :: 0 <= i < |lines| ==> lines[i] == questions[SortedIds(questions.Keys)[i]]
  {
    var sortedIds := SortedIds(questions.Keys);
    lines := [];
    for i := 0 to |sortedIds|
      invariant |lines| == i
      invariant forall j :: 0 <= j < i ==> lines[j] == questions[sortedIds[j]]
    {
      lines := lines + [questions[sortedIds[i]]];
    }
  }

  /** Saving a dictionary whose entries carry their own key as id writes
      one line per key, in strictly ascending id order. */
  lemma SavedLines(m: map<int, Question>, lines: seq<Question>)
    requires forall k :: k in m ==> m[k].id == k
    requires |lines| == |m|
    requires forall i :: 0 <= i < |lines| ==> lines[i] == m[SortedIds(m.Keys)[i]]
    ensures forall i, j :: 0 <= i < j < |lines| ==> lines[i].id < lines[j].id
    ensures forall k :: k in m <==> exists i :: 0 <= i < |lines| && lines[i].id == k
  {
    var ids := SortedIds(m.Keys);
    assert forall i :: 0 <= i < |lines| ==> lines[i].id == ids[i];
    forall k | k in m ensures exists i :: 0 <= i < |lines| && lines[i].id == k {
      var i :| 0 <= i < |ids| && ids[i] == k;
      assert lines[i].id == k;
    }
  }

  /** Saving the output of `process_questions` writes one line per stored
      id, in strictly ascending id order. */
  lemma SavedInIdOrder(qs: seq<RawQuestion>, lines: seq<Question>)
    requires |lines| == |Collect(qs)|
    requires forall i :: 0 <= i < |lines| ==> lines[i] == Collect(qs)[SortedIds(Collect(qs).Keys)[i]]
    ensures forall i, j :: 0 <= i < j < |lines| ==> lines[i].id < lines[j].id
    ensures forall k :: k in Collect(qs) <==> exists i :: 0 <= i < |lines| && lines[i].id == k
  {
    CollectIds(qs);
    SavedLines(Collect(qs), lines);
  }
}
