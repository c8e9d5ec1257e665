/**
 * Prompt construction for the evaluation task
 * (tasks/medschool-test/utils.py): the `QUERY_PREFIX` / `ANSWER_PREFIX`
 * tables, `_process_doc`, `process_docs` with its optional topic filter,
 * and the fixed-argument `process_docs_it_*` entry points.
 *
 * A dataset is a sequence of the records that the collection script
 * stores (`Questions.Question`); its `correct` field is the stored `label`.
 */
module Prompts {
  import opened Wrappers
  import opened Text
  import opened Questions

  /** The two table languages. A language outside the tables is a lookup
      error in the script; here it cannot be written. */
  datatype Language = En | It

  /** The two table templates. */
  datatype Template = Cloze | MultipleChoice

  /** One prompt: the document id, the query text, the choices scored
      against the model, and the gold index. */
  datatype Prompt = Prompt(id: int, query: string, choices: seq<string>, gold: Option<nat>)

  /** The `ValueError` raised for a template name outside the tables. */
  datatype PromptError = InvalidTemplate(template: string)

  // ---------------------------------------------------------------------
  // The prefix tables
  // ---------------------------------------------------------------------

  /** The text before `{input}` in `QUERY_PREFIX`, the same for both templates. */
  function QuestionLead(language: Language): (r: string)
    ensures r != [] && '\n' !in r
  {
    match language
    case En => "Question: "
    case It => "Domanda: "
  }

  /** `QUERY_PREFIX[template][language].format(input=input, choices=choices)`:
      the cloze entry has no `{choices}` slot. */
  function FormatQuery(template: Template, language: Language, input: string, choices: string): string {
    match template
    case Cloze => QuestionLead(language) + input
    case MultipleChoice => QuestionLead(language) + input + "\n" + choices
  }

  /** `ANSWER_PREFIX[template][language]`. */
  function AnswerPrefix(template: Template, language: Language): (r: string)
    ensures r != [] && '\n' !in r
  {
    match language
    case En => "Answer: "
    case It => "Risposta: "
  }

  /** The six option letters of the multiple-choice template. */
  function Labels(): (r: seq<string>)
    ensures |r| == 6 && forall i :: 0 <= i < 6 ==> |r[i]| == 1
  {
    ["A", "B", "C", "D", "E", "F"]
  }

  /** No letter is a newline. */
  lemma LabelsShape()
    ensures forall i :: 0 <= i < 6 ==> '\n' !in Labels()[i]
  {
  }

  // ---------------------------------------------------------------------
  // Lines
  // ---------------------------------------------------------------------

  /** `"\n".join(lines)`. */
  function Join(lines: seq<string>): string {
    if lines == [] then []
    else if |lines| == 1 then lines[0]
    else lines[0] + "\n" + Join(lines[1..])
  }

  /** `s.split("\n")`: the pieces between newlines, always at least one. */
  function Split(s: string): (r: seq<string>)
    ensures |r| >= 1
  {
    if s == [] then [[]]
    else
      var rest := Split(s[1..]);
      if s[0] == '\n' then [[]] + rest
      else [[s[0]] + rest[0]] + rest[1..]
  }

  /** A text without newline is one line. */
  lemma {:induction false} SplitPlain(x: string)
    requires '\n' !in x
    ensures Split(x) == [x]
  {
    if x != [] {
      SplitPlain(x[1..]);
      assert [x[0]] + x[1..] == x;
    }
  }

  /** A newline-free text followed by a newline is the first line. */
  lemma {:induction false} SplitAfter(x: string, t: string)
    requires '\n' !in x
    ensures Split(x + "\n" + t) == [x] + Split(t)
  {
    if x == [] {
      assert x + "\n" + t == ['\n'] + t;
    } else {
      assert (x + "\n" + t)[0] == x[0];
      assert (x + "\n" + t)[1..] == x[1..] + "\n" + t;
      SplitAfter(x[1..], t);
      assert [x[0]] + x[1..] == x;
    }
  }

  /** Splitting undoes joining: newline-free lines joined and followed by
      more text come back one by one. */
  lemma {:induction false} SplitJoin(lines: seq<string>, t: string)
    requires lines != [] && forall i :: 0 <= i < |lines| ==> '\n' !in lines[i]
    ensures Split(Join(lines) + "\n" + t) == lines + Split(t)
    decreases |lines|
  {
    if |lines| == 1 {
      SplitAfter(lines[0], t);
    } else {
      SplitJoin(lines[1..], t);
      SplitJoinStep(lines, t);
    }
  }

  lemma SplitJoinStep(lines: seq<string>, t: string)
    requires |lines| > 1 && '\n' !in lines[0]
    requires Split(Join(lines[1..]) + "\n" + t) == lines[1..] + Split(t)
    ensures Split(Join(lines) + "\n" + t) == lines + Split(t)
  {
    var rest := Join(lines[1..]) + "\n" + t;
    JoinFirst(lines, t);
    SplitAfter(lines[0], rest);
    assert lines == [lines[0]] + lines[1..];
  }

  lemma JoinFirst(lines: seq<string>, t: string)
    requires |lines| > 1
    ensures Join(lines) + "\n" + t == lines[0] + "\n" + (Join(lines[1..]) + "\n" + t)
  {
  }

  /** Stripping never brings a character in. */
  lemma StripKeepsAbsent(s: string, c: char)
    requires c !in s
    ensures c !in Strip(s)
  {
    var lo := StripInfix(s);
  }

  // ---------------------------------------------------------------------
  // _process_doc
  // ---------------------------------------------------------------------

  /** `[choice.strip() for choice in doc["answers"] + [prefer_not_to_answer]]`. */
  function Candidates(answers: seq<string>, abstention: string): (r: seq<string>)
    ensures |r| == |answers| + 1
    ensures forall i :: 0 <= i < |answers| ==> r[i] == Strip(answers[i])
    ensures r[|answers|] == Strip(abstention)
    ensures forall i :: 0 <= i < |r| ==> NoSurroundingSpace(r[i])
  {
    var choices := answers + [abstention];
    seq(|choices|, i requires 0 <= i < |choices| => Strip(choices[i]))
  }

  /** `[f"{label}. {choice}" for choice, label in zip(choices, labels)]`:
      `zip` stops at the shorter list, so at most six lines. */
  function Lettered(choices: seq<string>): (r: seq<string>)
    ensures |r| == (if |choices| < 6 then |choices| else 6)
    ensures forall i :: 0 <= i < |r| ==> r[i] == Labels()[i] + ". " + choices[i]
  {
    var n := if |choices| < 6 then |choices| else 6;
    seq(n, i requires 0 <= i < n => Labels()[i] + ". " + choices[i])
  }

  /** The whole query: the formatted `QUERY_PREFIX` entry, a newline, and
      the `ANSWER_PREFIX` entry. */
  function Query(template: Template, language: Language, input: string, choices: string): string {
    FormatQuery(template, language, input, choices) + "\n" + AnswerPrefix(template, language)
  }

  /** The cloze branch of `_process_doc`: the stripped answers and
      abstention are the choices. */
  function ClozeDoc(doc: Question, language: Language, abstention: string): (p: Prompt)
    ensures p.id == doc.id && p.gold == doc.correct
  {
    Prompt(doc.id, Query(Cloze, language, Strip(doc.text), []), Candidates(doc.answers, abstention), doc.correct)
  }

  /** The multiple-choice branch of `_process_doc`: the choices are listed
      in the query and the six letters are what the model is scored on. */
  function MultipleChoiceDoc(doc: Question, language: Language, abstention: string): (p: Prompt)
    ensures p.id == doc.id && p.gold == doc.correct
  {
    var lines := Lettered(Candidates(doc.answers, abstention));
    Prompt(doc.id, Query(MultipleChoice, language, Strip(doc.text), Join(lines)), Labels(), doc.correct)
  }

  /** `_process_doc`: the prompt for one document, or the `ValueError` for
      an unknown template. */
  function ProcessDoc(doc: Question, language: Language, template: string, abstention: string)
    : (r: Result<Prompt, PromptError>)
    ensures r.Success? <==> template == "cloze" || template == "multiple_choice"
    ensures r.Failure? ==> r.error == InvalidTemplate(template)
    ensures r.Success? ==> r.value.id == doc.id && r.value.gold == doc.correct
  {
    if template == "multiple_choice" then Success(MultipleChoiceDoc(doc, language, abstention))
    else if template == "cloze" then Success(ClozeDoc(doc, language, abstention))
    else Failure(InvalidTemplate(template))
  }

  /** The choices a prompt is scored on: the six letters for the
      multiple-choice template, the stripped answers and abstention for the
      cloze template. */
  lemma ProcessDocChoices(doc: Question, language: Language, template: string, abstention: string)
    ensures template == "multiple_choice" ==>
      ProcessDoc(doc, language, template, abstention).Success? &&
      ProcessDoc(doc, language, template, abstention).value.choices == Labels()
    ensures template == "cloze" ==>
      ProcessDoc(doc, language, template, abstention).Success? &&
      ProcessDoc(doc, language, template, abstention).value.choices == Candidates(doc.answers, abstention)
  {
  }

  /** The cloze query is exactly the question line and the answer line. */
  lemma ClozeQueryText(input: string)
    ensures Query(Cloze, It, input, []) == "Domanda: " + input + "\nRisposta: "
    ensures Query(Cloze, En, input, []) == "Question: " + input + "\nAnswer: "
  {
  }

  /** The multiple-choice query, read line by line: the question, then one
      lettered line per choice up to six, then the answer prefix. */
  lemma MultipleChoiceQueryLines(language: Language, input: string, choices: seq<string>)
    requires '\n' !in input
    requires forall i :: 0 <= i < |choices| ==> '\n' !in choices[i]
    requires choices != []
    ensures Split(Query(MultipleChoice, language, input, Join(Lettered(choices))))
         == [QuestionLead(language) + input] + Lettered(choices) + [AnswerPrefix(MultipleChoice, language)]
  {
    var lines := Lettered(choices);
    var answer := AnswerPrefix(MultipleChoice, language);
    LetteredNoNewline(choices);
    var lead := QuestionLead(language) + input;
    assert '\n' !in lead;
    assert '\n' !in answer;
    QueryShape(language, input, lines);
    SplitAfter(lead, Join(lines) + "\n" + answer);
    SplitJoin(lines, answer);
    SplitPlain(answer);
  }

  /** Lettered lines of newline-free choices hold no newline. */
  lemma LetteredNoNewline(choices: seq<string>)
    requires forall i :: 0 <= i < |choices| ==> '\n' !in choices[i]
    ensures forall i :: 0 <= i < |Lettered(choices)| ==> '\n' !in Lettered(choices)[i]
  {
    var lines := Lettered(choices);
    LabelsShape();
    forall i | 0 <= i < |lines| ensures '\n' !in lines[i] {
      assert lines[i] == Labels()[i] + ". " + choices[i];
    }
  }

  lemma QueryShape(language: Language, input: string, lines: seq<string>)
    ensures Query(MultipleChoice, language, input, Join(lines))
         == (QuestionLead(language) + input) + "\n" + (Join(lines) + "\n" + AnswerPrefix(MultipleChoice, language))
  {
  }

  /** For a document whose text, answers and abstention have no newline,
      the multiple-choice query has one line per stripped choice, up to six. */
  lemma MultipleChoiceLines(doc: Question, language: Language, abstention: string)
    requires '\n' !in doc.text && '\n' !in abstention
    requires forall i :: 0 <= i < |doc.answers| ==> '\n' !in doc.answers[i]
    ensures Split(MultipleChoiceDoc(doc, language, abstention).query)
         == [QuestionLead(language) + Strip(doc.text)]
            + Lettered(Candidates(doc.answers, abstention))
            + [AnswerPrefix(MultipleChoice, language)]
  {
    var choices := Candidates(doc.answers, abstention);
    StripKeepsAbsent(doc.text, '\n');
    CandidatesNoNewline(doc.answers, abstention);
    assert MultipleChoiceDoc(doc, language, abstention).query
        == Query(MultipleChoice, language, Strip(doc.text), Join(Lettered(choices)));
    MultipleChoiceQueryLines(language, Strip(doc.text), choices);
  }

  /** Stripped choices of newline-free answers hold no newline. */
  lemma CandidatesNoNewline(answers: seq<string>, abstention: string)
    requires '\n' !in abstention
    requires forall i :: 0 <= i < |answers| ==> '\n' !in answers[i]
    ensures forall i :: 0 <= i < |answers| + 1 ==> '\n' !in Candidates(answers, abstention)[i]
  {
    var choices := Candidates(answers, abstention);
    forall i | 0 <= i < |choices| ensures '\n' !in choices[i] {
      if i < |answers| {
        StripKeepsAbsent(answers[i], '\n');
      } else {
        StripKeepsAbsent(abstention, '\n');
      }
    }
  }

  /** In the multiple-choice template every choice is one letter long. */
  lemma MultipleChoiceChoicesShort(doc: Question, language: Language, abstention: string)
    ensures forall c :: c in MultipleChoiceDoc(doc, language, abstention).choices ==> |c| == 1
  {
    LabelsShape();
  }

  /** With five answers the abstention is at index 5, the index the scoring
      treats as abstaining: in the cloze template it is the sixth choice, in
      the multiple-choice template the line lettered F. */
  lemma AbstentionAtFive(doc: Question, language: Language, abstention: string)
    requires |doc.answers| == 5
    ensures ClozeDoc(doc, language, abstention).choices[5] == Strip(abstention)
    ensures Lettered(Candidates(doc.answers, abstention))[5] == "F. " + Strip(abstention)
  {
    var choices := Candidates(doc.answers, abstention);
    assert choices[5] == Strip(abstention);
    assert ClozeDoc(doc, language, abstention).choices == choices;
    SixthLetter(choices);
  }

  lemma SixthLetter(choices: seq<string>)
    requires |choices| >= 6
    ensures Lettered(choices)[5] == "F. " + choices[5]
  {
    assert Labels()[5] == "F";
  }

  /** With six or more answers the multiple-choice query lists only the
      first six answers: the abstention is not offered. */
  lemma AbstentionDropped(doc: Question, abstention: string)
    requires |doc.answers| >= 6
    ensures |Lettered(Candidates(doc.answers, abstention))| == 6
    ensures forall i :: 0 <= i < 6 ==>
      Lettered(Candidates(doc.answers, abstention))[i] == Labels()[i] + ". " + Strip(doc.answers[i])
  {
  }

  // ---------------------------------------------------------------------
  // process_docs
  // ---------------------------------------------------------------------

  /** `dataset.filter(lambda x: x["topic"] == topic)` when a topic is given. */
  function Selected(dataset: seq<Question>, topic: Option<string>): (r: seq<Question>)
    ensures topic.None? ==> r == dataset
    ensures forall d :: d in r <==> d in dataset && (topic.None? || d.topic == topic.value)
    ensures |r| <= |dataset|
  {
    if dataset == [] then []
    else
      var rest := Selected(dataset[1..], topic);
      if topic.None? || dataset[0].topic == topic.value then [dataset[0]] + rest else rest
  }

  /** The filter keeps the order: it distributes over concatenation. */
  lemma {:induction false} SelectedAppend(a: seq<Question>, b: seq<Question>, topic: Option<string>)
    ensures Selected(a + b, topic) == Selected(a, topic) + Selected(b, topic)
    decreases |a|
  {
    if a != [] {
      assert (a + b)[0] == a[0];
      assert (a + b)[1..] == a[1..] + b;
      SelectedAppend(a[1..], b, topic);
    } else {
      assert a + b == b;
    }
  }

  /** `dataset.map(f)`: `f` on each element in order; the first failure
      is raised and ends the map. */
  function MapAll<A, B, E>(f: A -> Result<B, E>, xs: seq<A>): (r: Result<seq<B>, E>)
    ensures r.Success? ==> |r.value| == |xs|
  {
    if xs == [] then Success([])
    else
      var first := f(xs[0]);
      if first.Failure? then Failure(first.error)
      else
        var rest := MapAll(f, xs[1..]);
        if rest.Failure? then rest
        else Success([first.value] + rest.value)
  }

  /** The map succeeds exactly when `f` succeeds on every element. */
  lemma {:induction false} MapAllSuccess<A, B, E>(f: A -> Result<B, E>, xs: seq<A>)
    ensures MapAll(f, xs).Success? <==> forall i :: 0 <= i < |xs| ==> f(xs[i]).Success?
    decreases |xs|
  {
    if xs != [] {
      MapAllSuccess(f, xs[1..]);
      if f(xs[0]).Success? && MapAll(f, xs[1..]).Success? {
        forall i | 0 <= i < |xs| ensures f(xs[i]).Success? {
          if i > 0 {
            assert xs[i] == xs[1..][i - 1];
          }
        }
      }
      if forall i :: 0 <= i < |xs| ==> f(xs[i]).Success? {
        assert f(xs[0]).Success?;
        forall i | 0 <= i < |xs[1..]| ensures f(xs[1..][i]).Success? {
          assert xs[1..][i] == xs[i + 1];
        }
      }
    }
  }

  /** A failed map raises the error of some element. */
  lemma {:induction false} MapAllError<A, B, E>(f: A -> Result<B, E>, xs: seq<A>)
    requires MapAll(f, xs).Failure?
    ensures exists i :: 0 <= i < |xs| && f(xs[i]) == Failure(MapAll(f, xs).error)
    decreases |xs|
  {
    if f(xs[0]).Failure? {
      assert f(xs[0]) == Failure(MapAll(f, xs).error);
    } else {
      MapAllError(f, xs[1..]);
      var i :| 0 <= i < |xs[1..]| && f(xs[1..][i]) == Failure(MapAll(f, xs[1..]).error);
      assert xs[1..][i] == xs[i + 1];
    }
  }

  /** Each element of a successful map is `f` of the element at the same
      position. */
  lemma {:induction false} MapAllAt<A, B, E>(f: A -> Result<B, E>, xs: seq<A>, i: nat)
    requires MapAll(f, xs).Success? && i < |xs|
    ensures f(xs[i]).Success? && MapAll(f, xs).value[i] == f(xs[i]).value
    decreases i
  {
    if i > 0 {
      MapAllAt(f, xs[1..], i - 1);
      assert xs[1..][i - 1] == xs[i];
    }
  }

  /** `dataset.map(_process_doc)`: the first failing document raises; an
      empty dataset never calls `_process_doc`. */
  function MapDocs(docs: seq<Question>, language: Language, template: string, abstention: string)
    : (r: Result<seq<Prompt>, PromptError>)
    ensures r.Success? <==> docs == [] || template == "cloze" || template == "multiple_choice"
    ensures r.Failure? ==> r.error == InvalidTemplate(template)
    ensures r.Success? ==> |r.value| == |docs|
  {
    var f := doc => ProcessDoc(doc, language, template, abstention);
    MapAllSuccess(f, docs);
    if MapAll(f, docs).Failure? then
      MapAllError(f, docs);
      assert docs != [] && f(docs[0]).Failure?;
      MapAll(f, docs)
    else
      MapAll(f, docs)
  }

  /** Each prompt of a successful map is the prompt of the document at the
      same position. */
  lemma MapDocsEach(docs: seq<Question>, language: Language, template: string, abstention: string)
    requires MapDocs(docs, language, template, abstention).Success?
    ensures forall i :: 0 <= i < |docs| ==>
      MapDocs(docs, language, template, abstention).value[i] == ProcessDoc(docs[i], language, template, abstention).value
  {
    var f := doc => ProcessDoc(doc, language, template, abstention);
    forall i | 0 <= i < |docs|
      ensures MapDocs(docs, language, template, abstention).value[i]
           == ProcessDoc(docs[i], language, template, abstention).value
    {
      MapAllAt(f, docs, i);
    }
  }

  /** `process_docs`: filter by topic, then build one prompt per document. */
  function ProcessDocs(dataset: seq<Question>, language: Language, template: string, abstention: string,
                       topic: Option<string>): (r: Result<seq<Prompt>, PromptError>)
    ensures r.Success? <==> Selected(dataset, topic) == [] || template == "cloze" || template == "multiple_choice"
    ensures r.Failure? ==> r.error == InvalidTemplate(template)
    ensures r.Success? ==> |r.value| == |Selected(dataset, topic)|
    ensures r.Success? && topic.None? ==> |r.value| == |dataset|
  {
    MapDocs(Selected(dataset, topic), language, template, abstention)
  }

  // ---------------------------------------------------------------------
  // process_docs_it_*
  // ---------------------------------------------------------------------

  const Abstention: string := "Preferisco non rispondere"
  const Biology: string := "biologia"
  const Chemistry: string := "chimica"
  const Mathematics: string := "fisica-matematica"
  const Knowledge: string := "competenze-conoscenze"
  const Logic: string := "logica"

  /** The Italian cloze prompts for `docs`: one per document, in order. */
  predicate ClozePrompts(docs: seq<Question>, prompts: seq<Prompt>) {
    |prompts| == |docs| && forall i :: 0 <= i < |docs| ==> ClozePrompt(docs[i], prompts[i])
  }

  /** The Italian cloze prompt of one document. */
  predicate ClozePrompt(doc: Question, p: Prompt) {
    p.id == doc.id && p.gold == doc.correct &&
    p.query == "Domanda: " + Strip(doc.text) + "\nRisposta: " &&
    p.choices == Candidates(doc.answers, Abstention)
  }

  /** The Italian multiple-choice prompts for `docs`: one per document, in order. */
  predicate MultipleChoicePrompts(docs: seq<Question>, prompts: seq<Prompt>) {
    |prompts| == |docs| && forall i :: 0 <= i < |docs| ==> MultipleChoicePrompt(docs[i], prompts[i])
  }

  /** The Italian multiple-choice prompt of one document. */
  predicate MultipleChoicePrompt(doc: Question, p: Prompt) {
    p.id == doc.id && p.gold == doc.correct &&
    p.query == "Domanda: " + Strip(doc.text) + "\n"
      + Join(Lettered(Candidates(doc.answers, Abstention))) + "\nRisposta: " &&
    p.choices == Labels()
  }

  lemma ClozeDocIt(doc: Question)
    ensures ClozePrompt(doc, ClozeDoc(doc, It, Abstention))
  {
    ClozeQueryText(Strip(doc.text));
  }

  lemma MultipleChoiceDocIt(doc: Question)
    ensures MultipleChoicePrompt(doc, MultipleChoiceDoc(doc, It, Abstention))
  {
    ItalianMultipleChoiceQuery(Strip(doc.text), Join(Lettered(Candidates(doc.answers, Abstention))));
  }

  lemma ItalianMultipleChoiceQuery(input: string, list: string)
    ensures Query(MultipleChoice, It, input, list) == "Domanda: " + input + "\n" + list + "\nRisposta: "
  {
  }

  /** `process_docs(dataset, "it", "cloze", "Preferisco non rispondere", topic)`. */
  lemma ItCloze(dataset: seq<Question>, topic: Option<string>)
    ensures ProcessDocs(dataset, It, "cloze", Abstention, topic).Success?
    ensures ClozePrompts(Selected(dataset, topic), ProcessDocs(dataset, It, "cloze", Abstention, topic).value)
  {
    var docs := Selected(dataset, topic);
    var prompts := MapDocs(docs, It, "cloze", Abstention).value;
    MapDocsEach(docs, It, "cloze", Abstention);
    forall i | 0 <= i < |docs| ensures ClozePrompt(docs[i], prompts[i]) {
      ClozeDocIt(docs[i]);
    }
  }

  /** `process_docs(dataset, "it", "multiple_choice", "Preferisco non rispondere", topic)`. */
  lemma ItMultipleChoice(dataset: seq<Question>, topic: Option<string>)
    ensures ProcessDocs(dataset, It, "multiple_choice", Abstention, topic).Success?
    ensures MultipleChoicePrompts(Selected(dataset, topic),
                                  ProcessDocs(dataset, It, "multiple_choice", Abstention, topic).value)
  {
    var docs := Selected(dataset, topic);
    var prompts := MapDocs(docs, It, "multiple_choice", Abstention).value;
    MapDocsEach(docs, It, "multiple_choice", Abstention);
    forall i | 0 <= i < |docs| ensures MultipleChoicePrompt(docs[i], prompts[i]) {
      MultipleChoiceDocIt(docs[i]);
    }
  }

  function ProcessDocsItCloze(dataset: seq<Question>): (r: Result<seq<Prompt>, PromptError>)
    ensures r.Success? && ClozePrompts(dataset, r.value)
  {
    ItCloze(dataset, None);
    ProcessDocs(dataset, It, "cloze", Abstention, None)
  }

  function ProcessDocsItClozeBio(dataset: seq<Question>): (r: Result<seq<Prompt>, PromptError>)
    ensures r.Success? && ClozePrompts(Selected(dataset, Some(Biology)), r.value)
  {
    ItCloze(dataset, Some(Biology));
    ProcessDocs(dataset, It, "cloze", Abstention, Some(Biology))
  }

  function ProcessDocsItClozeChem(dataset: seq<Question>): (r: Result<seq<Prompt>, PromptError>)
    ensures r.Success? && ClozePrompts(Selected(dataset, Some(Chemistry)), r.value)
  {
    ItCloze(dataset, Some(Chemistry));
    ProcessDocs(dataset, It, "cloze", Abstention, Some(Chemistry))
  }

  function ProcessDocsItClozeMath(dataset: seq<Question>): (r: Result<seq<Prompt>, PromptError>)
    ensures r.Success? && ClozePrompts(Selected(dataset, Some(Mathematics)), r.value)
  {
    ItCloze(dataset, Some(Mathematics));
    ProcessDocs(dataset, It, "cloze", Abstention, Some(Mathematics))
  }

  function ProcessDocsItClozeKnow(dataset: seq<Question>): (r: Result<seq<Prompt>, PromptError>)
    ensures r.Success? && ClozePrompts(Selected(dataset, Some(Knowledge)), r.value)
  {
    ItCloze(dataset, Some(Knowledge));
    ProcessDocs(dataset, It, "cloze", Abstention, Some(Knowledge))
  }

  function ProcessDocsItClozeLog(dataset: seq<Question>): (r: Result<seq<Prompt>, PromptError>)
    ensures r.Success? && ClozePrompts(Selected(dataset, Some(Logic)), r.value)
  {
    ItCloze(dataset, Some(Logic));
    ProcessDocs(dataset, It, "cloze", Abstention, Some(Logic))
  }

  function ProcessDocsItMc(dataset: seq<Question>): (r: Result<seq<Prompt>, PromptError>)
    ensures r.Success? && MultipleChoicePrompts(dataset, r.value)
  {
    ItMultipleChoice(dataset, None);
    ProcessDocs(dataset, It, "multiple_choice", Abstention, None)
  }

  function ProcessDocsItMcBio(dataset: seq<Question>): (r: Result<seq<Prompt>, PromptError>)
    ensures r.Success? && MultipleChoicePrompts(Selected(dataset, Some(Biology)), r.value)
  {
    ItMultipleChoice(dataset, Some(Biology));
    ProcessDocs(dataset, It, "multiple_choice", Abstention, Some(Biology))
  }

  function ProcessDocsItMcChem(dataset: seq<Question>): (r: Result<seq<Prompt>, PromptError>)
    ensures r.Success? && MultipleChoicePrompts(Selected(dataset, Some(Chemistry)), r.value)
  {
    ItMultipleChoice(dataset, Some(Chemistry));
    ProcessDocs(dataset, It, "multiple_choice", Abstention, Some(Chemistry))
  }

  function ProcessDocsItMcMath(dataset: seq<Question>): (r: Result<seq<Prompt>, PromptError>)
    ensures r.Success? && MultipleChoicePrompts(Selected(dataset, Some(Mathematics)), r.value)
  {
    ItMultipleChoice(dataset, Some(Mathematics));
    ProcessDocs(dataset, It, "multiple_choice", Abstention, Some(Mathematics))
  }

  function ProcessDocsItMcKnow(dataset: seq<Question>): (r: Result<seq<Prompt>, PromptError>)
    ensures r.Success? && MultipleChoicePrompts(Selected(dataset, Some(Knowledge)), r.value)
  {
    ItMultipleChoice(dataset, Some(Knowledge));
    ProcessDocs(dataset, It, "multiple_choice", Abstention, Some(Knowledge))
  }

  function ProcessDocsItMcLog(dataset: seq<Question>): (r: Result<seq<Prompt>, PromptError>)
    ensures r.Success? && MultipleChoicePrompts(Selected(dataset, Some(Logic)), r.value)
  {
    ItMultipleChoice(dataset, Some(Logic));
    ProcessDocs(dataset, It, "multiple_choice", Abstention, Some(Logic))
  }
}
