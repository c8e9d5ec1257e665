# test-medicina: question cleaning, prompts and scoring in Dafny

This project models the two pieces of the test-medicina repository that turn
quiz-API records into an evaluation benchmark.

- **The collection script** (`src/data/collection/collect_questions.py`).
  - `clean_text` strips the text. It rewrites `<sup>X</sup>` to `^X` and
    `<sub>X</sub>` to `_X`. It decodes `&nbsp;`, `<br>` and a fixed table of
    named HTML entities, in a fixed order. It replaces every match of
    ` *\n+ *` with one newline, then strips again.
  - `process_questions` skips a record whose text is empty, whose answer list
    is empty, or whose text contains `<img`. It cleans the text and each
    answer, then removes every `<...>` tag. The label is the index of the
    first answer whose id is `a`. The record is stored under its id, so a
    later record with the same id replaces an earlier one.
  - `save_questions` writes the stored records in ascending id order.
- **The evaluation task** (`tasks/medschool-test/utils.py`).
  - The `QUERY_PREFIX` and `ANSWER_PREFIX` tables.
  - `_process_doc` builds a cloze or a multiple-choice prompt. The choices
    are the stripped answers followed by the "prefer not to answer" string.
    Any other template name raises a `ValueError`.
  - `process_docs` optionally filters by topic, then maps `_process_doc`
    over the dataset.
  - The twelve `process_docs_it_*` entry points.
  - `process_results` scores the first argmax of the probabilities, and also
    the first argmax after dividing each probability by its choice's length.
    The abstention index 5 scores 0.0, the gold index 1.5, anything else -0.4.

Each `re.sub` is written out as the left-to-right, non-overlapping scan that
Python performs for that one pattern (`Substitutions`). `clean_text` is the
composition of those scans (`Cleaning`). The dictionary built by
`process_questions` is a `map<int, Question>`. The loop that fills it is a
method proved against the function `Collect`, and so are the label search
and the sorted save loop. The evaluation task is pure and is modelled with
functions. `_process_doc` returns a `Result` whose failure is the
`ValueError`.

Files:
- `wrappers.dfy`: `Option` and `Result`.
- `text.dfy`: `str.strip()` and substring search.
- `substitutions.dfy`: the regular-expression scans.
- `clean_text.dfy`: `clean_text`.
- `questions.dfy`: `process_questions` and `save_questions`.
- `prompts.dfy`: prompt construction.
- `scoring.dfy`: `process_results`.

Behaviour of the code worth knowing:
- An image inside an answer does not cause a skip. The comment at
  `src/data/collection/collect_questions.py:338` and the log message at
  line 345 speak of skipping, but the inner loop's `continue` (line 346) only
  moves on to the next answer (`Questions.ImageInAnswerKept`).
- The blank-run collapse handles spaces only, not tabs: the pattern at
  `collect_questions.py:316` is ` *\n+ *`. Text such as `"\n \n"` holds two
  matches and becomes two newlines.
- A multiple-choice prompt always has the six letters A-F as its choices,
  whatever the number of answers (`tasks/medschool-test/utils.py:94`, 105).
  `zip` at line 96 stops at the shorter list, so the query lists at most six
  options (`Prompts.AbstentionDropped`).
- Index 5 always means "abstain", even when the abstention string is not at
  index 5 (`utils.py:46` and 53; `Scoring.GoldAtFiveNeverRewarded`).
- An invalid template raises nothing when the filtered dataset is empty,
  because the map at `utils.py:124` never calls `_process_doc`, whose
  `raise` is at line 112 (`Prompts.ProcessDocs`).
- `clean_text` is not idempotent: `&lt;` and `&gt;` are decoded before
  `&amp;` (`collect_questions.py:207-211`), so `&amp;lt;` becomes `&lt;` and
  only a second pass gives `<` (`Cleaning.CleanTextNotIdempotent`).
- Tags other than `<sup>`, `<sub>` and `<br>` survive `clean_text`; they are
  removed afterwards (`collect_questions.py:356-359`). A `<sub>` inside the
  quiz API's `<p>` wrapper is still rewritten (`Cleaning.CleanTextWrappedSub`,
  `Questions.CleanFieldWrapped`).

## Model

| member | source | states |
|---|---|---|
| Text.Strip | src/data/collection/collect_questions.py:192 | the result has no whitespace at either end and is no longer than the input |
| Text.StripInfix | src/data/collection/collect_questions.py:318 | the stripped text is a contiguous slice of the input, and everything outside that slice is whitespace |
| Text.StripNoOp | src/data/collection/collect_questions.py:318 | text with no whitespace at either end is returned unchanged |
| Substitutions.ReplaceAbsent | src/data/collection/collect_questions.py:201-313 | a literal substitution whose pattern does not occur leaves the text unchanged |
| Substitutions.CopiedPrefix | src/data/collection/collect_questions.py:201-313 | an output prefix free of replacement characters is a prefix of the input |
| Substitutions.ReplaceAll | src/data/collection/collect_questions.py:201-313 | the left-to-right, non-overlapping literal substitution; `ReplaceAt` and `ReplaceAbsent` fix its output (each occurrence replaced, the text between kept), and `CopiedPrefix`, `ReplaceRemovesAll` and `ReplaceAllNoLonger` state further consequences |
| Substitutions.ReplaceAt | src/data/collection/collect_questions.py:201-313 | an occurrence of the pattern after a prefix in which the pattern starts nowhere is replaced, the prefix is kept, and the scan continues with the text after the occurrence |
| Substitutions.ReplaceAllNoLonger | src/data/collection/collect_questions.py:201-313 | a substitution whose replacement is no longer than its pattern never lengthens the text |
| Substitutions.ReplaceRemovesAll | src/data/collection/collect_questions.py:201-313 | when the replacement shares no character with the pattern, no occurrence of the pattern survives |
| Substitutions.FindCloseMatches | src/data/collection/collect_questions.py:195-198 | where the lazy group `(.*?)` ends, the closing tag starts, and the group holds no newline |
| Substitutions.FindCloseShortest | src/data/collection/collect_questions.py:195-198 | the lazy group is found and is no longer than any newline-free group followed by the closing tag |
| Substitutions.FindClose | src/data/collection/collect_questions.py:195-198 | a closing tag that is found lies inside the text; which one is found is stated by `FindCloseMatches` and `FindCloseShortest` |
| Substitutions.Head | src/data/collection/collect_questions.py:195-198 | one step of the scan uses at least one character and no more than the text holds |
| Substitutions.RewriteTag | src/data/collection/collect_questions.py:195-198 | the tag rewrite; its output is stated piece by piece by `RewriteTagCopy`, `RewriteTagUnclosed`, `RewriteTagPrefix`, `RewriteTagCaptures` and `RewriteTagUntouched` |
| Substitutions.RewriteTagNoLonger | src/data/collection/collect_questions.py:195-198 | the tag rewrite never lengthens the text, since a group `open x close` becomes the shorter `mark x` |
| Substitutions.RewriteTagCopy | src/data/collection/collect_questions.py:195-198 | a character where the opening tag does not start is copied, and the scan moves on by one |
| Substitutions.RewriteTagUnclosed | src/data/collection/collect_questions.py:195-198 | an opening tag whose lazy group never closes (no closing tag follows, or a newline comes first) is copied one character at a time like other text |
| Substitutions.RewriteTagUntouched | src/data/collection/collect_questions.py:195-198 | text in which the opening tag does not occur is left alone |
| Substitutions.RewriteTagAbsent | src/data/collection/collect_questions.py:195-198 | text without the opening tag's first character is left alone |
| Substitutions.RewriteTagPrefix | src/data/collection/collect_questions.py:195-198 | a prefix at none of whose positions the opening tag starts is copied, and the rewrite continues after it |
| Substitutions.RewriteTagCaptures | src/data/collection/collect_questions.py:195-198 | `p open x close q` becomes `p mark x` followed by the rewrite of `q`, whenever the opening tag starts nowhere in `p` (other tags, such as `<p>`, may occur there) |
| Substitutions.Collapse | src/data/collection/collect_questions.py:316 | empty exactly when the input is; starts with a newline exactly when a ` *\n+ *` match starts the input; no space stands next to a newline in the result. The exact output is stated by `CollapseMatch` |
| Substitutions.CollapseKeepsOtherChars | src/data/collection/collect_questions.py:316 | apart from spaces and newlines, the collapse keeps every character, in order |
| Substitutions.CollapseNoNewline | src/data/collection/collect_questions.py:316 | single-line text passes the collapse unchanged |
| Substitutions.CollapseRun | src/data/collection/collect_questions.py:316 | one match of ` *\n+ *` at the start (spaces, at least one newline, spaces, up to a character that is not a space, nor a newline when no space follows the newlines) becomes exactly one newline, and the scan continues after the match |
| Substitutions.CollapsePrefix | src/data/collection/collect_questions.py:316 | a newline-free prefix that does not end in a space is copied, and the collapse continues after it |
| Substitutions.CollapseMatch | src/data/collection/collect_questions.py:316 | `p + s1 + n + s2 + q`, with the whole match `s1 + n + s2` between `p` and `q`, becomes `p + "\n"` followed by the collapse of `q` |
| Substitutions.StripTags | src/data/collection/collect_questions.py:356-359 | tag removal adds no character, and no `<` is followed later by a `>` |
| Substitutions.StripTagsNoTag | src/data/collection/collect_questions.py:356-359 | text without `<` is unchanged by tag removal |
| Substitutions.StripTagsDropsTag | src/data/collection/collect_questions.py:356-359 | a leading `<t>` is dropped with everything inside it |
| Substitutions.StripTagsPrefix | src/data/collection/collect_questions.py:356-359 | a prefix without `<` is kept, and tag removal continues after it |
| Substitutions.StripTagsUnclosed | src/data/collection/collect_questions.py:356-359 | a `<` with no later `>` is kept, and tag removal continues after it |
| Cleaning.PatternsDistinct | src/data/collection/collect_questions.py:201-313 | no two rules of the chain share a pattern |
| Cleaning.EntityShapes | src/data/collection/collect_questions.py:201-313 | every rule except `<br>` decodes a named entity `&name;`, and every pattern has at least four characters |
| Cleaning.Rule | src/data/collection/collect_questions.py:201-313 | rule `k` of the decoding chain, in the script's order; `EntityShapes` and `PatternsDistinct` state the shape of its patterns |
| Cleaning.Rewrites | src/data/collection/collect_questions.py:201-313 | the 39 rules of the chain, rule `k` at index `k` |
| Cleaning.ApplyRewrites | src/data/collection/collect_questions.py:201-313 | the rules run one after the other, each on the previous output; `ApplyRewritesNoLonger`, `DecodeUntouched` and `DecodeEachEntity` state what that gives |
| Cleaning.ApplyRewritesNoLonger | src/data/collection/collect_questions.py:201-313 | running the rules never lengthens the text, since each replaces a pattern of at least one character with one character |
| Cleaning.DecodeEntities | src/data/collection/collect_questions.py:201-313 | the decoding chain of `clean_text`; what it decodes is stated by `DecodeInText`, `DecodeEachEntity`, `DecodeUntouched`, `DecodeNothing` and `DecodeEscaped` |
| Cleaning.RewriteTags | src/data/collection/collect_questions.py:195-198 | the `<sup>` pass, then the `<sub>` pass; `SupTags`, `SubTags` and `RewriteTagsNoTag` state its output |
| Cleaning.Finish | src/data/collection/collect_questions.py:316-318 | after the collapse and the final strip, the text has no whitespace at its ends and no space next to a newline |
| Cleaning.CleanText | src/data/collection/collect_questions.py:191-318 | the cleaned text has no whitespace at its ends and no space next to a newline |
| Cleaning.DecodeEachEntity | src/data/collection/collect_questions.py:201-313 | each pattern of the chain, on its own, decodes to exactly its one character |
| Cleaning.DecodeNothing | src/data/collection/collect_questions.py:201-313 | text with neither `&` nor `<` passes the decoding chain unchanged |
| Cleaning.DecodeUntouched | src/data/collection/collect_questions.py:201-313 | text with no `&` and no `<br>` passes the decoding chain unchanged; other tags are allowed |
| Cleaning.DecodeInText | src/data/collection/collect_questions.py:201-313 | a pattern of the chain between two texts with no `&` and no `<br>` decodes to its character and the texts around it are kept, when that character is not `&` |
| Cleaning.DecodeWithin | src/data/collection/collect_questions.py:201-313 | rule `k` decodes one occurrence inside other text when no earlier pattern occurs, its own pattern starts nowhere else, and no later pattern occurs in the result |
| Cleaning.CleanTextPlain | src/data/collection/collect_questions.py:191-318 | text without markup, newlines or whitespace at its ends is a fixed point of `clean_text` |
| Cleaning.CleanTextEntity | src/data/collection/collect_questions.py:207-313 | each entity of the table is cleaned to exactly its character |
| Cleaning.CleanTextEntityInText | src/data/collection/collect_questions.py:191-318 | an entity inside single-line text without other markup is cleaned to its character and the text around it is kept |
| Cleaning.CleanTextDegrees | src/data/collection/collect_questions.py:211-223 | `5 &deg;C` is cleaned to `5 °C` |
| Cleaning.CleanTextNbsp | src/data/collection/collect_questions.py:201 | `&nbsp;` alone is cleaned to the empty text |
| Cleaning.CleanTextBreak | src/data/collection/collect_questions.py:204 | `<br>` alone is cleaned to the empty text |
| Cleaning.SupSkipsSub | src/data/collection/collect_questions.py:195 | the `<sup>` rewrite copies a `<sub>` group and continues after it |
| Cleaning.SupPassOnSup | src/data/collection/collect_questions.py:195 | the `<sup>` rewrite turns the one `<sup>` group of `p<sup>x</sup>q` into `^x` and keeps `p` and `q` |
| Cleaning.SupPassOnSub | src/data/collection/collect_questions.py:195 | the `<sup>` rewrite leaves `p<sub>x</sub>q` alone when `p` and `q` hold no `<sup>` |
| Cleaning.SupTags | src/data/collection/collect_questions.py:195-198 | `p<sup>x</sup>q` passes the tag stage as `p^xq` when `p` and `q` hold no `<sup>` or `<sub>` |
| Cleaning.SubTags | src/data/collection/collect_questions.py:195-198 | `p<sub>x</sub>q` passes the tag stage as `p_xq` under the same conditions, because the `<sup>` rewrite passes over the `<sub>` group |
| Cleaning.CleanTextSup | src/data/collection/collect_questions.py:191-318 | `p<sup>x</sup>q` is cleaned to `p^xq` when `p` and `q` hold no `&`, newline, `<sup>`, `<sub>` or `<br>` (other tags may occur), `x` holds no `<`, `&` or newline, and the outer ends are not whitespace |
| Cleaning.CleanTextSub | src/data/collection/collect_questions.py:191-318 | `p<sub>x</sub>q` is cleaned to `p_xq` under the same conditions |
| Cleaning.DecodeEscaped | src/data/collection/collect_questions.py:207-313 | `&amp;name;` decodes to `&name;` when that entity's rule runs before `&amp;`, and to its character when it runs after |
| Cleaning.CleanTextEscaped | src/data/collection/collect_questions.py:191-318 | the same two outcomes hold for the whole `clean_text` |
| Cleaning.CleanTextNotIdempotent | src/data/collection/collect_questions.py:207-211 | `&amp;lt;` and `&amp;gt;` clean to `&lt;`/`&gt;`, and cleaning again changes them to `<`/`>` |
| Cleaning.CleanTextEscapedLt | src/data/collection/collect_questions.py:207-211 | `&amp;lt;` is cleaned to `&lt;` |
| Cleaning.CleanTextEscapedDeg | src/data/collection/collect_questions.py:211-223 | `&amp;deg;` is cleaned to `°` |
| Cleaning.CleanTextSupExample | src/data/collection/collect_questions.py:195 | `a<sup>2</sup>` is cleaned to `a^2` |
| Cleaning.CleanTextSubExample | src/data/collection/collect_questions.py:198 | `x<sub>i</sub>` is cleaned to `x_i` |
| Cleaning.CleanTextWrappedSub | src/data/collection/collect_questions.py:191-198 | a subscript inside a `<p>` wrapper is rewritten: `<p>H<sub>2</sub>O</p>` is cleaned to `<p>H_2O</p>` |
| Cleaning.FinishTwoLines | src/data/collection/collect_questions.py:316-318 | two lines joined by one match of ` *\n+ *` end the last stage joined by exactly one newline |
| Cleaning.CleanTextBlankLines | src/data/collection/collect_questions.py:191-318 | `"line1 \n\n  line2"` is cleaned to `"line1\nline2"` |
| Questions.CleanField | src/data/collection/collect_questions.py:349-359 | a cleaned field holds no closed `<...>` tag |
| Questions.CleanAnswerTexts | src/data/collection/collect_questions.py:350-353 | one answer per input answer, in order, with its id kept and its text cleaned |
| Questions.StripAnswerTags | src/data/collection/collect_questions.py:357-360 | one answer per input answer, in order, with its id kept and its tags removed |
| Questions.AnswerTexts | src/data/collection/collect_questions.py:370 | the texts of the answers, in order |
| Questions.CleanAnswers | src/data/collection/collect_questions.py:349-370 | the stored answer list: one cleaned, tag-free text per answer, in order |
| Questions.StripWrapper | src/data/collection/collect_questions.py:356-359 | tag removal drops a `<t>...</t>` wrapper around text without `<` |
| Questions.CleanFieldWrapped | src/data/collection/collect_questions.py:349-359 | the field `<p>H<sub>2</sub>O</p>` is stored as `H_2O` |
| Questions.Rejected | src/data/collection/collect_questions.py:331-341 | the skip condition: empty text, no answers, or `<img` in the text. `CollectKeys` states that exactly the records not meeting it are stored |
| Questions.Process | src/data/collection/collect_questions.py:348-379 | the stored form of an accepted record, field by field as `ProcessShape` states: id and topic kept, text and answers cleaned and tag-free, label from the answer ids |
| Questions.Collect | src/data/collection/collect_questions.py:321-379 | the dictionary after the loop; `CollectKeys`, `CollectLastWins`, `CollectIds`, `CollectSize` and `CollectEntries` state its keys, its entries and its size, and `ProcessQuestions` proves the loop computes it |
| Questions.LabelOf | src/data/collection/collect_questions.py:362-367 | the label is the index of the first answer whose id is `a`, and it is absent exactly when no answer has that id |
| Questions.LabelOfIds | src/data/collection/collect_questions.py:362-367 | cleaning leaves the label unchanged, since it depends only on the answer ids |
| Questions.FindLabel | src/data/collection/collect_questions.py:363-367 | the search loop returns that label |
| Questions.CleanRecord | src/data/collection/collect_questions.py:348-379 | the list comprehensions on one record give exactly its stored form |
| Questions.ProcessQuestions | src/data/collection/collect_questions.py:321-387 | the loop builds the dictionary `Collect` of the records, with at most one entry per record |
| Questions.CollectSize | src/data/collection/collect_questions.py:373-382 | the dictionary has no more entries than there are records |
| Questions.CollectKeys | src/data/collection/collect_questions.py:331-379 | an id is stored exactly when some record with that id is not skipped |
| Questions.CollectLastWins | src/data/collection/collect_questions.py:373-379 | the entry for an id is the cleaned form of the last accepted record with that id |
| Questions.LastAcceptedStored | src/data/collection/collect_questions.py:373-379 | an accepted record with no later record of the same id is stored as its cleaned form |
| Questions.ImageInTextSkipped | src/data/collection/collect_questions.py:339-341 | a record with `<img` in its text is not stored under an id it does not share |
| Questions.ImageInAnswerKept | src/data/collection/collect_questions.py:343-346 | an image inside an answer does not keep an otherwise valid record out |
| Questions.CollectIds | src/data/collection/collect_questions.py:373-375 | every stored entry carries its key as its id |
| Questions.CollectEntries | src/data/collection/collect_questions.py:349-379 | every stored entry comes from an accepted record with that id. Its text and answers are tag-free, it has as many answers in the same order, and its label is that record's label |
| Questions.ProcessShape | src/data/collection/collect_questions.py:349-379 | the stored form of one record, field by field |
| Questions.SortedIds | src/data/collection/collect_questions.py:391 | `sorted(keys)` lists every id exactly once, in strictly ascending order |
| Questions.MinOf | src/data/collection/collect_questions.py:391 | every non-empty set of ids has a least element |
| Questions.SaveQuestions | src/data/collection/collect_questions.py:390-397 | the save loop emits one record per stored id, in sorted id order |
| Questions.SavedLines | src/data/collection/collect_questions.py:390-397 | for entries keyed by their own id, the written ids are strictly increasing and cover exactly the keys |
| Questions.SavedInIdOrder | src/data/collection/collect_questions.py:321-397 | saving the output of `process_questions` writes each stored id exactly once, in strictly ascending order |
| Prompts.Labels | tasks/medschool-test/utils.py:94 | six option labels, each one character long |
| Prompts.QuestionLead | tasks/medschool-test/utils.py:4-13 | the text before `{input}` is non-empty and newline-free in both languages |
| Prompts.AnswerPrefix | tasks/medschool-test/utils.py:15-24 | the answer prefix is non-empty and newline-free in both languages and both templates |
| Prompts.FormatQuery | tasks/medschool-test/utils.py:99-108 | the filled `QUERY_PREFIX` entry; its text is stated by `ClozeQueryText` and, line by line, by `MultipleChoiceQueryLines` |
| Prompts.Query | tasks/medschool-test/utils.py:99-109 | the query followed by a newline and the answer prefix, as `ClozeQueryText` and `MultipleChoiceQueryLines` state |
| Prompts.Join | tasks/medschool-test/utils.py:101 | `"\n".join`; `SplitJoin` states that splitting on newlines gives back newline-free lines |
| Prompts.ClozeDoc | tasks/medschool-test/utils.py:107-119 | copies the id and the gold label; its query and choices are stated by `ClozeQueryText` and `ProcessDocChoices` |
| Prompts.MultipleChoiceDoc | tasks/medschool-test/utils.py:93-119 | copies the id and the gold label; its query and choices are stated by `MultipleChoiceLines` and `ProcessDocChoices` |
| Prompts.SplitJoin | tasks/medschool-test/utils.py:101 | splitting on newlines undoes joining newline-free lines |
| Prompts.Candidates | tasks/medschool-test/utils.py:88-91 | the choices are the stripped answers followed by the stripped abstention string |
| Prompts.Lettered | tasks/medschool-test/utils.py:95-97 | `zip` with the six labels gives `L. choice` for at most six choices |
| Prompts.ProcessDoc | tasks/medschool-test/utils.py:86-119 | succeeds exactly for the templates `cloze` and `multiple_choice`. Otherwise it gives the invalid-template error. It copies the id and the gold label |
| Prompts.ProcessDocChoices | tasks/medschool-test/utils.py:88-105 | multiple-choice prompts are scored on the six letters; cloze prompts are scored on the stripped answers plus the abstention |
| Prompts.ClozeQueryText | tasks/medschool-test/utils.py:4-24 | the cloze query is the question line, a newline, and the answer prefix |
| Prompts.MultipleChoiceQueryLines | tasks/medschool-test/utils.py:93-104 | read line by line, the multiple-choice query is the question, one lettered line per choice, and the answer prefix |
| Prompts.MultipleChoiceLines | tasks/medschool-test/utils.py:88-105 | for newline-free text, answers and abstention, the query lines of a document are the question and its lettered choices |
| Prompts.MultipleChoiceChoicesShort | tasks/medschool-test/utils.py:105 | every multiple-choice choice is one character long |
| Prompts.AbstentionAtFive | tasks/medschool-test/utils.py:88-97 | with five answers, the abstention string is choice 5 and is listed as option `F` |
| Prompts.AbstentionDropped | tasks/medschool-test/utils.py:95-97 | with six or more answers, the query lists only the first six answers and the abstention string is not offered |
| Prompts.Selected | tasks/medschool-test/utils.py:121-122 | the topic filter keeps exactly the documents of that topic, or all of them when no topic is given |
| Prompts.SelectedAppend | tasks/medschool-test/utils.py:121-122 | the filter keeps document order |
| Prompts.MapAllSuccess | tasks/medschool-test/utils.py:124 | the map succeeds exactly when the function succeeds on every element |
| Prompts.MapAllError | tasks/medschool-test/utils.py:124 | a failed map raises the error of one of the elements |
| Prompts.MapAllAt | tasks/medschool-test/utils.py:124 | element `i` of a successful map is the function applied to element `i` |
| Prompts.MapAll | tasks/medschool-test/utils.py:124 | `dataset.map` with a function that may raise: a success has one result per element; `MapAllSuccess`, `MapAllError` and `MapAllAt` state the rest |
| Prompts.MapDocs | tasks/medschool-test/utils.py:111-124 | the map succeeds exactly when the dataset is empty or the template is valid; a failure is the invalid-template error |
| Prompts.MapDocsEach | tasks/medschool-test/utils.py:124 | each prompt of a successful map is the prompt of the document at the same index |
| Prompts.ProcessDocs | tasks/medschool-test/utils.py:66-124 | filter, then map. Succeeds exactly when the filtered dataset is empty or the template is valid, with one prompt per kept document |
| Prompts.ItCloze | tasks/medschool-test/utils.py:128-153 | the Italian cloze entry points succeed with one Italian cloze prompt per selected document, in order |
| Prompts.ItMultipleChoice | tasks/medschool-test/utils.py:157-196 | the Italian multiple-choice entry points succeed with one Italian multiple-choice prompt per selected document, in order |
| Prompts.ProcessDocsItCloze | tasks/medschool-test/utils.py:128-129 | one Italian cloze prompt per document, with no filter |
| Prompts.ProcessDocsItClozeBio | tasks/medschool-test/utils.py:132-133 | one Italian cloze prompt per `biologia` document |
| Prompts.ProcessDocsItClozeChem | tasks/medschool-test/utils.py:136-137 | one Italian cloze prompt per `chimica` document |
| Prompts.ProcessDocsItClozeMath | tasks/medschool-test/utils.py:140-143 | one Italian cloze prompt per `fisica-matematica` document |
| Prompts.ProcessDocsItClozeKnow | tasks/medschool-test/utils.py:146-149 | one Italian cloze prompt per `competenze-conoscenze` document |
| Prompts.ProcessDocsItClozeLog | tasks/medschool-test/utils.py:152-153 | one Italian cloze prompt per `logica` document |
| Prompts.ProcessDocsItMc | tasks/medschool-test/utils.py:157-158 | one Italian multiple-choice prompt per document, with no filter |
| Prompts.ProcessDocsItMcBio | tasks/medschool-test/utils.py:161-164 | one Italian multiple-choice prompt per `biologia` document |
| Prompts.ProcessDocsItMcChem | tasks/medschool-test/utils.py:167-170 | one Italian multiple-choice prompt per `chimica` document |
| Prompts.ProcessDocsItMcMath | tasks/medschool-test/utils.py:173-180 | one Italian multiple-choice prompt per `fisica-matematica` document |
| Prompts.ProcessDocsItMcKnow | tasks/medschool-test/utils.py:183-190 | one Italian multiple-choice prompt per `competenze-conoscenze` document |
| Prompts.ProcessDocsItMcLog | tasks/medschool-test/utils.py:193-196 | one Italian multiple-choice prompt per `logica` document |
| Scoring.FirstMaxUnique | tasks/medschool-test/utils.py:40 | a probability list has at most one first maximum |
| Scoring.Argmax | tasks/medschool-test/utils.py:40 | `np.argmax` returns a largest value's index, and no earlier index holds that value |
| Scoring.Score | tasks/medschool-test/utils.py:46-51 | 0.0 exactly for index 5; 1.5 exactly for the gold index when it is not 5; -0.4 otherwise |
| Scoring.Normalized | tasks/medschool-test/utils.py:42-43 | each probability divided by the length of its choice |
| Scoring.ProcessResults | tasks/medschool-test/utils.py:27-63 | `acc` and `acc_norm` are what the first maximum earns, on the raw and on the length-normalised probabilities |
| Scoring.ScoreEarns | tasks/medschool-test/utils.py:46-51 | the score of the argmax matches the first-maximum characterisation |
| Scoring.UniformScaling | tasks/medschool-test/utils.py:42-44 | dividing by one common positive length keeps the first maximum |
| Scoring.UniformLengthsSameScore | tasks/medschool-test/utils.py:40-58 | choices of one common length give `acc_norm == acc` |
| Scoring.MultipleChoiceSameScore | tasks/medschool-test/utils.py:53-58 | for a multiple-choice prompt, `acc_norm == acc` |
| Scoring.GoldAtFiveNeverRewarded | tasks/medschool-test/utils.py:46-58 | a gold index of 5 is never scored 1.5 |
| Scoring.ClozeAbstentionScoresZero | tasks/medschool-test/utils.py:46-47 | with five answers, a top choice equal to the abstention string scores 0.0 |

## Left out

- The HTTP download in `collect_questions` and the command-line entry point. The records are given as a sequence.
- JSON serialisation, file writing and logging in `save_questions` and `process_questions`. `SaveQuestions` returns the records in the order they would be written.
- Scoring.ProcessResults: takes the probabilities as given `real`s. The softmax over log-likelihoods (`np.exp`, floating point, NaN) is not modelled.
- Scoring.ProcessResults: requires every choice to be non-empty. With numpy, a choice of length 0 makes its normalised probability `inf`, which wins the normalised argmax. This can happen: an answer holding only an image is kept (`collect_questions.py:343-346`), and tag removal (lines 356-359) turns it into the empty text, which `strip()` keeps empty.
- The `datasets` library: a dataset is a sequence of stored records.
- Prompts.ProcessDoc: `dataset.map` merges the returned dictionary into each row, so the prompt rows still carry the columns `text`, `answers`, `topic` and `label`. A `Prompt` holds only `id`, `query`, `choices` and `gold`.
- The `label` column of a document is the field `correct` of `Questions.Question`.
- `compute_aggregate_score`: a placeholder that prints its arguments and returns a constant 0.0.
- Prompts.ProcessDoc: a language outside the tables (a `KeyError` in the script) cannot be expressed, because `Language` has only `En` and `It`.
- A `None` question text or answer text cannot occur: a text is a string.
- `str.strip()` is modelled with the whitespace set of `str.isspace()`. `re.sub` is modelled pattern by pattern. Python regular-expression semantics in general, Unicode normalisation and encodings are not modelled.
