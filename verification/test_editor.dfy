/** Editing one option of a saved test in the admin controller's test view
    (the `'option'` branch of `save`, with `checkAllanswers`). */
module TestEditor {
  import opened Options

  /** The JavaScript values an answer field can hold: `undefined`, a
      boolean, or a string such as the text "undefined". */
  datatype Value = Undefined | Bool(b: bool) | Text(s: string)

  datatype QuestOption = QuestOption(option: Value, answer: Value)

  datatype Question = Question(question: string, questOptions: seq<QuestOption>)

  /** The editor copy `editableOption[i][j]` of one option. */
  datatype Draft = Draft(option: Value, answer: Value)

  /** The test view: the loaded questions, one draft per option, and the
      per-question "no answer selected" flags. `displayerrmsg` starts as an
      empty array and is written by index, so it is a partial map. */
  datatype TestView = TestView(questions: seq<Question>, drafts: seq<seq<Draft>>, displayErr: map<nat, bool>)

  /** The `for ... in` loop of `checkAllanswers` from position `i` on:
      false at the first answer that differs from `first`. */
  function SameFrom(opts: seq<QuestOption>, first: Value, i: nat): (r: bool)
    requires i <= |opts|
    ensures r <==> forall k :: i <= k < |opts| ==> opts[k].answer == first
    decreases |opts| - i
  {
    if i == |opts| then true
    else if first != opts[i].answer then false
    else SameFrom(opts, first, i + 1)
  }

  /** `checkAllanswers`: whether every option has the first option's answer.
      On an empty list the source reads `answer` of a missing element and
      throws: `None`. */
  function CheckAllAnswers(opts: seq<QuestOption>): (r: Option<bool>)
    ensures r.None? <==> |opts| == 0
    ensures r.Some? ==> (r.value <==> forall k :: 0 <= k < |opts| ==> opts[k].answer == opts[0].answer)
  {
    if |opts| == 0 then None else Some(SameFrom(opts, opts[0].answer, 0))
  }

  /** An answer left `undefined`, or holding the text "undefined", is saved
      as `false`. */
  function NormalizeAnswer(v: Value): (r: Value)
    ensures r != Undefined && r != Text("undefined")
    ensures v == Undefined || v == Text("undefined") ==> r == Bool(false)
    ensures v != Undefined && v != Text("undefined") ==> r == v
  {
    if v == Undefined || v == Text("undefined") then Bool(false) else v
  }

  /** The loop that runs when the saved answer is `true`. Its `for ... in`
      key is a string and is compared with `===` to the numeric option
      index, so the `continue` never fires and every option is cleared; the
      edited option is overwritten right after. */
  function ClearAnswers(opts: seq<QuestOption>): (r: seq<QuestOption>)
    ensures |r| == |opts|
    ensures forall k :: 0 <= k < |r| ==> r[k] == opts[k].(answer := Bool(false))
  {
    seq(|opts|, k requires 0 <= k < |opts| => opts[k].(answer := Bool(false)))
  }

  /** The options of question `index` after saving option `optionIndex`
      from its draft. */
  function SavedOptions(opts: seq<QuestOption>, optionIndex: nat, draft: Draft): (r: seq<QuestOption>)
    requires optionIndex < |opts|
    ensures |r| == |opts|
    ensures r[optionIndex] == QuestOption(draft.option, NormalizeAnswer(draft.answer))
    ensures NormalizeAnswer(draft.answer) == Bool(true) ==>
      forall k :: 0 <= k < |r| ==> (r[k].answer == Bool(true) <==> k == optionIndex)
    ensures NormalizeAnswer(draft.answer) == Bool(true) ==>
      forall k :: 0 <= k < |r| ==> r[k].option == opts[k].option || k == optionIndex
    ensures NormalizeAnswer(draft.answer) == Bool(true) ==>
      forall k :: 0 <= k < |r| && k != optionIndex ==> r[k] == opts[k].(answer := Bool(false))
    ensures NormalizeAnswer(draft.answer) != Bool(true) ==>
      forall k :: 0 <= k < |r| && k != optionIndex ==> r[k] == opts[k]
  {
    var answer := NormalizeAnswer(draft.answer);
    var cleared := if answer == Bool(true) then ClearAnswers(opts) else opts;
    cleared[optionIndex := QuestOption(draft.option, answer)]
  }

  /** `save('option', index, optionIndex)`: copies the draft's text and
      normalised answer into the option, makes a `true` answer the only
      correct one of its question, writes the normalised answer back to the
      draft, and sets `displayerrmsg[index]` when all the question's options
      now share one answer. Other questions are untouched. */
  function SaveOption(v: TestView, index: nat, optionIndex: nat): (r: TestView)
    requires index < |v.questions| && optionIndex < |v.questions[index].questOptions|
    requires index < |v.drafts| && optionIndex < |v.drafts[index]|
    ensures |r.questions| == |v.questions|
    ensures forall q :: 0 <= q < |v.questions| && q != index ==> r.questions[q] == v.questions[q]
    ensures r.questions[index].question == v.questions[index].question
    ensures r.questions[index].questOptions ==
      SavedOptions(v.questions[index].questOptions, optionIndex, v.drafts[index][optionIndex])
    ensures r.drafts == v.drafts[index := v.drafts[index][optionIndex :=
      v.drafts[index][optionIndex].(answer := NormalizeAnswer(v.drafts[index][optionIndex].answer))]]
    ensures r.displayErr.Keys == v.displayErr.Keys + {index}
    ensures forall q :: q in v.displayErr && q != index ==> r.displayErr[q] == v.displayErr[q]
    ensures var opts := r.questions[index].questOptions;
      r.displayErr[index] <==> forall k :: 0 <= k < |opts| ==> opts[k].answer == opts[0].answer
  {
    var draft := v.drafts[index][optionIndex];
    var opts := SavedOptions(v.questions[index].questOptions, optionIndex, draft);
    var question := v.questions[index].(questOptions := opts);
    var drafts := v.drafts[index := v.drafts[index][optionIndex := draft.(answer := NormalizeAnswer(draft.answer))]];
    TestView(v.questions[index := question], drafts, v.displayErr[index := CheckAllAnswers(opts).value])
  }

  /** Saving a correct answer on a question with two or more options
      clears its "no answer selected" flag. */
  lemma SaveTrueClearsMessage(v: TestView, index: nat, optionIndex: nat)
    requires index < |v.questions| && optionIndex < |v.questions[index].questOptions|
    requires index < |v.drafts| && optionIndex < |v.drafts[index]|
    requires 2 <= |v.questions[index].questOptions|
    requires v.drafts[index][optionIndex].answer == Bool(true)
    ensures !SaveOption(v, index, optionIndex).displayErr[index]
  {
    var opts := SaveOption(v, index, optionIndex).questions[index].questOptions;
    var other := if optionIndex == 0 then 1 else 0;
    assert opts[other].answer != opts[optionIndex].answer;
  }

  /** Saving a wrong (or unset) answer raises the flag exactly when every
      option of the question now has the answer `false`. */
  lemma SaveFalseFlagsAllFalse(v: TestView, index: nat, optionIndex: nat)
    requires index < |v.questions| && optionIndex < |v.questions[index].questOptions|
    requires index < |v.drafts| && optionIndex < |v.drafts[index]|
    requires NormalizeAnswer(v.drafts[index][optionIndex].answer) == Bool(false)
    ensures var r := SaveOption(v, index, optionIndex);
      var opts := r.questions[index].questOptions;
      r.displayErr[index] <==> forall k :: 0 <= k < |opts| ==> opts[k].answer == Bool(false)
  {
  }
}
