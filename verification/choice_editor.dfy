/** The answer-choice lists of the test-authoring form in the admin
    controller. The controller keeps two questions side by side: each has
    a list of choice objects `{id: 'choice' + n}`, a parallel list of
    option texts and, in the test being built, the index of the correct
    answer. */
module ChoiceEditor {
  import opened Options
  import opened NumberText

  /** A choice object. Its id is always the text "choice" followed by a
      decimal number; the model keeps the number. */
  datatype Choice = Choice(num: nat)

  function Id(c: Choice): string
  {
    "choice" + Decimal(c.num)
  }

  /** The answers of the test object `$scope.test`. Each holds the integer
      the answer parses to (`parseInt`), or `None` when it parses to NaN, as
      an unset answer does. */
  datatype Answers = Answers(answerOne: Option<int>, answerTwo: Option<int>)

  /** The form state the choice operations read and write. `test` is `None`
      while `$scope.test` does not exist: the controller creates it only when
      a test is loaded, and the form's bindings may create it. */
  datatype Authoring = Authoring(
    selected: string,
    choiceOne: seq<Choice>,
    choiceTwo: seq<Choice>,
    optionOne: seq<string>,
    optionTwo: seq<string>,
    test: Option<Answers>)

  /** The state the controller starts with: two choices per question, ids
      `choice1` and `choice2`, no options and no test object. */
  function Initial(): Authoring
  {
    Authoring("", [Choice(1), Choice(2)], [Choice(1), Choice(2)], [], [], None)
  }

  lemma IdInjective(a: Choice, b: Choice)
    ensures Id(a) == Id(b) <==> a == b
  {
    if Id(a) == Id(b) {
      assert Id(a)[6..] == Decimal(a.num);
      assert Id(b)[6..] == Decimal(b.num);
      DecimalInjective(a.num, b.num);
    }
  }

  /** `setShow`: remembers which panel is shown. */
  function SetShow(s: Authoring, val: string): (r: Authoring)
    ensures forall w :: IsSelected(r, w) <==> w == val
    ensures r.(selected := s.selected) == s
  {
    s.(selected := val)
  }

  /** `isSelected`: strict comparison with the remembered value; it holds
      exactly when showing `val` would change nothing. */
  function IsSelected(s: Authoring, val: string): (ok: bool)
    ensures ok <==> s.(selected := val) == s
  {
    val == s.selected
  }

  /** `addNewChoice(num)`: question 1 when `num` is 1, question 2 for any
      other value; the new choice's id is numbered one past the old length. */
  function AddNewChoice(s: Authoring, num: int): (r: Authoring)
    ensures num == 1 ==> r == s.(choiceOne := r.choiceOne)
    ensures num != 1 ==> r == s.(choiceTwo := r.choiceTwo)
    ensures var (before, after) := if num == 1 then (s.choiceOne, r.choiceOne) else (s.choiceTwo, r.choiceTwo);
      |after| == |before| + 1 && after[..|before|] == before
      && Id(after[|before|]) == "choice" + Decimal(|before| + 1)
  {
    if num == 1 then s.(choiceOne := s.choiceOne + [Choice(|s.choiceOne| + 1)])
    else s.(choiceTwo := s.choiceTwo + [Choice(|s.choiceTwo| + 1)])
  }

  /** `Array.prototype.splice(i, 1)` for an index from 0 on: removes the
      element at `i`, or nothing when `i` is past the end. */
  function Splice<T>(xs: seq<T>, i: nat): (r: seq<T>)
    ensures i < |xs| ==> |r| == |xs| - 1 && r[..i] + [xs[i]] + r[i..] == xs
    ensures i >= |xs| ==> r == xs
  {
    if i < |xs| then xs[..i] + xs[i + 1..] else xs
  }

  /** The renumbering loop of `doDelete`. Its `for ... in` keys are the
      strings "0", "1", ..., so ids come out numbered from 0. */
  function Renumber(cs: seq<Choice>): (r: seq<Choice>)
    ensures |r| == |cs|
    ensures forall k :: 0 <= k < |r| ==> Id(r[k]) == "choice" + Decimal(k)
  {
    seq(|cs|, k requires 0 <= k => Choice(k))
  }

  /** `doDelete(choiceArr, optionArr, index)`: removes position `index` from
      both lists, keeps the remaining options in order and renumbers the
      remaining choices from 0. */
  function DoDelete(choices: seq<Choice>, options: seq<string>, index: nat): (r: (seq<Choice>, seq<string>))
    ensures index < |choices| ==> |r.0| == |choices| - 1
    ensures index >= |choices| ==> |r.0| == |choices|
    ensures forall k :: 0 <= k < |r.0| ==> Id(r.0[k]) == "choice" + Decimal(k)
    ensures index < |options| ==>
      && |r.1| == |options| - 1
      && (forall k :: 0 <= k < index ==> r.1[k] == options[k])
      && (forall k :: index <= k < |r.1| ==> r.1[k] == options[k + 1])
    ensures index >= |options| ==> r.1 == options
  {
    (Renumber(Splice(choices, index)), Splice(options, index))
  }

  /** The answer rule of `deleteChoice`, applied before the splice: an
      answer on the old last index moves down by one; any other answer
      stays as it is. */
  function AdjustAnswer(answer: Option<int>, count: nat): (r: Option<int>)
    ensures answer == Some(count - 1) ==> r == Some(count - 2)
    ensures answer != Some(count - 1) ==> r == answer
  {
    match answer
    case Some(a) => if a == count - 1 then Some(a - 1) else answer
    case None => None
  }

  /** `deleteChoice(index, num)`: question 1 when `num` is 1, question 2
      otherwise. It reads the answer of `$scope.test` first, so without a
      test object it throws before deleting anything: `None`. */
  function DeleteChoice(s: Authoring, index: nat, num: int): (r: Option<Authoring>)
    ensures r.None? <==> s.test.None?
    ensures r.Some? ==> r.value.test.Some?
    ensures r.Some? && num == 1 ==> r.value == s.(choiceOne := r.value.choiceOne, optionOne := r.value.optionOne,
      test := Some(s.test.value.(answerOne := r.value.test.value.answerOne)))
    ensures r.Some? && num != 1 ==> r.value == s.(choiceTwo := r.value.choiceTwo, optionTwo := r.value.optionTwo,
      test := Some(s.test.value.(answerTwo := r.value.test.value.answerTwo)))
    ensures r.Some? && num == 1 ==>
      && (r.value.choiceOne, r.value.optionOne) == DoDelete(s.choiceOne, s.optionOne, index)
      && r.value.test.value.answerOne == AdjustAnswer(s.test.value.answerOne, |s.choiceOne|)
    ensures r.Some? && num != 1 ==>
      && (r.value.choiceTwo, r.value.optionTwo) == DoDelete(s.choiceTwo, s.optionTwo, index)
      && r.value.test.value.answerTwo == AdjustAnswer(s.test.value.answerTwo, |s.choiceTwo|)
  {
    match s.test
    case None => None
    case Some(t) =>
      if num == 1 then
        var (cs, os) := DoDelete(s.choiceOne, s.optionOne, index);
        Some(s.(choiceOne := cs, optionOne := os, test := Some(t.(answerOne := AdjustAnswer(t.answerOne, |s.choiceOne|)))))
      else
        var (cs, os) := DoDelete(s.choiceTwo, s.optionTwo, index);
        Some(s.(choiceTwo := cs, optionTwo := os, test := Some(t.(answerTwo := AdjustAnswer(t.answerTwo, |s.choiceTwo|)))))
  }

  /** An answer index that was in range stays in range after a deletion
      from a list of at least two choices. */
  lemma DeleteKeepsAnswerInRange(s: Authoring, index: nat)
    requires 2 <= |s.choiceOne| && index < |s.choiceOne|
    requires s.test.Some? && s.test.value.answerOne.Some?
    requires 0 <= s.test.value.answerOne.value < |s.choiceOne|
    ensures var r := DeleteChoice(s, index, 1).value;
      r.test.value.answerOne.Some? && 0 <= r.test.value.answerOne.value < |r.choiceOne|
  {
  }

  /** The answer is not shifted when an earlier choice goes, so it then
      names the option that followed the one chosen. */
  lemma DeleteEarlierChoiceMovesAnswer(s: Authoring, index: nat)
    requires index < |s.optionOne| == |s.choiceOne|
    requires s.test.Some? && s.test.value.answerOne.Some?
    requires index < s.test.value.answerOne.value < |s.choiceOne| - 1
    ensures var r := DeleteChoice(s, index, 1).value;
      var a := s.test.value.answerOne.value;
      r.test.value.answerOne == Some(a) && r.optionOne[a] == s.optionOne[a + 1]
  {
  }

  /** The list `showAddChoice` and `deleteChoice` work on for `num`. */
  function Selected(s: Authoring, num: int): seq<Choice>
  {
    if num == 1 then s.choiceOne else s.choiceTwo
  }

  /** `showAddChoice(choice, num)`: whether `choice` carries the id of the
      last choice of the list; `None` where the source reads the id of a
      missing last element and throws. */
  function ShowAddChoice(s: Authoring, choice: Choice, num: int): (r: Option<bool>)
    ensures r.None? <==> |Selected(s, num)| == 0
    ensures r.Some? ==> (r.value <==> choice == Selected(s, num)[|Selected(s, num)| - 1])
  {
    var cs := Selected(s, num);
    if |cs| == 0 then None
    else
      IdInjective(choice, cs[|cs| - 1]);
      Some(Id(choice) == Id(cs[|cs| - 1]))
  }

  /** Ids in a list are distinct, and none is numbered past the length. */
  predicate Numbered(cs: seq<Choice>)
  {
    && (forall i, j :: 0 <= i < j < |cs| ==> cs[i].num != cs[j].num)
    && (forall i :: 0 <= i < |cs| ==> cs[i].num <= |cs|)
  }

  predicate WellNumbered(s: Authoring)
  {
    Numbered(s.choiceOne) && Numbered(s.choiceTwo)
  }

  lemma InitialWellNumbered()
    ensures WellNumbered(Initial())
  {
  }

  /** Adding and deleting choices keep ids distinct. */
  lemma AddNewChoicePreserves(s: Authoring, num: int)
    requires WellNumbered(s)
    ensures WellNumbered(AddNewChoice(s, num))
  {
  }

  lemma DeleteChoicePreserves(s: Authoring, index: nat, num: int)
    requires WellNumbered(s)
    ensures DeleteChoice(s, index, num).Some? ==> WellNumbered(DeleteChoice(s, index, num).value)
  {
  }

  /** In a well-numbered list, `showAddChoice` holds for the last choice
      and for no other. */
  lemma ShowAddChoiceOnlyLast(s: Authoring, num: int, i: nat)
    requires WellNumbered(s)
    requires i < |Selected(s, num)|
    ensures ShowAddChoice(s, Selected(s, num)[i], num) == Some(i == |Selected(s, num)| - 1)
  {
  }
}
