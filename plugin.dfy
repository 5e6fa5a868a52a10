/** The plugin itself: `trial` renders the page and binds the finish handler,
    and the global `checkIt` is run for each question submit. The page and
    the global `question_data` list are the state of one `SummarizeTrial`. */
module Plugin {
  import opened JsText
  import opened Survey
  import opened Progression

  /** What the finish handler hands to the host runner's `finishTrial`. */
  datatype TrialResult = TrialResult(rt: nat, response: seq<Record>)

  /** A placeholder for array slots before the `forEach` has emitted their
      block: every control disabled, obfuscated, nothing written. */
  const Unrendered := Block(false, false, false, Prompt, Blank)

  /** The `order.forEach` that emits one block per display position: the
      block at position 0 is enabled and unobfuscated, every other one is
      disabled and obfuscated. Blocks are stored by original question index. */
  method RenderBlocks(n: nat, order: seq<nat>) returns (b: array<Block>)
    requires n > 0 && IsPermutation(order, n)
    ensures fresh(b) && |order| > 0
    ensures b[..] == Initial(n, order[0], []).blocks
  {
    PermutationIndices(order, n);
    b := new Block[n](_ => Unrendered);
    for i := 0 to n
      invariant forall pos :: 0 <= pos < i ==> b[order[pos]] == InitialBlock(order[pos], order[0])
      invariant forall x :: 0 <= x < n && x !in order[..i] ==> b[x] == Unrendered
    {
      var qidx := order[i];
      var isFirst := i == 0;
      b[qidx] := Block(isFirst, isFirst, isFirst, Prompt, Blank);
    }
    forall x | 0 <= x < n
      ensures b[x] == InitialBlock(x, order[0])
    {
      assert x in order;
      var pos :| 0 <= pos < |order| && order[pos] == x;
    }
  }

  class SummarizeTrial {
    /** `trial.questions` after defaulting, by original index. */
    const questions: seq<Question>
    /** The display order. */
    const order: seq<nat>
    /** The global `question_data` list. */
    var questionData: seq<Record>
    /** The question blocks of the page, by original index. */
    var blocks: array<Block>
    /** Whether the finish control `jspsych-summarize-text-next` is enabled. */
    var finishEnabled: bool

    ghost predicate Valid()
      reads this
    {
      blocks.Length == |questions| && IsPermutation(order, |questions|)
    }

    /** The page and the response list, as a value. */
    ghost function Page(): View
      reads this, blocks
    {
      View(blocks[..], finishEnabled, questionData)
    }

    /** Renders the page for defaulted questions `qs` in display order
        `order`; the global response list still holds `existing`, since it is
        never cleared. */
    constructor (qs: seq<Question>, order: seq<nat>, existing: seq<Record>)
      requires |qs| > 0 && IsPermutation(order, |qs|)
      ensures Valid() && fresh(blocks)
      ensures questions == qs && this.order == order && |order| > 0
      ensures Page() == Initial(|qs|, order[0], existing)
    {
      questions := qs;
      this.order := order;
      questionData := existing;
      finishEnabled := false;
      var rendered := RenderBlocks(|qs|, order);
      blocks := rendered;
    }

    /** `checkIt(q)` with the textarea of question q holding `text`;
        `scoringOk` is whether the scoring request succeeded. */
    method CheckIt(q: nat, text: JsString, scoringOk: bool)
      requires Valid() && q < blocks.Length
      modifies this, blocks
      ensures Valid() && blocks == old(blocks)
      ensures Page() == Submit(old(Page()), Names(questions), q, text, scoringOk)
    {
      ghost var before := Page();
      ghost var names := Names(questions);
      var response := Trim(text);
      if |response| < 10 || |SplitWs(response)| < 4 {
        blocks[q] := blocks[q].(status := TooShort);
        assert Page() == Submit(before, names, q, text, scoringOk) by {
          assert !Accepts(response);
          assert blocks[..] == before.blocks[q := before.blocks[q].(status := TooShort)];
        }
        return;
      }
      questionData := questionData + [Record(questions[q].name, response)];
      LockCurrent(q);
      ShowScore(q, scoringOk);
      MoveOn(q);
      assert Page() == Submit(before, names, q, text, scoringOk) by {
        assert Accepts(response);
        assert names[q] == questions[q].name;
      }
    }

    /** Shows that q's response is being evaluated and disables its
        textarea and button. */
    method LockCurrent(q: nat)
      requires q < blocks.Length
      modifies blocks
      ensures blocks[..] == old(blocks[..])[q := old(blocks[q]).(
        status := Evaluating, inputEnabled := false, submitEnabled := false)]
    {
      blocks[q] := blocks[q].(status := Evaluating);
      blocks[q] := blocks[q].(inputEnabled := false, submitEnabled := false);
    }

    /** Fills q's result region from the outcome of the scoring request. */
    method ShowScore(q: nat, scoringOk: bool)
      requires q < blocks.Length
      modifies blocks
      ensures blocks[..] == old(blocks[..])[q := old(blocks[q]).(
        result := if scoringOk then Scored else ScoreError)]
    {
      if scoringOk {
        blocks[q] := blocks[q].(result := Scored);
      } else {
        blocks[q] := blocks[q].(result := ScoreError);
      }
    }

    /** Enables and unobfuscates question q + 1 if it exists, and enables the
        finish control otherwise. */
    method MoveOn(q: nat)
      requires q < blocks.Length
      modifies this`finishEnabled, blocks
      ensures q + 1 < blocks.Length ==>
        && blocks[..] == old(blocks[..])[q + 1 := old(blocks[q + 1]).(
             inputEnabled := true, submitEnabled := true, unobfuscated := true)]
        && finishEnabled == old(finishEnabled)
      ensures q + 1 == blocks.Length ==> blocks[..] == old(blocks[..]) && finishEnabled
    {
      if q + 1 < blocks.Length {
        blocks[q + 1] := blocks[q + 1].(inputEnabled := true, submitEnabled := true);
        blocks[q + 1] := blocks[q + 1].(unobfuscated := true);
      } else {
        finishEnabled := true;
      }
    }

    /** The form's submit handler: hands the elapsed time and the global
        response list, as it stands, to the host runner. */
    method Finish(rt: nat) returns (result: TrialResult)
      ensures result.rt == rt && result.response == questionData
    {
      result := TrialResult(rt, questionData);
    }
  }

  /** `trial`: defaults the questions in place, computes the display order
      (`shuffled` is the runner's shuffle of the identity, used only when
      `randomize` is set) and renders the page. With no questions there is no
      `#input-0` to focus, so the call throws before binding the finish
      handler: no trial is returned. */
  method Trial(qs: array<Question>, randomize: bool, shuffled: seq<nat>, existing: seq<Record>)
    returns (t: SummarizeTrial?)
    requires randomize ==> IsPermutation(shuffled, qs.Length)
    modifies qs
    ensures forall i :: 0 <= i < qs.Length ==> qs[i] == WithDefaults(old(qs[i]))
    ensures t == null <==> qs.Length == 0
    ensures t != null ==>
      && fresh(t) && fresh(t.blocks) && t.Valid()
      && t.questions == qs[..]
      && t.order == BuildOrder(qs.Length, randomize, shuffled) && |t.order| > 0
      && t.Page() == Initial(qs.Length, t.order[0], existing)
  {
    ApplyDefaults(qs);
    var order := BuildOrder(qs.Length, randomize, shuffled);
    if qs.Length == 0 {
      return null;
    }
    t := new SummarizeTrial(qs[..], order, existing);
  }
}
