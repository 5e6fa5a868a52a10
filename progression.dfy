/** The question-by-question unlock discipline of the summarize-text plugin,
    stated on an abstract view of the page: one block per question (by its
    original index), the finish control, and the global response list. */
module Progression {
  import opened JsText

  /** One `{name, response}` entry of the global response list. */
  datatype Record = Record(name: JsString, response: JsString)

  /** The text of a question's status region. */
  datatype Status =
    | Prompt      // "Explain the text in your own words"
    | TooShort    // "Please provide a longer response"
    | Evaluating  // "Your response has been recorded. Evaluating..."

  /** The content of a question's scoring-result region. */
  datatype ApiResult = Blank | Scored | ScoreError

  /** The state of question block `jspsych-summarize-text-<index>`: whether
      its textarea and submit button are enabled, whether the block is
      `unobfuscated`, and its two text regions. */
  datatype Block = Block(
    inputEnabled: bool,
    submitEnabled: bool,
    unobfuscated: bool,
    status: Status,
    result: ApiResult)

  /** Everything `checkIt` reads or writes, besides the textarea contents. */
  datatype View = View(blocks: seq<Block>, finishEnabled: bool, data: seq<Record>)

  /** The response check applied to the trimmed text: at least 10 code units
      and at least 4 pieces when split on whitespace runs. On a trimmed text
      the pieces are exactly its words. */
  predicate Accepts(response: JsString): (ok: bool)
    ensures Trimmed(response) ==> (ok <==> |response| >= 10 && WordCount(response) >= 4)
  {
    if Trimmed(response) && response != [] then
      SplitCountsWords(response);
      !(|response| < 10 || |SplitWs(response)| < 4)
    else
      !(|response| < 10 || |SplitWs(response)| < 4)
  }

  /** The check, stated by words: a response is accepted exactly when its
      trimmed form has at least 10 code units and the text has at least 4
      whitespace-separated words. */
  lemma AcceptsByWords(text: JsString)
    ensures Accepts(Trim(text)) <==> |Trim(text)| >= 10 && WordCount(text) >= 4
  {
    TrimKeepsWords(text);
    if |Trim(text)| >= 10 {
      SplitCountsWords(Trim(text));
    }
  }

  // --------------------------------------------------------- initial page

  /** The block of question i as rendered when question `first` is shown first. */
  function InitialBlock(i: int, first: nat): (b: Block)
    ensures b.inputEnabled == b.submitEnabled == b.unobfuscated == (i == first)
    ensures b.status == Prompt && b.result == Blank
  {
    Block(i == first, i == first, i == first, Prompt, Blank)
  }

  /** The rendered page: the question at display position 0 (original index
      `first`) is enabled and unobfuscated, every other one disabled and
      obfuscated, the finish control disabled; the global response list is
      whatever it already held. */
  function Initial(n: nat, first: nat, existing: seq<Record>): (v: View)
    ensures |v.blocks| == n && !v.finishEnabled && v.data == existing
    ensures forall i :: 0 <= i < n ==>
      (v.blocks[i].inputEnabled <==> i == first) && (v.blocks[i].unobfuscated <==> i == first)
  {
    View(seq(n, i => InitialBlock(i, first)), false, existing)
  }

  // -------------------------------------------------------------- submit

  /** One call `checkIt(q)` with textarea contents `text`; `scoringOk` stands
      for whether the scoring request succeeded. Advancement goes to original
      index q + 1, whatever the display order, and to the finish control when
      there is no block q + 1. */
  function Submit(v: View, names: seq<JsString>, q: nat, text: JsString, scoringOk: bool): (w: View)
    requires |names| == |v.blocks| && q < |v.blocks|
    ensures |w.blocks| == |v.blocks|
    ensures |w.data| == |v.data| + (if Accepts(Trim(text)) then 1 else 0)
    ensures w.blocks[q].status == (if Accepts(Trim(text)) then Evaluating else TooShort)
  {
    var response := Trim(text);
    var b := v.blocks[q];
    if !Accepts(response) then
      v.(blocks := v.blocks[q := b.(status := TooShort)])
    else
      var locked := b.(status := Evaluating, inputEnabled := false, submitEnabled := false,
                       result := if scoringOk then Scored else ScoreError);
      var blocks := v.blocks[q := locked];
      var data := v.data + [Record(names[q], response)];
      if q + 1 < |blocks| then
        var next := blocks[q + 1];
        View(blocks[q + 1 := next.(inputEnabled := true, submitEnabled := true, unobfuscated := true)],
             v.finishEnabled, data)
      else
        View(blocks, true, data)
  }

  /** A rejected response changes nothing but the status text of q: the
      response list, the finish control and every enabled/obfuscated flag and
      result region stay as they were. */
  lemma RejectedChangesOnlyStatus(v: View, names: seq<JsString>, q: nat, text: JsString, scoringOk: bool)
    requires |names| == |v.blocks| && q < |v.blocks|
    requires !Accepts(Trim(text))
    ensures var w := Submit(v, names, q, text, scoringOk);
      && w.data == v.data
      && w.finishEnabled == v.finishEnabled
      && |w.blocks| == |v.blocks|
      && (forall i :: 0 <= i < |v.blocks| && i != q ==> w.blocks[i] == v.blocks[i])
      && w.blocks[q] == v.blocks[q].(status := TooShort)
  {
  }

  /** An accepted response appends exactly one record, at the end, holding
      the name of question q and the trimmed text; the earlier records are
      untouched. */
  lemma AcceptedAppendsOne(v: View, names: seq<JsString>, q: nat, text: JsString, scoringOk: bool)
    requires |names| == |v.blocks| && q < |v.blocks|
    requires Accepts(Trim(text))
    ensures var w := Submit(v, names, q, text, scoringOk);
      && |w.data| == |v.data| + 1
      && w.data[..|v.data|] == v.data
      && w.data[|v.data|] == Record(names[q], Trim(text))
  {
  }

  /** An accepted response locks question q: its textarea and button are
      disabled and its status says the response is being evaluated. */
  lemma AcceptedLocksCurrent(v: View, names: seq<JsString>, q: nat, text: JsString, scoringOk: bool)
    requires |names| == |v.blocks| && q < |v.blocks|
    requires Accepts(Trim(text))
    ensures var w := Submit(v, names, q, text, scoringOk);
      && |w.blocks| == |v.blocks|
      && !w.blocks[q].inputEnabled && !w.blocks[q].submitEnabled
      && w.blocks[q].status == Evaluating
      && w.blocks[q].unobfuscated == v.blocks[q].unobfuscated
  {
  }

  /** After an accepted response: if there is a question q + 1 it is enabled
      and unobfuscated and the finish control is left alone; otherwise the
      finish control is enabled. No block other than q and q + 1 changes. */
  lemma AcceptedAdvances(v: View, names: seq<JsString>, q: nat, text: JsString, scoringOk: bool)
    requires |names| == |v.blocks| && q < |v.blocks|
    requires Accepts(Trim(text))
    ensures var w := Submit(v, names, q, text, scoringOk);
      && |w.blocks| == |v.blocks|
      && (forall i :: 0 <= i < |v.blocks| && i != q && i != q + 1 ==> w.blocks[i] == v.blocks[i])
      && (q + 1 < |v.blocks| ==>
            && w.blocks[q + 1] == v.blocks[q + 1].(inputEnabled := true, submitEnabled := true, unobfuscated := true)
            && w.finishEnabled == v.finishEnabled)
      && (q + 1 == |v.blocks| ==> w.finishEnabled)
  {
  }

  /** Scoring never gates progression: a failed scoring request leads to the
      same page as a successful one, except for q's result region. */
  lemma ScoringNeverGates(v: View, names: seq<JsString>, q: nat, text: JsString)
    requires |names| == |v.blocks| && q < |v.blocks|
    ensures var ok := Submit(v, names, q, text, true);
      var failed := Submit(v, names, q, text, false);
      && ok.data == failed.data
      && ok.finishEnabled == failed.finishEnabled
      && |ok.blocks| == |failed.blocks|
      && (forall i :: 0 <= i < |ok.blocks| && i != q ==> ok.blocks[i] == failed.blocks[i])
      && ok.blocks[q].(result := Blank) == failed.blocks[q].(result := Blank)
      && (Accepts(Trim(text)) ==> ok.blocks[q].result == Scored && failed.blocks[q].result == ScoreError)
  {
  }

  /** Nothing in `checkIt` stops a second call on an already answered
      question: submitting the same acceptable text twice records it twice. */
  lemma RepeatedSubmitRecordsTwice(v: View, names: seq<JsString>, q: nat, text: JsString, ok1: bool, ok2: bool)
    requires |names| == |v.blocks| && q < |v.blocks|
    requires Accepts(Trim(text))
    ensures var w := Submit(Submit(v, names, q, text, ok1), names, q, text, ok2);
      && |w.data| == |v.data| + 2
      && w.data[|v.data|] == w.data[|v.data| + 1] == Record(names[q], Trim(text))
  {
    AcceptedAppendsOne(v, names, q, text, ok1);
    AcceptedAppendsOne(Submit(v, names, q, text, ok1), names, q, text, ok2);
  }

  // ------------------------------------------------------------- frontier

  /** The page while questions are answered in the enabled order: the first
      question shown has original index p, the answered ones are p .. k-1,
      and k is the one enabled question (or k == n and the finish control is
      enabled). The response list is `base` followed by one accepted record
      per answered question, in answer order. */
  ghost predicate Frontier(v: View, names: seq<JsString>, base: seq<Record>, p: nat, k: nat) {
    var n := |v.blocks|;
    && |names| == n && p <= k <= n
    && |v.data| == |base| + (k - p) && v.data[..|base|] == base
    && (forall j :: |base| <= j < |v.data| ==>
          v.data[j].name == names[p + (j - |base|)] && Accepts(v.data[j].response))
    && (forall i :: 0 <= i < n ==>
          && (v.blocks[i].inputEnabled <==> i == k)
          && (v.blocks[i].submitEnabled <==> i == k)
          && (v.blocks[i].unobfuscated <==> p <= i <= k))
    && (v.finishEnabled <==> k == n)
  }

  /** The rendered page is at the frontier with nothing answered yet. */
  lemma InitialFrontier(names: seq<JsString>, p: nat, existing: seq<Record>)
    requires p < |names|
    ensures Frontier(Initial(|names|, p, existing), names, existing, p, p)
  {
  }

  /** At the frontier, exactly one control can be used: question k's
      textarea and button while k < n, else the finish control alone. */
  lemma FrontierOneEnabled(v: View, names: seq<JsString>, base: seq<Record>, p: nat, k: nat)
    requires Frontier(v, names, base, p, k)
    ensures k < |v.blocks| ==> !v.finishEnabled && v.blocks[k].inputEnabled && v.blocks[k].submitEnabled
    ensures forall i :: 0 <= i < |v.blocks| && i != k ==> !v.blocks[i].inputEnabled && !v.blocks[i].submitEnabled
    ensures v.finishEnabled <==> k == |v.blocks|
  {
  }

  /** A rejected response on the enabled question leaves the page at the
      same frontier. */
  lemma RejectedStaysAtFrontier(v: View, names: seq<JsString>, base: seq<Record>, p: nat, k: nat,
                                text: JsString, scoringOk: bool)
    requires Frontier(v, names, base, p, k) && k < |v.blocks|
    requires !Accepts(Trim(text))
    ensures Frontier(Submit(v, names, k, text, scoringOk), names, base, p, k)
  {
    RejectedChangesOnlyStatus(v, names, k, text, scoringOk);
  }

  /** The frontier moves on by one when question k gets its record and is
      locked, question k + 1 (if any) is enabled and shown, and nothing else
      changes. */
  lemma FrontierAdvance(v: View, w: View, names: seq<JsString>, base: seq<Record>, p: nat, k: nat, rec: Record)
    requires Frontier(v, names, base, p, k) && k < |v.blocks|
    requires rec.name == names[k] && Accepts(rec.response)
    requires w.data == v.data + [rec] && |w.blocks| == |v.blocks|
    requires !w.blocks[k].inputEnabled && !w.blocks[k].submitEnabled
    requires w.blocks[k].unobfuscated == v.blocks[k].unobfuscated
    requires forall i :: 0 <= i < |v.blocks| && i != k && i != k + 1 ==> w.blocks[i] == v.blocks[i]
    requires k + 1 < |v.blocks| ==>
      && w.blocks[k + 1].inputEnabled && w.blocks[k + 1].submitEnabled && w.blocks[k + 1].unobfuscated
      && w.finishEnabled == v.finishEnabled
    requires k + 1 == |v.blocks| ==> w.finishEnabled
    ensures Frontier(w, names, base, p, k + 1)
  {
    assert w.data[..|base|] == v.data[..|base|];
    assert forall j :: 0 <= j < |v.data| ==> w.data[j] == v.data[j];
  }

  /** An accepted response on the enabled question moves the frontier on by
      one: the new record is the name of question k with an accepted text,
      question k + 1 (if any) becomes the enabled one. */
  lemma AcceptedMovesFrontier(v: View, names: seq<JsString>, base: seq<Record>, p: nat, k: nat,
                              text: JsString, scoringOk: bool)
    requires Frontier(v, names, base, p, k) && k < |v.blocks|
    requires Accepts(Trim(text))
    ensures Frontier(Submit(v, names, k, text, scoringOk), names, base, p, k + 1)
  {
    var w := Submit(v, names, k, text, scoringOk);
    AcceptedAppendsOne(v, names, k, text, scoringOk);
    AcceptedLocksCurrent(v, names, k, text, scoringOk);
    AcceptedAdvances(v, names, k, text, scoringOk);
    assert w.data == v.data + [Record(names[k], Trim(text))];
    FrontierAdvance(v, w, names, base, p, k, Record(names[k], Trim(text)));
  }

  /** Submitting the enabled question keeps the page at the frontier: a
      rejected response leaves it where it is, an accepted one moves it on by
      one. */
  lemma SubmitKeepsFrontier(v: View, names: seq<JsString>, base: seq<Record>, p: nat, k: nat,
                            text: JsString, scoringOk: bool)
    requires Frontier(v, names, base, p, k) && k < |v.blocks|
    ensures Frontier(Submit(v, names, k, text, scoringOk), names, base, p,
                     if Accepts(Trim(text)) then k + 1 else k)
  {
    if Accepts(Trim(text)) {
      AcceptedMovesFrontier(v, names, base, p, k, text, scoringOk);
    } else {
      RejectedStaysAtFrontier(v, names, base, p, k, text, scoringOk);
    }
  }

  // --------------------------------------------------------------- traces

  /** One user action: `checkIt(q)` with the textarea holding `text`. */
  datatype Event = Event(q: nat, text: JsString, scoringOk: bool)

  /** Every event submits a question that exists. */
  predicate InRange(events: seq<Event>, n: nat) {
    forall i :: 0 <= i < |events| ==> events[i].q < n
  }

  /** The page after a sequence of submit actions, each on a question that
      exists. */
  function Replay(v: View, names: seq<JsString>, events: seq<Event>): (w: View)
    requires |names| == |v.blocks|
    requires InRange(events, |v.blocks|)
    ensures |w.blocks| == |v.blocks|
    decreases |events|
  {
    if events == [] then v
    else
      var e := events[0];
      Replay(Submit(v, names, e.q, e.text, e.scoringOk), names, events[1..])
  }

  /** One submit keeps one block per question and adds at most one record,
      behind the records already there. */
  lemma SubmitGrows(v: View, names: seq<JsString>, q: nat, text: JsString, scoringOk: bool)
    requires |names| == |v.blocks| && q < |v.blocks|
    ensures var w := Submit(v, names, q, text, scoringOk);
      && |w.blocks| == |v.blocks|
      && |v.data| <= |w.data| <= |v.data| + 1 && w.data[..|v.data|] == v.data
  {
    if Accepts(Trim(text)) {
      AcceptedAppendsOne(v, names, q, text, scoringOk);
    } else {
      RejectedChangesOnlyStatus(v, names, q, text, scoringOk);
      assert v.data[..|v.data|] == v.data;
    }
  }

  /** The response list only grows: whatever any sequence of submits does,
      the earlier records stay in place at its front, and it gains at most
      one record per submit. */
  lemma {:induction false} ReplayAppendOnly(v: View, names: seq<JsString>, events: seq<Event>)
    requires |names| == |v.blocks|
    requires InRange(events, |v.blocks|)
    ensures var w := Replay(v, names, events);
      |v.data| <= |w.data| <= |v.data| + |events| && w.data[..|v.data|] == v.data
    decreases |events|
  {
    if events != [] {
      var e := events[0];
      var u := Submit(v, names, e.q, e.text, e.scoringOk);
      SubmitGrows(v, names, e.q, e.text, e.scoringOk);
      assert InRange(events[1..], |u.blocks|);
      ReplayAppendOnly(u, names, events[1..]);
      var w := Replay(u, names, events[1..]);
      assert w == Replay(v, names, events);
      assert w.data[..|v.data|] == w.data[..|u.data|][..|v.data|];
    }
  }

  /** Each event is a submit on the question that is enabled at that moment,
      which is all the page lets a user do. */
  ghost predicate Disciplined(v: View, names: seq<JsString>, events: seq<Event>)
    requires |names| == |v.blocks|
    decreases |events|
  {
    events == [] ||
    (var e := events[0];
     && e.q < |v.blocks| && v.blocks[e.q].submitEnabled
     && Disciplined(Submit(v, names, e.q, e.text, e.scoringOk), names, events[1..]))
  }

  /** Number of events whose text passes the response check. */
  function AcceptedCount(events: seq<Event>): (count: nat)
    ensures count <= |events|
  {
    if events == [] then 0
    else (if Accepts(Trim(events[0].text)) then 1 else 0) + AcceptedCount(events[1..])
  }

  /** Used as the page allows, the plugin stays at the frontier, which moves
      on by one for every accepted response. */
  lemma {:induction false} DisciplinedKeepsFrontier(v: View, names: seq<JsString>, base: seq<Record>,
                                                    p: nat, k: nat, events: seq<Event>)
    requires Frontier(v, names, base, p, k)
    requires Disciplined(v, names, events)
    ensures k + AcceptedCount(events) <= |v.blocks|
    ensures InRange(events, |v.blocks|)
    ensures Frontier(Replay(v, names, events), names, base, p, k + AcceptedCount(events))
    decreases |events|
  {
    if events != [] {
      var e := events[0];
      FrontierOneEnabled(v, names, base, p, k);
      assert e.q == k;
      SubmitKeepsFrontier(v, names, base, p, k, e.text, e.scoringOk);
      var u := Submit(v, names, e.q, e.text, e.scoringOk);
      var k' := if Accepts(Trim(e.text)) then k + 1 else k;
      DisciplinedKeepsFrontier(u, names, base, p, k', events[1..]);
      assert AcceptedCount(events) == (k' - k) + AcceptedCount(events[1..]);
      assert InRange(events, |v.blocks|) by {
        forall i | 0 <= i < |events|
          ensures events[i].q < |v.blocks|
        {
          if i > 0 {
            assert events[i] == events[1..][i - 1];
          }
        }
      }
      assert Replay(v, names, events) == Replay(u, names, events[1..]);
    }
  }

  /** Starting from the rendered page, every sequence of actions the page
      allows records only accepted responses, one per question, in original
      index order from the first question shown. When the finish control
      becomes enabled, exactly n - first questions have been answered: with a
      shuffled order whose first question is not question 0, the questions
      below it are never enabled and never answered. */
  lemma FinishAfterFirstToLast(names: seq<JsString>, first: nat, existing: seq<Record>, events: seq<Event>)
    requires first < |names|
    requires Disciplined(Initial(|names|, first, existing), names, events)
    ensures InRange(events, |names|)
    ensures var w := Replay(Initial(|names|, first, existing), names, events);
      && |existing| <= |w.data| <= |existing| + |names| - first
      && w.data[..|existing|] == existing
      && (forall j :: |existing| <= j < |w.data| ==>
            w.data[j].name == names[first + (j - |existing|)] && Accepts(w.data[j].response))
      && (w.finishEnabled <==> |w.data| == |existing| + |names| - first)
      && (forall i :: 0 <= i < first ==> !w.blocks[i].inputEnabled && !w.blocks[i].unobfuscated)
  {
    var v := Initial(|names|, first, existing);
    InitialFrontier(names, first, existing);
    DisciplinedKeepsFrontier(v, names, existing, first, first, events);
  }
}
