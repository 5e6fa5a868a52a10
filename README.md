# summarize-text plugin: question progression

A Dafny model of the jsPsych "summarize-text" plugin (`main/client/plugin-summarize.js`).
A trial shows several free-text questions. They are unlocked one at a time. Each
submitted answer is checked for length and word count, then recorded in the global
`question_data` list and sent to a scoring service. The next question is then
enabled, or the finish control after the last question. The finish handler hands the
elapsed time and the recorded answers to the host runner.

The modules follow the code:

- `JsText` (`jstext.dfy`) covers the JavaScript string built-ins that the check uses:
  `trim` and `split(/\s+/)` on UTF-16 code units, with ECMAScript's whitespace set.
  It also defines an independent word count, `WordCount`, as a left-to-right scan.
- `Survey` (`setup.dfy`) covers what `trial` does before rendering. It fills the
  question defaults in place and builds the display order.
- `Progression` (`progression.dfy`) states one `checkIt` call as the pure function
  `Submit` on a value `View` of the page. A `View` holds one `Block` per question,
  indexed by original question index, plus the finish control and `question_data`.
  The properties of the unlock discipline are lemmas about `Submit`. The main
  invariant is `Frontier(v, names, base, p, k)`:
  - the first question shown has original index `p`;
  - questions `p .. k-1` are answered;
  - `k` is the only enabled question, or `k == n` and only the finish control is enabled.
- `Plugin` (`plugin.dfy`) is the imperative part. `SummarizeTrial` holds the page
  blocks in an `array`, the finish flag and `question_data`. Its `CheckIt` method is
  proved to produce exactly `Submit` of the old page. `Trial` is the plugin's `trial`
  method, and `Finish` is its form-submit handler.

The model keeps three behaviours of the code that a reader might not expect:

- `checkIt(q)` advances to original index `q + 1`, not to the next display position.
  So with `randomize_question_order` and a shuffle whose first question `p` is not
  question 0:
  - questions `0 .. p-1` are never enabled;
  - the finish control is enabled after `n - p` answers.
  `FinishAfterFirstToLast` proves this for every sequence of actions the page allows.
  With the identity order (`p == 0`), the same lemma says that the finish control is
  enabled exactly when all `n` questions are answered, in order.
- Nothing in `checkIt` stops a second call on a question that already has an answer.
  Such a call records a second entry (`RepeatedSubmitRecordsTwice`). It is not a no-op.
- `question_data` is a module-level global and is never cleared. A trial starts from
  whatever records it already holds (`existing`), and `Finish` reports all of them.

## Model

| member | source | states |
|---|---|---|
| JsText.Trim | main/client/plugin-summarize.js:124 | the result of `trim` neither starts nor ends with whitespace and is no longer than its input |
| JsText.TrimIsSlice | main/client/plugin-summarize.js:124 | `trim` returns one contiguous slice of its input, and everything it cuts off before and after that slice is whitespace |
| JsText.TrimIdempotent | main/client/plugin-summarize.js:124 | trimming an already trimmed response changes nothing |
| JsText.SplitWs | main/client/plugin-summarize.js:127 | `split(/\s+/)` always yields at least one piece |
| JsText.SplitPiecesHaveNoSpace | main/client/plugin-summarize.js:127 | no piece of `split(/\s+/)` contains whitespace |
| JsText.SplitEmpty | main/client/plugin-summarize.js:127 | the empty string splits into the single piece `""`, so splitting counts it as one word |
| JsText.SplitCountsWords | main/client/plugin-summarize.js:127 | for a trimmed non-empty string, the number of pieces of `split(/\s+/)` equals the number of maximal non-whitespace runs |
| JsText.TrimKeepsWords | main/client/plugin-summarize.js:124-127 | trimming never changes the number of words |
| Progression.Accepts | main/client/plugin-summarize.js:127 | the length-and-split test; on a trimmed text it holds exactly when the text has at least 10 code units and at least 4 words |
| Progression.AcceptsByWords | main/client/plugin-summarize.js:124-127 | a response is accepted exactly when its trimmed form has at least 10 code units and the text has at least 4 words |
| Survey.WithDefaults | main/client/plugin-summarize.js:38-42 | after the three `\|\|=` assignments, rows and columns are set and truthy, value is set (possibly to the falsy ""), and prompt, placeholder, required and name are unchanged |
| Survey.DefaultsFill | main/client/plugin-summarize.js:38-42 | falsy `rows`, `columns` and `value` become 1, 40 and ""; truthy values and every other field are kept |
| Survey.DefaultsIdempotent | main/client/plugin-summarize.js:38-42 | applying the defaults a second time changes nothing |
| Survey.ApplyDefaults | main/client/plugin-summarize.js:38-42 | the loop replaces every question, in place, by its defaulted form |
| Survey.Identity | main/client/plugin-summarize.js:54 | the unshuffled order has one position per question and lists index i at position i |
| Survey.BuildOrder | main/client/plugin-summarize.js:53-57 | the display order is the runner's shuffle when randomization is on, the identity when it is off, and a permutation of the question indices in every case |
| Survey.PermutationIndices | main/client/plugin-summarize.js:55-61 | a display order has one position per question, holds only valid indices, shows every question and shows none twice |
| Plugin.RenderBlocks | main/client/plugin-summarize.js:59-96 | after the `forEach` over display positions, only the question at position 0 is enabled and unobfuscated; every other one is disabled and obfuscated |
| Plugin.SummarizeTrial.constructor | main/client/plugin-summarize.js:59-97 | the rendered page is `Initial`: one enabled question (display position 0), finish control disabled, `question_data` as it was |
| Plugin.Trial | main/client/plugin-summarize.js:36-111 | `trial` defaults the questions in place, builds the order and renders the initial page; with no questions it fails and no trial runs |
| Progression.InitialBlock | main/client/plugin-summarize.js:60-96 | a rendered block's textarea, button and visibility are on exactly for the question shown first; its status is the prompt and its result region is blank |
| Progression.Initial | main/client/plugin-summarize.js:59-97 | the rendered page has one block per question, the finish control disabled and `question_data` as it was; exactly the question shown first is enabled and unobfuscated |
| Progression.InitialFrontier | main/client/plugin-summarize.js:60-96 | the initial page is at the frontier with no answers: only question `order[0]` is enabled and shown, and the finish control is disabled |
| Plugin.SummarizeTrial.CheckIt | main/client/plugin-summarize.js:123-183 | one `checkIt(q)` call turns the page and `question_data` into exactly `Submit` of their old values |
| Progression.Submit | main/client/plugin-summarize.js:123-183 | one settled `checkIt(q)` call keeps one block per question, adds one record exactly when the trimmed text is accepted, and leaves q's status "evaluating" if it was accepted and "too short" if not |
| Plugin.SummarizeTrial.LockCurrent | main/client/plugin-summarize.js:139-145 | q's status becomes "evaluating" and its textarea and button are disabled; no other block changes |
| Plugin.SummarizeTrial.ShowScore | main/client/plugin-summarize.js:147-167 | q's result region shows a score when the request succeeded and an error otherwise; nothing else changes |
| Plugin.SummarizeTrial.MoveOn | main/client/plugin-summarize.js:169-182 | question q+1, if it exists, is enabled and unobfuscated and the finish control is unchanged; otherwise the finish control is enabled and no block changes |
| Progression.RejectedChangesOnlyStatus | main/client/plugin-summarize.js:124-132 | a rejected response leaves `question_data`, the finish control and every flag and result region unchanged; only q's status becomes "too short" |
| Progression.AcceptedAppendsOne | main/client/plugin-summarize.js:134-138 | an accepted response appends exactly one record, holding q's name and the trimmed text, behind the untouched earlier records |
| Progression.AcceptedLocksCurrent | main/client/plugin-summarize.js:139-145 | after an accepted response, q's textarea and button are disabled and its status reads "evaluating" |
| Progression.ScoringNeverGates | main/client/plugin-summarize.js:147-167 | a failed scoring call leads to the same page and records as a successful one; only q's result region differs |
| Progression.AcceptedAdvances | main/client/plugin-summarize.js:169-182 | after an accepted response, question q+1 (if it exists) is enabled and unobfuscated and the finish control is unchanged; otherwise the finish control is enabled; no other block changes |
| Progression.RepeatedSubmitRecordsTwice | main/client/plugin-summarize.js:123-138 | calling `checkIt` twice on the same question with acceptable text records two identical entries |
| Progression.FrontierOneEnabled | main/client/plugin-summarize.js:170-182 | at the frontier, exactly one control can be used: question k's textarea and button, or the finish control alone once k == n |
| Progression.RejectedStaysAtFrontier | main/client/plugin-summarize.js:127-132 | rejecting the enabled question's response keeps the page at the same frontier |
| Progression.FrontierAdvance | main/client/plugin-summarize.js:135-182 | recording question k's answer, locking k and unlocking k+1 (or the finish control) moves the frontier from k to k+1 |
| Progression.AcceptedMovesFrontier | main/client/plugin-summarize.js:135-182 | accepting the enabled question's response moves the frontier on by one |
| Progression.SubmitKeepsFrontier | main/client/plugin-summarize.js:123-183 | every submit of the enabled question keeps the page at the frontier, moving it on exactly when the response is accepted |
| Progression.Replay | main/client/plugin-summarize.js:123-183 | a sequence of submits keeps one block per question |
| Progression.SubmitGrows | main/client/plugin-summarize.js:123-138 | one `checkIt` call keeps one block per question and adds at most one record, behind the records already there |
| Progression.ReplayAppendOnly | main/client/plugin-summarize.js:135-138 | over any sequence of submits, `question_data` only grows: earlier records stay at its front, and each submit adds at most one record |
| Progression.DisciplinedKeepsFrontier | main/client/plugin-summarize.js:123-183 | used as the page allows, the plugin stays at the frontier, which moves on by one per accepted response and never passes the last question |
| Progression.FinishAfterFirstToLast | main/client/plugin-summarize.js:170-182 | from the rendered page, answers are recorded in original-index order from `order[0]`, and each passes the check; the finish control is enabled exactly when `n - order[0]` answers are recorded; questions below `order[0]` are never enabled or shown |
| Plugin.SummarizeTrial.Finish | main/client/plugin-summarize.js:102-110 | the finish handler reports `rt` and `question_data` exactly as it stands |

## Left out

- HTML templating is presentation only and is not modelled. This covers the preamble, the `autocomplete` attribute, the prompt, placeholder, `rows`/`columns` and `required` markup, colours, and the `active` class of the first textarea. The obfuscated/unobfuscated class is kept as a flag.
- The scoring request is network I/O and is modelled only by the boolean `scoringOk`. This covers `fetch`, its URL and body, `JSON.stringify` of the payload, `res.json()` and `console.error`. A successful result region is `Scored` and carries no payload.
- The elapsed time `rt` is a parameter of `Finish`. The model leaves out `performance.now()` and `Math.round`, which are clock and floating-point operations.
- `focus()`, `autofocus` and the Enter-key handler are event plumbing and are left out. A disabled control fires no event, and `Disciplined` captures this.
- The jsPsych parameter schema and `jsPsych.randomization.shuffle` belong to the host library. The shuffle's result is a parameter, and the model assumes only that it permutes the identity.
- Progression.Submit: one call is applied in a single step, from the check to the advance. The code does it in two: it records the answer and locks `q` (lines 135-145), then awaits the scoring request (line 150), and only enables `q + 1` or the finish control once that request settles (lines 170-182). The pending state in between is not modelled. In it the record is kept, `q` is locked and no control is enabled. No timeout is set, so a request that never settles leaves the page in that state for good. `ScoringNeverGates`, `FrontierOneEnabled` and the trace lemmas describe pages whose calls have all settled.
- Plugin.SummarizeTrial.CheckIt: the same holds. It models a call whose scoring request has settled, and `scoringOk` gives its outcome.
- Text read back through the `data-name` attribute is taken to equal the configured `name`. HTML escaping of quotes and ampersands is not modelled.
- A parameter of a JavaScript type other than a number or string (NaN, a numeric string) is not modelled. `rows` and `columns` are `Option<int>`, and `value` is `Option<JsString>`, so undefined or null is `None`. `prompt`, `placeholder` and `name` are plain `JsString`. An undefined or null `name`, which `data-name` would read back as the text "undefined" or "null", is not modelled.
- Plugin.SummarizeTrial.CheckIt: requires `q` to be a rendered question index. The page only calls `checkIt` with such indices, and any other index would throw on a missing element.
- Plugin.SummarizeTrial.Finish: returns a copy of `question_data`, but the handler passes the global array itself (line 108). A later trial pushes onto that same array (line 135), so the records it adds also appear in the result this trial already reported. That sharing is not modelled.
- Plugin.SummarizeTrial.Finish: does not require the finish control to be enabled. The handler itself does not check it; the browser fires it only when the control is enabled.
- `main/server/server.py` is the scoring service: model inference and library calls. It is not part of this model.
