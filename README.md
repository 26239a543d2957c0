# stepfun_chat: control selection and reply polling

The script drives a headless browser to the Stepfun chat page, types a query and
waits for the reply. Two decision rules sit inside the browser plumbing, and this
project models and proves them:

- **Reply-completion polling** (`wait_for_ai_response`). Once per tick the script
  reads the reply region. A failed read yields the empty string. A reading that shows
  the interim marker `与 DeepSeek R1 生成` is skipped. When the stored reading and the
  current non-interim reading agree after `str.strip()` and are non-blank, the run is
  complete and the script returns the untrimmed current reading, which is never stored. After 1800 ticks it returns the stored reading, or
  the sentinel `回复超时，未获取到完整回复` if nothing is stored.
- **Control selection** (`chat_with_stepfun_ai`). The optional reasoning-mode button
  (`推理`) is clicked if present. The first input-capable element receives the query.
  The submit button is found by position. It is the first button after the last
  web-search toggle (`联网`) and before the last video-creation button (`视频创作`)
  that is not itself a toggle.

The page is abstracted into plain values. Its button texts and its input-capable
elements are sequences. The reply region is a sequence of per-tick reads (`Read`:
text, no text, or an error). Python's `str.strip()` is `Text.Trim`, over the full
set of characters for which `str.isspace` holds. Python's `sub in s` is `Text.Contains`.

Modules:

- `Text` (text.dfy): `Trim` and `Contains`, with their characterisations.
- `Polling` (polling.dfy): the loop as a recursive function `PollFrom`, the imperative
  loop `WaitForAiResponse` proved equal to it, and an independent definition of the
  stored reading after `n` ticks (`PrevAfter`). Against that definition, the run is
  characterised as stopping at the first completing tick, or timing out.
- `Selection` (selection.dfy): the boundary scan (`ScanButtons`, a loop proved to find
  the last occurrence of each role), the submit-button choice, the input field and the
  mode button.
- `Chat` (chat.dfy): one whole run; which failure it reports, and that polling starts
  only after every required control is found.
- `Results` (results.dfy): `Option` and `Result`.

`get_ai_response` (step_fun.py:172-174) turns every failed read into `""`, which then
goes through the normal compare-and-store path at step_fun.py:137-141 and resets the
stored reading (`Polling.EmptyReadResets`).

The polling budget is a parameter of `Poll` and `WaitForAiResponse`. The whole run
uses the script's constant `MaxTicks = 1800`. The trace supplies one read per tick of
the budget; this is the `budget <= |trace|` precondition. `PollResult` records whether
the reply was declared complete and at which tick. Its `reply` is the string the script
returns.

## Model

| member | source | states |
|---|---|---|
| `Text.TrimStartSpec` | step_fun.py:137 | the leading part `strip()` removes is whitespace only, and what is left is a suffix that starts with non-whitespace |
| `Text.TrimEndSpec` | step_fun.py:137 | the trailing part `strip()` removes is whitespace only, and what is left is a prefix that ends with non-whitespace |
| `Text.TrimIsCore` | step_fun.py:137 | `strip()` returns the slice of the text between a whitespace-only head and a whitespace-only tail, with no whitespace at either end |
| `Text.TrimEmptyIffAllSpace` | step_fun.py:137 | a stripped text is empty exactly when the text is whitespace only |
| `Text.ContainsSpec` | step_fun.py:132 | `sub in s` holds exactly when `sub` occurs at some position of `s` |
| `Polling.GetAiResponse` | step_fun.py:162-174 | a read yields its text, and a read with no text or a read that raises yields the empty string |
| `Polling.Fallback` | step_fun.py:149 | the timeout result is the stored reading when that is non-empty, otherwise the sentinel, so it is never empty |
| `Polling.PollFrom` | step_fun.py:124-149 | a completed run stops within the budget and returns the untrimmed reading of its last tick, and a timed-out run returns a non-empty string |
| `Polling.WaitForAiResponse` | step_fun.py:112-149 | the tick loop returns exactly the outcome of the polling function; a completed reply arrives within the budget, shows no interim marker and is non-blank once stripped |
| `Polling.TickStep` | step_fun.py:131-141 | a completing tick ends the run with that tick's reading, and any other tick hands the run on with the next stored reading |
| `Polling.RunReachesTick` | step_fun.py:124-141 | until the run stops, running on from any later tick with the stored reading it has then gives the same outcome |
| `Polling.CompletedAtCompletingTick` | step_fun.py:136-139 | a run that completes does so at a tick whose reading is not interim and equals the non-blank stored reading once both are stripped |
| `Polling.NoEarlierCompletion` | step_fun.py:124-141 | no tick before the one where the run stops satisfies the completion test |
| `Polling.TimedOutOnLastStored` | step_fun.py:148-149 | a run that times out returns the fallback of the stored reading at the end of the budget |
| `Polling.PollCompletesAtFirstStableTick` | step_fun.py:136-139 | the run completes if and only if some tick within the budget satisfies the completion test, and then it stops at the first such tick with that tick's untrimmed reading |
| `Polling.PollTimesOutWithLastStored` | step_fun.py:148-149 | when no tick within the budget satisfies the completion test, the result is a timeout carrying the last stored reading, or the sentinel if that is empty |
| `Polling.PollReplyNeverEmpty` | step_fun.py:136-149 | the polling run never returns an empty string: a completed reply is not whitespace only, and a timed-out run returns the fallback of the last stored reading |
| `Polling.InterimTickSkipped` | step_fun.py:131-134 | a reading with the interim marker never ends the run and leaves the stored reading unchanged |
| `Polling.UnstableTickStored` | step_fun.py:140-141 | a reading that is neither interim nor stable becomes the stored reading, and nothing else changes |
| `Polling.EmptyReadResets` | step_fun.py:137-141 | an empty reading (a failed read included) never completes the run and resets the stored reading to the empty string |
| `Polling.FailedReadIsEmpty` | step_fun.py:172-174 | a read that raises or finds no text yields the empty string, which shows no interim marker |
| `Polling.AllInterimTimesOut` | step_fun.py:131-134 | if every remaining reading shows the interim marker, the run times out on the reading stored before them, even if a real reply contains the marker |
| `Polling.PrevAfterSkipsInterim` | step_fun.py:131-141 | after a non-interim reading followed only by interim ones, the stored reading is that non-interim reading |
| `Polling.StableReadingsComplete` | step_fun.py:136-139 | two successive non-interim readings that are equal and non-blank once stripped make the run complete, at the second of them at the latest |
| `Polling.PollFromUsesBudgetPrefix` | step_fun.py:124 | from any tick, the outcome depends only on the reads within the budget |
| `Polling.PollUsesBudgetPrefix` | step_fun.py:124 | at most `budget` reads are consumed: the outcome is the same on the trace cut to the budget |
| `Polling.ScenarioStabilises` | step_fun.py:122-141 | an empty reading, an interim reading, then `partial` twice completes with `partial` at the fourth tick |
| `Polling.ScenarioNeverRepeats` | step_fun.py:124-149 | five distinct readings with a budget of five time out with the last reading |
| `Selection.LastWithRole` | step_fun.py:86-91 | the index is the last button with the role, or -1 when no button has it |
| `Selection.ScanButtons` | step_fun.py:82-91 | the scan loop ends with the index of the last web-search toggle and of the last video-creation button that is not a toggle, each -1 if absent |
| `Selection.ChooseChatButton` | step_fun.py:93-101 | the boundary check and the Python slice `[left+1:right]` choose the same button and fail in the same cases as the selection rule |
| `Selection.BoundariesMissing` | step_fun.py:93-94 | the selection fails for missing buttons if and only if no text contains `联网`, or every text containing `视频创作` also contains `联网` |
| `Selection.ChatButtonBetweenBoundaries` | step_fun.py:96-101 | a chosen button comes right after the last `联网` button and strictly before the last video-creation button |
| `Selection.EmptyMiddleFails` | step_fun.py:97-99 | with both boundaries present, the selection finds no submit button exactly when the right boundary is at most one past the left |
| `Selection.SelectInputField` | step_fun.py:71-77 | the input field is the first element, and the selection fails only when there is none |
| `Selection.FirstContaining` | step_fun.py:65-68 | the mode button is the first button whose text contains the label, and its absence is a `None`, not an error |
| `Chat.RunChat` | step_fun.py:58-106 | a run fails if and only if there is no input field or no submit button, with the no-input error first; otherwise it records the controls used and polls with the full budget |
| `Chat.ChatWithStepfunAi` | step_fun.py:58-106 | the step-by-step run produces the outcome of the run function |

## Left out

- Browser launch, context, `goto`, `wait_for_load_state`, `click`, `fill` and the XPath locator: these are calls into Playwright. The page is given as data, and the query text is not modelled because it only goes into `fill`. Exceptions these calls raise abort the run in the program and are not modelled: for example `fill` on a hidden, file or checkbox `input` (the selector at step_fun.py:71 matches those too), or `wait_for_timeout` at step_fun.py:125, which sits outside the per-tick `try`. So `Chat.RunChat`'s "fails if and only if" speaks about the control-selection failures of the model only.
- The one-second `wait_for_timeout` per tick: the model counts ticks, not time.
- `async`/`await` and `asyncio.run`: the control flow is sequential.
- Logging setup, logger calls and `os.makedirs("output")`: these are side effects with no bearing on the result.
- `browser.close()` in the `finally` block: this is resource release through the library.
- The `except` around one tick (step_fun.py:144-146): `get_ai_response` already catches its own errors, so the model never reaches this branch.
- `text_content()` returning `None` for a button (step_fun.py:87): the `in` test would raise a `TypeError`. The model takes every button text to be a string.
- `Selection.FirstContaining`: Playwright's `:has-text()` also normalises whitespace and ignores case. The model uses a plain substring test.
- `Text.Trim`: covers the characters for which `str.isspace` holds, which is what `str.strip()` removes. No other Unicode processing is modelled.
- The `main` example function and the `__main__` block: they only call the run and log its result.
