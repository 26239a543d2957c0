/**
 One chat run: select the controls of the loaded page, then poll for the reply.
 The browser, navigation, clicks and typing are outside the model; the page is
 given as the texts of its buttons, its input-capable elements and the reads
 its reply region yields tick by tick.
 */
module Chat {
  import opened Results
  import opened Polling
  import opened Selection

  /** The kinds of element matched by the input-field query. */
  datatype Field = Input | TextArea | ContentEditable

  /** The loaded page, as the script sees it. */
  datatype Page = Page(buttons: seq<string>, inputFields: seq<Field>, trace: seq<Read>)

  /** A run that reached the polling stage: the controls it used and what polling returned. */
  datatype ChatRun = ChatRun(modeButton: Option<nat>, inputField: Field, chatButton: nat, outcome: PollResult)
  {
    /** The text the script hands back to its caller. */
    function Reply(): string {
      outcome.reply
    }
  }

  /**
   The run: the mode button is clicked when present, the first input field must
   exist, then the submit button must be found; only then does polling start,
   with the full tick budget.
   */
  function RunChat(page: Page): (r: Result<ChatRun, SelectError>)
    requires MaxTicks <= |page.trace|
    ensures r.Failure? <==> |page.inputFields| == 0 || SelectChatButton(page.buttons).Failure?
    ensures r.Failure? && |page.inputFields| == 0 ==> r.error == NoInputField
    ensures r.Failure? && |page.inputFields| > 0 ==> r.error == SelectChatButton(page.buttons).error
    ensures r.Success? ==>
      && r.value.modeButton == FindModeButton(page.buttons)
      && r.value.inputField == page.inputFields[0]
      && SelectChatButton(page.buttons) == Success(r.value.chatButton)
      && r.value.outcome == Poll(page.trace, MaxTicks)
  {
    var mode := FindModeButton(page.buttons);
    match SelectInputField(page.inputFields)
    case Failure(e) => Failure(e)
    case Success(field) =>
      match SelectChatButton(page.buttons)
      case Failure(e) => Failure(e)
      case Success(button) => Success(ChatRun(mode, field, button, Poll(page.trace, MaxTicks)))
  }

  /** The script's top-level operation, step by step. */
  method ChatWithStepfunAi(page: Page) returns (r: Result<ChatRun, SelectError>)
    requires MaxTicks <= |page.trace|
    ensures r == RunChat(page)
  {
    var mode := FindModeButton(page.buttons);
    if |page.inputFields| == 0 {
      return Failure(NoInputField);
    }
    var field := page.inputFields[0];
    var button := ChooseChatButton(page.buttons);
    if button.Failure? {
      return Failure(button.error);
    }
    var outcome := WaitForAiResponse(page.trace, MaxTicks);
    return Success(ChatRun(mode, field, button.value, outcome));
  }
}
