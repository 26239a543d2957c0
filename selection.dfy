/**
 Locating the controls of the chat page from their texts: the optional mode
 button, the input field, and the submit button, which is recognised only by
 its position between the web-search toggle and the video-creation button.
 */
module Selection {
  import opened Text
  import opened Results

  /** Text of the optional reasoning-mode button. */
  const ModeLabel: string := "推理"

  /** Text of the web-search toggle: the left boundary. */
  const WebSearchLabel: string := "联网"

  /** Text of the video-creation button: the right boundary. */
  const VideoLabel: string := "视频创作"

  /** Why the controls could not be located. */
  datatype SelectError =
    | NoInputField      // no input, textarea or editable element
    | NoTargetButtons   // a boundary button is missing
    | NoChatButton      // nothing lies between the boundaries

  /** How the boundary scan classifies a button; the web-search test is tried first. */
  datatype Role = WebSearch | Video | Other

  function RoleOf(text: string): (role: Role)
  {
    if Contains(text, WebSearchLabel) then WebSearch
    else if Contains(text, VideoLabel) then Video
    else Other
  }

  /** The index of the last button with the given role, or -1 if there is none. */
  function LastWithRole(texts: seq<string>, role: Role): (k: int)
    ensures -1 <= k < |texts|
    ensures k >= 0 ==> RoleOf(texts[k]) == role
    ensures forall j :: k < j < |texts| ==> RoleOf(texts[j]) != role
  {
    if |texts| == 0 then -1
    else if RoleOf(texts[|texts| - 1]) == role then |texts| - 1
    else LastWithRole(texts[..|texts| - 1], role)
  }

  /**
   The submit button: the first button after the last web-search toggle and
   before the last video-creation button.
   */
  function SelectChatButton(texts: seq<string>): (r: Result<nat, SelectError>)
  {
    var web := LastWithRole(texts, WebSearch);
    var video := LastWithRole(texts, Video);
    if web == -1 || video == -1 then Failure(NoTargetButtons)
    else if video <= web + 1 then Failure(NoChatButton)
    else Success(web + 1)
  }

  /** The boundary scan over the buttons in document order. */
  method ScanButtons(texts: seq<string>) returns (webSearch: int, video: int)
    ensures webSearch == LastWithRole(texts, WebSearch)
    ensures video == LastWithRole(texts, Video)
  {
    webSearch, video := -1, -1;
    for i := 0 to |texts|
      invariant webSearch == LastWithRole(texts[..i], WebSearch)
      invariant video == LastWithRole(texts[..i], Video)
    {
      assert texts[..i + 1][..i] == texts[..i];
      var text := texts[i];
      if Contains(text, WebSearchLabel) {
        webSearch := i;
      } else if Contains(text, VideoLabel) {
        video := i;
      }
    }
    assert texts[..|texts|] == texts;
  }

  /** Picks the submit button as the script does: scan, check both boundaries, take the first button between them. */
  method ChooseChatButton(texts: seq<string>) returns (r: Result<nat, SelectError>)
    ensures r == SelectChatButton(texts)
  {
    var webSearch, video := ScanButtons(texts);
    if webSearch == -1 || video == -1 {
      return Failure(NoTargetButtons);
    }
    var middle := texts[webSearch + 1..if video < webSearch + 1 then webSearch + 1 else video];
    if |middle| == 0 {
      return Failure(NoChatButton);
    }
    return Success(webSearch + 1);
  }

  /** Both boundaries are missing-or-present exactly as the button texts say. */
  lemma BoundariesMissing(texts: seq<string>)
    ensures SelectChatButton(texts) == Failure(NoTargetButtons) <==>
      || (forall j :: 0 <= j < |texts| ==> !Contains(texts[j], WebSearchLabel))
      || (forall j :: 0 <= j < |texts| ==> Contains(texts[j], WebSearchLabel) || !Contains(texts[j], VideoLabel))
  {
  }

  /**
   On success the submit button lies strictly between the two boundaries: right after
   the last web-search toggle, before the last video-creation button that is not a toggle.
   */
  lemma ChatButtonBetweenBoundaries(texts: seq<string>)
    requires SelectChatButton(texts).Success?
    ensures var k := SelectChatButton(texts).value;
      && 0 < k < |texts|
      && Contains(texts[k - 1], WebSearchLabel)
      && (forall j :: k <= j < |texts| ==> !Contains(texts[j], WebSearchLabel))
      && (exists v :: k < v < |texts| && RoleOf(texts[v]) == Video
            && forall j :: v < j < |texts| ==> RoleOf(texts[j]) != Video)
  {
  }

  /** With both boundaries present, the selection fails exactly when no button lies strictly between them. */
  lemma EmptyMiddleFails(texts: seq<string>)
    requires LastWithRole(texts, WebSearch) >= 0 && LastWithRole(texts, Video) >= 0
    ensures SelectChatButton(texts) == Failure(NoChatButton) <==>
      LastWithRole(texts, Video) <= LastWithRole(texts, WebSearch) + 1
  {
  }

  /** The input field: the first text-input-capable element, failing only when there is none. */
  function SelectInputField<T>(fields: seq<T>): (r: Result<T, SelectError>)
    ensures r.Success? <==> |fields| > 0
    ensures r.Success? ==> r.value == fields[0]
    ensures r.Failure? ==> r.error == NoInputField
  {
    if |fields| == 0 then Failure(NoInputField) else Success(fields[0])
  }

  /** The first button whose text contains the marker, if any. */
  function FirstContaining(texts: seq<string>, marker: string): (r: Option<nat>)
    ensures r.Some? ==> r.value < |texts| && Contains(texts[r.value], marker)
    ensures r.Some? ==> forall j :: 0 <= j < r.value ==> !Contains(texts[j], marker)
    ensures r.None? ==> forall j :: 0 <= j < |texts| ==> !Contains(texts[j], marker)
  {
    if |texts| == 0 then None
    else if Contains(texts[0], marker) then Some(0)
    else match FirstContaining(texts[1..], marker)
      case None => None
      case Some(k) => Some(k + 1)
  }

  /** The optional reasoning-mode button; its absence is not an error. */
  function FindModeButton(texts: seq<string>): Option<nat>
  {
    FirstContaining(texts, ModeLabel)
  }
}
