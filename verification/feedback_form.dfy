/**
 * The feedback dialog (`FeedbackForm`): who is signing the message, the
 * type picker whose first item is a prompt, the message box that shows a
 * grey placeholder while empty, and the Submit button, which checks the type
 * and then the message before storing them through `FeedbackRepository`.
 *
 * The placeholder is recognised by its colour; the model keeps that colour
 * as a flag. An exception from the store is the `failure` parameter.
 */
module FeedbackForm {
  import opened Wrappers
  import opened Text
  import opened Calendar
  import FeedbackRepository

  const AnonymousName := "Resident"
  const Placeholder := "Share your thoughts\U{2026}"
  const SelectType := "Please select a feedback type."
  const EnterMessage := "Please enter your feedback message."
  const Thanks := "Thank you for your feedback!"
  const SaveFailedPrefix := "Unable to save feedback. "

  /** The type picker's items; index 0 is the prompt. */
  const TypeItems: seq<string> := ["Select feedback type", "Suggestion", "Complaint", "Bug Report", "Other"]

  /** The name the dialog signs with: `Resident` for a blank name, otherwise the name trimmed. */
  function DisplayName(userDisplayName: Option<string>): (r: string)
    ensures !IsBlank(r)
    ensures IsTrimmed(r)
    ensures IsNullOrWhiteSpace(userDisplayName) ==> r == AnonymousName
    ensures !IsNullOrWhiteSpace(userDisplayName) ==> r == Trim(userDisplayName.value)
  {
    if IsNullOrWhiteSpace(userDisplayName) then
      assert AnonymousName[0] == 'R';
      AnonymousName
    else
      TrimKeepsBlankness(userDisplayName.value);
      Trim(userDisplayName.value)
  }

  /** Opening the dialog again with the name it signed with keeps that name. */
  lemma DisplayNameIdempotent(userDisplayName: Option<string>)
    ensures DisplayName(Some(DisplayName(userDisplayName))) == DisplayName(userDisplayName)
  {
    var n := DisplayName(userDisplayName);
    TrimOfTrimmed(n);
  }

  /** The message box: its text and whether it is grey (showing the placeholder). */
  datatype MessageBox = MessageBox(text: string, grey: bool)

  /** Grey means the placeholder is showing. */
  ghost predicate BoxValid(b: MessageBox) {
    b.grey ==> b.text == Placeholder
  }

  const InitialBox := MessageBox(Placeholder, true)

  /** `GotFocus`: a grey box is cleared and turns dark. */
  function GotFocus(b: MessageBox): (r: MessageBox)
    ensures !r.grey
    ensures b.grey ==> r.text == []
    ensures !b.grey ==> r == b
  {
    if b.grey then MessageBox([], false) else b
  }

  /** `LostFocus`: a blank box shows the placeholder again. */
  function LostFocus(b: MessageBox): (r: MessageBox)
    ensures BoxValid(b) ==> BoxValid(r)
    ensures IsBlank(b.text) ==> r == InitialBox
    ensures !IsBlank(b.text) ==> r == b
  {
    if IsBlank(b.text) then InitialBox else b
  }

  /** Typing, which only happens while the box has the focus (and so is dark). */
  function Typed(b: MessageBox, text: string): (r: MessageBox)
    requires !b.grey
    ensures BoxValid(r) && r.text == text && !r.grey
  {
    MessageBox(text, false)
  }

  /** Entering and leaving an untouched box puts the placeholder back. */
  lemma FocusRoundTrip()
    ensures LostFocus(GotFocus(InitialBox)) == InitialBox
  {
  }

  /** After the box loses the focus it is either grey or holds something other than white space. */
  lemma LeftBoxIsPlaceholderOrText(b: MessageBox)
    requires BoxValid(b)
    ensures var r := LostFocus(b); BoxValid(r) && (r.grey || !IsBlank(r.text))
  {
  }

  /** The message `Submit_Click` reads: empty while grey, otherwise the text trimmed. */
  function MessageOf(b: MessageBox): (r: string)
    ensures b.grey ==> r == []
    ensures !b.grey ==> r == Trim(b.text)
    ensures IsBlank(r) <==> b.grey || IsBlank(b.text)
  {
    if b.grey then [] else TrimKeepsBlankness(b.text); Trim(b.text)
  }

  /** The placeholder is never read as a message. */
  lemma PlaceholderIsNoMessage()
    ensures IsBlank(MessageOf(InitialBox))
  {
  }

  /** The selected type: none while the prompt (or nothing) is selected. */
  function SelectedType(selectedIndex: int): (r: Option<string>)
    requires -1 <= selectedIndex < |TypeItems|
    ensures r.Some? <==> selectedIndex > 0
    ensures r.Some? ==> r.value == TypeItems[selectedIndex] && !IsBlank(r.value)
  {
    if selectedIndex > 0 then
      assert TypeItems[selectedIndex][0] != ' ';
      Some(TypeItems[selectedIndex])
    else None
  }

  /** What a click on Submit ends in: a prompt, the thanks box with the grown table, or the error box. */
  datatype SubmitOutcome = Prompt(message: string) | Saved(table: seq<FeedbackRepository.FeedbackRow>) | SaveFailed(message: string)

  /** `Submit_Click`: type first, then message; `failure` is the text of an exception from `Insert`, if one is thrown. */
  function Submit(
    t: seq<FeedbackRepository.FeedbackRow>, userDisplayName: Option<string>, selectedIndex: int, box: MessageBox,
    failure: Option<string>, rowId: nat, utcNow: DateTime): (r: SubmitOutcome)
    requires -1 <= selectedIndex < |TypeItems|
    ensures selectedIndex <= 0 ==> r == Prompt(SelectType)
    ensures selectedIndex > 0 && IsBlank(MessageOf(box)) ==> r == Prompt(EnterMessage)
    ensures r.Saved? <==> selectedIndex > 0 && !box.grey && !IsBlank(box.text) && failure.None?
    ensures r.Saved? ==>
      r.table == FeedbackRepository.Insert(t, Some(TypeItems[selectedIndex]), Some(Trim(box.text)), Some(DisplayName(userDisplayName)), rowId, utcNow)
    ensures r.SaveFailed? <==> selectedIndex > 0 && !IsBlank(MessageOf(box)) && failure.Some?
    ensures r.SaveFailed? ==> r.message == SaveFailedPrefix + failure.value
  {
    var feedbackType := SelectedType(selectedIndex);
    var msg := MessageOf(box);
    if IsNullOrWhiteSpace(feedbackType) then Prompt(SelectType)
    else if IsBlank(msg) then Prompt(EnterMessage)
    else if failure.Some? then SaveFailed(SaveFailedPrefix + failure.value)
    else Saved(FeedbackRepository.Insert(t, feedbackType, Some(msg), Some(DisplayName(userDisplayName)), rowId, utcNow))
  }

  /**
   * Submitting, then listing the latest feedback: the new entry comes first
   * with the chosen type, the trimmed message and the signing name.
   */
  lemma SubmitThenLatest(
    t: seq<FeedbackRepository.FeedbackRow>, userDisplayName: Option<string>, selectedIndex: int, box: MessageBox,
    rowId: nat, utcNow: DateTime, later: DateTime)
    requires -1 <= selectedIndex < |TypeItems|
    requires FeedbackRepository.Valid(t) && FeedbackRepository.FreshId(t, rowId)
    requires Submit(t, userDisplayName, selectedIndex, box, None, rowId, utcNow).Saved?
    ensures var u := Submit(t, userDisplayName, selectedIndex, box, None, rowId, utcNow).table;
      var e := FeedbackRepository.GetLatest(u, FeedbackRepository.DefaultCount, later)[0];
      && e.feedbackType == TypeItems[selectedIndex]
      && e.message == Trim(box.text) && !IsBlank(e.message)
      && e.userName == DisplayName(userDisplayName)
      && e.createdAt == utcNow
  {
    FeedbackRepository.InsertThenGetLatest(
      t, Some(TypeItems[selectedIndex]), Some(Trim(box.text)), Some(DisplayName(userDisplayName)),
      rowId, utcNow, FeedbackRepository.DefaultCount, later);
    TrimKeepsBlankness(box.text);
  }
}
