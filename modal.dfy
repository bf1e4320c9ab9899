/**
 * `UploadModal`: the dialog that asks for the group label. The text field's
 * change handler buffers the last value in `result`; the Submit button closes
 * the dialog, copies `result` into `note.group` and calls `onSubmit` once.
 */
module Dialog {
  import opened Wrappers
  import opened Notes

  /** What `onOpen` puts into the dialog's content element. */
  datatype Element = Heading(text: string) | TextSetting(name: string) | ButtonSetting(caption: string)

  const Form: seq<Element> := [Heading("Uploading note"), TextSetting("Group"), ButtonSetting("Submit")]

  /** `note.group = this.result`: an unset `result` is `undefined`. */
  function GroupOf(result: Option<string>): (g: GroupField)
    ensures result.None? <==> g == Undefined
    ensures forall v :: result == Some(v) <==> g == Label(v)
  {
    match result
    case None => Undefined
    case Some(v) => Label(v)
  }

  class UploadModal {
    /** The last value of the Group field, unset until its first change. */
    var result: Option<string>
    var note: Note
    var isOpen: bool
    /** The children of the content element. */
    var view: seq<Element>
    /** The records `onSubmit` was called with, in order. */
    var submitted: seq<Note>

    constructor (note: Note)
      ensures this.note == note && result == None
      ensures !isOpen && view == [] && submitted == []
    {
      this.note := note;
      result := None;
      isOpen := false;
      view := [];
      submitted := [];
    }

    /** `open()`, which runs `onOpen` and renders the form. */
    method Open()
      modifies this`isOpen, this`view
      ensures isOpen && view == old(view) + Form
    {
      isOpen := true;
      view := view + Form;
    }

    /** The Group field's `onChange` handler. */
    method Change(value: string)
      requires isOpen
      modifies this`result
      ensures result == Some(value)
    {
      result := Some(value);
    }

    /** The Submit button's `onClick` handler. */
    method Submit()
      requires isOpen
      modifies this`isOpen, this`view, this`note, this`submitted
      ensures !isOpen && view == []
      ensures note == old(note).(group := GroupOf(result))
      ensures submitted == old(submitted) + [note]
    {
      Close();
      note := note.(group := GroupOf(result));
      submitted := submitted + [note];
    }

    /** `close()`, which runs `onClose` and empties the content element. */
    method Close()
      modifies this`isOpen, this`view
      ensures !isOpen && view == []
    {
      isOpen := false;
      view := [];
    }
  }

  /** What the user does while the dialog is up, in order. */
  datatype Event = Edit(value: string) | ClickSubmit | Dismiss

  /** The index of the first event that closes the dialog, or `|events|`. */
  function FirstClose(events: seq<Event>): (k: nat)
    ensures k <= |events|
    ensures forall m :: 0 <= m < k ==> events[m].Edit?
    ensures k < |events| ==> !events[k].Edit?
  {
    if events == [] || !events[0].Edit? then 0 else 1 + FirstClose(events[1..])
  }

  /** No event after position `m` is an edit. */
  predicate NoEditAfter(events: seq<Event>, m: nat)
  {
    forall m' :: m < m' < |events| ==> !events[m'].Edit?
  }

  /** The value of the last edit among `events`, if any. */
  function LastEdit(events: seq<Event>): (v: Option<string>)
    ensures v.None? <==> forall m :: 0 <= m < |events| ==> !events[m].Edit?
    ensures v.Some? ==>
      exists m: nat :: m < |events| && events[m] == Edit(v.value) && NoEditAfter(events, m)
  {
    if events == [] then None
    else match events[|events| - 1]
      case Edit(v) => assert NoEditAfter(events, |events| - 1); Some(v)
      case _ =>
        var prefix := events[..|events| - 1];
        assert forall m: nat :: m < |prefix| && NoEditAfter(prefix, m) ==> NoEditAfter(events, m);
        LastEdit(prefix)
  }

  /**
   * Reference outcome of one dialog: the records handed to `onSubmit`. Only a
   * Submit that comes before any dismissal submits, once, with the group set to
   * the last edit before it; later events find the dialog closed.
   */
  function Submissions(note: Note, events: seq<Event>): seq<Note>
  {
    var k := FirstClose(events);
    if k < |events| && events[k] == ClickSubmit
    then [note.(group := GroupOf(LastEdit(events[..k])))]
    else []
  }

  lemma {:induction false} LastEditSnoc(events: seq<Event>, v: string)
    ensures LastEdit(events + [Edit(v)]) == Some(v)
  {
    assert (events + [Edit(v)])[|events|] == Edit(v);
  }

  lemma {:induction false} FirstClosePrefix(events: seq<Event>, more: seq<Event>)
    requires FirstClose(events) < |events|
    ensures FirstClose(events + more) == FirstClose(events)
  {
    if events[0].Edit? {
      assert (events + more)[1..] == events[1..] + more;
      FirstClosePrefix(events[1..], more);
    }
  }

  /**
   * The dialog's main promise: when Submit is the first event that is not an
   * edit, `onSubmit` receives the record once, with the group set to the edit
   * just before Submit, or `undefined` when the field was never edited.
   */
  lemma {:induction false} SubmitTakesLastEdit(note: Note, events: seq<Event>, k: nat)
    requires k < |events| && events[k] == ClickSubmit
    requires forall m :: 0 <= m < k ==> events[m].Edit?
    ensures Submissions(note, events) ==
      [note.(group := if k == 0 then Undefined else Label(events[k - 1].value))]
  {
    assert FirstClose(events) == k;
    if k > 0 {
      assert events[..k] == events[..k - 1] + [Edit(events[k - 1].value)];
      LastEditSnoc(events[..k - 1], events[k - 1].value);
    }
  }

  /** Events after the dialog has closed change nothing. */
  lemma {:induction false} LaterEventsIgnored(note: Note, events: seq<Event>, more: seq<Event>)
    requires FirstClose(events) < |events|
    ensures Submissions(note, events + more) == Submissions(note, events)
  {
    var k := FirstClose(events);
    FirstClosePrefix(events, more);
    assert (events + more)[..k] == events[..k];
    assert (events + more)[k] == events[k];
  }

  /** `onSubmit` runs at most once, and never unless Submit is the first closing event. */
  lemma {:induction false} SubmitAtMostOnce(note: Note, events: seq<Event>)
    ensures |Submissions(note, events)| <= 1
    ensures |Submissions(note, events)| == 1 <==>
      exists k :: 0 <= k < |events| && events[k] == ClickSubmit && forall m :: 0 <= m < k ==> events[m].Edit?
  {
    var f := FirstClose(events);
    if exists k :: 0 <= k < |events| && events[k] == ClickSubmit && forall m :: 0 <= m < k ==> events[m].Edit? {
      var k :| 0 <= k < |events| && events[k] == ClickSubmit && forall m :: 0 <= m < k ==> events[m].Edit?;
      assert f == k;
    }
  }

  /**
   * One dialog as the host drives it: the ribbon action opens it and the
   * user's events reach the handlers until it closes. The result is the list
   * of records `onSubmit` received.
   */
  method RunDialog(note: Note, events: seq<Event>) returns (sent: seq<Note>)
    ensures sent == Submissions(note, events)
  {
    var modal := new UploadModal(note);
    modal.Open();
    var i := 0;
    while i < |events| && modal.isOpen
      invariant 0 <= i <= |events|
      invariant modal.isOpen ==> i <= FirstClose(events)
      invariant modal.isOpen ==> modal.result == LastEdit(events[..i])
      invariant modal.isOpen ==> modal.note == note && modal.submitted == []
      invariant !modal.isOpen ==> modal.submitted == Submissions(note, events)
    {
      match events[i] {
        case Edit(v) =>
          modal.Change(v);
          assert events[..i + 1] == events[..i] + [Edit(v)];
          LastEditSnoc(events[..i], v);
        case ClickSubmit =>
          modal.Submit();
        case Dismiss =>
          modal.Close();
      }
      i := i + 1;
    }
    sent := modal.submitted;
  }
}
