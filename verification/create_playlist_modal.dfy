/** The dialog that creates a playlist
    (`frontend/src/components/CreatePlaylistModal.tsx`). Submitting is
    asynchronous, so it is two steps here: `Begin` runs up to the backend
    call, and `Settle` runs when the call succeeds or fails. Between them the
    mutation is pending. */
module CreatePlaylistModal {
  import opened Maybe
  import opened Strings

  const NameRequired: string := "Playlist name is required."
  const CreateFailed: string := "Failed to create playlist. Please try again."

  /** The text box, the error line (empty for none) and whether a create
      call is in flight. */
  datatype Dialog = Dialog(name: string, error: string, pending: bool)

  const Initial: Dialog := Dialog("", "", false)

  /** What a handler did besides changing the state: the name the backend
      was asked to create, if any, and whether `onClose` was called. */
  datatype Step = Step(dialog: Dialog, created: Option<string>, closed: bool)

  /** The submit button is enabled: no call in flight and a name that is not
      blank. */
  predicate SubmitEnabled(d: Dialog) {
    !d.pending && Trim(d.name) != ""
  }

  /** `handleSubmit` up to the backend call: a blank name only sets the
      required error; otherwise the error is cleared and the trimmed name is
      sent. */
  function Begin(d: Dialog): (s: Step)
    ensures s.created.None? <==> Blank(d.name)
    ensures s.created.None? ==> s.dialog == d.(error := NameRequired)
    ensures s.created.Some? ==> s.created.value == Trim(d.name) && s.dialog == Dialog(d.name, "", true)
    ensures s.created.Some? ==> s.created.value != "" && Unpadded(s.created.value)
    ensures !s.closed
  {
    var trimmed := Trim(d.name);
    if trimmed == "" then Step(d.(error := NameRequired), None, false)
    else Step(Dialog(d.name, "", true), Some(trimmed), false)
  }

  /** The rest of `handleSubmit`: on success the name is cleared and the
      dialog closes; on failure the error is shown and the name stays. */
  function Settle(d: Dialog, success: bool): (s: Step)
    ensures s.created.None? && !s.dialog.pending
    ensures success ==> s.closed && s.dialog == Dialog("", d.error, false)
    ensures !success ==> !s.closed && s.dialog == Dialog(d.name, CreateFailed, false)
  {
    if success then Step(Dialog("", d.error, false), None, true)
    else Step(Dialog(d.name, CreateFailed, false), None, false)
  }

  /** Typing in the box: the new text, and no error. */
  function Edit(d: Dialog, value: string): (r: Dialog)
    ensures r.name == value && r.error == "" && r.pending == d.pending
  {
    Dialog(value, "", d.pending)
  }

  /** `handleOpenChange`: closing clears the name and the error; opening
      does nothing. */
  function OpenChange(d: Dialog, open: bool): (s: Step)
    ensures s.created.None?
    ensures s.closed <==> !open
    ensures !open ==> s.dialog.name == "" && s.dialog.error == "" && s.dialog.pending == d.pending
    ensures open ==> s.dialog == d
  {
    if !open then Step(Dialog("", "", d.pending), None, true)
    else Step(d, None, false)
  }

  /** Pressing an enabled submit button always reaches the backend, with a
      non-empty trimmed name, and leaves the button disabled while the call
      is in flight. */
  lemma EnabledSubmitCreates(d: Dialog)
    requires SubmitEnabled(d)
    ensures Begin(d).created == Some(Trim(d.name))
    ensures !SubmitEnabled(Begin(d).dialog)
  {
  }

  /** A successful create leaves an empty, error-free dialog whose button
      is disabled until a new name is typed; a failed one keeps the name, so
      the same name can be submitted again. */
  lemma AfterSettle(d: Dialog)
    requires Begin(d).created.Some?
    ensures var ok := Settle(Begin(d).dialog, true).dialog;
      ok == Initial && !SubmitEnabled(ok)
    ensures var failed := Settle(Begin(d).dialog, false).dialog;
      SubmitEnabled(failed) && Begin(failed).created == Begin(d).created
  {
  }
}
