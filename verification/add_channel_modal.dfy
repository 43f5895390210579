/** The dialog that adds a channel by hand
    (`frontend/src/components/AddChannelModal.tsx`): the form, its two
    possible errors, and the edit, submit and close handlers. Whether the
    `URL` constructor accepts a string is the parameter `isUrl`. */
module AddChannelModal {
  import opened Maybe
  import opened Strings
  import ManualChannels

  const NameRequired: string := "Channel name is required."
  const UrlRequired: string := "Stream URL is required."
  const UrlInvalid: string := "Please enter a valid URL."

  /** The five text boxes. */
  datatype Form = Form(name: string, streamUrl: string, thumbnailUrl: string, language: string, country: string)

  const EmptyForm: Form := Form("", "", "", "", "")

  datatype FieldName = Name | StreamUrl | ThumbnailUrl | Language | Country

  /** The error shown under each of the two checked fields, if any. */
  datatype Errors = Errors(name: Option<string>, streamUrl: Option<string>)

  const NoErrors: Errors := Errors(None, None)

  /** The form as the input record `onAdd` receives: every field present. */
  function AsInput(form: Form): ManualChannels.ManualInput {
    ManualChannels.ManualInput(form.name, form.streamUrl, Some(form.thumbnailUrl), Some(form.language), Some(form.country))
  }

  /** `validate`, without the state update: a blank name is an error; a blank
      URL is one error and a URL the `URL` constructor rejects after trimming
      is another, never both. */
  function Validate(form: Form, isUrl: string -> bool): (e: Errors)
    ensures e.name.Some? <==> Blank(form.name)
    ensures e.name.Some? ==> e.name.value == NameRequired
    ensures e.streamUrl == Some(UrlRequired) <==> Blank(form.streamUrl)
    ensures e.streamUrl == Some(UrlInvalid) <==> !Blank(form.streamUrl) && !isUrl(Trim(form.streamUrl))
    ensures e.streamUrl.None? <==> !Blank(form.streamUrl) && isUrl(Trim(form.streamUrl))
  {
    assert UrlRequired[0] != UrlInvalid[0];
    var nameError := if Trim(form.name) == "" then Some(NameRequired) else None;
    var urlError :=
      if Trim(form.streamUrl) == "" then Some(UrlRequired)
      else if !isUrl(Trim(form.streamUrl)) then Some(UrlInvalid)
      else None;
    Errors(nameError, urlError)
  }

  /** No error was recorded. */
  predicate Passes(e: Errors) {
    e.name.None? && e.streamUrl.None?
  }

  /** The dialog state. */
  datatype Modal = Modal(form: Form, errors: Errors)

  const Initial: Modal := Modal(EmptyForm, NoErrors)

  /** What a handler did besides changing the state: the input passed to
      `onAdd`, if it was called, and whether `onClose` was called. */
  datatype Step = Step(modal: Modal, added: Option<ManualChannels.ManualInput>, closed: bool)

  function Get(form: Form, field: FieldName): string {
    match field
    case Name => form.name
    case StreamUrl => form.streamUrl
    case ThumbnailUrl => form.thumbnailUrl
    case Language => form.language
    case Country => form.country
  }

  function Update(form: Form, field: FieldName, value: string): (r: Form)
    ensures Get(r, field) == value
    ensures forall other :: other != field ==> Get(r, other) == Get(form, other)
  {
    match field
    case Name => form.(name := value)
    case StreamUrl => form.(streamUrl := value)
    case ThumbnailUrl => form.(thumbnailUrl := value)
    case Language => form.(language := value)
    case Country => form.(country := value)
  }

  /** `handleChange(field)`: the field takes the typed value; the error of
      that field, if it has one, goes away; nothing else changes. */
  function Change(m: Modal, field: FieldName, value: string): (r: Modal)
    ensures Get(r.form, field) == value
    ensures forall other :: other != field ==> Get(r.form, other) == Get(m.form, other)
    ensures field == Name ==> r.errors == m.errors.(name := None)
    ensures field == StreamUrl ==> r.errors == m.errors.(streamUrl := None)
    ensures field != Name && field != StreamUrl ==> r.errors == m.errors
  {
    var errors :=
      if field == Name && m.errors.name.Some? then m.errors.(name := None)
      else if field == StreamUrl && m.errors.streamUrl.Some? then m.errors.(streamUrl := None)
      else m.errors;
    Modal(Update(m.form, field, value), errors)
  }

  /** `handleSubmit`: a form that fails validation stays, with the new errors
      shown; one that passes goes to `onAdd` as typed (untrimmed), then the
      dialog resets and closes. */
  function Submit(m: Modal, isUrl: string -> bool): (s: Step)
    ensures s.added.Some? <==> Passes(Validate(m.form, isUrl))
    ensures s.added.Some? ==> s.added.value == AsInput(m.form) && s.modal == Initial && s.closed
    ensures s.added.None? ==> s.modal == Modal(m.form, Validate(m.form, isUrl)) && !s.closed
  {
    var e := Validate(m.form, isUrl);
    if !Passes(e) then Step(Modal(m.form, e), None, false)
    else Step(Initial, Some(AsInput(m.form)), true)
  }

  /** `handleClose`: reset and close, never adding. */
  function Close(m: Modal): (s: Step)
    ensures s.modal == Initial && s.added.None? && s.closed
  {
    Step(Initial, None, true)
  }

  /** Whatever the dialog hands to `onAdd` becomes, once the registry adds
      it, a channel whose name and stream URL are non-empty and whose URL is
      one the `URL` constructor accepts. */
  lemma SubmittedChannelIsComplete(m: Modal, isUrl: string -> bool, reg: ManualChannels.Registry, now: nat)
    requires Submit(m, isUrl).added.Some?
    ensures var c := ManualChannels.AddChannel(reg, Submit(m, isUrl).added.value, now).channel;
      c.name != "" && c.streamUrl != "" && isUrl(c.streamUrl)
  {
  }

  /** A rejected form comes back with exactly the errors it has, and
      submitting it again unchanged rejects it again with the same errors. */
  lemma RejectedStaysRejected(m: Modal, isUrl: string -> bool)
    requires Submit(m, isUrl).added.None?
    ensures Submit(Submit(m, isUrl).modal, isUrl) == Submit(m, isUrl)
  {
  }

  /** Typing a non-blank name clears the name error for good: the next
      submit reports no name error. */
  lemma FixingNameClearsNameError(m: Modal, name: string, isUrl: string -> bool)
    requires !Blank(name)
    ensures Change(m, Name, name).errors.name.None?
    ensures Validate(Change(m, Name, name).form, isUrl).name.None?
  {
  }
}
