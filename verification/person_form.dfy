/**
 * The person form of the frontend: its state (the two input values, the
 * per-field error messages, the submitting flag), the validator and the
 * handlers that move the state. Each handler is one atomic transition; the
 * asynchronous `onSubmit` call is split into the step that starts it and the
 * step that runs once its promise settles.
 */
module PersonForm {
  import opened Wrappers
  import opened Text
  import opened EmailPattern

  datatype Field = Name | Email

  datatype FormData = FormData(name: string, email: string)
  {
    function Get(f: Field): string
    {
      match f
      case Name => name
      case Email => email
    }

    function Set(f: Field, v: string): FormData
    {
      match f
      case Name => this.(name := v)
      case Email => this.(email := v)
    }
  }

  const Blank := FormData("", "")

  /** `errors` maps a field to its message; a field whose error was cleared
      keeps its key with the empty message, as the component does. */
  datatype FormState = FormState(formData: FormData, errors: map<Field, string>, isSubmitting: bool)

  const NameRequired := "Name is required"
  const EmailRequired := "Email is required"
  const InvalidEmail := "Invalid email format"

  /** The error of `f` is displayed: the message is present and non-empty. */
  predicate Shows(errors: map<Field, string>, f: Field)
  {
    f in errors && errors[f] != ""
  }

  /** The data the form lets through: a name and an e-mail that are not blank,
      and an e-mail the format expression accepts as typed. */
  predicate Acceptable(d: FormData)
  {
    !AllWhitespace(d.name) && !AllWhitespace(d.email) && RegexMatch(d.email)
  }

  /** `validateForm`: the name is checked after trimming, the e-mail for
      presence after trimming and then, untrimmed, against the pattern. */
  function ValidateForm(d: FormData): (errs: map<Field, string>)
    ensures Name in errs <==> AllWhitespace(d.name)
    ensures Name in errs ==> errs[Name] == NameRequired
    ensures Email in errs <==> AllWhitespace(d.email) || !RegexMatch(d.email)
    ensures Email in errs ==> errs[Email] == if AllWhitespace(d.email) then EmailRequired else InvalidEmail
    ensures errs == map[] <==> Acceptable(d)
  {
    EmailFormatIsRegex(d.email);
    var nameErrors := if Trim(d.name) == [] then map[Name := NameRequired] else map[];
    var emailErrors :=
      if Trim(d.email) == [] then map[Email := EmailRequired]
      else if !EmailFormat(d.email) then map[Email := InvalidEmail]
      else map[];
    var errs := nameErrors + emailErrors;
    assert Name in errs ==> Name in nameErrors;
    errs
  }

  /** The name's error depends on the name alone and the e-mail's on the
      e-mail alone. */
  lemma ValidateFieldsIndependent(d1: FormData, d2: FormData)
    ensures d1.name == d2.name ==>
      (Name in ValidateForm(d1) <==> Name in ValidateForm(d2))
      && (Name in ValidateForm(d1) ==> ValidateForm(d1)[Name] == ValidateForm(d2)[Name])
    ensures d1.email == d2.email ==>
      (Email in ValidateForm(d1) <==> Email in ValidateForm(d2))
      && (Email in ValidateForm(d1) ==> ValidateForm(d1)[Email] == ValidateForm(d2)[Email])
  {
  }

  /** An e-mail with whitespace at either end passes the presence check and
      is then refused as malformed. */
  lemma PaddedEmailIsInvalid(d: FormData)
    requires !AllWhitespace(d.email)
    requires IsWhitespace(d.email[0]) || IsWhitespace(d.email[|d.email| - 1])
    ensures Email in ValidateForm(d) && ValidateForm(d)[Email] == InvalidEmail
  {
    PaddedEmailNeverMatches(d.email);
  }

  /** `handleChange`: stores the typed value in its own field and blanks that
      field's error if one is displayed; nothing else changes. */
  function HandleChange(st: FormState, f: Field, v: string): (r: FormState)
    ensures r.formData.Get(f) == v
    ensures forall g: Field | g != f :: r.formData.Get(g) == st.formData.Get(g)
    ensures !Shows(r.errors, f)
    ensures r.errors.Keys == st.errors.Keys
    ensures forall g: Field | g != f && g in st.errors :: r.errors[g] == st.errors[g]
    ensures !Shows(st.errors, f) ==> r.errors == st.errors
    ensures r.isSubmitting == st.isSubmitting
  {
    var errors := if Shows(st.errors, f) then st.errors[f := ""] else st.errors;
    st.(formData := st.formData.Set(f, v), errors := errors)
  }

  /** The effect that runs whenever `editingPerson` changes: load the
      person's name and e-mail, or blank the form when there is none, and
      clear every error. */
  function LoadEditing(st: FormState, editing: Option<FormData>): (r: FormState)
    ensures r.errors == map[] && forall f: Field :: !Shows(r.errors, f)
    ensures r.formData == if editing.Some? then editing.value else Blank
    ensures r.isSubmitting == st.isSubmitting
  {
    var data := match editing
      case Some(p) => p
      case None => Blank;
    st.(formData := data, errors := map[])
  }

  /** How the promise returned by `onSubmit` settled. */
  datatype SubmitOutcome = Resolved | Rejected

  /** The synchronous part of `handleSubmit`: either the validation errors
      are recorded and nothing is sent, or the form enters the submitting
      state and `onSubmit` is called with the current data. */
  function BeginSubmit(st: FormState): (r: (FormState, Option<FormData>))
    ensures r.1.Some? <==> Acceptable(st.formData)
    ensures r.1.Some? ==> r.1.value == st.formData && r.0 == st.(isSubmitting := true)
    ensures r.1.None? ==> r.0.formData == st.formData && r.0.isSubmitting == st.isSubmitting
    ensures r.1.None? ==> r.0.errors == ValidateForm(st.formData)
    ensures r.1.None? ==> exists f: Field :: Shows(r.0.errors, f)
  {
    var errs := ValidateForm(st.formData);
    if errs != map[] then
      var shown := if Name in errs then Name else Email;
      assert shown in errs;
      assert Shows(errs, shown);
      (st.(errors := errs), None)
    else
      (st.(isSubmitting := true), Some(st.formData))
  }

  /** The part of `handleSubmit` after `onSubmit` settles: the data is
      blanked only if it resolved, the submitting flag is dropped either way
      (the `finally` block). */
  function SettleSubmit(st: FormState, outcome: SubmitOutcome): (r: FormState)
    ensures !r.isSubmitting && r.errors == st.errors
    ensures outcome.Resolved? ==> r.formData == Blank
    ensures outcome.Rejected? ==> r.formData == st.formData
  {
    match outcome
    case Resolved => st.(formData := Blank, isSubmitting := false)
    case Rejected => st.(isSubmitting := false)
  }

  /** One whole submission: the state afterwards, the data `onSubmit` was
      called with (if it was), and whether the rejection of `onSubmit`
      escaped `handleSubmit` (there is no `catch`). */
  datatype Submission = Submission(state: FormState, sent: Option<FormData>, escaped: bool)

  function HandleSubmit(st: FormState, outcome: SubmitOutcome): (r: Submission)
    ensures r.sent.Some? <==> Acceptable(st.formData)
    ensures r.sent.Some? ==> r.sent.value == st.formData
    ensures r.sent.None? ==> r.state.formData == st.formData && r.state.isSubmitting == st.isSubmitting
    ensures r.sent.None? ==> r.state.errors == ValidateForm(st.formData)
    ensures r.sent.Some? ==> !r.state.isSubmitting && r.state.errors == st.errors
    ensures r.sent.Some? && outcome.Resolved? ==> r.state.formData == Blank
    ensures r.sent.Some? && outcome.Rejected? ==> r.state.formData == st.formData
    ensures r.escaped <==> r.sent.Some? && outcome.Rejected?
  {
    var (started, sent) := BeginSubmit(st);
    match sent
    case None => Submission(started, None, false)
    case Some(_) => Submission(SettleSubmit(started, outcome), sent, outcome.Rejected?)
  }

  /** Editing a person and submitting without typing sends that person's
      data exactly when it is acceptable, and a successful send leaves a
      blank form. */
  lemma EditThenSubmit(st: FormState, p: FormData, outcome: SubmitOutcome)
    ensures var r := HandleSubmit(LoadEditing(st, Some(p)), outcome);
      && (r.sent.Some? <==> Acceptable(p))
      && (r.sent.Some? ==> r.sent.value == p)
      && (r.sent.Some? && outcome.Resolved? ==> r.state.formData == Blank)
  {
  }

  /** Typing a name and an e-mail into any form state leaves exactly those
      two values in the form, in either order, with no error displayed. */
  lemma TypeBothFields(st: FormState, name: string, email: string)
    ensures HandleChange(HandleChange(st, Name, name), Email, email).formData == FormData(name, email)
    ensures HandleChange(HandleChange(st, Email, email), Name, name).formData == FormData(name, email)
    ensures forall f: Field :: !Shows(HandleChange(HandleChange(st, Name, name), Email, email).errors, f)
    ensures forall f: Field :: !Shows(HandleChange(HandleChange(st, Email, email), Name, name).errors, f)
  {
    var once := HandleChange(st, Name, name);
    var twice := HandleChange(once, Email, email);
    assert twice.formData.Get(Name) == name && twice.formData.Get(Email) == email;
    assert !Shows(twice.errors, Name);
    assert !Shows(HandleChange(HandleChange(st, Email, email), Name, name).errors, Email);
  }
}
