/** The contact form's submit handler: the required-field check, the e-mail
    shape check, and which notification it shows and what happens to the
    form's fields. */
module ContactForm {

  import opened Wrappers
  import opened Text
  import opened EmailRegex

  /** The submitted fields, by name, as collected from the form. A name the
      form did not send is absent from the map. */
  type Form = map<string, string>

  const RequiredFields: seq<string> := ["name", "email", "service", "message"]

  /** `formData[field]` is truthy (present and not the empty string) and its
      trimmed value is not empty. */
  predicate Filled(form: Form, field: string) {
    field in form && form[field] != "" && Trim(form[field]) != ""
  }

  /** A field passes the required check exactly when it is present and holds
      some character that is not whitespace. */
  lemma FilledIff(form: Form, field: string)
    ensures Filled(form, field) <==> field in form && !AllWhitespace(form[field])
  {
  }

  /** The `for ... of` loop over the required fields with its early return:
      the position of the first field that fails the check, if any. */
  function FirstUnfilled(form: Form, fields: seq<string>): (r: Option<nat>)
    ensures r.None? <==> forall k :: 0 <= k < |fields| ==> Filled(form, fields[k])
    ensures r.Some? ==>
              && r.value < |fields|
              && !Filled(form, fields[r.value])
              && forall k :: 0 <= k < r.value ==> Filled(form, fields[k])
  {
    if fields == [] then None
    else if !Filled(form, fields[0]) then Some(0)
    else
      var rest := fields[1..];
      assert forall k :: 0 < k < |fields| ==> fields[k] == rest[k - 1];
      match FirstUnfilled(form, rest)
      case None => None
      case Some(k) => Some(k + 1)
  }

  /** `validateForm`: the e-mail is only examined once all four required
      fields passed, so a missing e-mail never reaches the expression. */
  function ValidateForm(form: Form): (ok: bool)
    ensures ok <==>
              && Filled(form, "name")
              && Filled(form, "email")
              && Filled(form, "service")
              && Filled(form, "message")
              && Matches(form["email"])
  {
    match FirstUnfilled(form, RequiredFields)
    case Some(_) => false
    case None =>
      assert Filled(form, RequiredFields[0]) && Filled(form, RequiredFields[1]);
      assert Filled(form, RequiredFields[2]) && Filled(form, RequiredFields[3]);
      Matches(form["email"])
  }

  /** Any required field that is absent, empty or whitespace-only makes the
      form invalid, whatever the other fields hold. */
  lemma RejectsUnfilled(form: Form, field: string)
    requires field in RequiredFields
    requires field !in form || AllWhitespace(form[field])
    ensures !ValidateForm(form)
  {
  }

  /** The e-mail shape is applied to the value as sent, not to its trimmed
      form: a leading space passes the required check, and the trimmed
      address would match, but the form is refused. */
  lemma UntrimmedEmailRejected(form: Form)
    requires form == map["name" := "A", "email" := " a@b.com", "service" := "x", "message" := "hi"]
    ensures Filled(form, "email")
    ensures !Matches(form["email"]) && Matches(Trim(form["email"]))
    ensures !ValidateForm(form)
  {
    var e := form["email"];
    assert e == " a@b.com";
    assert !AllWhitespace(e) by { assert !IsWhitespace(e[1]); }
    FilledIff(form, "email");
    assert IsWhitespace(e[0]);
    MatchesIffFeatures(e);
    assert LeadingWhitespace(e) == 1;
    assert Trim(e) == "a@b.com";
    assert MatchAt("a@b.com", 1, 3);
  }

  /** A complete submission with a well-formed address is accepted. */
  lemma AcceptsWellFormedExample(form: Form)
    requires form == map["name" := "A", "email" := "a@b.com", "service" := "x", "message" := "hi"]
    ensures ValidateForm(form)
  {
    assert form["name"] == "A" && form["email"] == "a@b.com";
    assert form["service"] == "x" && form["message"] == "hi";
    assert !AllWhitespace(form["name"]) by { assert !IsWhitespace(form["name"][0]); }
    assert !AllWhitespace(form["email"]) by { assert !IsWhitespace(form["email"][0]); }
    assert !AllWhitespace(form["service"]) by { assert !IsWhitespace(form["service"][0]); }
    assert !AllWhitespace(form["message"]) by { assert !IsWhitespace(form["message"][0]); }
    FilledIff(form, "name");
    FilledIff(form, "email");
    FilledIff(form, "service");
    FilledIff(form, "message");
    assert Matches(form["email"]) by { assert MatchAt("a@b.com", 1, 3); }
  }

  /** The same submission with an empty name is refused. */
  lemma RejectsEmptyNameExample(form: Form)
    requires form == map["name" := "", "email" := "a@b.com", "service" := "x", "message" := "hi"]
    ensures !ValidateForm(form)
  {
  }

  datatype ToastKind = SuccessToast | ErrorToast

  datatype Toast = Toast(message: string, kind: ToastKind)

  /** What a submit leaves behind: the notification shown and the fields the
      form then holds. */
  datatype Submission = Submission(toast: Toast, fields: Form)

  const SuccessMessage: string :=
    "Thank you! Your message has been sent successfully. I will get back to you soon."
  const ErrorMessage: string := "Please fill in all required fields correctly."

  /** The submit handler. `defaults` are the values `reset()` restores. */
  function Submit(form: Form, defaults: Form): (r: Submission)
    ensures r.toast.kind == SuccessToast <==> ValidateForm(form)
    ensures r.toast.kind == SuccessToast ==> r.toast.message == SuccessMessage && r.fields == defaults
    ensures r.toast.kind == ErrorToast ==> r.toast.message == ErrorMessage && r.fields == form
  {
    if ValidateForm(form) then Submission(Toast(SuccessMessage, SuccessToast), defaults)
    else Submission(Toast(ErrorMessage, ErrorToast), form)
  }
}
