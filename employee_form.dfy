/**
  The add/edit dialog: the draft being edited, the per-field error messages,
  and the submitting flag, with the checks run before the draft is handed on.
 */
module EmployeeForm {
  import opened Wrappers
  import opened Types
  import opened EmailPattern
  import Validation

  /** The three inputs of the form, by their `name` attribute. */
  datatype Field = NameField | EmailField | PositionField

  const NAME_TOO_SHORT := "Name must be at least 3 characters"
  const NAME_TOO_LONG := "Name must be less than 50 characters"
  const INVALID_EMAIL := "Invalid email format"

  /** The draft a new form starts from. */
  const EMPTY_FORM := Draft("", "", "Developer")

  /** The draft an existing employee is edited from. */
  function DraftOf(e: Employee): (d: Draft)
    ensures d.name == e.name && d.email == e.email && d.position == RoleName(e.position)
  {
    Draft(e.name, e.email, RoleName(e.position))
  }

  /** The value of one input. */
  function FieldValue(d: Draft, f: Field): string
  {
    match f
    case NameField => d.name
    case EmailField => d.email
    case PositionField => d.position
  }

  /** `{ ...prev, [name]: value }` on the draft. */
  function SetField(d: Draft, f: Field, value: string): (r: Draft)
    ensures FieldValue(r, f) == value
  {
    match f
    case NameField => d.(name := value)
    case EmailField => d.(email := value)
    case PositionField => d.(position := value)
  }

  /** Setting one input leaves the other two as they were. */
  lemma SetFieldOnlyThatField(d: Draft, f: Field, value: string, g: Field)
    ensures FieldValue(SetField(d, f, value), g) == if g == f then value else FieldValue(d, g)
  {
  }

  /** The draft passes the form's own checks: name length in bounds and a well-formed email. */
  predicate Accepted(d: Draft)
  {
    NAME_MIN <= |d.name| <= NAME_MAX && IsValidEmail(d.email)
  }

  /**
    The errors `validateForm` records for a draft: a name message exactly when
    the length is out of bounds (too short or too long), an email message
    exactly when the email is malformed, and never a position message.
   */
  function FormErrors(d: Draft): (r: map<Field, string>)
    ensures NameField in r <==> |d.name| < NAME_MIN || |d.name| > NAME_MAX
    ensures |d.name| < NAME_MIN ==> r[NameField] == NAME_TOO_SHORT
    ensures |d.name| > NAME_MAX ==> r[NameField] == NAME_TOO_LONG
    ensures EmailField in r <==> !IsValidEmail(d.email)
    ensures EmailField in r ==> r[EmailField] == INVALID_EMAIL
    ensures PositionField !in r
    ensures r == map[] <==> Accepted(d)
  {
    var name := if |d.name| < NAME_MIN then map[NameField := NAME_TOO_SHORT]
                else if |d.name| > NAME_MAX then map[NameField := NAME_TOO_LONG]
                else map[];
    if IsValidEmail(d.email) then name else name[EmailField := INVALID_EMAIL]
  }

  /**
    A draft the form accepts also passes the required-field check of the
    validation utility whenever a position is selected: a name of three or
    more characters and a well-formed email are never empty.
   */
  lemma AcceptedPassesRequiredCheck(d: Draft)
    requires Accepted(d)
    ensures Validation.ValidateEmployee(d) == if d.position == "" then Some(Validation.POSITION_REQUIRED) else None
  {
  }

  /** The state of one open form. */
  class FormState {
    /** The employee being edited, or `None` when adding. */
    var initialData: Option<Employee>
    var form: Draft
    var errors: map<Field, string>
    var isSubmitting: bool

    /** A fresh form, with the employee's fields copied in when editing. */
    constructor (initialData: Option<Employee>)
      ensures this.initialData == initialData
      ensures initialData.None? ==> form == EMPTY_FORM
      ensures initialData.Some? ==> form == DraftOf(initialData.value)
      ensures errors == map[] && !isSubmitting
    {
      this.initialData := initialData;
      if initialData.Some? {
        form := DraftOf(initialData.value);
      } else {
        form := EMPTY_FORM;
      }
      errors := map[];
      isSubmitting := false;
    }

    /**
      The effect on a new `initialData`: an employee is copied into the draft;
      no employee leaves the draft as it is.
     */
    method InitialDataChanged(newData: Option<Employee>)
      modifies this`initialData, this`form
      ensures initialData == newData
      ensures form == if newData.Some? then DraftOf(newData.value) else old(form)
    {
      initialData := newData;
      if newData.Some? {
        form := DraftOf(newData.value);
      }
    }

    /**
      An edit to one input: that input takes the value, and its error message,
      if it has a non-empty one, is blanked; nothing else changes.
     */
    method HandleChange(field: Field, value: string)
      modifies this`form, this`errors
      ensures form == SetField(old(form), field, value)
      ensures forall g :: g != field ==> FieldValue(form, g) == FieldValue(old(form), g)
      ensures errors.Keys == old(errors).Keys
      ensures forall g :: g in errors && g != field ==> errors[g] == old(errors)[g]
      ensures field in errors ==> errors[field] == ""
    {
      form := SetField(form, field, value);
      if field in errors && errors[field] != "" {
        errors := errors[field := ""];
      }
    }

    /**
      `validateForm`: records exactly the errors of the current draft, replacing
      the old ones, and answers whether there were none.
     */
    method ValidateForm() returns (ok: bool)
      modifies this`errors
      ensures errors == FormErrors(form)
      ensures ok <==> Accepted(form)
    {
      var newErrors: map<Field, string> := map[];
      if |form.name| < NAME_MIN {
        newErrors := newErrors[NameField := NAME_TOO_SHORT];
      }
      if |form.name| > NAME_MAX {
        newErrors := newErrors[NameField := NAME_TOO_LONG];
      }
      if !IsValidEmail(form.email) {
        newErrors := newErrors[EmailField := INVALID_EMAIL];
      }
      errors := newErrors;
      ok := |newErrors.Keys| == 0;
    }

    /**
      `handleSubmit`: a draft that fails the checks is not handed on. An
      accepted draft is handed on as it stands; `submitSucceeds` says whether
      the callback completed. Only then is the dialog closed and, when adding,
      the draft reset to the empty form.
     */
    method HandleSubmit(submitSucceeds: bool) returns (submitted: Option<Draft>, closed: bool)
      modifies this`form, this`errors, this`isSubmitting
      ensures errors == FormErrors(old(form))
      ensures submitted.Some? <==> Accepted(old(form))
      ensures submitted.Some? ==> submitted.value == old(form)
      ensures closed <==> submitted.Some? && submitSucceeds
      ensures form == if closed && initialData.None? then EMPTY_FORM else old(form)
      ensures isSubmitting == if submitted.Some? then false else old(isSubmitting)
    {
      var valid := ValidateForm();
      if !valid {
        return None, false;
      }
      isSubmitting := true;
      submitted := Some(form);
      closed := false;
      if submitSucceeds {
        if initialData.None? {
          form := EMPTY_FORM;
        }
        closed := true;
      }
      isSubmitting := false;
    }
  }

}
