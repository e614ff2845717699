/**
 * The form-state hook of the front end (`frontend/src/hooks/useForm.js`):
 * the field values, the error messages, the set of touched fields and the
 * submission flag, changed by the hook's handlers. React's state setters are
 * modelled as assignments that take effect when the handler runs.
 */
module UseForm {
  import opened Js

  /** What a validation schema returns: an errors object keyed by field
      name, or the `TypeError` it throws while checking `field`. */
  datatype SchemaResult =
    | Errors(errs: map<string, string>)
    | Threw(field: string)

  /** What a submission did: the schema threw (the returned promise
      rejects), the errors stopped it, or `onSubmit` was called with
      `payload`. */
  datatype SubmitOutcome =
    | ValidationThrew
    | Blocked
    | Submitted(payload: Values)

  /** `errors[name]` is truthy: present and not the empty string. */
  predicate HasMessage(errors: map<string, string>, name: string) {
    name in errors && errors[name] != ""
  }

  /** `fieldErrors[name] || ''`. */
  function MessageOr(errors: map<string, string>, name: string): (m: string)
    ensures HasMessage(errors, name) ==> m == errors[name]
    ensures !HasMessage(errors, name) ==> m == ""
  {
    if name in errors then errors[name] else ""
  }

  class Form {
    const initialValues: Values
    const schema: Option<Values -> SchemaResult>

    var values: Values
    var errors: map<string, string>
    /** The keys of the `touched` object; the hook only ever stores `true`. */
    var touched: set<string>
    var isSubmitting: bool

    constructor (initialValues: Values, schema: Option<Values -> SchemaResult>)
      ensures this.initialValues == initialValues && this.schema == schema
      ensures values == initialValues && errors == map[] && touched == {} && !isSubmitting
    {
      this.initialValues := initialValues;
      this.schema := schema;
      values := initialValues;
      errors := map[];
      touched := {};
      isSubmitting := false;
    }

    /** `validate`: the schema on the current values; no schema, no errors. */
    function Validate(): (r: SchemaResult)
      reads this
      ensures schema.None? ==> r == Errors(map[])
    {
      if schema.Some? then schema.value(values) else Errors(map[])
    }

    /** `isValid`: the schema reports no key. `None` when the schema throws
        while the hook computes it. */
    function IsValid(): (ok: Option<bool>)
      reads this
      ensures ok.None? <==> Validate().Threw?
      ensures ok == Some(true) <==> Validate() == Errors(map[])
      ensures schema.None? ==> ok == Some(true)
    {
      match Validate()
      case Threw(_) => None
      case Errors(errs) => Some(|errs.Keys| == 0)
    }

    /** `handleChange`: stores the value and clears a shown error for it. */
    method HandleChange(name: string, value: Value)
      modifies this
      ensures values == old(values)[name := value]
      ensures HasMessage(old(errors), name) ==> errors == old(errors)[name := ""]
      ensures !HasMessage(old(errors), name) ==> errors == old(errors)
      ensures touched == old(touched) && isSubmitting == old(isSubmitting)
    {
      values := values[name := value];
      if HasMessage(errors, name) {
        errors := errors[name := ""];
      }
    }

    /** `handleBlur`: marks the field touched; once the field is already
        touched, by an earlier blur or by a submit, re-validates that field
        alone. `threw` when the schema throws on the
        one-field object, after the field was marked. */
    method HandleBlur(name: string) returns (threw: bool)
      modifies this
      ensures touched == old(touched) + {name}
      ensures values == old(values) && isSubmitting == old(isSubmitting)
      ensures (schema.None? || name !in old(touched)) ==> !threw && errors == old(errors)
      ensures schema.Some? && name in old(touched) ==>
        match schema.value(map[name := Get(values, name)])
        case Threw(_) => threw && errors == old(errors)
        case Errors(fieldErrors) => !threw && errors == old(errors)[name := MessageOr(fieldErrors, name)]
    {
      var wasTouched := name in touched;
      touched := touched + {name};
      threw := false;
      if schema.Some? && wasTouched {
        var fieldResult := schema.value(map[name := Get(values, name)]);
        match fieldResult {
          case Threw(_) =>
            threw := true;
          case Errors(fieldErrors) =>
            errors := errors[name := MessageOr(fieldErrors, name)];
        }
      }
    }

    /** `handleSubmit` up to the `await`: shows every error, marks every key
        of the values touched, and calls `onSubmit` (sets `isSubmitting`)
        only when there is no error. */
    method HandleSubmit() returns (outcome: SubmitOutcome)
      modifies this
      ensures values == old(values)
      ensures outcome.ValidationThrew? <==> old(Validate()).Threw?
      ensures outcome.ValidationThrew? ==>
        errors == old(errors) && touched == old(touched) && isSubmitting == old(isSubmitting)
      ensures !outcome.ValidationThrew? ==> errors == old(Validate()).errs && touched == values.Keys
      ensures outcome.Submitted? <==> old(IsValid()) == Some(true)
      ensures outcome.Submitted? ==> outcome.payload == values && isSubmitting
      ensures outcome.Blocked? ==> isSubmitting == old(isSubmitting)
    {
      var formErrors := Validate();
      if formErrors.Threw? {
        return ValidationThrew;
      }
      errors := formErrors.errs;
      touched := values.Keys;
      if |formErrors.errs.Keys| == 0 {
        isSubmitting := true;
        outcome := Submitted(values);
      } else {
        outcome := Blocked;
      }
    }

    /** The `finally` of `handleSubmit`: once `onSubmit` resolves or throws,
        the form is no longer submitting. */
    method SubmitSettled()
      modifies this
      ensures !isSubmitting
      ensures values == old(values) && errors == old(errors) && touched == old(touched)
    {
      isSubmitting := false;
    }

    /** `reset`: back to the state the hook started in. */
    method Reset()
      modifies this
      ensures values == initialValues && errors == map[] && touched == {} && !isSubmitting
    {
      values := initialValues;
      errors := map[];
      touched := {};
      isSubmitting := false;
    }
  }
}
