/**
 * The validation schema of the user-information form
 * (`validateUserInfo` in `frontend/src/components/UserInfoForm.jsx`):
 * four required contact fields with e-mail and phone format checks, and two
 * landlord fields checked only for tenants.
 */
module UserInfo {
  import opened Js
  import opened Sanitize
  import opened UseForm

  /** The fields the schema checks. */
  datatype Field = UserType | ContactName | ContactEmail | ContactPhone | LandlordName | LandlordEmail

  /** The property name of a field in the values and errors objects. */
  function Key(f: Field): string {
    match f
    case UserType => "userType"
    case ContactName => "contactName"
    case ContactEmail => "contactEmail"
    case ContactPhone => "contactPhone"
    case LandlordName => "landlordName"
    case LandlordEmail => "landlordEmail"
  }

  /** Different fields have different property names. */
  lemma KeyInjective()
    ensures forall f, g :: Key(f) == Key(g) ==> f == g
  {
    assert "contactEmail"[7] == 'E' && "contactPhone"[7] == 'P';
    assert "landlordName"[0] == 'l' && "contactEmail"[0] == 'c' && "contactPhone"[0] == 'c';
  }

  const RequiredFields: seq<Field> := [UserType, ContactName, ContactEmail, ContactPhone]
  const LandlordFields: seq<Field> := [LandlordName, LandlordEmail]

  const InvalidEmail: string := "Please enter a valid email address"
  const InvalidPhone: string := "Please enter a valid Australian phone number"

  /** The "required" message of each field. */
  function RequiredMessage(f: Field): string {
    match f
    case UserType => "Please select your role"
    case ContactName => "Full name is required"
    case ContactEmail => "Email is required"
    case ContactPhone => "Phone number is required"
    case LandlordName => "Landlord name is required"
    case LandlordEmail => "Landlord email is required"
  }

  /** `!v?.trim()`: missing or blank. `None` when `v` is neither a string
      nor `null`/`undefined`, where calling `trim` throws a `TypeError`. */
  function Missing(v: Value): (r: Option<bool>)
    ensures r.None? <==> !(v.Str? || v.Null? || v.Undefined?)
    ensures r == Some(false) <==> v.Str? && !Blank(v.s)
  {
    match v
    case Str(s) => Some(Blank(s))
    case Null => Some(true)
    case Undefined => Some(true)
    case _ => None
  }

  /** On a string, `Missing` is exactly "`trim` leaves nothing". */
  lemma MissingIsTrimEmpty(s: string)
    ensures Missing(Str(s)) == Some(true) <==> Trim(s) == ""
  {
  }

  function FieldValue(values: Values, f: Field): Value {
    Get(values, Key(f))
  }

  /** `values.userType === 'tenant'`. */
  predicate IsTenant(values: Values) {
    FieldValue(values, UserType) == Str("tenant")
  }

  /** The fields checked, in the order the schema checks them. */
  function CheckedFields(values: Values): seq<Field> {
    RequiredFields + (if IsTenant(values) then LandlordFields else [])
  }

  /** The first of `fs` whose value makes `trim` throw. */
  function FirstThrow(values: Values, fs: seq<Field>): (r: Option<Field>)
    ensures r.None? <==> forall f :: f in fs ==> Missing(FieldValue(values, f)).Some?
    ensures r.Some? ==> r.value in fs && Missing(FieldValue(values, r.value)).None?
  {
    if fs == [] then None
    else
      var front, f := fs[..|fs| - 1], fs[|fs| - 1];
      assert fs == front + [f];
      match FirstThrow(values, front)
      case Some(g) => Some(g)
      case None => if Missing(FieldValue(values, f)).None? then Some(f) else None
  }

  /** The message the schema gives one field, if its check does not
      throw. */
  function Message(values: Values, f: Field): Option<string> {
    var v := FieldValue(values, f);
    match Missing(v)
    case None => None
    case Some(true) => Some(RequiredMessage(f))
    case Some(false) =>
      match f
      case ContactEmail | LandlordEmail => if IsValidEmail(v.s) then None else Some(InvalidEmail)
      case ContactPhone => if IsValidPhone(v.s) then None else Some(InvalidPhone)
      case _ => None
  }

  /** `errors` with the message `m` recorded under `f`, if there is one. */
  function Record(errors: map<string, string>, f: Field, m: Option<string>): map<string, string> {
    if m.Some? then errors[Key(f) := m.value] else errors
  }

  /** The messages of the fields `fs`. */
  function Collect(values: Values, fs: seq<Field>): map<string, string> {
    if fs == [] then map[]
    else
      var f := fs[|fs| - 1];
      Record(Collect(values, fs[..|fs| - 1]), f, Message(values, f))
  }

  /** A field is reported exactly when it has a message, and with that
      message; nothing else is reported. */
  lemma {:induction false} CollectReports(values: Values, fs: seq<Field>)
    ensures forall f :: Key(f) in Collect(values, fs) <==> f in fs && Message(values, f).Some?
    ensures forall f :: Key(f) in Collect(values, fs) ==> Collect(values, fs)[Key(f)] == Message(values, f).value
    ensures forall key :: key in Collect(values, fs) ==> exists f :: f in fs && Key(f) == key
  {
    KeyInjective();
    if fs != [] {
      var front := fs[..|fs| - 1];
      CollectReports(values, front);
      assert fs == front + [fs[|fs| - 1]];
    }
  }

  /** Checking `fs[..k + 1]` is checking `fs[..k]` and then `fs[k]`. */
  lemma Step(values: Values, fs: seq<Field>, k: nat)
    requires k < |fs|
    ensures FirstThrow(values, fs[..k]).Some? ==> FirstThrow(values, fs[..k + 1]) == FirstThrow(values, fs[..k])
    ensures FirstThrow(values, fs[..k]).None? ==>
      FirstThrow(values, fs[..k + 1]) == if Missing(FieldValue(values, fs[k])).None? then Some(fs[k]) else None
    ensures Collect(values, fs[..k + 1]) == Record(Collect(values, fs[..k]), fs[k], Message(values, fs[k]))
  {
    assert fs[..k + 1][..k] == fs[..k];
  }

  /** Once a check has thrown, the later fields do not matter. */
  lemma {:induction false} ThrowPersists(values: Values, fs: seq<Field>, k: nat)
    requires k <= |fs| && FirstThrow(values, fs[..k]).Some?
    ensures FirstThrow(values, fs) == FirstThrow(values, fs[..k])
  {
    if k < |fs| {
      var front := fs[..|fs| - 1];
      assert front[..k] == fs[..k];
      ThrowPersists(values, front, k);
    } else {
      assert fs[..k] == fs;
    }
  }

  /** The schema as a rule per field: the first checked field whose value
      makes `trim` throw stops it; otherwise each checked field with a
      message reports it. */
  function UserInfoErrors(values: Values): (r: SchemaResult)
    ensures r.Errors? ==> forall key :: key in r.errs ==> exists f :: Key(f) == key
    ensures r.Threw? <==> exists f :: f in CheckedFields(values) && Missing(FieldValue(values, f)).None?
  {
    var fs := CheckedFields(values);
    match FirstThrow(values, fs)
    case Some(f) => Threw(Key(f))
    case None =>
      CollectReports(values, fs);
      Errors(Collect(values, fs))
  }

  /** One `if` statement of `validateUserInfo`: the check of field `f`,
      which adds its message to `errors`, or throws. */
  method CheckField(values: Values, f: Field, errors: map<string, string>)
    returns (threw: bool, errors': map<string, string>)
    ensures threw <==> Missing(FieldValue(values, f)).None?
    ensures !threw ==> errors' == Record(errors, f, Message(values, f))
  {
    var v := Get(values, Key(f));
    var m := Missing(v);
    threw, errors' := m.None?, errors;
    if m == Some(true) {
      assert Message(values, f) == Some(RequiredMessage(f));
      errors' := errors[Key(f) := RequiredMessage(f)];
      assert errors' == Record(errors, f, Message(values, f));
    } else if m == Some(false) {
      match f {
        case ContactEmail | LandlordEmail =>
          if !IsValidEmail(v.s) {
            assert Message(values, f) == Some(InvalidEmail);
            errors' := errors[Key(f) := InvalidEmail];
            assert errors' == Record(errors, f, Message(values, f));
          } else {
            assert Message(values, f) == None;
          }
        case ContactPhone =>
          if !IsValidPhone(v.s) {
            assert Message(values, f) == Some(InvalidPhone);
            errors' := errors[Key(f) := InvalidPhone];
            assert errors' == Record(errors, f, Message(values, f));
          } else {
            assert Message(values, f) == None;
          }
        case _ =>
          assert Message(values, f) == None;
      }
    }
  }

  /** The fields checked, position by position. */
  lemma CheckedFieldsAt(values: Values)
    ensures var fs := CheckedFields(values);
      && |fs| == (if IsTenant(values) then 6 else 4)
      && fs[0] == UserType && fs[1] == ContactName && fs[2] == ContactEmail && fs[3] == ContactPhone
      && (IsTenant(values) ==> fs[4] == LandlordName && fs[5] == LandlordEmail)
  {
  }

  /** The errors object after the first `k` checks, or `None` once one of
      them has thrown. */
  function AfterChecks(values: Values, k: nat): (r: Option<map<string, string>>)
    requires k <= |CheckedFields(values)|
  {
    if k == 0 then Some(map[])
    else
      var f := CheckedFields(values)[k - 1];
      match AfterChecks(values, k - 1)
      case None => None
      case Some(errors) => if Missing(FieldValue(values, f)).None? then None else Some(Record(errors, f, Message(values, f)))
  }

  /** Checking field by field agrees with the rule per field. */
  lemma {:induction false} AfterChecksAgree(values: Values, k: nat)
    requires k <= |CheckedFields(values)|
    ensures var fs := CheckedFields(values);
      AfterChecks(values, k) == if FirstThrow(values, fs[..k]).None? then Some(Collect(values, fs[..k])) else None
  {
    var fs := CheckedFields(values);
    if k == 0 {
      assert fs[..0] == [];
    } else {
      AfterChecksAgree(values, k - 1);
      Step(values, fs, k - 1);
    }
  }

  /** The `k`-th check of `validateUserInfo`, reached after the checks
      before it neither threw nor stopped: it either throws, which decides
      the schema's result, or extends the errors by its own message. */
  method CheckNext(values: Values, k: nat, f: Field, errors: map<string, string>)
    returns (threw: bool, errors': map<string, string>)
    requires k < |CheckedFields(values)| && CheckedFields(values)[k] == f
    requires AfterChecks(values, k) == Some(errors)
    ensures threw ==> UserInfoErrors(values) == Threw(Key(f))
    ensures !threw ==> AfterChecks(values, k + 1) == Some(errors')
  {
    threw, errors' := CheckField(values, f, errors);
    if threw {
      ThrowDecides(values, k);
    }
  }

  /** A check that throws after the earlier ones passed decides the result. */
  lemma ThrowDecides(values: Values, k: nat)
    requires k < |CheckedFields(values)| && AfterChecks(values, k).Some?
    requires Missing(FieldValue(values, CheckedFields(values)[k])).None?
    ensures UserInfoErrors(values) == Threw(Key(CheckedFields(values)[k]))
  {
    var fs := CheckedFields(values);
    AfterChecksAgree(values, k);
    Step(values, fs, k);
    ThrowPersists(values, fs, k + 1);
  }

  /** After every check, the errors object is the schema's result. */
  lemma AfterAllChecks(values: Values)
    ensures AfterChecks(values, |CheckedFields(values)|).Some? ==>
      UserInfoErrors(values) == Errors(AfterChecks(values, |CheckedFields(values)|).value)
  {
    var fs := CheckedFields(values);
    AfterChecksAgree(values, |fs|);
    assert fs[..|fs|] == fs;
  }

  /** `validateUserInfo` as written: the checks in order, the landlord
      checks only for a tenant. */
  method ValidateUserInfo(values: Values) returns (result: SchemaResult)
    ensures result == UserInfoErrors(values)
  {
    CheckedFieldsAt(values);
    AfterAllChecks(values);
    var errors: map<string, string> := map[];
    var threw: bool;

    threw, errors := CheckNext(values, 0, UserType, errors);
    if threw { return Threw(Key(UserType)); }
    threw, errors := CheckNext(values, 1, ContactName, errors);
    if threw { return Threw(Key(ContactName)); }
    threw, errors := CheckNext(values, 2, ContactEmail, errors);
    if threw { return Threw(Key(ContactEmail)); }
    threw, errors := CheckNext(values, 3, ContactPhone, errors);
    if threw { return Threw(Key(ContactPhone)); }

    if IsTenant(values) {
      threw, errors := CheckNext(values, 4, LandlordName, errors);
      if threw { return Threw(Key(LandlordName)); }
      threw, errors := CheckNext(values, 5, LandlordEmail, errors);
      if threw { return Threw(Key(LandlordEmail)); }
    }
    result := Errors(errors);
  }

  /** When the schema does not throw, a checked field is reported exactly
      when it has a message, and with that message. */
  lemma Reported(values: Values, f: Field)
    requires UserInfoErrors(values).Errors? && f in CheckedFields(values)
    ensures Key(f) in UserInfoErrors(values).errs <==> Message(values, f).Some?
    ensures Key(f) in UserInfoErrors(values).errs ==> UserInfoErrors(values).errs[Key(f)] == Message(values, f).value
  {
    CollectReports(values, CheckedFields(values));
  }

  /** The schema reports only the six fields it checks; `landlordPhone`
      and `futureConsumption`, say, never get a message. */
  lemma OnlySchemaKeys(values: Values)
    requires UserInfoErrors(values).Errors?
    ensures UserInfoErrors(values).errs.Keys <=
      {"userType", "contactName", "contactEmail", "contactPhone", "landlordName", "landlordEmail"}
  {
    forall key | key in UserInfoErrors(values).errs
      ensures key in {"userType", "contactName", "contactEmail", "contactPhone", "landlordName", "landlordEmail"}
    {
      var f :| Key(f) == key;
    }
  }

  /** A required field that is missing or blank is reported as required. */
  lemma RequiredFieldFlagged(values: Values, f: Field)
    requires f in RequiredFields && Missing(FieldValue(values, f)) == Some(true)
    ensures UserInfoErrors(values).Errors? ==>
      Key(f) in UserInfoErrors(values).errs && UserInfoErrors(values).errs[Key(f)] == RequiredMessage(f)
  {
    if UserInfoErrors(values).Errors? {
      Reported(values, f);
    }
  }

  /** The contact e-mail gets exactly one message: "required" when blank,
      the format message when present but invalid, none otherwise. */
  lemma ContactEmailMessage(values: Values)
    requires UserInfoErrors(values).Errors?
    ensures var errs := UserInfoErrors(values).errs; var email := Get(values, "contactEmail");
      && ("contactEmail" in errs <==> Missing(email) == Some(true) || (email.Str? && !IsValidEmail(email.s)))
      && ("contactEmail" in errs && Missing(email) == Some(true) ==> errs["contactEmail"] == "Email is required")
      && ("contactEmail" in errs && Missing(email) == Some(false) ==> errs["contactEmail"] == InvalidEmail)
  {
    Reported(values, ContactEmail);
  }

  /** For a tenant, the landlord name gets the "required" message exactly
      when blank, and the landlord e-mail gets exactly one message as the
      contact e-mail does. */
  lemma LandlordMessages(values: Values)
    requires UserInfoErrors(values).Errors? && IsTenant(values)
    ensures var errs := UserInfoErrors(values).errs;
      var name := FieldValue(values, LandlordName); var email := FieldValue(values, LandlordEmail);
      && (Key(LandlordName) in errs <==> Missing(name) == Some(true))
      && (Key(LandlordName) in errs ==> errs[Key(LandlordName)] == RequiredMessage(LandlordName))
      && (Key(LandlordEmail) in errs <==> Missing(email) == Some(true) || (email.Str? && !IsValidEmail(email.s)))
      && (Key(LandlordEmail) in errs && Missing(email) == Some(true) ==>
            errs[Key(LandlordEmail)] == RequiredMessage(LandlordEmail))
      && (Key(LandlordEmail) in errs && Missing(email) == Some(false) ==> errs[Key(LandlordEmail)] == InvalidEmail)
  {
    CheckedFieldsAt(values);
    Reported(values, LandlordName);
    Reported(values, LandlordEmail);
  }

  /** The contact phone likewise, with the Australian number check. */
  lemma ContactPhoneMessage(values: Values)
    requires UserInfoErrors(values).Errors?
    ensures var errs := UserInfoErrors(values).errs; var phone := Get(values, "contactPhone");
      && ("contactPhone" in errs <==> Missing(phone) == Some(true) || (phone.Str? && !IsValidPhone(phone.s)))
      && ("contactPhone" in errs && Missing(phone) == Some(true) ==> errs["contactPhone"] == "Phone number is required")
      && ("contactPhone" in errs && Missing(phone) == Some(false) ==> errs["contactPhone"] == InvalidPhone)
  {
    Reported(values, ContactPhone);
  }

  /** A field the schema does not check is never reported. */
  lemma NotReported(values: Values, f: Field)
    requires UserInfoErrors(values).Errors? && f !in CheckedFields(values)
    ensures Key(f) !in UserInfoErrors(values).errs
  {
    CollectReports(values, CheckedFields(values));
  }

  /** Landlord fields are only ever reported for a tenant. */
  lemma LandlordOnlyForTenant(values: Values)
    requires UserInfoErrors(values).Errors?
    ensures "landlordName" in UserInfoErrors(values).errs ==> IsTenant(values)
    ensures "landlordEmail" in UserInfoErrors(values).errs ==> IsTenant(values)
  {
    if !IsTenant(values) {
      assert CheckedFields(values) == RequiredFields;
      NotReported(values, LandlordName);
      NotReported(values, LandlordEmail);
    }
  }

  /** `v` is a present, non-blank string. */
  predicate Filled(v: Value) {
    v.Str? && !Blank(v.s)
  }

  /** A checked field passes when it holds a non-blank string that, for the
      e-mail and phone fields, is well formed. */
  predicate Passes(values: Values, f: Field) {
    var v := FieldValue(values, f);
    && Filled(v)
    && ((f == ContactEmail || f == LandlordEmail) ==> IsValidEmail(v.s))
    && (f == ContactPhone ==> IsValidPhone(v.s))
  }

  /** What a complete form looks like, stated field by field. */
  predicate Complete(values: Values) {
    && Passes(values, UserType)
    && Passes(values, ContactName)
    && Passes(values, ContactEmail)
    && Passes(values, ContactPhone)
    && (IsTenant(values) ==> Passes(values, LandlordName) && Passes(values, LandlordEmail))
  }

  /** A field that does not throw has no message exactly when it passes. */
  lemma NoMessageIffPasses(values: Values, f: Field)
    requires Missing(FieldValue(values, f)).Some?
    ensures Message(values, f).None? <==> Passes(values, f)
  {
    var v := FieldValue(values, f);
    if Missing(v) == Some(true) {
      assert !Filled(v);
    } else {
      assert Filled(v);
      match f {
        case ContactEmail | LandlordEmail =>
          assert Message(values, f).None? <==> IsValidEmail(v.s);
        case ContactPhone =>
          assert Message(values, f).None? <==> IsValidPhone(v.s);
        case _ =>
          assert Message(values, f).None?;
      }
    }
  }

  /** The schema reports nothing exactly when the form is complete. */
  lemma NoErrorsIffComplete(values: Values)
    ensures UserInfoErrors(values) == Errors(map[]) <==> Complete(values)
  {
    if UserInfoErrors(values) == Errors(map[]) {
      NoErrorsMeansComplete(values);
    }
    if Complete(values) {
      CompleteMeansNoErrors(values);
    }
  }

  lemma NoErrorsMeansComplete(values: Values)
    requires UserInfoErrors(values) == Errors(map[])
    ensures Complete(values)
  {
    var fs := CheckedFields(values);
    forall f | f in fs ensures Passes(values, f) {
      Reported(values, f);
      NoMessageIffPasses(values, f);
    }
    CompleteFieldwise(values);
  }

  /** `Complete` is `Passes` for every checked field. */
  lemma CompleteFieldwise(values: Values)
    ensures Complete(values) <==> forall f :: f in CheckedFields(values) ==> Passes(values, f)
  {
    var fs := CheckedFields(values);
    CheckedFieldsAt(values);
    forall f | f in fs
      ensures f in {UserType, ContactName, ContactEmail, ContactPhone} || (IsTenant(values) && f in {LandlordName, LandlordEmail})
    {
    }
  }

  lemma CompleteMeansNoErrors(values: Values)
    requires Complete(values)
    ensures UserInfoErrors(values) == Errors(map[])
  {
    var fs := CheckedFields(values);
    CompleteFieldwise(values);
    forall f | f in fs ensures Missing(FieldValue(values, f)).Some? && Message(values, f).None? {
      NoMessageIffPasses(values, f);
    }
    CollectReports(values, fs);
    assert Collect(values, fs) == map[];
  }

  /** `handleBlur` validates an object holding one field: every other
      required field is then reported as required. */
  lemma OneFieldFlagsTheOthers(key: string, v: Value)
    requires UserInfoErrors(map[key := v]).Errors?
    ensures forall f :: f in RequiredFields && Key(f) != key ==>
      Key(f) in UserInfoErrors(map[key := v]).errs &&
      UserInfoErrors(map[key := v]).errs[Key(f)] == RequiredMessage(f)
  {
    var values := map[key := v];
    forall f | f in RequiredFields && Key(f) != key
      ensures Key(f) in UserInfoErrors(values).errs && UserInfoErrors(values).errs[Key(f)] == RequiredMessage(f)
    {
      assert FieldValue(values, f) == Undefined;
      RequiredFieldFlagged(values, f);
    }
  }
}
