/** The lead forms and their phone pickers: inline error markers
    (`addError`, `removeError`), the per-field check (`customValidateForm`),
    the two submit handlers that fill the hidden fields the form processor
    expects (`customValidateAndSubmit`, `zf_ValidateAndSubmit`), and the
    registry of phone pickers (`initPhoneInput`, its country-change listener,
    and the by-name initialisation of the sample form). */
module LeadForm {
  import opened Text
  import opened Validation

  // Input names the form processor dictates.
  const NameField := "SingleLine"
  const EmailField := "Email"
  const PhoneField := "PhoneNumber_countrycode"
  const DialFieldLower := "PhoneNumber_countrycodeval"
  const DialFieldUpper := "PhoneNumber_countrycodeVal"
  const BackupField := "PhoneNumber"

  // Element ids of the sample form.
  const SampleFormPhoneId := "international_PhoneNumber_countrycode"
  const SampleFormDialId := "international_PhoneNumber_countrycodeval"
  const AutoPhoneId := "PhoneNumber_countrycode_auto"

  const NameMessage := "Name can contain letters only."
  const EmailMessage := "Enter a valid email."
  const PhoneMessage := "Enter a valid phone number."

  /** The input names are pairwise different (all but the two dial names
      already differ in length). */
  lemma FieldNamesDistinct()
    ensures |NameField| == 10 && |EmailField| == 5 && |PhoneField| == 23
    ensures |DialFieldLower| == 26 && |DialFieldUpper| == 26 && |BackupField| == 11
    ensures DialFieldLower != DialFieldUpper
  {
    assert DialFieldLower[23] != DialFieldUpper[23];
  }

  /** The dial code used when no picker is registered or it reports none. */
  const DefaultDial := "91"
  /** The dial code a new picker starts with: that of its initial country, India. */
  const InitialDial := "91"

  /** The three inputs `customValidateForm` checks, the only ones that ever
      carry an error marker. */
  datatype Field = NameInput | EmailInput | PhoneInput

  /** `if (el) el.value = v` for the input named `k`: only an input the form
      has is written, and no other input changes. */
  function Put(m: map<string, string>, k: string, v: string): (r: map<string, string>)
    ensures r.Keys == m.Keys
    ensures k in m ==> r[k] == v
    ensures forall j :: j in m && j != k ==> r[j] == m[j]
  {
    if k in m then m[k := v] else m
  }

  /** `values` is `before` with the hidden values for dial code `d` and number
      `clean` written: `"+" + d` into the dial inputs (the upper-case one only
      when `dialUpper`), `clean` into the phone input and both into the backup;
      no input is added or removed and no other input changes. */
  ghost predicate HiddenFilled(values: map<string, string>, before: map<string, string>, d: string, clean: string, dialUpper: bool)
  {
    && values.Keys == before.Keys
    && (DialFieldLower in values ==> values[DialFieldLower] == "+" + d)
    && (dialUpper && DialFieldUpper in values ==> values[DialFieldUpper] == "+" + d)
    && (PhoneField in values ==> values[PhoneField] == clean)
    && (BackupField in values ==> values[BackupField] == "+" + d + clean)
    && forall k :: (k in values && k != DialFieldLower && k != PhoneField && k != BackupField
                    && (dialUpper ==> k != DialFieldUpper)) ==> values[k] == before[k]
  }

  /** One form element: the values of its inputs, found by name, and the error
      state `addError`/`removeError` keep on the checked inputs. Each input is
      taken to have its own container for error nodes. */
  class Form {
    /** The value of the first input of the form with each name. */
    var values: map<string, string>
    /** The checked inputs that carry the class `error-field`. */
    var marked: set<Field>
    /** Texts of the `.custom-input-error` nodes in each input's container, in document order. */
    var notes: map<Field, seq<string>>
    /** How many error nodes have been created so far. */
    var created: nat

    function Notes(f: Field): seq<string>
      reads this
    {
      if f in notes then notes[f] else []
    }

    /** No container ever holds more than one error node. */
    ghost predicate Valid()
      reads this
    {
      forall f :: f in notes ==> |notes[f]| <= 1
    }

    predicate HasLeadInputs()
      reads this
    {
      NameField in values && EmailField in values && PhoneField in values
    }

    /** Input `f` shows the verdict `ok`: unmarked with no error node, or
        marked with exactly one node holding `msg`. */
    ghost predicate Shows(f: Field, ok: bool, msg: string)
      reads this
    {
      (f in marked <==> !ok) && Notes(f) == (if ok then [] else [msg])
    }

    /** Each checked input shows the verdict of its rule on the given values. */
    ghost predicate ShowsVerdicts(name: string, email: string, phone: string)
      reads this
    {
      && Shows(NameInput, NameOk(name), NameMessage)
      && Shows(EmailInput, EmailOk(email), EmailMessage)
      && Shows(PhoneInput, PhoneOk(phone), PhoneMessage)
    }

    constructor (values: map<string, string>)
      ensures Valid()
      ensures this.values == values && marked == {} && notes == map[] && created == 0
    {
      this.values := values;
      marked := {};
      notes := map[];
      created := 0;
    }

    /** `addError`: reuse the container's error node if there is one (only its
        text changes), otherwise append a new one; mark the input. */
    method AddError(f: Field, msg: string)
      requires Valid()
      modifies this
      ensures Valid()
      ensures values == old(values)
      ensures marked == old(marked) + {f}
      ensures Notes(f) == [msg]
      ensures created == old(created) + (if old(Notes(f)) == [] then 1 else 0)
      ensures forall g :: g != f ==> (g in marked <==> g in old(marked)) && Notes(g) == old(Notes(g))
    {
      var existing := Notes(f);
      if existing == [] {
        notes := notes[f := [msg]];
        created := created + 1;
      } else {
        notes := notes[f := [msg] + existing[1..]];
      }
      marked := marked + {f};
    }

    /** The writes both submit handlers end with, each into an input only
        when the form has it. */
    method FillHidden(d: string, clean: string, dialUpper: bool)
      modifies this
      ensures marked == old(marked) && notes == old(notes) && created == old(created)
      ensures HiddenFilled(values, old(values), d, clean, dialUpper)
    {
      FieldNamesDistinct();
      var v0 := values;
      var v1 := Put(v0, DialFieldLower, "+" + d);
      var v2 := if dialUpper then Put(v1, DialFieldUpper, "+" + d) else v1;
      var v3 := Put(v2, PhoneField, clean);
      values := Put(v3, BackupField, "+" + d + clean);
    }

    /** `removeError`: unmark the input and remove the container's error node. */
    method RemoveError(f: Field)
      requires Valid()
      modifies this
      ensures Valid()
      ensures values == old(values) && created == old(created)
      ensures marked == old(marked) - {f}
      ensures Notes(f) == []
      ensures forall g :: g != f ==> (g in marked <==> g in old(marked)) && Notes(g) == old(Notes(g))
    {
      var existing := Notes(f);
      if existing != [] {
        notes := notes[f := existing[1..]];
      }
      marked := marked - {f};
    }
  }

  /** The name block of `customValidateForm`: mark the input when the trimmed
      value is empty or does not match the name pattern, clear it otherwise. */
  method CheckName(form: Form, name: string) returns (ok: bool)
    requires form.Valid()
    modifies form
    ensures form.Valid() && form.values == old(form.values)
    ensures ok == NameOk(name) && form.Shows(NameInput, ok, NameMessage)
    ensures forall g :: g != NameInput ==>
      (g in form.marked <==> g in old(form.marked)) && form.Notes(g) == old(form.Notes(g))
    ensures form.created == old(form.created) + (if !ok && old(form.Notes(NameInput)) == [] then 1 else 0)
  {
    var trimmedName := Trim(name);
    ok := trimmedName != "" && NameMatches(trimmedName);
    if !ok {
      form.AddError(NameInput, NameMessage);
    } else {
      form.RemoveError(NameInput);
    }
  }

  /** The email block: only a value that is not blank after trimming is checked. */
  method CheckEmail(form: Form, email: string) returns (ok: bool)
    requires form.Valid()
    modifies form
    ensures form.Valid() && form.values == old(form.values)
    ensures ok == EmailOk(email) && form.Shows(EmailInput, ok, EmailMessage)
    ensures forall g :: g != EmailInput ==>
      (g in form.marked <==> g in old(form.marked)) && form.Notes(g) == old(form.Notes(g))
    ensures form.created == old(form.created) + (if !ok && old(form.Notes(EmailInput)) == [] then 1 else 0)
  {
    var trimmedEmail := Trim(email);
    ok := true;
    if trimmedEmail != "" {
      if !EmailMatches(trimmedEmail) {
        form.AddError(EmailInput, EmailMessage);
        ok := false;
      } else {
        form.RemoveError(EmailInput);
      }
    } else {
      form.RemoveError(EmailInput);
    }
  }

  /** The phone block: the digits of the value must match the phone pattern. */
  method CheckPhone(form: Form, phone: string) returns (ok: bool)
    requires form.Valid()
    modifies form
    ensures form.Valid() && form.values == old(form.values)
    ensures ok == PhoneOk(phone) && form.Shows(PhoneInput, ok, PhoneMessage)
    ensures forall g :: g != PhoneInput ==>
      (g in form.marked <==> g in old(form.marked)) && form.Notes(g) == old(form.Notes(g))
    ensures form.created == old(form.created) + (if !ok && old(form.Notes(PhoneInput)) == [] then 1 else 0)
  {
    var cleanPhone := Digits(phone);
    ok := cleanPhone != "" && PhoneMatches(cleanPhone);
    if !ok {
      form.AddError(PhoneInput, PhoneMessage);
    } else {
      form.RemoveError(PhoneInput);
    }
  }

  /** `customValidateForm`: `form` is the element `getElementById(formId)`
      returned (`null` when there is none). Every rule is checked, each input's
      error state is updated, and the result is the conjunction. */
  method CustomValidateForm(form: Form?) returns (valid: bool)
    requires form != null ==> form.Valid() && form.HasLeadInputs()
    modifies form
    ensures form == null ==> !valid
    ensures form != null ==>
      && form.Valid()
      && form.values == old(form.values)
      && (valid <==> LeadOk(form.values[NameField], form.values[EmailField], form.values[PhoneField]))
      && form.ShowsVerdicts(form.values[NameField], form.values[EmailField], form.values[PhoneField])
    // One new error node for each failing input that had none.
    ensures form != null ==>
      form.created == old(form.created)
        + (if !NameOk(old(form.values[NameField])) && old(form.Notes(NameInput)) == [] then 1 else 0)
        + (if !EmailOk(old(form.values[EmailField])) && old(form.Notes(EmailInput)) == [] then 1 else 0)
        + (if !PhoneOk(old(form.values[PhoneField])) && old(form.Notes(PhoneInput)) == [] then 1 else 0)
  {
    if form == null {
      return false;
    }
    valid := true;
    var name := form.values[NameField];
    var email := form.values[EmailField];
    var phone := form.values[PhoneField];

    var ok := CheckName(form, name);
    valid := valid && ok;
    ok := CheckEmail(form, email);
    valid := valid && ok;
    ok := CheckPhone(form, phone);
    valid := valid && ok;
  }

  /** The document outside the forms: input values reached by id, and the
      registry `window.itiInstances` of phone pickers, each given by the dial
      code its selected country has. */
  class Page {
    var byId: map<string, string>
    var registry: map<string, string>

    /** A picker is registered only for an input that exists; no element has the empty id. */
    ghost predicate Valid()
      reads this
    {
      registry.Keys <= byId.Keys && "" !in byId
    }

    constructor (byId: map<string, string>)
      requires "" !in byId
      ensures Valid() && this.byId == byId && registry == map[]
    {
      this.byId := byId;
      registry := map[];
    }

    /** `initPhoneInput(id)`: when the input exists and the picker library is
        loaded, a new picker (on its initial country) is registered under `id`,
        replacing any earlier one. */
    method InitPhoneInput(id: string, widgetLoaded: bool)
      requires Valid()
      modifies this
      ensures Valid() && byId == old(byId)
      ensures registry == if id in byId && widgetLoaded then old(registry)[id := InitialDial] else old(registry)
    {
      if id in byId && widgetLoaded {
        registry := registry[id := InitialDial];
      }
    }

    /** The user picks another country in the picker of input `id`, which
        reports its dial code as `dial` (`None` when the country data has no
        `dialCode`). The `countrychange` listener writes `"+"` and the code
        without its first `"+"` into the dial field of the input's form, if
        any. A missing code makes `dial.replace` throw before anything is
        written. The registry keeps a missing code as `""`, which the submit
        handlers' `|| "91"` treats alike. */
    method CountryChange(id: string, dial: Option<string>, form: Form?)
      requires Valid() && id in registry
      modifies this, form
      ensures Valid() && byId == old(byId)
      ensures registry == old(registry)[id := if dial.Some? then dial.value else ""]
      ensures form != null ==>
        && form.marked == old(form.marked) && form.notes == old(form.notes)
        && form.created == old(form.created)
        && form.values == if dial.Some? && DialFieldLower in old(form.values)
                          then old(form.values)[DialFieldLower := "+" + RemoveFirstPlus(dial.value)]
                          else old(form.values)
    {
      registry := registry[id := if dial.Some? then dial.value else ""];
      if form != null && DialFieldLower in form.values {
        match dial
        case None =>
        case Some(code) =>
          form.values := form.values[DialFieldLower := "+" + RemoveFirstPlus(code)];
      }
    }

    /** The `DOMContentLoaded` handler of the sample form. `byName` is the
        document's first input named `PhoneNumber_countrycode` (absent: `None`),
        given by its id (`""` when it has none) and its value. */
    method InitSampleForm(scriptLoaded: bool, widgetLoaded: bool, byName: Option<(string, string)>)
      requires Valid()
      requires byName.Some? && byName.value.0 != "" ==> byName.value.0 in byId
      modifies this
      ensures Valid()
      ensures !scriptLoaded ==> registry == old(registry) && byId == old(byId)
      // Pickers are only ever added or renewed, each on its initial country.
      ensures registry.Keys >= old(registry).Keys
      ensures forall k :: k in registry && (k !in old(registry) || registry[k] != old(registry)[k]) ==>
        scriptLoaded && widgetLoaded && registry[k] == InitialDial
      // The exported form's own phone input gets a picker.
      ensures scriptLoaded && widgetLoaded && SampleFormPhoneId in old(byId) ==>
        SampleFormPhoneId in registry && registry[SampleFormPhoneId] == InitialDial
      // An input found by name whose id already has a picker keeps that picker.
      ensures byName.Some? && byName.value.0 in old(registry) && byName.value.0 != SampleFormPhoneId ==>
        registry[byName.value.0] == old(registry)[byName.value.0]
      // Otherwise it gets one, under its id or, when it has none, under the fallback id.
      ensures scriptLoaded && widgetLoaded && byName.Some? && byName.value.0 !in old(registry) ==>
        var id := if byName.value.0 == "" then AutoPhoneId else byName.value.0;
        id in registry && registry[id] == InitialDial
      // Exactly: the exported form's input first, then the input found by name, if it still has none.
      ensures registry ==
        if !scriptLoaded then old(registry)
        else
          var r1 := if widgetLoaded && SampleFormPhoneId in old(byId)
                    then old(registry)[SampleFormPhoneId := InitialDial] else old(registry);
          if widgetLoaded && byName.Some? && byName.value.0 !in r1
          then r1[if byName.value.0 == "" then AutoPhoneId else byName.value.0 := InitialDial]
          else r1
      // Only a nameless input is touched: it gets the fallback id.
      ensures byId == if scriptLoaded && byName.Some? && byName.value.0 == ""
                      then old(byId)[AutoPhoneId := byName.value.1]
                      else old(byId)
    {
      if scriptLoaded {
        if SampleFormPhoneId in byId {
          InitPhoneInput(SampleFormPhoneId, widgetLoaded);
        }
        if byName.Some? && byName.value.0 !in registry {
          var id := byName.value.0;
          if id == "" {
            id := AutoPhoneId;
            byId := byId[AutoPhoneId := byName.value.1];
          }
          InitPhoneInput(id, widgetLoaded);
        }
      }
    }
  }

  /** The dial code a submit handler uses for picker input `inputId`: the
      selected one (`"91"` when there is no picker or it reports none), without
      its first `"+"`. */
  function DialFor(registry: map<string, string>, inputId: string): (d: string)
    ensures inputId !in registry || registry[inputId] == "" ==> d == DefaultDial
    ensures inputId in registry && registry[inputId] != "" && '+' !in registry[inputId] ==> d == registry[inputId]
    ensures inputId in registry && registry[inputId] != "" && '+' in registry[inputId] ==>
      |d| == |registry[inputId]| - 1
  {
    var selected := if inputId in registry && registry[inputId] != "" then registry[inputId] else DefaultDial;
    RemoveFirstPlus(selected)
  }

  /** Without a picker, the dial code is India's. */
  lemma DialWithoutPicker(registry: map<string, string>, inputId: string)
    requires inputId !in registry || registry[inputId] == ""
    ensures DialFor(registry, inputId) == "91"
  {
  }

  /** The dial field gets one leading `"+"` whether the picker reported the code
      with or without it. */
  lemma DialFieldNormal(registry: map<string, string>, inputId: string, code: string)
    requires '+' !in code && code != ""
    requires inputId in registry && (registry[inputId] == code || registry[inputId] == "+" + code)
    ensures "+" + DialFor(registry, inputId) == "+" + code
  {
    PlusRoundTrip(code);
  }

  /** The two writers of the dial field differ on a reported dial code of
      `""`: the `countrychange` listener writes a bare `"+"`, a submit handler
      `"+91"`. */
  lemma EmptyDialWriters(registry: map<string, string>, inputId: string)
    requires inputId in registry && registry[inputId] == ""
    ensures "+" + RemoveFirstPlus(registry[inputId]) == "+"
    ensures "+" + DialFor(registry, inputId) == "+91"
  {
  }

  /** Only the first `"+"` of a reported code is removed. */
  lemma OnlyFirstPlusRemoved()
    ensures RemoveFirstPlus("++65") == "+65"
  {
    assert "++65"[1..] == "+65";
  }

  /** The picker input of each hero/popup form. */
  function PickerInputFor(formId: string): (id: string)
    ensures id == "heroMobile" || id == "popupMobile"
    ensures id == "heroMobile" <==> formId == "heroForm"
  {
    if formId == "heroForm" then "heroMobile" else "popupMobile"
  }

  /** The number `customValidateAndSubmit` sends: the digits of the picker
      input when a picker is registered, else of the form's phone input. */
  function NumberFor(page: Page, form: Form, inputId: string): (clean: string)
    reads page, form
    requires page.Valid() && form.HasLeadInputs()
    ensures AllDigits(clean)
  {
    if inputId in page.registry then Digits(page.byId[inputId]) else Digits(form.values[PhoneField])
  }

  /** The number `zf_ValidateAndSubmit` sends: as above, but empty when the form
      has no phone input. */
  function SampleNumberFor(page: Page, form: Form): (clean: string)
    reads page, form
    requires page.Valid()
    ensures AllDigits(clean)
  {
    if SampleFormPhoneId in page.registry then Digits(page.byId[SampleFormPhoneId])
    else if PhoneField in form.values then Digits(form.values[PhoneField])
    else ""
  }

  /** `customValidateAndSubmit(formId)`: validate; on failure return false with
      no hidden field written; otherwise write the dial code, the digits and the
      backup, and return true. */
  method CustomValidateAndSubmit(formId: string, form: Form?, page: Page) returns (ok: bool)
    requires form != null ==> form.Valid() && form.HasLeadInputs()
    requires page.Valid()
    modifies form
    ensures form == null ==> !ok
    ensures form != null ==>
      && form.Valid() && form.HasLeadInputs()
      && (ok <==> LeadOk(old(form.values[NameField]), old(form.values[EmailField]), old(form.values[PhoneField])))
      && form.ShowsVerdicts(old(form.values[NameField]), old(form.values[EmailField]), old(form.values[PhoneField]))
    ensures form != null && !ok ==> form.values == old(form.values)
    ensures form != null && ok ==>
      HiddenFilled(form.values, old(form.values), DialFor(page.registry, PickerInputFor(formId)),
                   old(NumberFor(page, form, PickerInputFor(formId))), false)
  {
    var valid := CustomValidateForm(form);
    if !valid {
      return false;
    }
    var inputId := PickerInputFor(formId);
    var dialCode := DefaultDial;
    var cleanNumber := "";
    if inputId in page.registry {
      dialCode := if page.registry[inputId] != "" then page.registry[inputId] else DefaultDial;
      cleanNumber := Digits(page.byId[inputId]);
    } else {
      cleanNumber := Digits(form.values[PhoneField]);
    }
    dialCode := RemoveFirstPlus(dialCode);
    form.FillHidden(dialCode, cleanNumber, false);
    ok := true;
  }

  /** `zf_ValidateAndSubmit()` of the sample form `form`. `validatorLoaded`
      says whether `customValidateForm` is defined. The dial code goes to the
      lower-case dial input, or to the element with the dial id when the form
      has none, and to the upper-case dial input. */
  method ZfValidateAndSubmit(form: Form?, validatorLoaded: bool, page: Page) returns (ok: bool)
    requires form != null && validatorLoaded ==> form.Valid() && form.HasLeadInputs()
    requires page.Valid()
    modifies form, page
    ensures page.Valid() && page.registry == old(page.registry)
    ensures form == null ==> !ok && page.byId == old(page.byId)
    ensures form != null ==>
      (ok <==> !validatorLoaded || LeadOk(old(form.values[NameField]), old(form.values[EmailField]), old(form.values[PhoneField])))
    ensures form != null && validatorLoaded ==>
      && form.Valid()
      && form.ShowsVerdicts(old(form.values[NameField]), old(form.values[EmailField]), old(form.values[PhoneField]))
    ensures form != null && !validatorLoaded ==>
      form.marked == old(form.marked) && form.notes == old(form.notes) && form.created == old(form.created)
    ensures !ok ==> page.byId == old(page.byId) && (form != null ==> form.values == old(form.values))
    ensures ok ==>
      && HiddenFilled(form.values, old(form.values), DialFor(page.registry, SampleFormPhoneId),
                      old(SampleNumberFor(page, form)), true)
      && page.byId == if DialFieldLower !in old(form.values) && SampleFormDialId in old(page.byId)
                      then old(page.byId)[SampleFormDialId := "+" + DialFor(page.registry, SampleFormPhoneId)]
                      else old(page.byId)
  {
    if form == null {
      return false;
    }
    if validatorLoaded {
      var valid := CustomValidateForm(form);
      if !valid {
        return false;
      }
    }
    var inputId := SampleFormPhoneId;
    var dialCode := DefaultDial;
    var cleanNumber := "";
    if inputId in page.registry {
      dialCode := if page.registry[inputId] != "" then page.registry[inputId] else DefaultDial;
      cleanNumber := Digits(page.byId[inputId]);
    } else if PhoneField in form.values {
      cleanNumber := Digits(form.values[PhoneField]);
    }
    dialCode := RemoveFirstPlus(dialCode);
    // Without a lower-case dial input in the form, the element with the dial id gets the code.
    if DialFieldLower !in form.values && SampleFormDialId in page.byId {
      page.byId := page.byId[SampleFormDialId := "+" + dialCode];
    }
    form.FillHidden(dialCode, cleanNumber, true);
    ok := true;
  }

  /** What a filled form holds: the phone input only digits, both dial inputs the
      same value, and the backup equal to the dial value followed by the number. */
  lemma HiddenConsistent(values: map<string, string>, before: map<string, string>, d: string, clean: string)
    requires AllDigits(clean)
    requires HiddenFilled(values, before, d, clean, true)
    ensures PhoneField in values ==> AllDigits(values[PhoneField])
    ensures DialFieldLower in values && DialFieldUpper in values ==> values[DialFieldLower] == values[DialFieldUpper]
    ensures DialFieldLower in values && PhoneField in values && BackupField in values ==>
      values[BackupField] == values[DialFieldLower] + values[PhoneField]
  {
  }

  /** The worked example: dial code `"+65"` and typed number `"9123 4567"` give
      `"+65"`, `"91234567"` and `"+6591234567"`. */
  lemma SubmitExample(registry: map<string, string>)
    requires "heroMobile" in registry && registry["heroMobile"] == "+65"
    ensures "+" + DialFor(registry, "heroMobile") == "+65"
    ensures Digits("9123 4567") == "91234567"
    ensures "+" + DialFor(registry, "heroMobile") + Digits("9123 4567") == "+6591234567"
  {
    DialExample(registry);
    CleanExample();
  }

  /** The hero picker reporting `"+65"` gives the dial code `"65"`. */
  lemma DialExample(registry: map<string, string>)
    requires "heroMobile" in registry && registry["heroMobile"] == "+65"
    ensures DialFor(registry, "heroMobile") == "65"
  {
    PlusRoundTrip("65");
  }

}
