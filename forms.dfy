/** The all-or-nothing form validator used by both forms. */
module Forms {
  import opened Wrappers

  /** A submitted form: field name to the text it holds. Every required
      name is a control of the form; a name that is not a key is a control
      `FormData.get` answers `null` for. */
  type FormData = map<string, string>

  /** `formData.get(field)`. */
  function Get(form: FormData, field: string): Option<string> {
    if field in form then Some(form[field]) else None
  }

  /** JavaScript truthiness of a form value: `null` and `""` are falsy. */
  predicate Truthy(v: Option<string>) {
    v.Some? && v.value != ""
  }

  predicate Filled(form: FormData, field: string) {
    Truthy(Get(form, field))
  }

  /** `validateAndGetFormData(form, fields)`. The first loop records every
      value and sets the `error` class on exactly the empty required fields
      (`flagged` is the set of fields carrying it before, `errors` after);
      the second loop decides validity. The result is `None` (the source's
      `undefined`) when any required field is empty or missing, and otherwise
      the record of exactly the required fields with their values. */
  method ValidateAndGetFormData(form: FormData, fields: seq<string>, flagged: set<string>)
    returns (data: Option<map<string, string>>, errors: set<string>)
    ensures data.None? <==> exists i :: 0 <= i < |fields| && !Filled(form, fields[i])
    ensures data.Some? ==> data.value.Keys == set f | f in fields
    ensures data.Some? ==> forall f :: f in data.value ==> f in form && data.value[f] == form[f]
    ensures errors == (flagged - set f | f in fields) + (set f | f in fields && !Filled(form, f))
  {
    var res: map<string, Option<string>> := map[];
    errors := flagged;
    for i := 0 to |fields|
      invariant res.Keys == set f | f in fields[..i]
      invariant forall f :: f in res ==> res[f] == Get(form, f)
      invariant errors == (flagged - set f | f in fields[..i]) + (set f | f in fields[..i] && !Filled(form, f))
    {
      var field := fields[i];
      var fieldValue := Get(form, field);
      errors := errors - {field};
      if !Truthy(fieldValue) {
        errors := errors + {field};
      }
      res := res[field := fieldValue];
      assert fields[..i + 1] == fields[..i] + [field];
    }
    assert fields[..|fields|] == fields;
    var isValid := true;
    for i := 0 to |fields|
      invariant isValid <==> forall k :: 0 <= k < i ==> Filled(form, fields[k])
    {
      if !Truthy(res[fields[i]]) {
        isValid := false;
      }
    }
    if !isValid {
      return None, errors;
    }
    data := Some(map f | f in res :: res[f].value);
  }
}
