/** The new-user form: its initial data, the change handler shared by all
    its inputs, and the submit handler that registers the user. */
module AddUserForm {
  import opened JsValues

  /** The form's data, keyed by input name: `{ ...prev, [name]: newValue }`
      may add any key, so the keys are strings. */
  type FormData = map<string, JsValue>

  const TEXT_FIELDS: set<string> :=
    {"phone_number", "first_name", "last_name", "username", "email", "password", "type", "gender"}
  const CONSENT_FIELD: string := "marketing_accept"
  const FORM_KEYS: set<string> := TEXT_FIELDS + {CONSENT_FIELD}

  /** `initialFormData`: every text field empty, marketing consent not given. */
  function InitialFormData(): (d: FormData)
    ensures d.Keys == FORM_KEYS
    ensures forall k :: k in TEXT_FIELDS ==> d[k] == Text("")
    ensures d[CONSENT_FIELD] == Flag(false)
    ensures forall k :: k in d ==> !Truthy(d[k])
  {
    map[
      "phone_number" := Text(""),
      "first_name" := Text(""),
      "last_name" := Text(""),
      "username" := Text(""),
      "email" := Text(""),
      "password" := Text(""),
      "type" := Text(""),
      "gender" := Text(""),
      CONSENT_FIELD := Flag(false)
    ]
  }

  /** What an input's change event carries: `event.target`'s name, value,
      type and checked flag. */
  datatype InputEvent = InputEvent(name: string, value: string, inputType: string, checked: bool)

  /** `newValue`: a checkbox contributes its flag, every other input its text. */
  function NewValue(e: InputEvent): (v: JsValue)
    ensures v.Flag? <==> e.inputType == "checkbox"
    ensures v.Flag? ==> v.b == e.checked
    ensures v.Text? ==> v.s == e.value
  {
    if e.inputType == "checkbox" then Flag(e.checked) else Text(e.value)
  }

  /** The inputs the page renders, by name and by the type their events
      report (`select-one` for the two drop-downs). */
  const RENDERED_INPUTS: seq<(string, string)> := [
    ("first_name", "text"),
    ("last_name", "text"),
    ("username", "text"),
    ("email", "email"),
    ("phone_number", "tel"),
    ("password", "password"),
    ("marketing_accept", "checkbox"),
    ("gender", "select-one"),
    ("type", "select-one")
  ]

  predicate FromRenderedInput(e: InputEvent)
  {
    (e.name, e.inputType) in RENDERED_INPUTS
  }

  /** The shape of `initialFormData`: the same keys, text in the text
      fields, a flag in the consent field. */
  predicate Shaped(d: FormData)
  {
    && d.Keys == FORM_KEYS
    && (forall k :: k in TEXT_FIELDS ==> d[k].Text?)
    && d[CONSENT_FIELD].Flag?
  }

  /** The inputs marked `required`; the last name and the checkbox are not. */
  const REQUIRED_FIELDS: set<string> :=
    {"first_name", "username", "email", "phone_number", "password", "gender", "type"}

  /** The browser's constraint validation, which must pass before
      `onSubmit` runs: no required input is empty. */
  predicate RequiredFilled(d: FormData)
  {
    forall k :: k in REQUIRED_FIELDS ==> k in d && d[k] != Text("")
  }

  /** The form as initialised, or as reset after a created user, cannot be
      submitted until every required input is filled in again. */
  lemma InitialFormNotSubmittable()
    ensures !RequiredFilled(InitialFormData())
    ensures forall k :: k in REQUIRED_FIELDS ==> InitialFormData()[k] == Text("")
  {
  }

  /** The result of a submit: the response's HTTP status, or a thrown request. */
  datatype SubmitOutcome = Responded(status: int) | Threw

  const REGISTER_PATH: string := "/auth/register"
  const CREATED: int := 201

  /** The only request the form sends: a POST of the form data. */
  datatype RegisterRequest = Post(path: string, body: FormData)

  function Submitted(d: FormData, outcome: SubmitOutcome): FormData
  {
    if outcome == Responded(CREATED) then InitialFormData() else d
  }

  function ApplyChanges(d: FormData, events: seq<InputEvent>): FormData
    decreases |events|
  {
    if events == [] then d else ApplyChanges(d[events[0].name := NewValue(events[0])], events[1..])
  }

  /** Typing into, ticking or choosing in the rendered inputs never changes
      the form's shape. */
  lemma {:induction false} ChangesKeepShape(d: FormData, events: seq<InputEvent>)
    requires Shaped(d)
    requires forall k :: 0 <= k < |events| ==> FromRenderedInput(events[k])
    ensures Shaped(ApplyChanges(d, events))
    decreases |events|
  {
    if events != [] {
      var e := events[0];
      var i :| 0 <= i < |RENDERED_INPUTS| && RENDERED_INPUTS[i] == (e.name, e.inputType);
      assert e.name in FORM_KEYS;
      assert e.name == CONSENT_FIELD <==> e.inputType == "checkbox";
      ChangesKeepShape(d[e.name := NewValue(e)], events[1..]);
    }
  }

  /** A submit leaves a shaped form shaped, whatever its outcome. */
  lemma SubmitKeepsShape(d: FormData, outcome: SubmitOutcome)
    requires Shaped(d)
    ensures Shaped(Submitted(d, outcome))
  {
  }

  /** The page's state. */
  class NewUserForm {
    var formData: FormData

    constructor ()
      ensures formData == InitialFormData()
    {
      formData := InitialFormData();
    }

    /** `handleChange`: the named key takes the event's new value; every
        other key keeps its value. */
    method HandleChange(e: InputEvent)
      modifies this
      ensures e.name in formData && formData[e.name] == NewValue(e)
      ensures formData.Keys == old(formData).Keys + {e.name}
      ensures forall k :: k in old(formData) && k != e.name ==> formData[k] == old(formData)[k]
      ensures formData == ApplyChanges(old(formData), [e])
    {
      formData := formData[e.name := NewValue(e)];
    }

    /** `handleSubmit`, reached only once the required inputs are filled:
        posts the data as it stands; resets the form to `initialFormData` on
        status 201 only, and keeps it on any other status or when the
        request throws. */
    method HandleSubmit(outcome: SubmitOutcome) returns (request: RegisterRequest)
      requires RequiredFilled(formData)
      modifies this
      ensures request == Post(REGISTER_PATH, old(formData))
      ensures RequiredFilled(request.body)
      ensures outcome == Responded(CREATED) ==> formData == InitialFormData()
      ensures outcome != Responded(CREATED) ==> formData == old(formData)
      ensures formData == Submitted(old(formData), outcome)
    {
      request := Post(REGISTER_PATH, formData);
      if outcome.Responded? && outcome.status == CREATED {
        formData := InitialFormData();
      }
    }
  }
}
