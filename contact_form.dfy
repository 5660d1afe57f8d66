/**
 * The contact section's form state: the three-field `formData` record, the
 * `isSubmitting` flag, per-field updates from the inputs' change events and
 * the submit handler. The network request is replaced by its outcome, which
 * the caller supplies.
 */
module Contact {
  import opened Wrappers
  import opened UriComponent
  import opened FormUrlEncoded

  /** The `name` attributes of the three inputs wired to the change handler, in declaration order. */
  const FieldNames: seq<string> := ["name", "email", "message"]

  /** The hidden field that names the form for the form-handling endpoint. */
  const FormNameEntry: (string, string) := ("form-name", "contact")

  /** The state the form starts in and returns to after a successful submission. */
  const EmptyForm: Record := [("name", ""), ("email", ""), ("message", "")]

  /** How the request ended: the promise resolved (with any HTTP status) or rejected. */
  datatype FetchOutcome = Resolved(status: int) | Rejected

  function Keys(r: Record): (ks: seq<string>)
    ensures |ks| == |r|
    ensures forall i :: 0 <= i < |r| ==> ks[i] == r[i].0
  {
    if r == [] then [] else [r[0].0] + Keys(r[1..])
  }

  predicate DistinctKeys(r: Record) {
    forall i, j :: 0 <= i < j < |r| ==> r[i].0 != r[j].0
  }

  /** Property lookup: the value under `key`, if the record has that key. */
  function Get(r: Record, key: string): (v: Option<string>)
    ensures v.None? <==> key !in Keys(r)
    ensures v.Some? ==> exists i :: 0 <= i < |r| && r[i] == (key, v.value) && forall j :: 0 <= j < i ==> r[j].0 != key
  {
    if r == [] then None
    else if r[0].0 == key then Some(r[0].1)
    else Get(r[1..], key)
  }

  /**
   * `{ ...r, [key]: value }`: an existing key keeps its position and takes
   * the new value; a new key is appended.
   */
  function Set(r: Record, key: string, value: string): Record
  {
    if r == [] then [(key, value)]
    else if r[0].0 == key then [(key, value)] + r[1..]
    else [r[0]] + Set(r[1..], key, value)
  }

  /** `{ ...base, ...extra }`: the entries of `extra` written into `base` one by one, in order. */
  function Spread(base: Record, extra: Record): Record
    decreases |extra|
  {
    if extra == [] then base else Spread(Set(base, extra[0].0, extra[0].1), extra[1..])
  }

  /** The body handed to the request: `encode({ "form-name": "contact", ...formData })`. */
  function SubmissionBody(formData: Record): string {
    Encode(Spread([FormNameEntry], formData))
  }

  /** After setting `key`, reading it gives the new value. */
  lemma {:induction false} GetSetSame(r: Record, key: string, value: string)
    ensures Get(Set(r, key, value), key) == Some(value)
  {
    if r != [] && r[0].0 != key {
      GetSetSame(r[1..], key, value);
    }
  }

  /** Setting `key` leaves every other key's value as it was. */
  lemma {:induction false} GetSetOther(r: Record, key: string, value: string, other: string)
    requires other != key
    ensures Get(Set(r, key, value), other) == Get(r, other)
  {
    if r != [] && r[0].0 != key {
      GetSetOther(r[1..], key, value, other);
    }
  }

  /** Setting a present key keeps the key order; setting an absent key appends it. */
  lemma {:induction false} KeysOfSet(r: Record, key: string, value: string)
    ensures Keys(Set(r, key, value)) == if key in Keys(r) then Keys(r) else Keys(r) + [key]
  {
    if r != [] && r[0].0 != key {
      KeysOfSet(r[1..], key, value);
      assert Keys(r) == [r[0].0] + Keys(r[1..]);
      assert key in Keys(r) <==> key in Keys(r[1..]);
    }
  }

  /** Spreading entries whose keys are new to `base` and to each other appends them in order. */
  lemma {:induction false} SpreadFreshKeys(base: Record, extra: Record)
    requires DistinctKeys(extra)
    requires forall i, j :: 0 <= i < |base| && 0 <= j < |extra| ==> base[i].0 != extra[j].0
    ensures Spread(base, extra) == base + extra
    decreases |extra|
  {
    if extra != [] {
      SetAbsent(base, extra[0].0, extra[0].1);
      var base' := base + [extra[0]];
      assert forall i, j :: 0 <= i < |base'| && 0 <= j < |extra[1..]| ==> base'[i].0 != extra[1..][j].0 by {
        forall i, j | 0 <= i < |base'| && 0 <= j < |extra[1..]|
          ensures base'[i].0 != extra[1..][j].0
        {
          if i < |base| {
            assert extra[1..][j] == extra[j + 1];
          } else {
            assert extra[1..][j] == extra[j + 1];
          }
        }
      }
      SpreadFreshKeys(base', extra[1..]);
      assert base' + extra[1..] == base + extra;
    }
  }

  lemma {:induction false} SetAbsent(r: Record, key: string, value: string)
    requires forall i :: 0 <= i < |r| ==> r[i].0 != key
    ensures Set(r, key, value) == r + [(key, value)]
  {
    if r != [] {
      SetAbsent(r[1..], key, value);
      assert [r[0]] + (r[1..] + [(key, value)]) == r + [(key, value)];
    }
  }

  /** The record whose keys are exactly the three fields, in order. */
  predicate IsFormData(r: Record) {
    Keys(r) == FieldNames
  }

  lemma FormDataShape(formData: Record)
    requires IsFormData(formData)
    ensures formData == [("name", formData[0].1), ("email", formData[1].1), ("message", formData[2].1)]
  {
    assert Keys(formData)[0] == "name" && Keys(formData)[1] == "email" && Keys(formData)[2] == "message";
  }

  /** The record handed to `encode` is the form-name entry followed by the three fields. */
  lemma SubmissionEntries(formData: Record)
    requires IsFormData(formData)
    ensures Spread([FormNameEntry], formData) == [FormNameEntry] + formData
  {
    FormDataShape(formData);
    SpreadFreshKeys([FormNameEntry], formData);
  }

  /** A word made of unreserved characters is sent as written. */
  lemma WordUnescaped(w: string)
    requires w in ["form-name", "contact", "name", "email", "message"]
    ensures EncodeURIComponent(w) == w
  {
    assert forall i :: 0 <= i < |w| ==> IsUnreserved(w[i]);
    EncodeUnreserved(w);
  }

  /** A pair whose key is one of the fixed words carries that key unescaped. */
  lemma WordPair(k: string, v: string)
    requires k in ["form-name", "contact", "name", "email", "message"]
    ensures EncodePair((k, v)) == k + "=" + EncodeURIComponent(v)
  {
    WordUnescaped(k);
  }

  /** The form-name entry is sent as written. */
  lemma FormNamePair()
    ensures EncodePair(FormNameEntry) == "form-name=contact"
  {
    calc {
      EncodePair(FormNameEntry);
      EncodePair(("form-name", "contact"));
      { WordPair("form-name", "contact"); WordUnescaped("contact"); }
      "form-name" + "=" + "contact";
      "form-name=contact";
    }
  }

  lemma EncodeThree(a: (string, string), b: (string, string), c: (string, string))
    ensures Encode([a, b, c]) == EncodePair(a) + "&" + (EncodePair(b) + "&" + EncodePair(c))
  {
    EncodeCons(c, []);
    assert [c] + [] == [c];
    EncodeCons(b, [c]);
    assert [b] + [c] == [b, c];
    EncodeCons(a, [b, c]);
    assert [a] + [b, c] == [a, b, c];
  }

  /** Literal glue: the key and separator strings of the three field pairs merge into single literals. */
  lemma GlueFields(n: string, e: string, m: string)
    ensures ("name" + "=" + n) + "&" + (("email" + "=" + e) + "&" + ("message" + "=" + m))
      == "name=" + n + "&email=" + e + "&message=" + m
  {
    assert "name" + "=" == "name=";
    assert "&" + ("email" + "=" + e) == "&email=" + e by {
      assert "&" + "email" + "=" == "&email=";
    }
    assert "&" + ("message" + "=" + m) == "&message=" + m by {
      assert "&" + "message" + "=" == "&message=";
    }
  }

  /** The three fields are sent as `name=…&email=…&message=…`, each value escaped. */
  lemma FieldsBody(name: string, email: string, message: string)
    ensures Encode([("name", name), ("email", email), ("message", message)]) ==
      "name=" + EncodeURIComponent(name)
      + "&email=" + EncodeURIComponent(email)
      + "&message=" + EncodeURIComponent(message)
  {
    var n, e, m := EncodeURIComponent(name), EncodeURIComponent(email), EncodeURIComponent(message);
    calc {
      Encode([("name", name), ("email", email), ("message", message)]);
      { EncodeThree(("name", name), ("email", email), ("message", message)); }
      EncodePair(("name", name)) + "&" + (EncodePair(("email", email)) + "&" + EncodePair(("message", message)));
      { WordPair("name", name); WordPair("email", email); WordPair("message", message); }
      ("name" + "=" + n) + "&" + (("email" + "=" + e) + "&" + ("message" + "=" + m));
      { GlueFields(n, e, m); }
      "name=" + n + "&email=" + e + "&message=" + m;
    }
  }

  /** The submitted body is `form-name=contact&` followed by the encoded form fields. */
  lemma SubmissionBodyPrefix(formData: Record)
    requires IsFormData(formData)
    ensures SubmissionBody(formData) == "form-name=contact&" + Encode(formData)
  {
    SubmissionEntries(formData);
    EncodeCons(FormNameEntry, formData);
    FormNamePair();
  }

  /**
   * The submitted body is `form-name=contact` followed by the `name`,
   * `email` and `message` pairs, in that order.
   */
  lemma SubmissionBodyLayout(name: string, email: string, message: string)
    ensures SubmissionBody([("name", name), ("email", email), ("message", message)]) ==
      "form-name=contact&" + (
        "name=" + EncodeURIComponent(name)
        + "&email=" + EncodeURIComponent(email)
        + "&message=" + EncodeURIComponent(message))
  {
    var formData := [("name", name), ("email", email), ("message", message)];
    assert IsFormData(formData);
    SubmissionBodyPrefix(formData);
    FieldsBody(name, email, message);
  }

  /** The submitted body parses back to the form-name entry followed by the three fields. */
  lemma SubmissionBodyParses(formData: Record)
    requires IsFormData(formData)
    ensures ParseForm(SubmissionBody(formData)) == Some([FormNameEntry] + formData)
  {
    SubmissionEntries(formData);
    RoundTrip([FormNameEntry] + formData);
  }

  class ContactForm {
    var formData: Record
    var isSubmitting: bool

    /** The form always holds exactly the three fields, in declaration order. */
    ghost predicate Valid()
      reads this
    {
      IsFormData(formData)
    }

    /** The submit button's `disabled` attribute. */
    predicate SubmitDisabled()
      reads this
    {
      isSubmitting
    }

    constructor ()
      ensures Valid()
      ensures formData == EmptyForm && !isSubmitting
    {
      formData := EmptyForm;
      isSubmitting := false;
    }

    /** `handleInputChange`: writes the value into the field named by the input, and nothing else. */
    method HandleInputChange(name: string, value: string)
      requires Valid()
      requires name in FieldNames
      modifies this
      ensures Valid()
      ensures formData == Set(old(formData), name, value)
      ensures Get(formData, name) == Some(value)
      ensures forall other :: other != name ==> Get(formData, other) == Get(old(formData), other)
      ensures isSubmitting == old(isSubmitting)
    {
      KeysOfSet(formData, name, value);
      GetSetSame(formData, name, value);
      forall other | other != name
        ensures Get(Set(formData, name, value), other) == Get(formData, other)
      {
        GetSetOther(formData, name, value, other);
      }
      formData := Set(formData, name, value);
    }

    /** The part of `handleSubmit` before the request: raise the flag and build the body. */
    method BeginSubmit() returns (body: string)
      requires Valid()
      modifies this
      ensures Valid()
      ensures isSubmitting && SubmitDisabled()
      ensures formData == old(formData)
      ensures body == SubmissionBody(formData)
      ensures ParseForm(body) == Some([FormNameEntry] + formData)
    {
      isSubmitting := true;
      body := Encode(Spread([FormNameEntry], formData));
      SubmissionBodyParses(formData);
    }

    /**
     * The part of `handleSubmit` after the request: a resolved request
     * (whatever its status) clears the fields, a rejected one keeps them;
     * the flag drops either way.
     */
    method FinishSubmit(outcome: FetchOutcome)
      requires Valid()
      modifies this
      ensures Valid()
      ensures !isSubmitting && !SubmitDisabled()
      ensures outcome.Resolved? ==> formData == EmptyForm
      ensures outcome.Rejected? ==> formData == old(formData)
    {
      match outcome {
        case Resolved(_) =>
          formData := EmptyForm;
        case Rejected =>
      }
      isSubmitting := false;
    }

    /**
     * `handleSubmit` as a whole: the body is built from the fields as they
     * were at submission, and the request's outcome decides whether they
     * are cleared.
     */
    method HandleSubmit(outcome: FetchOutcome) returns (body: string)
      requires Valid()
      modifies this
      ensures Valid()
      ensures body == SubmissionBody(old(formData))
      ensures ParseForm(body) == Some([FormNameEntry] + old(formData))
      ensures !isSubmitting
      ensures formData == if outcome.Resolved? then EmptyForm else old(formData)
    {
      body := BeginSubmit();
      FinishSubmit(outcome);
    }
  }
}
