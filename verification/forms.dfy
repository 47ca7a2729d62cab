/** What the two forms share: the rule for a required display name (the
    item's title, the event's name) and the `value || null` mapping of
    optional text fields on submit. */
module Forms {
  import opened Wrappers
  import opened Text

  /** The name rule: required after trimming, then at least 3 and at most
      200 UTF-16 code units (JavaScript's `length`) counted on the
      untrimmed value; one message at most, about `subject`. */
  function NameError(subject: string, value: string): (err: Option<string>)
    ensures err.None? <==> !Blank(value) && 3 <= Utf16Length(value) <= 200
    ensures Blank(value) ==> err == Some(subject + " is required")
    ensures !Blank(value) && Utf16Length(value) < 3 ==> err == Some(subject + " must be at least 3 characters")
    ensures !Blank(value) && Utf16Length(value) > 200 ==> err == Some(subject + " must be less than 200 characters")
  {
    TrimEmptyIffBlank(value);
    if Trim(value) == [] then Some(subject + " is required")
    else if Utf16Length(value) < 3 then Some(subject + " must be at least 3 characters")
    else if Utf16Length(value) > 200 then Some(subject + " must be less than 200 characters")
    else None
  }

  /** For text inside the Basic Multilingual Plane the limits count
      characters. */
  lemma NameErrorBmp(subject: string, value: string)
    requires forall k :: 0 <= k < |value| ==> InBmp(value[k])
    ensures NameError(subject, value).None? <==> !Blank(value) && 3 <= |value| <= 200
  {
    Utf16LengthIffBmp(value);
  }

  /** A character outside the Basic Multilingual Plane (an emoji, say)
      counts twice: a name made only of such characters passes exactly
      when it has 2 to 100 of them, so two emoji are long enough and 101
      are too long. */
  lemma NameCountsSurrogatePairs(subject: string, value: string)
    requires |value| > 0 && forall k :: 0 <= k < |value| ==> !InBmp(value[k])
    ensures NameError(subject, value).None? <==> 2 <= |value| <= 100
    ensures |value| > 100 ==> NameError(subject, value) == Some(subject + " must be less than 200 characters")
  {
    Utf16AllAstral(value);
    assert !IsWhitespace(value[0]);
  }

  /** `value || null`: the empty string is stored as null. */
  function OrNull(value: string): (r: Option<string>)
    ensures r.None? <==> value == ""
    ensures r.Some? ==> r.value == value
  {
    if value == "" then None else Some(value)
  }

  /** `value || ''`: null is shown as the empty string; the inverse of
      `OrNull`. */
  function OrEmpty(value: Option<string>): (r: string)
    ensures OrNull(r) == value || (value == Some("") && r == "")
  {
    match value
    case Some(s) => s
    case None => ""
  }

  /** The limit check of an optional field, `value && value.length > limit`:
      an empty field is never over, so the check is the length alone. */
  function OverLimit(value: string, limit: nat): (over: bool)
    ensures over <==> Utf16Length(value) > limit
  {
    value != "" && Utf16Length(value) > limit
  }

  /** `errors.k = message` executed under `cond`: the field's message,
      if it has one. */
  function MessageIf(cond: bool, message: string): (r: Option<string>)
    ensures r.Some? <==> cond
    ensures r.Some? ==> r.value == message
  {
    if cond then Some(message) else None
  }

  /** Whether a field has a message, as 0 or 1 (its share of
      `Object.keys(errors).length`). */
  function Present(message: Option<string>): (n: nat)
    ensures n == 0 <==> message.None?
    ensures n <= 1
  {
    if message.Some? then 1 else 0
  }
}
