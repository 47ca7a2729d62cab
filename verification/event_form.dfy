/** The event form: its field validation and the record it submits for a
    new event. */
module EventForm {
  import opened Wrappers
  import opened Text
  import opened Forms
  import Events

  /** The `fieldErrors` record: each field's message, if any. */
  datatype EventErrors = EventErrors(
    name: Option<string>,
    eventDate: Option<string>,
    location: Option<string>,
    description: Option<string>)
  {
    /** `Object.keys(errors).length`. */
    function Count(): nat
    {
      Present(name) + Present(eventDate) + Present(location) + Present(description)
    }
  }

  /** The form's state; the date input is a `YYYY-MM-DD` string, empty
      when unset. */
  datatype EventFormData = EventFormData(
    name: string,
    eventDate: string,
    location: string,
    description: string)

  /** The state of a blank "create event" form. */
  const EmptyEventForm := EventFormData("", "", "", "")

  /** `validateForm`: one message per failing field. The optional fields
      are checked only when filled in. */
  function ValidateEventForm(f: EventFormData): (errors: EventErrors)
    ensures errors.name == NameError("Event name", f.name)
    ensures errors.eventDate.Some? <==> f.eventDate == ""
    ensures errors.location.Some? <==> Utf16Length(f.location) > 500
    ensures errors.description.Some? <==> Utf16Length(f.description) > 2000
    ensures errors.eventDate.Some? ==> errors.eventDate.value == "Event date is required"
    ensures errors.location.Some? ==> errors.location.value == "Location must be less than 500 characters"
    ensures errors.description.Some? ==>
              errors.description.value == "Description must be less than 2000 characters"
  {
    EventErrors(
      NameError("Event name", f.name),
      MessageIf(f.eventDate == "", "Event date is required"),
      MessageIf(OverLimit(f.location, 500), "Location must be less than 500 characters"),
      MessageIf(OverLimit(f.description, 2000), "Description must be less than 2000 characters"))
  }

  /** The form may be submitted iff it has no error. */
  predicate IsValidEventForm(f: EventFormData)
  {
    ValidateEventForm(f).Count() == 0
  }

  /** Validity spelled out field by field: empty optional fields are
      always accepted. */
  lemma EventFormValidIff(f: EventFormData)
    ensures IsValidEventForm(f) <==>
              && !Blank(f.name) && 3 <= Utf16Length(f.name) <= 200
              && f.eventDate != ""
              && Utf16Length(f.location) <= 500
              && Utf16Length(f.description) <= 2000
  {
  }

  /** A blank form cannot be submitted: the name and the date are missing,
      and nothing else is reported. */
  lemma EmptyEventFormInvalid()
    ensures var errors := ValidateEventForm(EmptyEventForm);
            errors.name == Some("Event name" + " is required") &&
            errors.eventDate == Some("Event date is required") &&
            errors.location.None? && errors.description.None?
  {
    assert Blank(EmptyEventForm.name);
  }

  /** The row a submitted "create event" form creates. */
  datatype EventInsert = EventInsert(
    name: string,
    eventDate: string,
    location: Option<string>,
    description: Option<string>,
    status: Events.EventStatus)

  /** The create call of `handleSubmit`: empty optional fields become null
      and every new event starts as a draft. */
  function NewEventInsert(f: EventFormData): (ins: EventInsert)
    ensures ins.status == Events.Draft
    ensures ins.location.None? <==> f.location == ""
    ensures ins.description.None? <==> f.description == ""
    ensures OrEmpty(ins.location) == f.location && OrEmpty(ins.description) == f.description
    ensures ins.name == f.name && ins.eventDate == f.eventDate
  {
    EventInsert(f.name, f.eventDate, OrNull(f.location), OrNull(f.description), Events.Draft)
  }
}
