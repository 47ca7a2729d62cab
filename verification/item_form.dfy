/** The timeline-item form: its field validation, the record it submits
    for a new item, and the values it shows when an item is edited. */
module ItemForm {
  import opened Wrappers
  import opened Text
  import opened Items
  import opened TimelineUtils
  import opened Forms

  /** The `fieldErrors` record: each field's message, if any. */
  datatype ItemErrors = ItemErrors(
    title: Option<string>,
    startTime: Option<string>,
    endTime: Option<string>,
    description: Option<string>)
  {
    /** `Object.keys(errors).length`. */
    function Count(): nat
    {
      Present(title) + Present(startTime) + Present(endTime) + Present(description)
    }
  }

  /** The form's state: time inputs are `HH:MM` strings, empty when unset. */
  datatype ItemFormData = ItemFormData(
    title: string,
    startTime: string,
    endTime: string,
    category: Category,
    description: string)

  /** The state of a blank "add item" form. */
  const EmptyItemForm := ItemFormData("", "", "", General, "")

  /** `validateForm`: one message per failing field. The end time is
      checked against the start time only when both are set, by string
      comparison. */
  function ValidateItemForm(f: ItemFormData): (errors: ItemErrors)
    ensures errors.title == NameError("Title", f.title)
    ensures errors.startTime.Some? <==> f.startTime == ""
    ensures errors.endTime.Some? <==> f.endTime != "" && f.startTime != "" && StrLe(f.endTime, f.startTime)
    ensures errors.description.Some? <==> Utf16Length(f.description) > 2000
    ensures errors.startTime.Some? ==> errors.startTime.value == "Start time is required"
    ensures errors.endTime.Some? ==> errors.endTime.value == "End time must be after start time"
    ensures errors.description.Some? ==>
              errors.description.value == "Description must be less than 2000 characters"
  {
    ItemErrors(
      NameError("Title", f.title),
      MessageIf(f.startTime == "", "Start time is required"),
      MessageIf(f.endTime != "" && f.startTime != "" && StrLe(f.endTime, f.startTime),
                "End time must be after start time"),
      MessageIf(OverLimit(f.description, 2000), "Description must be less than 2000 characters"))
  }

  /** The form may be submitted iff it has no error. */
  predicate IsValidItemForm(f: ItemFormData)
  {
    ValidateItemForm(f).Count() == 0
  }

  /** Validity spelled out field by field; for well-formed time inputs,
      the end must be later in the day than the start. */
  lemma ItemFormValidIff(f: ItemFormData)
    ensures IsValidItemForm(f) <==>
              && !Blank(f.title) && 3 <= Utf16Length(f.title) <= 200
              && f.startTime != ""
              && !(f.endTime != "" && StrLe(f.endTime, f.startTime))
              && Utf16Length(f.description) <= 2000
    ensures IsClock(f.startTime) && IsClock(f.endTime) ==>
              (ValidateItemForm(f).endTime.Some? <==> ClockMinutes(f.endTime) <= ClockMinutes(f.startTime))
  {
    if IsClock(f.startTime) && IsClock(f.endTime) {
      ClockStrLe(f.endTime, f.startTime);
    }
  }

  /** A blank form cannot be submitted: the title and the start time are
      missing, and nothing else is reported. */
  lemma EmptyItemFormInvalid()
    ensures var errors := ValidateItemForm(EmptyItemForm);
            errors.title == Some("Title" + " is required") &&
            errors.startTime == Some("Start time is required") &&
            errors.endTime.None? && errors.description.None?
  {
    assert Blank(EmptyItemForm.title);
  }

  /** The row a submitted "add item" form creates; times are local
      date-time strings. */
  datatype ItemInsert = ItemInsert(
    eventId: string,
    title: string,
    start: string,
    end: Option<string>,
    category: Category,
    description: Option<string>,
    orderIndex: int)

  /** The create call of `handleSubmit`: an empty end time becomes null,
      an empty description becomes null, and the new item is given
      `order_index` 0. */
  function NewItemInsert(eventId: string, eventDate: string, f: ItemFormData): (ins: ItemInsert)
    ensures ins.end.None? <==> f.endTime == ""
    ensures ins.description.None? <==> f.description == ""
    ensures ins.orderIndex == 0
    ensures IsPrefix(eventDate, ins.start)
    ensures ins.end.Some? ==> IsPrefix(eventDate, ins.end.value)
  {
    ItemInsert(
      eventId,
      f.title,
      CombineDateTime(eventDate, f.startTime),
      if f.endTime != "" then Some(CombineDateTime(eventDate, f.endTime)) else None,
      f.category,
      OrNull(f.description),
      0)
  }

  /** The time input shown for a stored timestamp (`extractTime`). */
  function ShownTime(timestamp: string): (t: string)
    ensures t == "" <==> ClockFields(timestamp).None?
    ensures t != "" ==> IsClock(t) && ClockHour(t) == ClockFields(timestamp).value.0
                        && ClockMinute(t) == ClockFields(timestamp).value.1
  {
    match ClockFields(timestamp)
    case Some((h, m)) => ExtractTime(h, m)
    case None => ""
  }

  /** The form as the edit view fills it from a stored item. */
  function EditFormOf(ins: ItemInsert): (f: ItemFormData)
    ensures f.title == ins.title && f.category == ins.category
    // a null end and an unreadable one both show as an empty input
    ensures ins.end.None? ==> f.endTime == ""
    ensures f.startTime == "" <==> ClockFields(ins.start).None?
    // a null description shows as empty, and any other is shown as stored
    ensures ins.description.None? ==> f.description == ""
    ensures ins.description.Some? ==> f.description == ins.description.value
  {
    ItemFormData(
      ins.title,
      ShownTime(ins.start),
      match ins.end case Some(e) => ShownTime(e) case None => "",
      ins.category,
      OrEmpty(ins.description))
  }

  /** Round trip: an item created from a form with well-formed times,
      opened again for editing, shows exactly the form that created it. */
  lemma EditRoundTrip(eventId: string, eventDate: string, f: ItemFormData)
    requires 'T' !in eventDate
    requires IsClock(f.startTime)
    requires f.endTime == "" || IsClock(f.endTime)
    ensures EditFormOf(NewItemInsert(eventId, eventDate, f)) == f
  {
    var ins := NewItemInsert(eventId, eventDate, f);
    var g := EditFormOf(ins);
    assert g.startTime == f.startTime by {
      TimeInputRoundTrip(eventDate, f.startTime);
    }
    assert g.endTime == f.endTime by {
      if f.endTime != "" {
        TimeInputRoundTrip(eventDate, f.endTime);
      }
    }
    assert g.description == f.description;
  }
}
