/** The part of the booking script between the availability response and
    the click on a slot: build one `FieldInfo` per resource of the response,
    resolve the field and the time with the configured preferences, stop when
    nothing is free, and otherwise form the accessible-name pattern of the
    slot to click. */
module Booking {
  import opened Wrappers
  import opened Strings
  import opened FieldUtils
  import opened DateUtils
  import Config

  /** One element of a resource's `time_slot_details` in the response; its
      `status` key is the booked flag. */
  datatype RawDetail = RawDetail(status: bool)

  /** One element of the response's `resources`. */
  datatype RawResource = RawResource(
    resourceId: int,
    resourceName: string,
    timeSlotDetails: seq<RawDetail>)

  /** `[TimeSlotDetail(**detail, time=time) for detail, time in
      zip(details, time_slots)]`: pairs are formed position by position
      and the longer list's tail is dropped. */
  function ZipDetails(details: seq<RawDetail>, timeSlots: seq<string>): (r: seq<TimeSlotDetail>)
    ensures |r| == if |details| <= |timeSlots| then |details| else |timeSlots|
    ensures forall i :: 0 <= i < |r| ==> r[i] == TimeSlotDetail(details[i].status, timeSlots[i])
  {
    if details == [] || timeSlots == [] then []
    else [TimeSlotDetail(details[0].status, timeSlots[0])] + ZipDetails(details[1..], timeSlots[1..])
  }

  /** The `fields` comprehension: every resource keeps its id and name,
      every field shares the response's `time_slots`. */
  function BuildFields(resources: seq<RawResource>, timeSlots: seq<string>): (r: seq<FieldInfo>)
    ensures |r| == |resources|
    ensures forall i :: 0 <= i < |r| ==>
      && r[i].resourceId == resources[i].resourceId && r[i].resourceName == resources[i].resourceName
      && r[i].timeSlots == timeSlots
  {
    seq(|resources|, i requires 0 <= i < |resources| =>
      FieldInfo(resources[i].resourceId, resources[i].resourceName, timeSlots,
                ZipDetails(resources[i].timeSlotDetails, timeSlots)))
  }

  /** One field per resource, in response order, with the resource's id and
      name, the shared slot labels, and one detail per position present in
      both the resource's details and the slot labels. */
  lemma BuildFieldsShape(resources: seq<RawResource>, timeSlots: seq<string>, i: int)
    requires 0 <= i < |resources|
    ensures |BuildFields(resources, timeSlots)| == |resources|
    ensures var f, res := BuildFields(resources, timeSlots)[i], resources[i];
      && f.resourceId == res.resourceId && f.resourceName == res.resourceName
      && f.timeSlots == timeSlots
      && |f.timeSlotDetails| <= |res.timeSlotDetails| && |f.timeSlotDetails| <= |timeSlots|
      && (|f.timeSlotDetails| == |res.timeSlotDetails| || |f.timeSlotDetails| == |timeSlots|)
      && forall j :: 0 <= j < |f.timeSlotDetails| ==>
           f.timeSlotDetails[j].isBooked == res.timeSlotDetails[j].status
           && f.timeSlotDetails[j].time == timeSlots[j]
  {
  }

  /** The field built from a resource is free at `t` exactly when, at some
      position covered by both lists, the slot label is `t` and the
      resource's status there is false. */
  lemma BuiltFieldFreeAt(resources: seq<RawResource>, timeSlots: seq<string>, i: int, t: string)
    requires 0 <= i < |resources|
    ensures FreeAt(BuildFields(resources, timeSlots)[i], t) <==>
      exists j :: 0 <= j < |resources[i].timeSlotDetails| && j < |timeSlots|
                  && timeSlots[j] == t && !resources[i].timeSlotDetails[j].status
  {
    var f := BuildFields(resources, timeSlots)[i];
    var ds := f.timeSlotDetails;
    if FreeAt(f, t) {
      var d :| d in ds && d.time == t && !d.isBooked;
      var j :| 0 <= j < |ds| && ds[j] == d;
      assert timeSlots[j] == t && !resources[i].timeSlotDetails[j].status;
    }
    if exists j :: 0 <= j < |resources[i].timeSlotDetails| && j < |timeSlots|
                   && timeSlots[j] == t && !resources[i].timeSlotDetails[j].status {
      var j :| 0 <= j < |resources[i].timeSlotDetails| && j < |timeSlots|
               && timeSlots[j] == t && !resources[i].timeSlotDetails[j].status;
      assert ds[j] in ds;
    }
  }

  // ---------------------------------------------------------------------
  // Selecting the slot
  // ---------------------------------------------------------------------

  /** What the script goes on with: it exits when no field is found; a
      selected time that `strptime` refuses raises; otherwise it compiles
      the pattern `^{resource_name} {start_time}`, unescaped, and looks the
      cell up by it.  Whether that text compiles as a regular expression is
      not modelled: `Selector` carries the text as it is. */
  datatype Selection = NoField | BadTime(error: DateError) | Selector(pattern: string)

  /** Resolve with a list of alternates and a prefix, as the script passes
      them, then form the pattern of the chosen cell. */
  function SelectTimeslot(fields: seq<FieldInfo>, primaryTime: string,
                          alternateTimes: seq<string>, fieldPrefix: string): (r: Selection)
    ensures r == NoField <==> Resolve(fields, primaryTime, Some(alternateTimes), Some(fieldPrefix)).0.None?
    ensures r.BadTime? ==> r.error == ValueError
    ensures r.Selector? ==> StartsWith(r.pattern, "^" + fieldPrefix)
  {
    var (field, selectedTime) := Resolve(fields, primaryTime, Some(alternateTimes), Some(fieldPrefix));
    match field
    case None => NoField
    case Some(f) =>
      match MilitaryToAmerican(selectedTime)
      case Err(e) => BadTime(e)
      case Ok(start) =>
        PatternStartsWithPrefix(f.resourceName, fieldPrefix, start);
        Selector("^" + f.resourceName + " " + start)
  }

  /** A name that starts with the prefix gives a pattern that starts with
      the anchor and the prefix; an empty prefix filters nothing. */
  lemma PatternStartsWithPrefix(name: string, prefix: string, start: string)
    requires prefix != "" ==> StartsWith(name, prefix)
    ensures prefix != "" ==> StartsWith("^" + name + " " + start, "^" + prefix)
    ensures StartsWith("^" + name + " " + start, "^")
  {
    var pattern := "^" + name + " " + start;
    assert pattern[..1] == "^";
    if prefix != "" {
      assert pattern[1..1 + |prefix|] == name[..|prefix|];
      assert pattern[..1 + |prefix|] == "^" + name[..|prefix|];
    }
  }

  /** The script's selection from the availability response and the
      environment's preferences. */
  function SelectFromResponse(env: Config.Environ, resources: seq<RawResource>, timeSlots: seq<string>)
    : (r: Selection)
    ensures r.BadTime? ==> r.error == ValueError
    ensures r.Selector? ==> StartsWith(r.pattern, "^" + Config.DesiredFieldStartsWith(env))
  {
    SelectTimeslot(BuildFields(resources, timeSlots), Config.DesiredTimeMilitary(env),
                   Config.AltDesiredTimesMilitary(env), Config.DesiredFieldStartsWith(env))
  }

  /** The script exits exactly when no eligible field is free at the primary
      time or at any alternate. */
  lemma NoFieldIffNothingFree(fields: seq<FieldInfo>, primaryTime: string,
                              alternateTimes: seq<string>, fieldPrefix: string)
    ensures SelectTimeslot(fields, primaryTime, alternateTimes, fieldPrefix) == NoField <==>
      (!AnyFree(fields, Some(fieldPrefix), primaryTime)
       && forall k :: 0 <= k < |alternateTimes| ==> !AnyFree(fields, Some(fieldPrefix), alternateTimes[k]))
  {
    ResolveNoMatch(fields, primaryTime, Some(alternateTimes), Some(fieldPrefix));
  }

  /** When a field is found at a canonical `HH:MM:SS` time, the pattern is
      the field's name, a blank and the 12-hour rendering of that time,
      anchored at the start; the field is the first eligible one free at
      that time. */
  lemma SelectorOfResolved(fields: seq<FieldInfo>, primaryTime: string,
                           alternateTimes: seq<string>, fieldPrefix: string,
                           h: int, m: int, sec: int)
    requires ValidClock(h, m) && 0 <= sec < 60
    requires Resolve(fields, primaryTime, Some(alternateTimes), Some(fieldPrefix)).0.Some?
    requires Resolve(fields, primaryTime, Some(alternateTimes), Some(fieldPrefix)).1 == Military(h, m, sec)
    ensures var f := Resolve(fields, primaryTime, Some(alternateTimes), Some(fieldPrefix)).0.value;
      && SelectTimeslot(fields, primaryTime, alternateTimes, fieldPrefix)
           == Selector("^" + f.resourceName + " " + American(Hour12(h), m, h >= 12))
      && (exists i :: IsFirstFree(fields, Some(fieldPrefix), Military(h, m, sec), i) && f == fields[i])
  {
    MilitaryToAmericanCanonical(h, m, sec);
    ResolveSelectsFirstFree(fields, primaryTime, Some(alternateTimes), Some(fieldPrefix));
  }

  /** The script raises exactly when a field is found but the chosen time is
      not an `%H:%M:%S` time; the message is then the parse error. */
  lemma BadTimeIffUnparsable(fields: seq<FieldInfo>, primaryTime: string,
                             alternateTimes: seq<string>, fieldPrefix: string)
    ensures var (field, t) := Resolve(fields, primaryTime, Some(alternateTimes), Some(fieldPrefix));
      SelectTimeslot(fields, primaryTime, alternateTimes, fieldPrefix).BadTime? <==>
        field.Some? && ParseMilitary(t).Err?
  {
  }

  lemma SampleTexts()
    ensures Military(19, 0, 0) == "19:00:00"
    ensures American(Hour12(19), 0, true) == "7:00 PM"
  {
    TwoDigits(19);
    TwoDigits(0);
    Hour12Face(19);
    NatToStringSmall(7);
  }

  lemma SampleStartTime(t: string)
    requires t == "19:00:00"
    ensures MilitaryToAmerican(t) == Ok("7:00 PM")
  {
    SampleTexts();
    MilitaryToAmericanCanonical(19, 0, 0);
  }

  lemma SampleFields(res: seq<RawResource>, ts: seq<string>)
    requires res == [RawResource(7, "FIELD - Main 1", [RawDetail(false), RawDetail(true)])]
    requires ts == ["19:00:00", "20:00:00"]
    ensures BuildFields(res, ts)
         == [FieldInfo(7, "FIELD - Main 1", ts, [TimeSlotDetail(false, "19:00:00"), TimeSlotDetail(true, "20:00:00")])]
  {
    var z := ZipDetails(res[0].timeSlotDetails, ts);
    assert z == [TimeSlotDetail(false, "19:00:00"), TimeSlotDetail(true, "20:00:00")];
  }

  lemma SampleResolve(f: FieldInfo)
    requires f == FieldInfo(7, "FIELD - Main 1", ["19:00:00", "20:00:00"],
                            [TimeSlotDetail(false, "19:00:00"), TimeSlotDetail(true, "20:00:00")])
    ensures Resolve([f], "20:00:00", Some(["19:00:00", "21:00:00"]), Some("FIELD - Main")) == (Some(f), "19:00:00")
  {
    assert StartsWith(f.resourceName, "FIELD - Main") by {
      assert f.resourceName[..|"FIELD - Main"|] == "FIELD - Main";
    }
    assert KeepPrefixed([f], "FIELD - Main") == [f];
    assert !FreeAt(f, "20:00:00");
    assert FreeAt(f, "19:00:00") by {
      assert f.timeSlotDetails[0] in f.timeSlotDetails;
    }
    assert AvailableAt([f], "20:00:00") == [];
    assert AvailableAt([f], "19:00:00") == [f];
    var times := ["20:00:00"] + ["19:00:00", "21:00:00"];
    assert times[1..][0] == "19:00:00";
    assert FirstFreeTime([f], times) == Some("19:00:00");
  }

  /** With nothing set in the environment the script resolves against the
      primary time 20:00:00, the alternates 19:00:00 and 21:00:00 and the
      prefix "FIELD - Main". */
  lemma SelectFromDefaults(env: Config.Environ, resources: seq<RawResource>, timeSlots: seq<string>)
    requires env == map[]
    ensures SelectFromResponse(env, resources, timeSlots)
         == SelectTimeslot(BuildFields(resources, timeSlots), "20:00:00", ["19:00:00", "21:00:00"], "FIELD - Main")
  {
    Config.PreferenceDefaults(env);
  }

  lemma SamplePattern(name: string, start: string)
    requires name == "FIELD - Main 1" && start == "7:00 PM"
    ensures "^" + name + " " + start == "^FIELD - Main 1 7:00 PM"
  {
  }

  /** The selection is assembled from the resolver's answer and the 12-hour
      start time. */
  lemma SelectionFromParts(fields: seq<FieldInfo>, primaryTime: string,
                           alternateTimes: seq<string>, fieldPrefix: string,
                           f: FieldInfo, t: string, start: string)
    requires Resolve(fields, primaryTime, Some(alternateTimes), Some(fieldPrefix)) == (Some(f), t)
    requires MilitaryToAmerican(t) == Ok(start)
    ensures SelectTimeslot(fields, primaryTime, alternateTimes, fieldPrefix)
         == Selector("^" + f.resourceName + " " + start)
  {
  }

  /** With the default preferences, a response whose one main field is open
      at 19:00 and taken at 20:00 leads to the 19:00 cell of that field. */
  lemma SelectionExample(res: seq<RawResource>, ts: seq<string>, alts: seq<string>)
    requires res == [RawResource(7, "FIELD - Main 1", [RawDetail(false), RawDetail(true)])]
    requires ts == ["19:00:00", "20:00:00"]
    requires alts == ["19:00:00", "21:00:00"]
    ensures SelectTimeslot(BuildFields(res, ts), "20:00:00", alts, "FIELD - Main")
         == Selector("^FIELD - Main 1 7:00 PM")
  {
    SampleFields(res, ts);
    var f := FieldInfo(7, "FIELD - Main 1", ts, [TimeSlotDetail(false, "19:00:00"), TimeSlotDetail(true, "20:00:00")]);
    SampleResolve(f);
    SampleStartTime("19:00:00");
    SelectionFromParts(BuildFields(res, ts), "20:00:00", alts, "FIELD - Main", f, "19:00:00", "7:00 PM");
    SamplePattern(f.resourceName, "7:00 PM");
  }
}
