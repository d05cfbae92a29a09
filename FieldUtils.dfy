/** The field availability resolver: which field to book, and at which
    time, given every field's per-slot booked flags, a primary time, the
    alternate times in order of preference and an optional name prefix. */
module FieldUtils {
  import opened Wrappers
  import opened Strings

  /** One slot of one field: its time label and whether it is taken (the
      response calls the flag `status`). */
  datatype TimeSlotDetail = TimeSlotDetail(isBooked: bool, time: string)

  datatype FieldInfo = FieldInfo(
    resourceId: int,
    resourceName: string,
    timeSlots: seq<string>,
    timeSlotDetails: seq<TimeSlotDetail>)

  /** `if field_prefix:` is false for `None` and for the empty string. */
  predicate PrefixGiven(prefix: Option<string>) {
    prefix.Some? && prefix.value != ""
  }

  /** A field survives the prefix filter. */
  predicate Eligible(prefix: Option<string>, f: FieldInfo) {
    PrefixGiven(prefix) ==> StartsWith(f.resourceName, prefix.value)
  }

  /** Some detail of the field is at time `t` and not booked; only the
      details' `time` values are compared. */
  predicate FreeAt(f: FieldInfo, t: string) {
    exists d :: d in f.timeSlotDetails && d.time == t && !d.isBooked
  }

  /** `[field for field in fields if field.resource_name.startswith(p)]` */
  function KeepPrefixed(fields: seq<FieldInfo>, p: string): (r: seq<FieldInfo>)
    ensures |r| <= |fields|
    ensures forall i :: 0 <= i < |r| ==> r[i] in fields && StartsWith(r[i].resourceName, p)
  {
    if fields == [] then []
    else (if StartsWith(fields[0].resourceName, p) then [fields[0]] else [])
         + KeepPrefixed(fields[1..], p)
  }

  /** The fields the search runs over. */
  function FilterByPrefix(fields: seq<FieldInfo>, prefix: Option<string>): (r: seq<FieldInfo>)
    ensures forall i :: 0 <= i < |r| ==> r[i] in fields && Eligible(prefix, r[i])
    ensures !PrefixGiven(prefix) ==> r == fields
  {
    if PrefixGiven(prefix) then KeepPrefixed(fields, prefix.value) else fields
  }

  /** `[field for field in fields if any(d.time == t and not d.is_booked ...)]` */
  function AvailableAt(fields: seq<FieldInfo>, t: string): (r: seq<FieldInfo>)
    ensures |r| <= |fields|
    ensures forall i :: 0 <= i < |r| ==> r[i] in fields && FreeAt(r[i], t)
  {
    if fields == [] then []
    else (if FreeAt(fields[0], t) then [fields[0]] else []) + AvailableAt(fields[1..], t)
  }

  /** The alternates that are tried: `None` and `[]` are both falsy. */
  function Alternates(alternateTimes: Option<seq<string>>): seq<string> {
    if alternateTimes.Some? then alternateTimes.value else []
  }

  // ---------------------------------------------------------------------
  // The reference definition: the first time, in order of preference, at
  // which some candidate is free; then the first such candidate.
  // ---------------------------------------------------------------------

  function FirstFreeTime(candidates: seq<FieldInfo>, times: seq<string>): (r: Option<string>)
    ensures r.Some? ==> r.value in times && AvailableAt(candidates, r.value) != []
  {
    if times == [] then None
    else if AvailableAt(candidates, times[0]) != [] then Some(times[0])
    else FirstFreeTime(candidates, times[1..])
  }

  function Resolve(fields: seq<FieldInfo>, primaryTime: string,
                   alternateTimes: Option<seq<string>>, fieldPrefix: Option<string>)
    : (r: (Option<FieldInfo>, string))
    ensures r.0.None? ==> r.1 == primaryTime
    ensures r.0.Some? ==> r.0.value in fields && Eligible(fieldPrefix, r.0.value) && FreeAt(r.0.value, r.1)
    ensures r.1 == primaryTime || r.1 in Alternates(alternateTimes)
  {
    var candidates := FilterByPrefix(fields, fieldPrefix);
    match FirstFreeTime(candidates, [primaryTime] + Alternates(alternateTimes))
    case None => (None, primaryTime)
    case Some(t) => (Some(AvailableAt(candidates, t)[0]), t)
  }

  /** One step of the search over the times. */
  lemma FirstFreeTimeStep(candidates: seq<FieldInfo>, times: seq<string>)
    ensures times == [] ==> FirstFreeTime(candidates, times) == None
    ensures times != [] ==>
      FirstFreeTime(candidates, times)
        == (if AvailableAt(candidates, times[0]) != [] then Some(times[0]) else FirstFreeTime(candidates, times[1..]))
  {
  }

  /** The loop of `find_available_fields` over the alternates: the first
      alternate at which some candidate is free, with the candidates free
      then, or no alternate and no candidates. */
  method TryAlternates(candidates: seq<FieldInfo>, alts: seq<string>)
    returns (available: seq<FieldInfo>, found: Option<string>)
    ensures found == FirstFreeTime(candidates, alts)
    ensures available == if found.Some? then AvailableAt(candidates, found.value) else []
  {
    available, found := [], None;
    var i := 0;
    while i < |alts|
      invariant 0 <= i <= |alts|
      invariant available == [] && found == None
      invariant FirstFreeTime(candidates, alts) == FirstFreeTime(candidates, alts[i..])
    {
      FirstFreeTimeStep(candidates, alts[i..]);
      assert alts[i..][1..] == alts[i + 1..];
      available := AvailableAt(candidates, alts[i]);
      if available != [] {
        found := Some(alts[i]);
        return;
      }
      i := i + 1;
    }
    FirstFreeTimeStep(candidates, alts[i..]);
  }

  /** `find_available_fields`, step by step as the source runs it: filter,
      try the primary time, then each alternate until one has a free field. */
  method FindAvailableFields(fields: seq<FieldInfo>, primaryTime: string,
                             alternateTimes: Option<seq<string>>, fieldPrefix: Option<string>)
    returns (field: Option<FieldInfo>, selectedTime: string)
    ensures (field, selectedTime) == Resolve(fields, primaryTime, alternateTimes, fieldPrefix)
  {
    var candidates := fields;
    if PrefixGiven(fieldPrefix) {
      candidates := KeepPrefixed(fields, fieldPrefix.value);
    }
    ghost var times := [primaryTime] + Alternates(alternateTimes);
    FirstFreeTimeStep(candidates, times);
    assert times[1..] == Alternates(alternateTimes);
    var available := AvailableAt(candidates, primaryTime);
    selectedTime := primaryTime;
    if available == [] && alternateTimes.Some? && alternateTimes.value != [] {
      var found;
      available, found := TryAlternates(candidates, alternateTimes.value);
      if found.Some? {
        selectedTime := found.value;
      }
    } else if available == [] {
      FirstFreeTimeStep(candidates, times[1..]);
    }
    field := if available != [] then Some(available[0]) else None;
  }

  // ---------------------------------------------------------------------
  // What the reference definition means, stated over the input order.
  // ---------------------------------------------------------------------

  /** Some eligible field is free at `t`. */
  predicate AnyFree(fields: seq<FieldInfo>, prefix: Option<string>, t: string) {
    exists i :: 0 <= i < |fields| && Eligible(prefix, fields[i]) && FreeAt(fields[i], t)
  }

  /** `fields[i]` is the first eligible field, in input order, free at `t`. */
  predicate IsFirstFree(fields: seq<FieldInfo>, prefix: Option<string>, t: string, i: int) {
    && 0 <= i < |fields| && Eligible(prefix, fields[i]) && FreeAt(fields[i], t)
    && forall j :: 0 <= j < i ==> !(Eligible(prefix, fields[j]) && FreeAt(fields[j], t))
  }

  lemma FilterCons(fields: seq<FieldInfo>, prefix: Option<string>)
    requires fields != []
    ensures FilterByPrefix(fields, prefix)
         == (if Eligible(prefix, fields[0]) then [fields[0]] else []) + FilterByPrefix(fields[1..], prefix)
  {
  }

  /** When the first field is not an eligible free one, the search at `t`
      and the first free field are those of the rest of the list. */
  lemma SkipHead(fields: seq<FieldInfo>, prefix: Option<string>, t: string)
    requires fields != [] && !(Eligible(prefix, fields[0]) && FreeAt(fields[0], t))
    ensures AvailableAt(FilterByPrefix(fields, prefix), t)
         == AvailableAt(FilterByPrefix(fields[1..], prefix), t)
  {
    FilterCons(fields, prefix);
    var rest := FilterByPrefix(fields[1..], prefix);
    if Eligible(prefix, fields[0]) {
      assert ([fields[0]] + rest)[1..] == rest;
    } else {
      assert [] + rest == rest;
    }
  }

  lemma ShiftFirstFree(fields: seq<FieldInfo>, prefix: Option<string>, t: string)
    requires fields != [] && !(Eligible(prefix, fields[0]) && FreeAt(fields[0], t))
    ensures AnyFree(fields, prefix, t) <==> AnyFree(fields[1..], prefix, t)
    ensures forall i :: IsFirstFree(fields[1..], prefix, t, i) ==> IsFirstFree(fields, prefix, t, i + 1)
  {
    var rest := fields[1..];
    if AnyFree(fields, prefix, t) {
      var k :| 0 <= k < |fields| && Eligible(prefix, fields[k]) && FreeAt(fields[k], t);
      assert rest[k - 1] == fields[k];
    }
    if AnyFree(rest, prefix, t) {
      var k :| 0 <= k < |rest| && Eligible(prefix, rest[k]) && FreeAt(rest[k], t);
      assert fields[k + 1] == rest[k];
    }
    forall i | IsFirstFree(rest, prefix, t, i) ensures IsFirstFree(fields, prefix, t, i + 1) {
      forall j | 0 <= j < i + 1 ensures !(Eligible(prefix, fields[j]) && FreeAt(fields[j], t)) {
        if j > 0 { assert fields[j] == rest[j - 1]; }
      }
    }
  }

  /** The search at one time finds a field exactly when some eligible field
      is free then, and what it finds first is the first such field of the
      input. */
  lemma {:induction false} AvailableHead(fields: seq<FieldInfo>, prefix: Option<string>, t: string)
    ensures AvailableAt(FilterByPrefix(fields, prefix), t) != [] <==> AnyFree(fields, prefix, t)
    ensures AnyFree(fields, prefix, t) ==>
      exists i :: IsFirstFree(fields, prefix, t, i)
               && AvailableAt(FilterByPrefix(fields, prefix), t)[0] == fields[i]
  {
    if fields != [] {
      var f := fields[0];
      if Eligible(prefix, f) && FreeAt(f, t) {
        FilterCons(fields, prefix);
        assert AvailableAt(FilterByPrefix(fields, prefix), t)[0] == f;
        assert IsFirstFree(fields, prefix, t, 0);
      } else {
        SkipHead(fields, prefix, t);
        ShiftFirstFree(fields, prefix, t);
        AvailableHead(fields[1..], prefix, t);
      }
    }
  }

  /** The first time in `times` at which some eligible field is free. */
  lemma {:induction false} FirstFreeTimeIsFirst(fields: seq<FieldInfo>, prefix: Option<string>,
                                               times: seq<string>, j: int)
    requires 0 <= j < |times| && AnyFree(fields, prefix, times[j])
    requires forall k :: 0 <= k < j ==> !AnyFree(fields, prefix, times[k])
    ensures FirstFreeTime(FilterByPrefix(fields, prefix), times) == Some(times[j])
  {
    FirstFreeTimeStep(FilterByPrefix(fields, prefix), times);
    AvailableHead(fields, prefix, times[0]);
    if j > 0 {
      forall k | 0 <= k < j - 1 ensures !AnyFree(fields, prefix, times[1..][k]) {
        assert times[1..][k] == times[k + 1];
      }
      FirstFreeTimeIsFirst(fields, prefix, times[1..], j - 1);
    }
  }

  lemma {:induction false} FirstFreeTimeNone(fields: seq<FieldInfo>, prefix: Option<string>,
                                            times: seq<string>)
    ensures FirstFreeTime(FilterByPrefix(fields, prefix), times).None?
        <==> forall k :: 0 <= k < |times| ==> !AnyFree(fields, prefix, times[k])
  {
    FirstFreeTimeStep(FilterByPrefix(fields, prefix), times);
    if times != [] {
      var rest := times[1..];
      AvailableHead(fields, prefix, times[0]);
      FirstFreeTimeNone(fields, prefix, rest);
      assert forall k :: 0 <= k < |rest| ==> rest[k] == times[k + 1];
      if forall k :: 0 <= k < |rest| ==> !AnyFree(fields, prefix, rest[k]) {
        forall k | 0 < k < |times| ensures !AnyFree(fields, prefix, times[k]) {
          assert times[k] == rest[k - 1];
        }
      }
    }
  }

  /** A returned field is the first eligible field of the input, in input
      order, that has an unbooked detail at the returned time; in particular
      it is an element of the input and, for a non-empty prefix, its name
      starts with the prefix. */
  lemma ResolveSelectsFirstFree(fields: seq<FieldInfo>, primaryTime: string,
                                alternateTimes: Option<seq<string>>, fieldPrefix: Option<string>)
    ensures var (field, t) := Resolve(fields, primaryTime, alternateTimes, fieldPrefix);
      field.Some? ==>
        && (exists i :: IsFirstFree(fields, fieldPrefix, t, i) && field.value == fields[i])
        && field.value in fields
        && FreeAt(field.value, t)
        && (PrefixGiven(fieldPrefix) ==> StartsWith(field.value.resourceName, fieldPrefix.value))
  {
    var candidates := FilterByPrefix(fields, fieldPrefix);
    var ft := FirstFreeTime(candidates, [primaryTime] + Alternates(alternateTimes));
    if ft.Some? {
      AvailableHead(fields, fieldPrefix, ft.value);
    }
  }

  /** If some eligible field is free at the primary time, the primary time
      is selected, a field is returned, and the alternates play no part. */
  lemma ResolvePrimaryWins(fields: seq<FieldInfo>, primaryTime: string,
                           alternateTimes: Option<seq<string>>, fieldPrefix: Option<string>)
    requires AnyFree(fields, fieldPrefix, primaryTime)
    ensures Resolve(fields, primaryTime, alternateTimes, fieldPrefix).1 == primaryTime
    ensures Resolve(fields, primaryTime, alternateTimes, fieldPrefix).0.Some?
    ensures Resolve(fields, primaryTime, alternateTimes, fieldPrefix)
         == Resolve(fields, primaryTime, None, fieldPrefix)
  {
    AvailableHead(fields, fieldPrefix, primaryTime);
  }

  /** Otherwise the selected time is the first alternate, in list order, at
      which some eligible field is free. */
  lemma ResolveFirstAlternate(fields: seq<FieldInfo>, primaryTime: string,
                              alternateTimes: Option<seq<string>>, fieldPrefix: Option<string>, j: int)
    requires !AnyFree(fields, fieldPrefix, primaryTime)
    requires 0 <= j < |Alternates(alternateTimes)|
    requires AnyFree(fields, fieldPrefix, Alternates(alternateTimes)[j])
    requires forall k :: 0 <= k < j ==> !AnyFree(fields, fieldPrefix, Alternates(alternateTimes)[k])
    ensures Resolve(fields, primaryTime, alternateTimes, fieldPrefix).1 == Alternates(alternateTimes)[j]
    ensures Resolve(fields, primaryTime, alternateTimes, fieldPrefix).0.Some?
  {
    var times := [primaryTime] + Alternates(alternateTimes);
    forall k | 0 <= k < j + 1 ensures !AnyFree(fields, fieldPrefix, times[k]) {
      if k > 0 { assert times[k] == Alternates(alternateTimes)[k - 1]; }
    }
    FirstFreeTimeIsFirst(fields, fieldPrefix, times, j + 1);
  }

  /** No field is returned exactly when no eligible field is free at the
      primary time or at any alternate; the time is then the primary time. */
  lemma ResolveNoMatch(fields: seq<FieldInfo>, primaryTime: string,
                       alternateTimes: Option<seq<string>>, fieldPrefix: Option<string>)
    ensures Resolve(fields, primaryTime, alternateTimes, fieldPrefix).0.None?
        <==> (!AnyFree(fields, fieldPrefix, primaryTime)
              && forall k :: 0 <= k < |Alternates(alternateTimes)|
                   ==> !AnyFree(fields, fieldPrefix, Alternates(alternateTimes)[k]))
    ensures Resolve(fields, primaryTime, alternateTimes, fieldPrefix).0.None?
        ==> Resolve(fields, primaryTime, alternateTimes, fieldPrefix).1 == primaryTime
  {
    var alts := Alternates(alternateTimes);
    var times := [primaryTime] + alts;
    FirstFreeTimeNone(fields, fieldPrefix, times);
    assert times[0] == primaryTime;
    assert forall k :: 0 <= k < |alts| ==> times[k + 1] == alts[k];
    if !AnyFree(fields, fieldPrefix, primaryTime)
       && forall k :: 0 <= k < |alts| ==> !AnyFree(fields, fieldPrefix, alts[k]) {
      forall k | 0 <= k < |times| ensures !AnyFree(fields, fieldPrefix, times[k]) {
        if k > 0 { assert times[k] == alts[k - 1]; }
      }
    }
  }

  // ---------------------------------------------------------------------
  // `time_slots` is never read
  // ---------------------------------------------------------------------

  /** Every field with its `time_slots` replaced by `ts`. */
  function Restamp(fields: seq<FieldInfo>, ts: seq<string>): (r: seq<FieldInfo>)
    ensures |r| == |fields|
    ensures forall i :: 0 <= i < |fields| ==> r[i] == fields[i].(timeSlots := ts)
  {
    if fields == [] then [] else [fields[0].(timeSlots := ts)] + Restamp(fields[1..], ts)
  }

  lemma {:induction false} RestampFilters(fields: seq<FieldInfo>, ts: seq<string>, p: string, t: string)
    ensures KeepPrefixed(Restamp(fields, ts), p) == Restamp(KeepPrefixed(fields, p), ts)
    ensures AvailableAt(Restamp(fields, ts), t) == Restamp(AvailableAt(fields, t), ts)
  {
    if fields != [] {
      var r := Restamp(fields, ts);
      assert r[1..] == Restamp(fields[1..], ts);
      assert FreeAt(r[0], t) == FreeAt(fields[0], t);
      RestampFilters(fields[1..], ts, p, t);
    }
  }

  lemma {:induction false} RestampFirstFreeTime(candidates: seq<FieldInfo>, ts: seq<string>, times: seq<string>)
    ensures FirstFreeTime(Restamp(candidates, ts), times) == FirstFreeTime(candidates, times)
  {
    if times != [] {
      RestampFilters(candidates, ts, "", times[0]);
      RestampFirstFreeTime(candidates, ts, times[1..]);
    }
  }

  /** Replacing every field's `time_slots` changes which field is returned
      in nothing but that list, and does not change the selected time. */
  lemma ResolveIgnoresTimeSlots(fields: seq<FieldInfo>, ts: seq<string>, primaryTime: string,
                                alternateTimes: Option<seq<string>>, fieldPrefix: Option<string>)
    ensures var (f1, t1) := Resolve(fields, primaryTime, alternateTimes, fieldPrefix);
            var (f2, t2) := Resolve(Restamp(fields, ts), primaryTime, alternateTimes, fieldPrefix);
            t2 == t1 && f2.Some? == f1.Some? && (f1.Some? ==> f2.value == f1.value.(timeSlots := ts))
  {
    var candidates := FilterByPrefix(fields, fieldPrefix);
    var times := [primaryTime] + Alternates(alternateTimes);
    if PrefixGiven(fieldPrefix) {
      RestampFilters(fields, ts, fieldPrefix.value, primaryTime);
    }
    assert FilterByPrefix(Restamp(fields, ts), fieldPrefix) == Restamp(candidates, ts);
    RestampFirstFreeTime(candidates, ts, times);
    var ft := FirstFreeTime(candidates, times);
    if ft.Some? {
      RestampFilters(candidates, ts, "", ft.value);
    }
  }

  // ---------------------------------------------------------------------
  // Worked cases
  // ---------------------------------------------------------------------

  /** A prefix that no field's name starts with yields no field, whatever
      the fields' slots say. */
  lemma PrefixMatchingNothing(fields: seq<FieldInfo>, primaryTime: string,
                              alternateTimes: Option<seq<string>>, p: string)
    requires p != ""
    requires forall i :: 0 <= i < |fields| ==> !StartsWith(fields[i].resourceName, p)
    ensures Resolve(fields, primaryTime, alternateTimes, Some(p)) == (None, primaryTime)
  {
    ResolveNoMatch(fields, primaryTime, alternateTimes, Some(p));
  }

  /** Booked only at 20:00, primary 20:00 and alternate 19:00: the field is
      booked at 19:00; two fields free at 20:00: the first listed wins. */
  lemma ResolveExamples()
    ensures var a := FieldInfo(1, "FIELD - A", ["19:00:00", "20:00:00", "21:00:00"],
                               [TimeSlotDetail(false, "19:00:00"), TimeSlotDetail(true, "20:00:00"),
                                TimeSlotDetail(false, "21:00:00")]);
            Resolve([a], "20:00:00", Some(["19:00:00"]), None) == (Some(a), "19:00:00")
    ensures var b := FieldInfo(2, "FIELD - B", ["20:00:00"], [TimeSlotDetail(false, "20:00:00")]);
            var a := FieldInfo(1, "FIELD - A", ["20:00:00"], [TimeSlotDetail(false, "20:00:00")]);
            Resolve([b, a], "20:00:00", None, None) == (Some(b), "20:00:00")
  {
    var a := FieldInfo(1, "FIELD - A", ["19:00:00", "20:00:00", "21:00:00"],
                       [TimeSlotDetail(false, "19:00:00"), TimeSlotDetail(true, "20:00:00"),
                        TimeSlotDetail(false, "21:00:00")]);
    assert !FreeAt(a, "20:00:00");
    assert FreeAt(a, "19:00:00") by {
      assert a.timeSlotDetails[0] in a.timeSlotDetails;
    }
    assert AvailableAt([a], "20:00:00") == [];
    assert AvailableAt([a], "19:00:00") == [a];
    assert ["20:00:00"] + ["19:00:00"] == ["20:00:00", "19:00:00"];
    assert ["20:00:00", "19:00:00"][1..] == ["19:00:00"];
    assert FirstFreeTime([a], ["20:00:00", "19:00:00"]) == Some("19:00:00");
    var b := FieldInfo(2, "FIELD - B", ["20:00:00"], [TimeSlotDetail(false, "20:00:00")]);
    assert FreeAt(b, "20:00:00") by {
      assert b.timeSlotDetails[0] in b.timeSlotDetails;
    }
  }
}
