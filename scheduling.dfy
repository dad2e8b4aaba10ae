/** Date scheduling in dating.controllers.ts: availability submission with the
    first-common-slot search, the conflict warnings for a found slot,
    confirming an appointment, the status of a pair and a user's agenda. */
module Scheduling {
  import opened Schemas
  import opened Decimal
  import opened TimeSlots
  import opened Sockets
  import opened Store
  import opened Sorting

  /** Why a scheduling request is rejected. `ValidationFailed` is the Mongoose
      validation error of `DateAppointment.create` (a required field missing,
      or a user id that cannot be cast), which the handler passes to `next`. */
  datatype ScheduleError = InvalidTargetId | ValidationFailed

  /** One conflict warning. The caller's own clash names the other participant
      (by id here, by populated name in the source) and the appointment's
      times; the counterpart's clash is a fixed text that names no one. */
  datatype Warning = BookedWith(other: UserId, startTime: string, endTime: string, date: string) | PartnerBusy

  /** The sender name of the `date_scheduled` push. */
  const SystemSenderName := "Hệ thống"

  // ─── conflict check ─────────────────────────────────────────────────

  predicate Involves(a: Appointment, u: UserId)
  {
    a.user1 == u || a.user2 == u
  }

  /** The appointment query of `checkConflict`: scheduled, on the slot's date,
      with the caller or the counterpart as either participant. */
  predicate ConflictCandidate(a: Appointment, userId: UserId, targetId: UserId, date: string)
  {
    && (a.user1 in {userId, targetId} || a.user2 in {userId, targetId})
    && a.date == date
    && a.status == Scheduled
  }

  /** The query result, in stored order. */
  function ConflictQuery(apps: seq<Appointment>, userId: UserId, targetId: UserId, date: string): (r: seq<Appointment>)
    ensures forall a :: a in r <==> a in apps && ConflictCandidate(a, userId, targetId, date)
  {
    if apps == [] then []
    else
      var rest := ConflictQuery(apps[1..], userId, targetId, date);
      assert apps == [apps[0]] + apps[1..];
      if ConflictCandidate(apps[0], userId, targetId, date) then [apps[0]] + rest else rest
  }

  /** Minute `m` lies in the half-open window from `start` to `end`, both
      read as clock text. */
  predicate MinuteWithin(m: int, start: string, end: string)
  {
    ToMinutes(start).Some? && ToMinutes(end).Some? && ToMinutes(start).value <= m < ToMinutes(end).value
  }

  /** The intended test of line 455: the appointment and the slot share some
      time, compared as minutes; NaN anywhere makes it false. */
  predicate Overlaps(a: Appointment, slot: TimeSlot): (r: bool)
    ensures r <==> exists m :: MinuteWithin(m, a.startTime, a.endTime) && MinuteWithin(m, slot.startTime, slot.endTime)
  {
    match (ToMinutes(a.startTime), ToMinutes(a.endTime), ToMinutes(slot.startTime), ToMinutes(slot.endTime))
    case (Some(aStart), Some(aEnd), Some(sStart), Some(sEnd)) =>
      var first := Max(aStart, sStart);
      assert first < Min(aEnd, sEnd) ==>
        MinuteWithin(first, a.startTime, a.endTime) && MinuteWithin(first, slot.startTime, slot.endTime);
      first < Min(aEnd, sEnd)
    case _ => false
  }

  /** Line 455 as written: `Math.max` and `Math.min` turn the two time strings
      into numbers with `Number()` before comparing, so any "HH:mm" text (which
      holds a ':') becomes NaN and the comparison is false. */
  predicate OverlapsAsWritten(a: Appointment, slot: TimeSlot): (r: bool)
    ensures r ==> AllDigits(a.startTime) && AllDigits(a.endTime) && AllDigits(slot.startTime) && AllDigits(slot.endTime)
  {
    match (JsNumber(a.startTime), JsNumber(slot.startTime), JsNumber(a.endTime), JsNumber(slot.endTime))
    case (Some(aStart), Some(sStart), Some(aEnd), Some(sEnd)) => Max(aStart, sStart) < Min(aEnd, sEnd)
    case _ => false
  }

  /** The other participant of an appointment of `userId`. */
  function OtherParticipant(a: Appointment, userId: UserId): UserId
  {
    if a.user1 == userId then a.user2 else a.user1
  }

  /** The warnings one found appointment adds: the caller's own clash first,
      then the counterpart's, or nothing when it does not overlap. */
  function WarningsFor(a: Appointment, userId: UserId, targetId: UserId, slot: TimeSlot, overlaps: (Appointment, TimeSlot) -> bool): seq<Warning>
  {
    if !overlaps(a, slot) then []
    else
      (if Involves(a, userId) then [BookedWith(OtherParticipant(a, userId), a.startTime, a.endTime, a.date)] else [])
      + (if Involves(a, targetId) then [PartnerBusy] else [])
  }

  /** The warnings for the found appointments, in their order. */
  function ConflictWarnings(found: seq<Appointment>, userId: UserId, targetId: UserId, slot: TimeSlot, overlaps: (Appointment, TimeSlot) -> bool): seq<Warning>
  {
    if found == [] then []
    else ConflictWarnings(found[..|found| - 1], userId, targetId, slot, overlaps)
         + WarningsFor(found[|found| - 1], userId, targetId, slot, overlaps)
  }

  /** `checkConflict`: query the candidate appointments, then push warnings in
      a loop. `overlaps` is the test of line 455 (`Overlaps` in this model). */
  method CheckConflict(db: Database, userId: UserId, targetId: UserId, slot: TimeSlot, overlaps: (Appointment, TimeSlot) -> bool)
    returns (warnings: seq<Warning>)
    ensures warnings == ConflictWarnings(ConflictQuery(db.appointments, userId, targetId, slot.date), userId, targetId, slot, overlaps)
  {
    var found := ConflictQuery(db.appointments, userId, targetId, slot.date);
    warnings := [];
    var i := 0;
    while i < |found|
      invariant 0 <= i <= |found|
      invariant warnings == ConflictWarnings(found[..i], userId, targetId, slot, overlaps)
    {
      var a := found[i];
      ghost var before := warnings;
      if overlaps(a, slot) {
        if Involves(a, userId) {
          var otherPerson := OtherParticipant(a, userId);
          warnings := warnings + [BookedWith(otherPerson, a.startTime, a.endTime, a.date)];
        }
        if Involves(a, targetId) {
          warnings := warnings + [PartnerBusy];
        }
      }
      assert warnings == before + WarningsFor(a, userId, targetId, slot, overlaps);
      assert found[..i + 1][..i] == found[..i];
      i := i + 1;
    }
    assert found[..i] == found;
  }

  /** The anonymous warning appears exactly when some found appointment of
      the counterpart overlaps the slot. */
  lemma {:induction false} PartnerBusyMeaning(found: seq<Appointment>, userId: UserId, targetId: UserId, slot: TimeSlot, overlaps: (Appointment, TimeSlot) -> bool)
    ensures PartnerBusy in ConflictWarnings(found, userId, targetId, slot, overlaps)
            <==> exists a :: a in found && overlaps(a, slot) && Involves(a, targetId)
  {
    if found != [] {
      var init := found[..|found| - 1];
      var last := found[|found| - 1];
      PartnerBusyMeaning(init, userId, targetId, slot, overlaps);
      assert found == init + [last];
      var w := WarningsFor(last, userId, targetId, slot, overlaps);
      assert PartnerBusy in w <==> overlaps(last, slot) && Involves(last, targetId);
      if exists a :: a in found && overlaps(a, slot) && Involves(a, targetId) {
        var a :| a in found && overlaps(a, slot) && Involves(a, targetId);
        assert a in init || a == last;
      }
    }
  }

  /** The caller's warning for (other, times, date) appears exactly when a found
      appointment of the caller with `other` at those times overlaps the slot. */
  lemma {:induction false} BookedWithMeaning(found: seq<Appointment>, userId: UserId, targetId: UserId, slot: TimeSlot, overlaps: (Appointment, TimeSlot) -> bool,
                                             o: UserId, s: string, e: string, d: string)
    ensures BookedWith(o, s, e, d) in ConflictWarnings(found, userId, targetId, slot, overlaps)
            <==> exists a :: a in found && overlaps(a, slot) && Involves(a, userId)
                             && OtherParticipant(a, userId) == o && a.startTime == s && a.endTime == e && a.date == d
  {
    if found != [] {
      var init := found[..|found| - 1];
      var last := found[|found| - 1];
      BookedWithMeaning(init, userId, targetId, slot, overlaps, o, s, e, d);
      assert found == init + [last];
      var w := WarningsFor(last, userId, targetId, slot, overlaps);
      assert BookedWith(o, s, e, d) in w <==>
        overlaps(last, slot) && Involves(last, userId) && OtherParticipant(last, userId) == o
        && last.startTime == s && last.endTime == e && last.date == d;
      if exists a :: a in found && overlaps(a, slot) && Involves(a, userId)
                     && OtherParticipant(a, userId) == o && a.startTime == s && a.endTime == e && a.date == d {
        var a :| a in found && overlaps(a, slot) && Involves(a, userId)
                 && OtherParticipant(a, userId) == o && a.startTime == s && a.endTime == e && a.date == d;
        assert a in init || a == last;
      }
    }
  }

  /** What the warnings mean: the anonymous warning appears exactly when some
      found appointment of the counterpart overlaps the slot, and the caller's
      warning for (other, times, date) exactly when such an appointment of the
      caller with `other` overlaps it. */
  lemma ConflictWarningsMeaning(found: seq<Appointment>, userId: UserId, targetId: UserId, slot: TimeSlot, overlaps: (Appointment, TimeSlot) -> bool)
    ensures var w := ConflictWarnings(found, userId, targetId, slot, overlaps);
      && (PartnerBusy in w <==> exists a :: a in found && overlaps(a, slot) && Involves(a, targetId))
      && forall o, s, e, d :: BookedWith(o, s, e, d) in w <==>
           exists a :: a in found && overlaps(a, slot) && Involves(a, userId)
                       && OtherParticipant(a, userId) == o && a.startTime == s && a.endTime == e && a.date == d
  {
    PartnerBusyMeaning(found, userId, targetId, slot, overlaps);
    forall o, s, e, d
      ensures BookedWith(o, s, e, d) in ConflictWarnings(found, userId, targetId, slot, overlaps) <==>
           exists a :: a in found && overlaps(a, slot) && Involves(a, userId)
                       && OtherParticipant(a, userId) == o && a.startTime == s && a.endTime == e && a.date == d
    {
      BookedWithMeaning(found, userId, targetId, slot, overlaps, o, s, e, d);
    }
  }

  /** An overlapping appointment between the caller and the counterpart
      yields both warnings, the caller's first. */
  lemma PairAppointmentWarnsBoth(a: Appointment, userId: UserId, targetId: UserId, slot: TimeSlot)
    requires a.user1 == userId && a.user2 == targetId && Overlaps(a, slot)
    ensures WarningsFor(a, userId, targetId, slot, Overlaps) == [BookedWith(targetId, a.startTime, a.endTime, a.date), PartnerBusy]
  {
  }

  /** The test as written never fires for a slot whose start is clock text. */
  lemma AsWrittenNeverOverlaps(a: Appointment, slot: TimeSlot)
    requires ':' in slot.startTime
    ensures !OverlapsAsWritten(a, slot)
  {
    var k :| 0 <= k < |slot.startTime| && slot.startTime[k] == ':';
    assert !IsDigit(slot.startTime[k]);
  }

  /** Hence, as written, `checkConflict` returns no warning at all for such a slot. */
  lemma {:induction false} AsWrittenNoWarnings(found: seq<Appointment>, userId: UserId, targetId: UserId, slot: TimeSlot)
    requires ':' in slot.startTime
    ensures ConflictWarnings(found, userId, targetId, slot, OverlapsAsWritten) == []
  {
    if found != [] {
      AsWrittenNoWarnings(found[..|found| - 1], userId, targetId, slot);
      AsWrittenNeverOverlaps(found[|found| - 1], slot);
    }
  }

  /** Every common slot the search can find is clock text, so the as-written
      test is silent on every slot `submitAvailability` checks. */
  lemma CommonSlotIsClockText(a: TimeSlot, b: TimeSlot)
    requires GetIntersection(a, b).Some?
    ensures ':' in GetIntersection(a, b).value.startTime
  {
    var (sa, _) := SlotMinutes(a).value;
    var (sb, _) := SlotMinutes(b).value;
    var t := ToTimeStr(Max(sa, sb));
    assert t[|PadStart2(ToDecimal(Max(sa, sb) / 60))|] == ':';
  }

  /** A concrete case: an appointment of the caller with a third user from
      10:00 to 11:00 and a common slot from 10:30 to 11:30 on the same day.
      The intended test warns; the test as written stays silent. */
  lemma ConflictMissedAsWritten()
    ensures var a := Appointment("A", "C", "2024-01-01", "10:00", "11:00", Scheduled);
      var slot := TimeSlot("2024-01-01", "10:30", "11:30");
      && ConflictWarnings([a], "A", "B", slot, Overlaps) == [BookedWith("C", "10:00", "11:00", "2024-01-01")]
      && ConflictWarnings([a], "A", "B", slot, OverlapsAsWritten) == []
  {
    var a := Appointment("A", "C", "2024-01-01", "10:00", "11:00", Scheduled);
    var slot := TimeSlot("2024-01-01", "10:30", "11:30");
    CounterexampleOverlaps();
    AsWrittenNeverOverlaps(a, slot);
    OneFoundWarnings(a, "A", "B", slot, Overlaps);
    OneFoundWarnings(a, "A", "B", slot, OverlapsAsWritten);
    assert Involves(a, "A") && !Involves(a, "B") && OtherParticipant(a, "A") == "C";
  }

  /** The warnings for a single found appointment are its own. */
  lemma OneFoundWarnings(a: Appointment, userId: UserId, targetId: UserId, slot: TimeSlot, overlaps: (Appointment, TimeSlot) -> bool)
    ensures ConflictWarnings([a], userId, targetId, slot, overlaps) == WarningsFor(a, userId, targetId, slot, overlaps)
  {
    assert [a][..0] == [];
  }

  /** 10:00–11:00 and 10:30–11:30 share the half hour from 10:30. */
  lemma CounterexampleOverlaps()
    ensures Overlaps(Appointment("A", "C", "2024-01-01", "10:00", "11:00", Scheduled), TimeSlot("2024-01-01", "10:30", "11:30"))
  {
    ClockMinutes("10:00", 10, 0);
    ClockMinutes("11:00", 11, 0);
    ClockMinutes("10:30", 10, 30);
    ClockMinutes("11:30", 11, 30);
  }

  /** The minutes of a literal clock reading "HH:mm". */
  lemma ClockMinutes(s: string, h: nat, m: nat)
    requires |s| == 5 && s[2] == ':' && h < 24 && m < 60
    requires s[0] == DigitChar(h / 10) && s[1] == DigitChar(h % 10)
    requires s[3] == DigitChar(m / 10) && s[4] == DigitChar(m % 10)
    ensures ToMinutes(s) == Some(h * 60 + m)
  {
    var hh, mm := s[..2], s[3..];
    assert s == hh + [':'] + mm;
    assert hh[..1][..0] == [] && mm[..1][..0] == [];
    assert hh[0] == s[0] && hh[1] == s[1] && mm[0] == s[3] && mm[1] == s[4];
    assert Value(hh[..1]) == DigitValue(hh[0]) == h / 10;
    assert Value(mm[..1]) == DigitValue(mm[0]) == m / 10;
    assert AllDigits(hh) && Value(hh) == h;
    assert AllDigits(mm) && Value(mm) == m;
    SplitTwoFields(hh, mm, ':');
  }

  // ─── availability ───────────────────────────────────────────────────

  /** What `submitAvailabilityController` answers; `isMatched` is
      `CommonSlotFound?`. */
  datatype AvailabilityOutcome =
    | AwaitingCounterpart
    | NoCommonSlot
    | CommonSlotFound(commonSlot: TimeSlot, conflictWarnings: seq<Warning>)

  /** The counterpart's slots for the caller, [] when there is no record. */
  function SlotsOf(avail: map<(UserId, UserId), seq<TimeSlot>>, owner: UserId, about: UserId): seq<TimeSlot>
  {
    if (owner, about) in avail then avail[(owner, about)] else []
  }

  /** The answer, computed from the availability after the caller's upsert;
      `overlaps` is the test of line 455 used by the conflict check. */
  function AvailabilityAnswer(avail: map<(UserId, UserId), seq<TimeSlot>>, apps: seq<Appointment>, myId: UserId, targetId: UserId, slots: seq<TimeSlot>,
                              overlaps: (Appointment, TimeSlot) -> bool): AvailabilityOutcome
  {
    var theirs := SlotsOf(avail, targetId, myId);
    if theirs == [] then AwaitingCounterpart
    else
      match FirstCommon(slots, theirs)
      case None => NoCommonSlot
      case Some(c) => CommonSlotFound(c, ConflictWarnings(ConflictQuery(apps, myId, targetId, c.date), myId, targetId, c, overlaps))
  }

  /** `submitAvailabilityController`: upsert the caller's slots for the pair,
      read the counterpart's, search the first common slot, check conflicts
      with the overlap test `overlaps` (`OverlapsAsWritten` is the source as
      written, `Overlaps` the intended test). */
  method SubmitAvailability(db: Database, myId: UserId, targetId: UserId, slots: seq<TimeSlot>, isValidId: UserId -> bool,
                            overlaps: (Appointment, TimeSlot) -> bool)
    returns (r: Result<AvailabilityOutcome, ScheduleError>)
    modifies db`availability
    ensures !isValidId(targetId) ==> r == Err(InvalidTargetId) && db.availability == old(db.availability)
    ensures isValidId(targetId) ==> && db.availability == old(db.availability)[(myId, targetId) := slots]
                                    && r == Ok(AvailabilityAnswer(db.availability, db.appointments, myId, targetId, slots, overlaps))
  {
    if !isValidId(targetId) {
      return Err(InvalidTargetId);
    }
    db.availability := db.availability[(myId, targetId) := slots];

    var targetSlots := SlotsOf(db.availability, targetId, myId);
    if targetSlots == [] {
      return Ok(AwaitingCounterpart);
    }

    var firstCommonSlot := FindFirstCommonSlot(GetIntersection, slots, targetSlots);
    if firstCommonSlot.None? {
      return Ok(NoCommonSlot);
    }

    var conflictWarnings := CheckConflict(db, myId, targetId, firstCommonSlot.value, overlaps);
    return Ok(CommonSlotFound(firstCommonSlot.value, conflictWarnings));
  }

  /** `isMatched` is false exactly when the counterpart has no slots for the
      caller or no pair of slots meets for 30 minutes on one date; a found slot
      is the meeting of the first such pair, my slots outer, theirs inner. */
  lemma AvailabilityAnswerMeaning(avail: map<(UserId, UserId), seq<TimeSlot>>, apps: seq<Appointment>, myId: UserId, targetId: UserId, slots: seq<TimeSlot>,
                                  overlaps: (Appointment, TimeSlot) -> bool)
    ensures var theirs := SlotsOf(avail, targetId, myId);
      var answer := AvailabilityAnswer(avail, apps, myId, targetId, slots, overlaps);
      && (answer == AwaitingCounterpart <==> theirs == [])
      && (!answer.CommonSlotFound? <==>
            theirs == [] || forall i, j :: 0 <= i < |slots| && 0 <= j < |theirs| ==> GetIntersection(slots[i], theirs[j]).None?)
      && (answer.CommonSlotFound? ==>
            exists i, j :: && 0 <= i < |slots| && 0 <= j < |theirs|
                           && GetIntersection(slots[i], theirs[j]) == Some(answer.commonSlot)
                           && forall i', j' :: 0 <= i' < |slots| && 0 <= j' < |theirs| && Before(i', j', i, j) ==>
                                GetIntersection(slots[i'], theirs[j']).None?)
  {
    var theirs := SlotsOf(avail, targetId, myId);
    FirstCommonNone(slots, theirs);
    if theirs != [] && FirstCommon(slots, theirs).Some? {
      var i, j := FirstCommonFound(slots, theirs);
    }
  }

  /** As written, the handler never reports a conflict: every common slot it
      can find is clock text, on which the test of line 455 is always false. */
  lemma AsWrittenAnswerSilent(avail: map<(UserId, UserId), seq<TimeSlot>>, apps: seq<Appointment>, myId: UserId, targetId: UserId, slots: seq<TimeSlot>)
    ensures var answer := AvailabilityAnswer(avail, apps, myId, targetId, slots, OverlapsAsWritten);
      answer.CommonSlotFound? ==> answer.conflictWarnings == []
  {
    var theirs := SlotsOf(avail, targetId, myId);
    if theirs != [] && FirstCommon(slots, theirs).Some? {
      var i, j := FirstCommonFound(slots, theirs);
      var c := FirstCommon(slots, theirs).value;
      CommonSlotIsClockText(slots[i], theirs[j]);
      AsWrittenNoWarnings(ConflictQuery(apps, myId, targetId, c.date), myId, targetId, c);
    }
  }

  /** With the intended overlap test the warnings of a found slot are exactly
      the clashes with scheduled appointments on its date: the anonymous one
      for an overlapping appointment of the counterpart, a named one for each
      overlapping appointment of the caller. */
  lemma CheckConflictMeaning(apps: seq<Appointment>, myId: UserId, targetId: UserId, slot: TimeSlot)
    ensures var w := ConflictWarnings(ConflictQuery(apps, myId, targetId, slot.date), myId, targetId, slot, Overlaps);
      && (PartnerBusy in w <==>
            exists a :: a in apps && a.status == Scheduled && a.date == slot.date && Involves(a, targetId) && Overlaps(a, slot))
      && forall o, s, e, d :: BookedWith(o, s, e, d) in w <==>
           exists a :: && a in apps && a.status == Scheduled && a.date == slot.date && Involves(a, myId) && Overlaps(a, slot)
                       && OtherParticipant(a, myId) == o && a.startTime == s && a.endTime == e && a.date == d
  {
    ConflictWarningsMeaning(ConflictQuery(apps, myId, targetId, slot.date), myId, targetId, slot, Overlaps);
  }

  // ─── confirm ────────────────────────────────────────────────────────

  /** `confirmAppointmentController`: create a scheduled appointment, delete
      both directions of the pair's availability, push `date_scheduled` to the
      counterpart (over the socket only; no notification is stored). An empty
      field stands for a missing one. */
  method ConfirmAppointment(db: Database, sockets: SocketRegistry<Payload>, myId: UserId, targetId: UserId,
                            date: string, startTime: string, endTime: string, isValidId: UserId -> bool)
    returns (r: Result<Appointment, ScheduleError>)
    modifies db`appointments, db`availability, sockets`emitted
    ensures r.Err? <==> !isValidId(targetId) || date == "" || startTime == "" || endTime == ""
    ensures r.Err? ==> && r.error == ValidationFailed
                       && db.appointments == old(db.appointments) && db.availability == old(db.availability)
                       && sockets.emitted == old(sockets.emitted)
    ensures r.Ok? ==> && r.value == Appointment(myId, targetId, date, startTime, endTime, Scheduled)
                      && db.appointments == old(db.appointments) + [r.value]
                      && db.availability == old(db.availability) - {(myId, targetId), (targetId, myId)}
                      && sockets.emitted == old(sockets.emitted)
                           + PushFor(sockets.ioReady, sockets.entries, targetId, ReceiveNotification, DateScheduledEvent(SystemSenderName))
  {
    if !isValidId(targetId) || date == "" || startTime == "" || endTime == "" {
      return Err(ValidationFailed);
    }
    var appointment := Appointment(myId, targetId, date, startTime, endTime, Scheduled);
    db.appointments := db.appointments + [appointment];
    db.availability := db.availability - {(myId, targetId), (targetId, myId)};
    sockets.SendNotification(targetId, ReceiveNotification, DateScheduledEvent(SystemSenderName));
    return Ok(appointment);
  }

  // ─── status ─────────────────────────────────────────────────────────

  predicate ScheduledBetween(a: Appointment, x: UserId, y: UserId)
  {
    a.status == Scheduled && ((a.user1 == x && a.user2 == y) || (a.user1 == y && a.user2 == x))
  }

  /** `findOne` for the pair in either order: the first such appointment stored. */
  function FirstScheduledBetween(apps: seq<Appointment>, x: UserId, y: UserId): (r: Option<Appointment>)
    ensures r.Some? ==> r.value in apps && ScheduledBetween(r.value, x, y)
    ensures r.None? <==> forall a :: a in apps ==> !ScheduledBetween(a, x, y)
  {
    if apps == [] then None
    else if ScheduledBetween(apps[0], x, y) then Some(apps[0])
    else
      assert forall a :: a in apps ==> a == apps[0] || a in apps[1..];
      FirstScheduledBetween(apps[1..], x, y)
  }

  datatype ScheduleStatus =
    | HasAppointment(appointment: Appointment)
    | PendingAvailability(myAvailability: seq<TimeSlot>, partnerHasSubmitted: bool)

  /** `getScheduleStatusController`: a scheduled appointment of the pair wins;
      otherwise the caller's own slots and whether the counterpart submitted. */
  function GetScheduleStatus(avail: map<(UserId, UserId), seq<TimeSlot>>, apps: seq<Appointment>, myId: UserId, targetId: UserId, isValidId: UserId -> bool): (r: Result<ScheduleStatus, ScheduleError>)
    ensures r.Err? <==> !isValidId(targetId)
    ensures r.Ok? && r.value.HasAppointment? ==> r.value.appointment in apps && ScheduledBetween(r.value.appointment, myId, targetId)
    ensures r.Ok? && r.value.PendingAvailability? ==>
      && (forall a :: a in apps ==> !ScheduledBetween(a, myId, targetId))
      && r.value.myAvailability == SlotsOf(avail, myId, targetId)
      && (r.value.partnerHasSubmitted <==> (targetId, myId) in avail)
  {
    if !isValidId(targetId) then Err(InvalidTargetId)
    else
      match FirstScheduledBetween(apps, myId, targetId)
      case Some(a) => Ok(HasAppointment(a))
      case None => Ok(PendingAvailability(SlotsOf(avail, myId, targetId), (targetId, myId) in avail))
  }

  /** After a confirm, either side asking for the pair's status sees a
      scheduled appointment between them; it is the new one unless the pair
      already had one. */
  lemma StatusAfterConfirm(avail: map<(UserId, UserId), seq<TimeSlot>>, apps: seq<Appointment>, myId: UserId, targetId: UserId,
                           date: string, startTime: string, endTime: string, isValidId: UserId -> bool)
    requires isValidId(myId) && isValidId(targetId)
    ensures var created := Appointment(myId, targetId, date, startTime, endTime, Scheduled);
      var apps' := apps + [created];
      var avail' := avail - {(myId, targetId), (targetId, myId)};
      forall x, y | (x, y) == (myId, targetId) || (x, y) == (targetId, myId) ::
        && GetScheduleStatus(avail', apps', x, y, isValidId).Ok?
        && GetScheduleStatus(avail', apps', x, y, isValidId).value.HasAppointment?
        && ScheduledBetween(GetScheduleStatus(avail', apps', x, y, isValidId).value.appointment, myId, targetId)
        && ((forall a :: a in apps ==> !ScheduledBetween(a, myId, targetId)) ==>
              GetScheduleStatus(avail', apps', x, y, isValidId).value.appointment == created)
  {
    var created := Appointment(myId, targetId, date, startTime, endTime, Scheduled);
    assert created in apps + [created];
    forall a | a in apps + [created]
      ensures a in apps || a == created
    {
    }
  }

  /** Without an appointment, the status shows what each side has submitted:
      after the caller's submission its slots, and to the counterpart that
      the caller has submitted. */
  lemma StatusAfterSubmit(avail: map<(UserId, UserId), seq<TimeSlot>>, apps: seq<Appointment>, myId: UserId, targetId: UserId,
                          slots: seq<TimeSlot>, isValidId: UserId -> bool)
    requires isValidId(myId) && isValidId(targetId)
    requires forall a :: a in apps ==> !ScheduledBetween(a, myId, targetId)
    ensures var avail' := avail[(myId, targetId) := slots];
      && GetScheduleStatus(avail', apps, myId, targetId, isValidId) == Ok(PendingAvailability(slots, (targetId, myId) in avail'))
      && GetScheduleStatus(avail', apps, targetId, myId, isValidId).Ok?
      && GetScheduleStatus(avail', apps, targetId, myId, isValidId).value.PendingAvailability?
      && GetScheduleStatus(avail', apps, targetId, myId, isValidId).value.partnerHasSubmitted
  {
    assert forall a :: ScheduledBetween(a, myId, targetId) == ScheduledBetween(a, targetId, myId);
  }

  // ─── agenda ─────────────────────────────────────────────────────────

  /** The user's scheduled appointments, in stored order. */
  function ScheduledOf(apps: seq<Appointment>, userId: UserId): (r: seq<Appointment>)
    ensures forall a :: a in r <==> a in apps && Involves(a, userId) && a.status == Scheduled
  {
    if apps == [] then []
    else
      var rest := ScheduledOf(apps[1..], userId);
      assert forall a :: a in apps <==> a == apps[0] || a in apps[1..];
      if Involves(apps[0], userId) && apps[0].status == Scheduled then [apps[0]] + rest else rest
  }

  /** `.sort({ date: 1, startTime: 1 })`. */
  predicate AgendaLe(x: Appointment, y: Appointment)
  {
    LexPairLe((x.date, x.startTime), (y.date, y.startTime))
  }

  /** `getAppointmentsController`: the user's scheduled appointments, each as
      often as it is stored and nothing else. */
  function GetAppointments(apps: seq<Appointment>, userId: UserId): (r: seq<Appointment>)
    ensures multiset(r) == multiset(ScheduledOf(apps, userId))
    ensures forall a :: a in r <==> a in apps && Involves(a, userId) && a.status == Scheduled
  {
    var mine := ScheduledOf(apps, userId);
    var agenda := SortBy(AgendaLe, mine);
    assert forall a :: a in agenda <==> a in multiset(agenda);
    assert forall a :: a in mine <==> a in multiset(mine);
    agenda
  }

  /** The agenda is ordered by date and then start time. */
  lemma GetAppointmentsCorrect(apps: seq<Appointment>, userId: UserId)
    ensures SortedBy(AgendaLe, GetAppointments(apps, userId))
  {
    AgendaTotalPreorder();
    SortBySorted(AgendaLe, ScheduledOf(apps, userId));
  }

  lemma AgendaTotalPreorder()
    ensures TotalPreorder(AgendaLe)
  {
    LexPairTotalPreorder();
    forall x: Appointment, y: Appointment
      ensures AgendaLe(x, y) || AgendaLe(y, x)
    {
      assert LexPairLe((x.date, x.startTime), (y.date, y.startTime)) || LexPairLe((y.date, y.startTime), (x.date, x.startTime));
    }
    forall x: Appointment, y: Appointment, z: Appointment | AgendaLe(x, y) && AgendaLe(y, z)
      ensures AgendaLe(x, z)
    {
      assert LexPairLe((x.date, x.startTime), (y.date, y.startTime)) && LexPairLe((y.date, y.startTime), (z.date, z.startTime));
    }
  }
}
