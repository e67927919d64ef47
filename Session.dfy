/**
 * Tuition sessions: a plain session on one date, or a recurring session that
 * stands for every weekly date from its first session date to its last session
 * date inclusive. Deleting one date of a recurring session replaces it with
 * zero, one or two sessions that together stand for the remaining dates; a run
 * of remaining dates that holds a single date becomes a plain session.
 */
module Sessions {
  import opened Wrappers
  import opened SessionDates

  /**
   * The attributes a session carries besides its dates. The fields stand for
   * values this model does not interpret (the application keeps a duration and
   * a numeric fee); they are only compared for equality and carried over.
   */
  datatype SessionDetails = SessionDetails(duration: string, subject: string, fee: string)

  datatype Session =
    | Plain(sessionDate: SessionDate, details: SessionDetails)
    | Recurring(sessionDate: SessionDate, lastSessionDate: SessionDate, details: SessionDetails)
  {
    /** A recurring session runs weekly, at one time of day, from its first date to a last date on or after it. */
    predicate WellFormed() {
      Recurring? ==> Weekly(sessionDate, lastSessionDate)
    }

    /** True when d is one of the dates this session stands for. */
    predicate HasOccurrence(d: SessionDate) {
      match this
      case Plain(date, _) => d == date
      case Recurring(first, last, _) => OnWeeklyRun(first, last, d)
    }

    /** The number of dates this session stands for. */
    function OccurrenceCount(): nat
      requires WellFormed()
    {
      match this
      case Plain(_, _) => 1
      case Recurring(first, last, _) => (last.GetDate() - first.GetDate()) / 7 + 1
    }

    /** The date of the last occurrence. */
    function LastOccurrence(): SessionDate {
      if Plain? then sessionDate else lastSessionDate
    }
  }

  /** last is reached from first in whole weeks, at the same time of day. */
  predicate Weekly(first: SessionDate, last: SessionDate) {
    && last.GetTime() == first.GetTime()
    && first.GetDate() <= last.GetDate()
    && (last.GetDate() - first.GetDate()) % 7 == 0
  }

  /** d is one of first, first + 7 days, first + 14 days, ..., up to last. */
  predicate OnWeeklyRun(first: SessionDate, last: SessionDate, d: SessionDate) {
    && d.GetTime() == first.GetTime()
    && first.GetDate() <= d.GetDate() <= last.GetDate()
    && (d.GetDate() - first.GetDate()) % 7 == 0
  }

  type ValidSession = s: Session | s.WellFormed()
    witness Plain(SessionDate(LocalDateTime(0, 0)), SessionDetails("", "", ""))

  /** Some session of ss stands for date d. */
  predicate Covers(ss: seq<Session>, d: SessionDate) {
    exists i :: 0 <= i < |ss| && ss[i].HasOccurrence(d)
  }

  /** The session for the weekly run first..last: recurring when the run has more than one date, plain when it has one. */
  function WeeklyRun(first: SessionDate, last: SessionDate, details: SessionDetails): (r: ValidSession)
    requires Weekly(first, last)
    ensures r.details == details && r.sessionDate == first && r.LastOccurrence() == last
    ensures r.Plain? <==> first == last
    ensures r.Plain? <==> r.OccurrenceCount() == 1
    ensures forall d :: r.HasOccurrence(d) <==> OnWeeklyRun(first, last, d)
  {
    if first == last then Plain(first, details) else Recurring(first, last, details)
  }

  datatype DeleteError = NotAnOccurrence(date: SessionDate)

  /**
   * The sessions that replace s once its occurrence on target is deleted.
   * A target that s does not stand for is refused.
   */
  function DeleteOccurrence(s: ValidSession, target: SessionDate): (r: Result<seq<ValidSession>, DeleteError>)
    ensures r.Failure? <==> !s.HasOccurrence(target)
    ensures r.Success? ==> |r.value| <= 2
    ensures r.Success? ==> forall i :: 0 <= i < |r.value| ==> r.value[i].details == s.details
    ensures r.Success? ==> (|r.value| == 0 <==> s.OccurrenceCount() == 1)
    ensures r.Success? ==> forall i :: 0 <= i < |r.value| ==> (r.value[i].Plain? <==> r.value[i].OccurrenceCount() == 1)
    ensures r.Success? ==>
              (|r.value| == 2 <==> (s.Recurring? && s.sessionDate.GetDate() < target.GetDate() < s.lastSessionDate.GetDate()))
    ensures r.Success? && |r.value| == 2 ==>
              r.value[0].sessionDate == s.sessionDate && r.value[1].LastOccurrence() == s.lastSessionDate
              && r.value[0].LastOccurrence().GetDate() + 14 == r.value[1].sessionDate.GetDate()
  {
    if !s.HasOccurrence(target) then Failure(NotAnOccurrence(target))
    else match s
      case Plain(_, _) => Success([])
      case Recurring(first, last, details) =>
        if first == last then Success([])
        else if target == first then Success([WeeklyRun(first.AddDays(7), last, details)])
        else if target == last then Success([WeeklyRun(first, last.MinusDays(7), details)])
        else Success([WeeklyRun(first, target.MinusDays(7), details), WeeklyRun(target.AddDays(7), last, details)])
  }

  // ---------------------------------------------------------------------------
  // Properties

  /** Being a whole number of weeks from x is the same as being so from y, when y is. */
  lemma WeeksApart(x: int, y: int, z: int)
    requires (y - x) % 7 == 0
    ensures (z - x) % 7 == 0 <==> (z - y) % 7 == 0
  {
    var k := (y - x) / 7;
    assert y - x == 7 * k;
    assert z - x == (z - y) + 7 * k;
  }

  /** Without its first date, a run of two or more dates is the run from the week after. */
  lemma RunWithoutFirst(first: SessionDate, last: SessionDate, d: SessionDate)
    requires Weekly(first, last) && first != last
    ensures Weekly(first.AddDays(7), last)
    ensures OnWeeklyRun(first.AddDays(7), last, d) <==> OnWeeklyRun(first, last, d) && d != first
  {
    WeeksApart(first.GetDate(), first.AddDays(7).GetDate(), last.GetDate());
    WeeksApart(first.GetDate(), first.AddDays(7).GetDate(), d.GetDate());
  }

  /** Without its last date, a run of two or more dates is the run up to the week before. */
  lemma RunWithoutLast(first: SessionDate, last: SessionDate, d: SessionDate)
    requires Weekly(first, last) && first != last
    ensures Weekly(first, last.MinusDays(7))
    ensures OnWeeklyRun(first, last.MinusDays(7), d) <==> OnWeeklyRun(first, last, d) && d != last
  {
    WeeksApart(first.GetDate(), last.GetDate(), d.GetDate());
    WeeksApart(first.GetDate(), last.MinusDays(7).GetDate(), d.GetDate());
  }

  /** Without an inner date t, a run is the run up to the week before t together with the run from the week after. */
  lemma RunWithoutInner(first: SessionDate, last: SessionDate, t: SessionDate, d: SessionDate)
    requires Weekly(first, last) && OnWeeklyRun(first, last, t)
    requires first.GetDate() < t.GetDate() < last.GetDate()
    ensures Weekly(first, t.MinusDays(7)) && Weekly(t.AddDays(7), last)
    ensures OnWeeklyRun(first, t.MinusDays(7), d) || OnWeeklyRun(t.AddDays(7), last, d)
            <==> OnWeeklyRun(first, last, d) && d != t
  {
    WeeksApart(first.GetDate(), t.GetDate(), last.GetDate());
    WeeksApart(first.GetDate(), t.GetDate(), d.GetDate());
    WeeksApart(first.GetDate(), t.MinusDays(7).GetDate(), d.GetDate());
    WeeksApart(t.GetDate(), t.AddDays(7).GetDate(), d.GetDate());
    WeeksApart(t.GetDate(), t.AddDays(7).GetDate(), last.GetDate());
    WeeksApart(first.GetDate(), t.GetDate(), t.MinusDays(7).GetDate());
  }

  lemma CoversOne(a: Session, d: SessionDate)
    ensures Covers([a], d) <==> a.HasOccurrence(d)
  {
    if a.HasOccurrence(d) {
      assert [a][0] == a;
    }
  }

  lemma CoversTwo(a: Session, b: Session, d: SessionDate)
    ensures Covers([a, b], d) <==> a.HasOccurrence(d) || b.HasOccurrence(d)
  {
    if a.HasOccurrence(d) {
      assert [a, b][0] == a;
    }
    if b.HasOccurrence(d) {
      assert [a, b][1] == b;
    }
  }

  /** The replacements stand for exactly the dates of s other than target. */
  lemma DeleteOccurrenceRemovesExactlyTarget(s: ValidSession, target: SessionDate, d: SessionDate)
    requires s.HasOccurrence(target)
    ensures Covers(DeleteOccurrence(s, target).value, d) <==> s.HasOccurrence(d) && d != target
  {
    var rs := DeleteOccurrence(s, target).value;
    match s
    case Plain(_, _) =>
    case Recurring(first, last, details) =>
      if first == last {
      } else if target == first {
        RunWithoutFirst(first, last, d);
        CoversOne(rs[0], d);
      } else if target == last {
        RunWithoutLast(first, last, d);
        CoversOne(rs[0], d);
      } else {
        assert first.GetDate() != target.GetDate() && target.GetDate() != last.GetDate();
        RunWithoutInner(first, last, target, d);
        CoversTwo(rs[0], rs[1], d);
      }
  }

  /** Deleting the first date of a series of three or more dates leaves the series from the second date. */
  lemma DeleteFirstOccurrence(first: SessionDate, last: SessionDate, details: SessionDetails)
    requires Weekly(first, last) && first.GetDate() + 14 <= last.GetDate()
    ensures DeleteOccurrence(Recurring(first, last, details), first)
            == Success([Recurring(first.AddDays(7), last, details)])
  {
  }

  /** Deleting the last date of a series of three or more dates leaves the series up to the week before. */
  lemma DeleteLastOccurrence(first: SessionDate, last: SessionDate, details: SessionDetails)
    requires Weekly(first, last) && first.GetDate() + 14 <= last.GetDate()
    ensures DeleteOccurrence(Recurring(first, last, details), last)
            == Success([Recurring(first, last.MinusDays(7), details)])
  {
  }

  /** Deleting a date with two or more dates on each side leaves two series, the earlier one first. */
  lemma DeleteMiddleOccurrence(first: SessionDate, last: SessionDate, target: SessionDate, details: SessionDetails)
    requires Weekly(first, last) && OnWeeklyRun(first, last, target)
    requires first.GetDate() + 7 < target.GetDate() < last.GetDate() - 7
    ensures DeleteOccurrence(Recurring(first, last, details), target)
            == Success([Recurring(first, target.MinusDays(7), details), Recurring(target.AddDays(7), last, details)])
  {
  }

  /** Deleting the only date of a one-date series leaves nothing. */
  lemma DeleteOnlyOccurrence(first: SessionDate, details: SessionDetails)
    ensures DeleteOccurrence(Recurring(first, first, details), first) == Success([])
  {
  }

  /** Deleting the second date leaves a plain session on the first date, then the series from the third date. */
  lemma DeleteSecondOccurrence(first: SessionDate, last: SessionDate, details: SessionDetails)
    requires Weekly(first, last) && first.GetDate() + 21 <= last.GetDate()
    ensures DeleteOccurrence(Recurring(first, last, details), first.AddDays(7))
            == Success([Plain(first, details), Recurring(first.AddDays(14), last, details)])
  {
  }

  /** Deleting either date of a two-date series leaves a plain session on the other. */
  lemma DeleteFromTwoDateSeries(first: SessionDate, details: SessionDetails)
    ensures DeleteOccurrence(Recurring(first, first.AddDays(7), details), first)
            == Success([Plain(first.AddDays(7), details)])
    ensures DeleteOccurrence(Recurring(first, first.AddDays(7), details), first.AddDays(7))
            == Success([Plain(first, details)])
  {
  }
}
