/** The availability check: a scan of the calendar feed's components for an
    event on the target date whose summary is one of the two "slots open"
    markers, and the decision whether to send the notification mail.

    The feed is given as the sequence of components in walk order; fetching
    and parsing it are outside the model. */
module Availability {
  import opened Wrappers

  /** A calendar date (Python's `datetime.date`); equality is field-wise. */
  datatype Date = Date(year: int, month: int, day: int)

  /** The time-of-day part of a date-time value; the scan discards it. */
  datatype TimeOfDay = TimeOfDay(hour: int, minute: int, second: int, microsecond: int)

  /** What decoding a component's DTSTART property yields. `DateStart` also
      stands for every other decoded value that lacks `.date()` (a time, a
      duration, a period, a repeated DTSTART): the scan treats them alike. */
  datatype Start =
    | DateTimeStart(date: Date, time: TimeOfDay)  // a date-time value
    | DateStart(date: Date)                       // a date-only value
    | NoStart                                     // the property is absent

  /** One component of the walked calendar (VCALENDAR, VEVENT, VTIMEZONE, ...). */
  datatype Component = Component(name: string, start: Start, summary: Option<string>)

  /** The exceptions that end the scan early. */
  datatype ScanError =
    | NoDateMethod   // a start that is not a date-time has no `.date()` method
    | MissingStart   // the component has no DTSTART property

  /** What one run of the script does after scanning. */
  datatype Outcome =
    | MailSent(status: string)  // `send_mail(status)` is called
    | NoMail                    // the run ends quietly
    | Aborted(error: ScanError) // the scan raised; the run ends unhandled

  /** The date the script is configured to check. */
  const TargetDate := Date(2025, 9, 27)

  /** The two summaries that mean "slots available". */
  predicate IsMarker(s: string)
  {
    s == "○" || s == "△"
  }

  predicate IsEvent(c: Component)
  {
    c.name == "VEVENT"
  }

  /** The summary as the script sees it: a missing one reads as "None". */
  function SummaryText(c: Component): string
  {
    match c.summary
    case None => "None"
    case Some(s) => s
  }

  /** Truncating a start to its calendar date, or the exception doing so raises. */
  function StartDate(s: Start): (r: Result<Date, ScanError>)
    ensures r.Ok? <==> s.DateTimeStart?
    ensures r.Ok? ==> r.value == s.date
  {
    match s
    case DateTimeStart(d, _) => Ok(d)
    case DateStart(_) => Err(NoDateMethod)
    case NoStart => Err(MissingStart)
  }

  /** An event on the target date whose summary is exactly a marker. */
  predicate Qualifies(c: Component, target: Date)
  {
    IsEvent(c) && StartDate(c.start) == Ok(target) && IsMarker(SummaryText(c))
  }

  /** An event whose start cannot be truncated to a date. */
  predicate Aborts(c: Component)
  {
    IsEvent(c) && StartDate(c.start).Err?
  }

  /** A component at which the scan stops, by returning or by raising. */
  predicate Stops(c: Component, target: Date)
  {
    Qualifies(c, target) || Aborts(c)
  }

  /** No component before index k stops the scan. */
  predicate NoStopBefore(cs: seq<Component>, target: Date, k: int)
    requires 0 <= k <= |cs|
  {
    forall j :: 0 <= j < k ==> !Stops(cs[j], target)
  }

  /** What the scan yields when it stops at component c. */
  function StopOutcome(c: Component, target: Date): Result<Option<string>, ScanError>
    requires Stops(c, target)
  {
    if Qualifies(c, target) then Ok(Some(SummaryText(c))) else Err(StartDate(c.start).error)
  }

  /** The scan of `check_availability`: walk the components in order, look at
      VEVENTs only, truncate each start to its date, and return the first
      exactly-matching summary on the target date; `None` if there is none. */
  function Scan(cs: seq<Component>, target: Date): (r: Result<Option<string>, ScanError>)
    ensures r.Ok? && r.value.Some? ==> IsMarker(r.value.value)
    ensures r.Err? ==> exists k :: 0 <= k < |cs| && Aborts(cs[k])
  {
    if cs == [] then Ok(None)
    else
      var c := cs[0];
      if !IsEvent(c) then Scan(cs[1..], target)
      else
        match StartDate(c.start)
        case Err(e) => Err(e)
        case Ok(d) =>
          if d == target && IsMarker(SummaryText(c)) then Ok(Some(SummaryText(c)))
          else
            var rest := Scan(cs[1..], target);
            assert rest.Err? ==> exists k :: 1 <= k < |cs| && Aborts(cs[k]) by {
              if rest.Err? {
                var k :| 0 <= k < |cs[1..]| && Aborts(cs[1..][k]);
                assert cs[k + 1] == cs[1..][k];
              }
            }
            rest
  }

  /** `check_availability` as the loop the script runs. */
  method CheckAvailability(cs: seq<Component>, target: Date) returns (r: Result<Option<string>, ScanError>)
    ensures r == Scan(cs, target)
  {
    var i := 0;
    while i < |cs|
      invariant 0 <= i <= |cs|
      invariant NoStopBefore(cs, target, i)
      invariant Scan(cs[i..], target) == Scan(cs, target)
    {
      var c := cs[i];
      assert cs[i..][1..] == cs[i + 1..];
      if IsEvent(c) {
        var start := StartDate(c.start);
        if start.Err? {
          return Err(start.error);
        }
        if start.value == target {
          var summary := SummaryText(c);
          if IsMarker(summary) {
            return Ok(Some(summary));
          }
        }
      }
      i := i + 1;
    }
    r := Ok(None);
  }

  /** Python truthiness of the scan result: `None` and "" are false. */
  predicate Truthy(status: Option<string>)
  {
    status.Some? && status.value != ""
  }

  /** The entry point: scan, then send mail exactly when the result is truthy. */
  function Run(cs: seq<Component>, target: Date): (o: Outcome)
    ensures o.MailSent? <==> Scan(cs, target).Ok? && Scan(cs, target).value.Some?
    ensures o.MailSent? ==> IsMarker(o.status) && Scan(cs, target) == Ok(Some(o.status))
    ensures o.Aborted? <==> Scan(cs, target).Err?
  {
    match Scan(cs, target)
    case Err(e) => Aborted(e)
    case Ok(status) => if Truthy(status) then MailSent(status.value) else NoMail
  }

  // ---------------------------------------------------------------------------
  // Characterisation of the scan by its first stopping component
  // ---------------------------------------------------------------------------

  /** A component that does not stop the scan is passed over. */
  lemma PassOver(cs: seq<Component>, target: Date)
    requires cs != [] && !Stops(cs[0], target)
    ensures Scan(cs, target) == Scan(cs[1..], target)
  {
  }

  /** The scan yields what its first stopping component dictates. */
  lemma {:induction false} ScanAtFirstStop(cs: seq<Component>, target: Date, k: int)
    requires 0 <= k < |cs| && Stops(cs[k], target) && NoStopBefore(cs, target, k)
    ensures Scan(cs, target) == StopOutcome(cs[k], target)
  {
    if k > 0 {
      PassOver(cs, target);
      assert NoStopBefore(cs[1..], target, k - 1) by {
        forall j | 0 <= j < k - 1 ensures !Stops(cs[1..][j], target) {
          assert cs[1..][j] == cs[j + 1];
        }
      }
      assert cs[1..][k - 1] == cs[k];
      ScanAtFirstStop(cs[1..], target, k - 1);
    }
  }

  /** Without a stopping component the scan returns `None`. */
  lemma {:induction false} ScanWithoutStop(cs: seq<Component>, target: Date)
    requires NoStopBefore(cs, target, |cs|)
    ensures Scan(cs, target) == Ok(None)
  {
    if cs != [] {
      PassOver(cs, target);
      assert NoStopBefore(cs[1..], target, |cs| - 1) by {
        forall j | 0 <= j < |cs| - 1 ensures !Stops(cs[1..][j], target) {
          assert cs[1..][j] == cs[j + 1];
        }
      }
      ScanWithoutStop(cs[1..], target);
    }
  }

  /** Below any stopping component lies a first one. */
  lemma {:induction false} FirstStopExists(cs: seq<Component>, target: Date, k: int)
    requires 0 <= k < |cs| && Stops(cs[k], target)
    ensures exists m :: 0 <= m <= k && Stops(cs[m], target) && NoStopBefore(cs, target, m)
    decreases k
  {
    if !NoStopBefore(cs, target, k) {
      var j :| 0 <= j < k && Stops(cs[j], target);
      FirstStopExists(cs, target, j);
    } else {
      assert Stops(cs[k], target) && NoStopBefore(cs, target, k);
    }
  }

  /** The scan returns summary s exactly when the first stopping component is
      a qualifying event with summary s: a witness exists, and it is the
      earliest component at which the scan could stop. */
  lemma {:induction false} ScanSomeIff(cs: seq<Component>, target: Date, s: string)
    ensures Scan(cs, target) == Ok(Some(s)) <==>
            exists k :: 0 <= k < |cs| && Qualifies(cs[k], target) && SummaryText(cs[k]) == s
                        && NoStopBefore(cs, target, k)
  {
    if Scan(cs, target) == Ok(Some(s)) {
      if NoStopBefore(cs, target, |cs|) {
        ScanWithoutStop(cs, target);
      } else {
        var k0 :| 0 <= k0 < |cs| && Stops(cs[k0], target);
        FirstStopExists(cs, target, k0);
        var k :| 0 <= k <= k0 && Stops(cs[k], target) && NoStopBefore(cs, target, k);
        ScanAtFirstStop(cs, target, k);
      }
    }
    forall k | 0 <= k < |cs| && Qualifies(cs[k], target) && SummaryText(cs[k]) == s
               && NoStopBefore(cs, target, k)
      ensures Scan(cs, target) == Ok(Some(s))
    {
      ScanAtFirstStop(cs, target, k);
    }
  }

  /** The scan returns `None` exactly when no component stops it. */
  lemma {:induction false} ScanNoneIff(cs: seq<Component>, target: Date)
    ensures Scan(cs, target) == Ok(None) <==> NoStopBefore(cs, target, |cs|)
  {
    if NoStopBefore(cs, target, |cs|) {
      ScanWithoutStop(cs, target);
    } else {
      var k0 :| 0 <= k0 < |cs| && Stops(cs[k0], target);
      FirstStopExists(cs, target, k0);
      var k :| 0 <= k <= k0 && Stops(cs[k], target) && NoStopBefore(cs, target, k);
      ScanAtFirstStop(cs, target, k);
    }
  }

  /** The scan raises e exactly when the first stopping component is an event
      whose start cannot be truncated, with e the exception truncating raises. */
  lemma {:induction false} ScanErrIff(cs: seq<Component>, target: Date, e: ScanError)
    ensures Scan(cs, target) == Err(e) <==>
            exists k :: 0 <= k < |cs| && Aborts(cs[k]) && StartDate(cs[k].start) == Err(e)
                        && NoStopBefore(cs, target, k)
  {
    if Scan(cs, target) == Err(e) {
      ScanNoneIff(cs, target);
      var k0 :| 0 <= k0 < |cs| && Stops(cs[k0], target);
      FirstStopExists(cs, target, k0);
      var k :| 0 <= k <= k0 && Stops(cs[k], target) && NoStopBefore(cs, target, k);
      ScanAtFirstStop(cs, target, k);
    }
    forall k | 0 <= k < |cs| && Aborts(cs[k]) && StartDate(cs[k].start) == Err(e)
               && NoStopBefore(cs, target, k)
      ensures Scan(cs, target) == Err(e)
    {
      ScanAtFirstStop(cs, target, k);
    }
  }

  // ---------------------------------------------------------------------------
  // Consequences
  // ---------------------------------------------------------------------------

  /** The result is `None` or exactly one of the two markers. */
  lemma ResultIsNoneOrMarker(cs: seq<Component>, target: Date)
    ensures Scan(cs, target) == Ok(None) || Scan(cs, target) == Ok(Some("○"))
            || Scan(cs, target) == Ok(Some("△")) || Scan(cs, target).Err?
  {
  }

  /** With no qualifying event there is no status: `None`, or the exception of
      an unreadable start; and `None` when every event's start is readable. */
  lemma {:induction false} NoQualifyingEventNoStatus(cs: seq<Component>, target: Date)
    requires forall k :: 0 <= k < |cs| ==> !Qualifies(cs[k], target)
    ensures Scan(cs, target).Ok? ==> Scan(cs, target) == Ok(None)
    ensures (forall k :: 0 <= k < |cs| ==> !Aborts(cs[k])) ==> Scan(cs, target) == Ok(None)
  {
    if Scan(cs, target).Ok? && Scan(cs, target).value.Some? {
      ScanSomeIff(cs, target, Scan(cs, target).value.value);
    }
    if forall k :: 0 <= k < |cs| ==> !Aborts(cs[k]) {
      ScanWithoutStop(cs, target);
    }
  }

  /** A prefix with no stopping component does not affect the result: earlier
      events on the target date with other summaries are passed over. */
  lemma {:induction false} PrefixPassedOver(a: seq<Component>, b: seq<Component>, target: Date)
    requires NoStopBefore(a, target, |a|)
    ensures Scan(a + b, target) == Scan(b, target)
  {
    if a != [] {
      assert (a + b)[0] == a[0] && !Stops(a[0], target);
      assert (a + b)[1..] == a[1..] + b;
      PassOver(a + b, target);
      assert NoStopBefore(a[1..], target, |a| - 1) by {
        forall j | 0 <= j < |a| - 1 ensures !Stops(a[1..][j], target) {
          assert a[1..][j] == a[j + 1];
        }
      }
      PrefixPassedOver(a[1..], b, target);
    } else {
      assert a + b == b;
    }
  }

  /** An event on any date whose summary is not exactly a marker, for example
      one that merely contains a marker, is passed over. */
  lemma NonMarkerPassedOver(c: Component, rest: seq<Component>, target: Date)
    requires IsEvent(c) && c.start.DateTimeStart? && !IsMarker(SummaryText(c))
    ensures Scan([c] + rest, target) == Scan(rest, target)
  {
    assert ([c] + rest)[1..] == rest;
  }

  /** A missing summary reads as "None" and never qualifies. */
  lemma MissingSummaryNeverQualifies(c: Component, target: Date)
    requires c.summary.None?
    ensures !Qualifies(c, target)
  {
  }

  /** The components of the walk that are VEVENTs, in order. */
  function Events(cs: seq<Component>): (r: seq<Component>)
    ensures |r| <= |cs|
    ensures forall k :: 0 <= k < |r| ==> IsEvent(r[k])
    ensures forall c :: c in r <==> c in cs && IsEvent(c)
  {
    if cs == [] then []
    else if IsEvent(cs[0]) then [cs[0]] + Events(cs[1..])
    else Events(cs[1..])
  }

  /** Components other than VEVENTs never influence the result, whatever
      their start and summary. */
  lemma {:induction false} NonEventsIrrelevant(cs: seq<Component>, target: Date)
    ensures Scan(cs, target) == Scan(Events(cs), target)
  {
    if cs != [] {
      NonEventsIrrelevant(cs[1..], target);
      if IsEvent(cs[0]) {
        assert ([cs[0]] + Events(cs[1..]))[0] == cs[0];
        assert ([cs[0]] + Events(cs[1..]))[1..] == Events(cs[1..]);
      }
    }
  }

  /** The VEVENT filter keeps the walk order: filtering a concatenation is
      concatenating the filtered parts. */
  lemma {:induction false} EventsOfConcat(a: seq<Component>, b: seq<Component>)
    ensures Events(a + b) == Events(a) + Events(b)
  {
    if a == [] {
      assert a + b == b;
    } else {
      assert (a + b)[0] == a[0];
      assert (a + b)[1..] == a[1..] + b;
      EventsOfConcat(a[1..], b);
    }
  }

  /** A component other than a VEVENT, inserted anywhere in the walk, leaves
      the result unchanged. */
  lemma {:induction false} InsertNonEvent(a: seq<Component>, c: Component, b: seq<Component>, target: Date)
    requires !IsEvent(c)
    ensures Scan(a + [c] + b, target) == Scan(a + b, target)
  {
    EventsOfConcat(a + [c], b);
    EventsOfConcat(a, [c]);
    EventsOfConcat(a, b);
    assert Events([c]) == [] by {
      assert [c][1..] == [];
    }
    assert Events(a) + [] == Events(a);
    NonEventsIrrelevant(a + [c] + b, target);
    NonEventsIrrelevant(a + b, target);
  }

  /** Two components that differ at most in the time of day of their start. */
  predicate SameUpToTime(c1: Component, c2: Component)
  {
    c1.name == c2.name && c1.summary == c2.summary && StartDate(c1.start) == StartDate(c2.start)
  }

  /** Only the date part of a start matters: walks that differ only in the
      times of day of their starts give the same result. */
  lemma {:induction false} TimeOfDayIrrelevant(cs1: seq<Component>, cs2: seq<Component>, target: Date)
    requires |cs1| == |cs2|
    requires forall k :: 0 <= k < |cs1| ==> SameUpToTime(cs1[k], cs2[k])
    ensures Scan(cs1, target) == Scan(cs2, target)
  {
    if cs1 != [] {
      assert SameUpToTime(cs1[0], cs2[0]);
      forall k | 0 <= k < |cs1| - 1 ensures SameUpToTime(cs1[1..][k], cs2[1..][k]) {
        assert cs1[1..][k] == cs1[k + 1] && cs2[1..][k] == cs2[k + 1];
      }
      TimeOfDayIrrelevant(cs1[1..], cs2[1..], target);
    }
  }

  /** Mail is sent exactly when the walk has a qualifying event before any
      stopping component, and then with that event's summary, a marker. */
  lemma NotifyIffQualifyingEvent(cs: seq<Component>, target: Date)
    ensures Run(cs, target).MailSent? <==>
            exists k :: 0 <= k < |cs| && Qualifies(cs[k], target) && NoStopBefore(cs, target, k)
    ensures forall k :: 0 <= k < |cs| && Qualifies(cs[k], target) && NoStopBefore(cs, target, k)
                        ==> Run(cs, target) == MailSent(SummaryText(cs[k]))
  {
    if Run(cs, target).MailSent? {
      ScanSomeIff(cs, target, Run(cs, target).status);
    }
    forall k | 0 <= k < |cs| && Qualifies(cs[k], target) && NoStopBefore(cs, target, k)
      ensures Run(cs, target) == MailSent(SummaryText(cs[k]))
    {
      ScanAtFirstStop(cs, target, k);
    }
  }

  // ---------------------------------------------------------------------------
  // Single-event walks on the configured date
  // ---------------------------------------------------------------------------

  function EventOn(d: Date, time: TimeOfDay, summary: string): Component
  {
    Component("VEVENT", DateTimeStart(d, time), Some(summary))
  }

  /** An exact marker sends mail; a summary that only contains a marker, a
      cross, or any other text does not. */
  lemma SingleEventOutcomes(time: TimeOfDay)
    ensures Run([EventOn(TargetDate, time, "○")], TargetDate) == MailSent("○")
    ensures Run([EventOn(TargetDate, time, "△")], TargetDate) == MailSent("△")
    ensures Run([EventOn(TargetDate, time, "○ 窓口受付中")], TargetDate) == NoMail
    ensures Run([EventOn(TargetDate, time, "×")], TargetDate) == NoMail
    ensures Run([EventOn(TargetDate, time, "新年会のお知らせ")], TargetDate) == NoMail
  {
    var others := ["○ 窓口受付中", "×", "新年会のお知らせ"];
    forall s | s in others ensures Run([EventOn(TargetDate, time, s)], TargetDate) == NoMail {
      assert [EventOn(TargetDate, time, s)] == [EventOn(TargetDate, time, s)] + [];
      NonMarkerPassedOver(EventOn(TargetDate, time, s), [], TargetDate);
    }
  }

  /** A date-only start on an event makes the run end with an exception, even
      if a qualifying event follows it. */
  lemma DateOnlyStartAborts(rest: seq<Component>)
    ensures Run([Component("VEVENT", DateStart(TargetDate), Some("○"))] + rest, TargetDate)
            == Aborted(NoDateMethod)
  {
  }
}
