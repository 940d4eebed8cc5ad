# Hut reservation availability check — Dafny model

The script polls the public calendar feed of a mountain hut, looks for the
event on one fixed date (2025-09-27) and, if that event's summary is the
"slots available" marker `○` or the "few slots left" marker `△`, sends a
notification mail.

This project models the two pieces of logic in the script:

- the scan of `check_availability`: the parsed calendar's components are
  walked in order; only `VEVENT` components are looked at; each one's
  `DTSTART` is truncated to its calendar date; on the target date its summary
  (a missing one reads as the string `"None"`) is compared by exact equality
  with the two markers; the first match is returned, otherwise `None`;
- the entry point's decision to send mail exactly when the scan result is
  truthy.

The feed is given to the model as a sequence of components in walk order
(`Availability.Component`: a name, a decoded start, an optional summary). The
start is one of a date-time (kept with its time of day, which the scan
discards), a date-only value, or absent. Truncating a date-only value raises
(a Python date has no `.date()`), and so does reading an absent `DTSTART`. In
both cases the whole scan ends with an exception, so the model's scan returns
`Result<Option<string>, ScanError>`. This happens only for a `VEVENT` reached
before any qualifying event. The entry point's outcome is `MailSent(status)`,
`NoMail` or `Aborted(error)`.

The target date is a parameter of the scan. `Availability.TargetDate` is the
script's configured date; the single-event example lemmas use it.

Files: `wrappers.dfy` (module `Wrappers`: `Option`, `Result`) and `check.dfy`
(module `Availability`: the scan, the loop the script runs, the decision, and
the lemmas).

Summaries are compared with the two markers by exact equality, not by
containment, so a summary such as `○ 窓口受付中` sends no mail
(`SingleEventOutcomes`). There is no "full" or "unrecognized" category: the
scan yields a marker or `None`. A date-only or missing start is not skipped;
it raises and ends the scan.

## Model

| member | source | states |
|---|---|---|
| Availability.StartDate | check.py:25 | truncating a start yields a date exactly for a date-time start, and then its date part; date-only and missing starts yield the exception |
| Availability.Scan | check.py:23-30 | a returned summary is always `○` or `△`; an exception implies some VEVENT in the walk has an unreadable start |
| Availability.CheckAvailability | check.py:23-30 | the script's loop, with its early returns, computes exactly the scan |
| Availability.Run | check.py:44-46 | mail is sent iff the scan returned a summary (not `None`, no exception), and then with that summary, which is a marker; the run aborts iff the scan raised |
| Availability.PassOver | check.py:24-28 | a first component that neither qualifies nor has an unreadable start leaves the result to the rest of the walk |
| Availability.ScanAtFirstStop | check.py:23-29 | the result is fixed by the first component at which the scan stops: its summary if it qualifies, its exception otherwise |
| Availability.ScanWithoutStop | check.py:23-30 | if no component stops the scan the result is `None` |
| Availability.FirstStopExists | check.py:23-29 | below any stopping component there is a first one |
| Availability.ScanSomeIff | check.py:23-29 | the scan returns s iff some VEVENT on the target date has summary exactly s, and no earlier component stops the scan (existence and first-ness of the witness, both directions) |
| Availability.ScanNoneIff | check.py:23-30 | the scan returns `None` iff no component qualifies and no VEVENT has an unreadable start |
| Availability.ScanErrIff | check.py:24-25 | the scan raises e iff the first stopping component is a VEVENT whose start truncation raises e |
| Availability.ResultIsNoneOrMarker | check.py:28-30 | the result is `None`, `○`, `△`, or an exception; nothing else |
| Availability.NoQualifyingEventNoStatus | check.py:23-30 | with no qualifying event the scan returns no summary, and returns `None` when additionally all VEVENT starts are readable |
| Availability.PrefixPassedOver | check.py:23-29 | a prefix none of whose components stops the scan, such as same-date events with other summaries, does not change the result |
| Availability.NonMarkerPassedOver | check.py:28 | a VEVENT whose summary is not exactly a marker, whatever its date, is passed over |
| Availability.MissingSummaryNeverQualifies | check.py:27-28 | an event without a summary never qualifies |
| Availability.Events | check.py:24 | the VEVENT filter keeps exactly the VEVENTs of the walk: a component is in the result iff it is in the walk and is a VEVENT |
| Availability.EventsOfConcat | check.py:23-24 | the filter keeps walk order: filtering a concatenation concatenates the filtered parts |
| Availability.InsertNonEvent | check.py:24 | a non-VEVENT component inserted anywhere in the walk, whatever its fields, leaves the result unchanged |
| Availability.NonEventsIrrelevant | check.py:24 | the result on a walk equals the result on its VEVENTs alone: other components never influence it, whatever their fields |
| Availability.TimeOfDayIrrelevant | check.py:25-26 | walks that differ only in the times of day of their starts give the same result |
| Availability.NotifyIffQualifyingEvent | check.py:23-29 | mail is sent iff a qualifying event precedes every other stopping component, and then with that event's summary |
| Availability.SingleEventOutcomes | check.py:28 | on the configured date, an event with summary `○` or `△` sends mail; `○ 窓口受付中`, `×` and `新年会のお知らせ` send none |
| Availability.DateOnlyStartAborts | check.py:25 | a VEVENT with a date-only start aborts the run, even when a qualifying event follows it |

## Left out

- The HTTP fetch of the feed (check.py:20): network I/O. The model starts from the components.
- Parsing the feed and walking it (check.py:21-23): done by a calendar library. The model takes the components in walk order as input.
- `comp.decoded` and `comp.get` (check.py:25, 27): library accessors, modelled as record fields. `str` of a missing summary is `"None"`. A property given more than once would make `get` return a list; that case, whose text never equals a marker, is not modelled.
- Time zones of date-time starts: `.date()` keeps the value's own date without converting it, so a time zone cannot change the result and is not represented.
- Start values other than date-time, date or absent (a time, a duration, a period, or a repeated DTSTART decoded as a list) are not separate cases: none has `.date()`, so each raises as a date-only start does, and `DateStart` stands for all of them.
- `send_mail` (check.py:32-41): message construction and the SMTP session are I/O. Only the decision to call it is modelled.
- The URL and mail credential constants (check.py:9, 15-17): configuration with no part in the logic.
- An exception escaping the scan ends the process. The model records it as the `Aborted` outcome; exit codes and tracebacks are not modelled.
