/** The conference detail dialog: the live countdown to the next deadline
    and its colour, the location line, deadline texts, the start-date reader
    and the calendar export. The current time, the date-fns parser and
    formatter and the browser's time zone are parameters. */
module ConferenceDialog {
  import opened Wrappers
  import opened Strings
  import opened Decimal
  import opened ConferenceUtils

  /** The instant of the dialog's `deadlineDate`: the next upcoming deadline
      (the helper `getNextUpcomingDeadline`, outside this model) read in its
      own time zone or else the conference's; `None` for `null` or an
      invalid date. */
  function DialogDeadline(c: Conference, nextUpcoming: Conference -> Option<DeadlineEntry>, o: DeadlineOracle): (r: Option<int>)
    ensures nextUpcoming(c).None? ==> r.None?
    ensures nextUpcoming(c).Some? && nextUpcoming(c).value.timezone != "" ==>
              r == o.deadlineInLocalTime(nextUpcoming(c).value.date, nextUpcoming(c).value.timezone)
    ensures nextUpcoming(c).Some? && nextUpcoming(c).value.timezone == "" ==>
              r == o.deadlineInLocalTime(nextUpcoming(c).value.date, c.timezone)
  {
    match nextUpcoming(c)
    case None => None
    case Some(d) => o.deadlineInLocalTime(d.date, EntryTimezone(c, d))
  }

  /** When the next upcoming deadline is the primary one, the dialog counts
      down to the very instant the listing sorts the conference by, and has
      none exactly when the listing ranks the conference after all
      instants. */
  lemma DialogDeadlineIsSortInstant(c: Conference, nextUpcoming: Conference -> Option<DeadlineEntry>, o: DeadlineOracle)
    requires nextUpcoming(c) == o.primaryDeadline(c)
    ensures DialogDeadline(c, nextUpcoming, o).Some? <==> DeadlineKey(c, o).At?
    ensures DeadlineKey(c, o).At? ==> DialogDeadline(c, nextUpcoming, o).value == DeadlineKey(c, o).instant
  {
  }

  // ----------------------------------------------------------- countdown

  datatype Countdown = Tbd | DeadlinePassed | Remaining(days: nat, hours: nat, minutes: nat, seconds: nat)

  function Millis(days: int, hours: int, minutes: int, seconds: int): int {
    days * 86400000 + hours * 3600000 + minutes * 60000 + seconds * 1000
  }

  /** What `calculateTimeLeft` computes before formatting: "TBD" without a
      valid deadline, "Deadline passed" when the difference is not positive,
      otherwise whole days, hours, minutes and seconds, each part below its
      radix, that account for the difference to within a second. */
  function TimeLeft(deadline: Option<int>, now: int): (r: Countdown)
    ensures r.Tbd? <==> deadline.None?
    ensures r.DeadlinePassed? <==> deadline.Some? && deadline.value - now <= 0
    ensures r.Remaining? ==>
      && r.hours < 24 && r.minutes < 60 && r.seconds < 60
      && Millis(r.days, r.hours, r.minutes, r.seconds) <= deadline.value - now
      && deadline.value - now < Millis(r.days, r.hours, r.minutes, r.seconds) + 1000
  {
    if deadline.None? then Tbd
    else
      var difference := deadline.value - now;
      if difference <= 0 then DeadlinePassed
      else
        DecompositionBounds(difference);
        Remaining(difference / 86400000, (difference % 86400000) / 3600000,
                  (difference % 3600000) / 60000, (difference % 60000) / 1000)
  }

  lemma DecompositionBounds(d: nat)
    ensures var days, hours, minutes, seconds := d / 86400000, (d % 86400000) / 3600000, (d % 3600000) / 60000, (d % 60000) / 1000;
      && hours < 24 && minutes < 60 && seconds < 60
      && Millis(days, hours, minutes, seconds) <= d < Millis(days, hours, minutes, seconds) + 1000
  {
    var days, r1 := d / 86400000, d % 86400000;
    var hours, r2 := r1 / 3600000, r1 % 3600000;
    HourRemainder(d);
    var minutes, r3 := r2 / 60000, r2 % 60000;
    MinuteRemainder(d);
    var seconds := r3 / 1000;
    assert d == days * 86400000 + hours * 3600000 + r2;
    assert r2 == minutes * 60000 + r3;
    assert r3 == seconds * 1000 + r3 % 1000;
  }

  /** Taking whole days off first leaves the remainder modulo an hour as it
      was. */
  lemma HourRemainder(d: nat)
    ensures (d % 86400000) % 3600000 == d % 3600000
  {
    var days, r1 := d / 86400000, d % 86400000;
    var hours, r2 := r1 / 3600000, r1 % 3600000;
    assert d == (days * 24 + hours) * 3600000 + r2;
  }

  /** Taking whole hours off first leaves the remainder modulo a minute as it
      was. */
  lemma MinuteRemainder(d: nat)
    ensures (d % 3600000) % 60000 == d % 60000
  {
    var hours, r2 := d / 3600000, d % 3600000;
    var minutes, r3 := r2 / 60000, r2 % 60000;
    assert d == (hours * 60 + minutes) * 60000 + r3;
  }

  /** Two decompositions within the bounds that account for the same
      difference to within a second are the same. */
  lemma MillisUnique(d: int, days: nat, hours: nat, minutes: nat, seconds: nat, days': nat, hours': nat, minutes': nat, seconds': nat)
    requires hours < 24 && minutes < 60 && seconds < 60
    requires hours' < 24 && minutes' < 60 && seconds' < 60
    requires Millis(days, hours, minutes, seconds) <= d < Millis(days, hours, minutes, seconds) + 1000
    requires Millis(days', hours', minutes', seconds') <= d < Millis(days', hours', minutes', seconds') + 1000
    ensures days == days' && hours == hours' && minutes == minutes' && seconds == seconds'
  {
    assert days * 86400000 <= d < days * 86400000 + 86400000;
    assert days' * 86400000 <= d < days' * 86400000 + 86400000;
    assert days == days';
    assert hours == hours';
    assert minutes == minutes';
  }

  /** The decomposition is the only one with those bounds: the countdown
      shown is determined by the difference. */
  lemma TimeLeftIsUnique(deadline: int, now: int, days: nat, hours: nat, minutes: nat, seconds: nat)
    requires hours < 24 && minutes < 60 && seconds < 60
    requires deadline - now > 0
    requires Millis(days, hours, minutes, seconds) <= deadline - now < Millis(days, hours, minutes, seconds) + 1000
    ensures TimeLeft(Some(deadline), now) == Remaining(days, hours, minutes, seconds)
  {
    var t := TimeLeft(Some(deadline), now);
    MillisUnique(deadline - now, days, hours, minutes, seconds, t.days, t.hours, t.minutes, t.seconds);
  }

  /** The text `${days}d ${hours}h ${minutes}m ${seconds}s`, that is the
      four number-and-unit words joined by single spaces, or the two fixed
      messages. Split at spaces it gives back the words of a running
      countdown, and a different number of words for each message. */
  function CountdownText(t: Countdown): (r: string)
    ensures t.Tbd? ==> r == "TBD" && |Split(r, " ")| == 1
    ensures t.DeadlinePassed? ==> r == "Deadline passed" && |Split(r, " ")| == 2
    ensures t.Remaining? ==> r == NatToString(t.days) + "d " + NatToString(t.hours) + "h "
                                  + NatToString(t.minutes) + "m " + NatToString(t.seconds) + "s"
    ensures t.Remaining? ==> Split(r, " ") == CountdownPieces(t.days, t.hours, t.minutes, t.seconds)
  {
    match t
    case Tbd =>
      SplitJoin(["TBD"], " ");
      "TBD"
    case DeadlinePassed =>
      assert Join(["Deadline", "passed"], " ") == "Deadline passed";
      SplitJoin(["Deadline", "passed"], " ");
      "Deadline passed"
    case Remaining(days, hours, minutes, seconds) =>
      NoSpaceInNumber(days, 'd');
      NoSpaceInNumber(hours, 'h');
      NoSpaceInNumber(minutes, 'm');
      NoSpaceInNumber(seconds, 's');
      SplitJoin(CountdownPieces(days, hours, minutes, seconds), " ");
      TemplateIsJoin(NatToString(days), NatToString(hours), NatToString(minutes), NatToString(seconds));
      Join(CountdownPieces(days, hours, minutes, seconds), " ")
  }

  function CountdownPieces(days: nat, hours: nat, minutes: nat, seconds: nat): seq<string> {
    [NatToString(days) + "d", NatToString(hours) + "h", NatToString(minutes) + "m", NatToString(seconds) + "s"]
  }

  /** The template literal is the four words joined by single spaces. */
  lemma TemplateIsJoin(d: string, h: string, m: string, s: string)
    ensures Join([d + "d", h + "h", m + "m", s + "s"], " ") == d + "d " + h + "h " + m + "m " + s + "s"
  {
    var words := [d + "d", h + "h", m + "m", s + "s"];
    assert Join(words[2..], " ") == (m + "m") + " " + (s + "s");
    assert Join(words[1..], " ") == (h + "h") + " " + Join(words[2..], " ");
    assert (m + "m") + " " + (s + "s") == m + "m " + s + "s";
    assert (h + "h") + " " + (m + "m " + s + "s") == h + "h " + m + "m " + s + "s";
    assert (d + "d") + " " + (h + "h " + m + "m " + s + "s") == d + "d " + h + "h " + m + "m " + s + "s";
  }

  lemma NoSpaceInNumber(n: nat, unit: char)
    requires unit != ' '
    ensures ' ' !in NatToString(n) + [unit]
  {
    var p := NatToString(n) + [unit];
    forall i | 0 <= i < |p|
      ensures p[i] != ' '
    {
      if i < |NatToString(n)| {
        assert IsDigit(NatToString(n)[i]);
      }
    }
  }

  lemma NumberBeforeUnit(a: nat, b: nat, unit: char)
    requires NatToString(a) + [unit] == NatToString(b) + [unit]
    ensures a == b
  {
    var sa, sb := NatToString(a), NatToString(b);
    assert sa == (sa + [unit])[..|sa|];
    assert sb == (sb + [unit])[..|sb|];
    DigitsValueOfNatToString(a);
    DigitsValueOfNatToString(b);
  }

  /** Different countdowns never show the same text. */
  lemma CountdownTextIsInjective(t: Countdown, u: Countdown)
    requires CountdownText(t) == CountdownText(u)
    ensures t == u
  {
    if t.Remaining? && u.Remaining? {
      var pt := CountdownPieces(t.days, t.hours, t.minutes, t.seconds);
      var pu := CountdownPieces(u.days, u.hours, u.minutes, u.seconds);
      assert pt == pu;
      NumberBeforeUnit(t.days, u.days, 'd');
      NumberBeforeUnit(t.hours, u.hours, 'h');
      NumberBeforeUnit(t.minutes, u.minutes, 'm');
      NumberBeforeUnit(t.seconds, u.seconds, 's');
    }
  }

  /** The dialog's countdown state. `deadlineDate` is fixed for the life of
      the dialog; `countdown` is rewritten on every tick. */
  class Dialog {
    const conference: Conference
    const deadlineDate: Option<int>
    var countdown: string

    constructor(conference: Conference, nextUpcoming: Conference -> Option<DeadlineEntry>, o: DeadlineOracle)
      ensures this.conference == conference
      ensures deadlineDate == DialogDeadline(conference, nextUpcoming, o)
      ensures countdown == ""
    {
      this.conference := conference;
      deadlineDate := DialogDeadline(conference, nextUpcoming, o);
      countdown := "";
    }

    /** One tick of `calculateTimeLeft` at time `now`. */
    method CalculateTimeLeft(now: int)
      modifies this
      ensures countdown == CountdownText(TimeLeft(deadlineDate, now))
    {
      if deadlineDate.None? {
        countdown := "TBD";
        return;
      }
      var difference := deadlineDate.value - now;
      if difference <= 0 {
        countdown := "Deadline passed";
        return;
      }
      var days := difference / 86400000;
      var hours := (difference % 86400000) / 3600000;
      var minutes := (difference % 3600000) / 60000;
      var seconds := (difference % 60000) / 1000;
      TemplateIsJoin(NatToString(days), NatToString(hours), NatToString(minutes), NatToString(seconds));
      countdown := NatToString(days) + "d " + NatToString(hours) + "h " + NatToString(minutes) + "m " + NatToString(seconds) + "s";
    }
  }

  // --------------------------------------------------------------- colour

  datatype CountdownColor = Muted | Red | Orange | Green

  /** `Math.ceil(difference / day)` for a whole number of milliseconds. */
  function DaysRemaining(difference: int): (r: int)
    ensures (r - 1) * 86400000 < difference <= r * 86400000
  {
    var q := (-difference) / 86400000;
    assert q * 86400000 <= -difference < q * 86400000 + 86400000;
    -q
  }

  /** `getCountdownColor`: muted without a valid deadline; otherwise red up
      to seven days left, orange up to thirty, green beyond. A passed
      deadline is red. */
  function GetCountdownColor(deadline: Option<int>, now: int): (r: CountdownColor)
    ensures r == Muted <==> deadline.None?
    ensures deadline.Some? ==> (r == Red <==> deadline.value - now <= 7 * 86400000)
    ensures deadline.Some? ==> (r == Orange <==> 7 * 86400000 < deadline.value - now <= 30 * 86400000)
    ensures deadline.Some? ==> (r == Green <==> deadline.value - now > 30 * 86400000)
    ensures TimeLeft(deadline, now).DeadlinePassed? ==> r == Red
  {
    if deadline.None? then Muted
    else
      var daysRemaining := DaysRemaining(deadline.value - now);
      if daysRemaining <= 7 then Red
      else if daysRemaining <= 30 then Orange
      else Green
  }

  // ------------------------------------------------------ location, dates

  /** The truthy texts of `xs`, in order. */
  function Truthy(xs: seq<string>): (r: seq<string>)
    ensures forall x :: x in r <==> x in xs && x != ""
    ensures forall x :: multiset(r)[x] == if x == "" then 0 else multiset(xs)[x]
    ensures |xs| == 1 ==> r == if xs[0] == "" then [] else xs
    ensures |r| <= |xs|
  {
    if |xs| == 0 then []
    else
      assert xs == [xs[0]] + xs[1..];
      if xs[0] == "" then Truthy(xs[1..]) else [xs[0]] + Truthy(xs[1..])
  }

  /** The filter works part by part, so the kept texts stay in order. */
  lemma {:induction false} TruthyAppend(a: seq<string>, b: seq<string>)
    ensures Truthy(a + b) == Truthy(a) + Truthy(b)
  {
    if |a| == 0 {
      assert a + b == b;
    } else {
      assert (a + b)[1..] == a[1..] + b;
      TruthyAppend(a[1..], b);
    }
  }

  /** `getLocationString`: the venue when given, else the given parts of
      city and country joined by ", ", else "Location TBD"; never blank. */
  function LocationString(c: Conference): (r: string)
    ensures r != ""
    ensures c.venue != "" ==> r == c.venue
    ensures c.venue == "" && c.city != "" && c.country != "" ==> r == c.city + ", " + c.country
    ensures c.venue == "" && c.city != "" && c.country == "" ==> r == c.city
    ensures c.venue == "" && c.city == "" && c.country != "" ==> r == c.country
    ensures c.venue == "" && c.city == "" && c.country == "" ==> r == "Location TBD"
  {
    if c.venue != "" then c.venue
    else
      var parts := Truthy([c.city, c.country]);
      assert [c.city, c.country][1..] == [c.country] && [c.country][1..] == [];
      assert Truthy([c.country]) == if c.country == "" then [] else [c.country];
      assert c.city != "" && c.country != "" ==>
        parts == [c.city, c.country] && Join(parts, ", ") == c.city + ", " + Join([c.country], ", ");
      var joined := Join(parts, ", ");
      if joined != "" then joined else "Location TBD"
  }

  /** `getLocalDeadline`: nothing for a missing or "TBD" date, otherwise the
      date read in the conference's own time zone. */
  function LocalDeadline(c: Conference, dateString: string, o: DeadlineOracle): (r: Option<int>)
    ensures dateString == "" || dateString == "TBD" ==> r.None?
    ensures dateString != "" && dateString != "TBD" ==> r == o.deadlineInLocalTime(dateString, c.timezone)
  {
    if dateString == "" || dateString == "TBD" then None
    else o.deadlineInLocalTime(dateString, c.timezone)
  }

  /** `formatDeadlineDate`: "TBD" for a missing or "TBD" date, the raw text
      when it does not convert, otherwise the formatted local date followed
      by the browser's time zone in parentheses. */
  function FormatDeadlineDate(c: Conference, dateString: string, o: DeadlineOracle,
                              formatDate: int -> string, localTZ: string): (r: string)
    ensures dateString == "" || dateString == "TBD" ==> r == "TBD"
    ensures dateString != "" && LocalDeadline(c, dateString, o).None? ==> r == dateString
    ensures LocalDeadline(c, dateString, o).Some? ==>
      r == formatDate(LocalDeadline(c, dateString, o).value) + " (" + localTZ + ")"
  {
    if dateString == "" || dateString == "TBD" then "TBD"
    else
      var localDate := LocalDeadline(c, dateString, o);
      if localDate.None? then dateString
      else formatDate(localDate.value) + " (" + localTZ + ")"
  }

  /** `parseDateFromString`: the text before the first ", " is split at
      spaces into month and day range, the range at "-" to its first day,
      and "month day year" is handed to `parse` with the full and then the
      abbreviated month pattern. When there is no day range the source's
      `dayRange.split` throws and the result is the current time `now`; a
      missing year becomes the text "undefined". `None` is an invalid
      date. */
  function ParseDateFromString(dateStr: string, now: int, parse: (string, string) -> Option<int>): (r: Option<int>)
    ensures StartDateText(dateStr).None? ==> r == Some(now)
    ensures StartDateText(dateStr).Some? && parse(StartDateText(dateStr).value, "MMMM d yyyy").Some? ==>
              r == parse(StartDateText(dateStr).value, "MMMM d yyyy")
    ensures StartDateText(dateStr).Some? && parse(StartDateText(dateStr).value, "MMMM d yyyy").None? ==>
              r == parse(StartDateText(dateStr).value, "MMM d yyyy")
  {
    match StartDateText(dateStr)
    case None => Some(now)
    case Some(dateString) =>
      match parse(dateString, "MMMM d yyyy")
      case Some(t) => Some(t)
      case None => parse(dateString, "MMM d yyyy")
  }

  /** The text "month day year" handed to the parser, or `None` when there
      is no day range. */
  function StartDateText(dateStr: string): Option<string> {
    var commaParts := Split(dateStr, ", ");
    var monthDay := commaParts[0];
    var year := if |commaParts| > 1 then commaParts[1] else "undefined";
    var spaceParts := Split(monthDay, " ");
    if |spaceParts| < 2 then None
    else
      var startDay := Split(spaceParts[1], "-")[0];
      Some(spaceParts[0] + " " + startDay + " " + year)
  }

  /** A date range "Month D-E, YYYY" is read as its first day. */
  lemma ParseDateOfRange(month: string, first: string, last: string, year: string, now: int,
                         parse: (string, string) -> Option<int>)
    requires ' ' !in month && ',' !in month
    requires ' ' !in first && ',' !in first && '-' !in first
    requires ' ' !in last && ',' !in last && '-' !in last
    requires ',' !in year
    ensures var text := month + " " + first + " " + year;
      ParseDateFromString(month + " " + first + "-" + last + ", " + year, now, parse)
      == if parse(text, "MMMM d yyyy").Some? then parse(text, "MMMM d yyyy") else parse(text, "MMM d yyyy")
  {
    var range := first + "-" + last;
    var monthDay := month + " " + range;
    var dateStr := month + " " + first + "-" + last + ", " + year;
    RangeDateText(month, first, last, year);
    SplitOfTwo(first, last, "-");
    SplitOfTwo(month, range, " ");
    SplitOfTwo(monthDay, year, ", ");
    ParseDateOfParts(dateStr, month, range, year, now, parse);
  }

  lemma RangeDateText(month: string, first: string, last: string, year: string)
    ensures month + " " + first + "-" + last + ", " + year == (month + " " + (first + "-" + last)) + ", " + year
  {
  }

  /** What the reader does once the text has been cut into its parts. */
  lemma ParseDateOfParts(dateStr: string, month: string, range: string, year: string, now: int,
                         parse: (string, string) -> Option<int>)
    requires |Split(dateStr, ", ")| == 2 && Split(dateStr, ", ")[1] == year
    requires Split(Split(dateStr, ", ")[0], " ") == [month, range]
    ensures var text := month + " " + Split(range, "-")[0] + " " + year;
      ParseDateFromString(dateStr, now, parse)
      == if parse(text, "MMMM d yyyy").Some? then parse(text, "MMMM d yyyy") else parse(text, "MMM d yyyy")
  {
  }

  /** Two pieces joined by a separator whose first character neither holds
      split back into those pieces. */
  lemma SplitOfTwo(a: string, b: string, sep: string)
    requires |sep| > 0 && sep[0] !in a && sep[0] !in b
    ensures Split(a + sep + b, sep) == [a, b]
  {
    assert Join([a, b], sep) == a + sep + b by {
      assert Join([b], sep) == b;
    }
    SplitJoin([a, b], sep);
  }

  /** A text with neither a space nor a comma has no day range: the reader
      falls back to the current time. */
  lemma ParseDateWithoutRange(dateStr: string, now: int, parse: (string, string) -> Option<int>)
    requires ' ' !in dateStr && ',' !in dateStr
    ensures ParseDateFromString(dateStr, now, parse) == Some(now)
  {
    SplitJoin([dateStr], ", ");
    SplitJoin([dateStr], " ");
  }

  // ------------------------------------------------------------- calendar

  datatype CalendarKind = Google | Apple
  datatype CalendarError = NoValidDeadline | InvalidDeadlineDate

  /** The event handed to the calendar: a one-hour window from the deadline,
      and for Apple the name of the downloaded file. */
  datatype CalendarEvent = CalendarEvent(start: int, end: int, fileName: Option<string>)

  const IcsSuffix: string := "-deadline.ics"

  lemma IcsSuffixIsPlain()
    ensures forall j :: 0 <= j < |IcsSuffix| ==> !IsWhitespace(IcsSuffix[j]) && !('A' <= IcsSuffix[j] <= 'Z')
  {
  }

  /** The download name: the lower-cased title with each run of whitespace
      made a hyphen, then "-deadline.ics". */
  function IcsFileName(title: string): (r: string)
    ensures |r| >= |IcsSuffix| && r[|r| - |IcsSuffix|..] == IcsSuffix
    ensures forall i :: 0 <= i < |r| ==> !IsWhitespace(r[i]) && !('A' <= r[i] <= 'Z')
  {
    var stem := ReplaceWhitespaceRuns(ToLower(title));
    IcsStemIsPlain(title, stem);
    IcsSuffixIsPlain();
    var r := stem + IcsSuffix;
    assert forall i :: 0 <= i < |r| ==> !IsWhitespace(r[i]) && !('A' <= r[i] <= 'Z') by {
      forall i | 0 <= i < |r|
        ensures !IsWhitespace(r[i]) && !('A' <= r[i] <= 'Z')
      {
        if i < |stem| {
          assert r[i] == stem[i];
          assert !IsWhitespace(stem[i]) && !('A' <= stem[i] <= 'Z');
        } else {
          var j := i - |stem|;
          assert r[i] == IcsSuffix[j];
          assert !IsWhitespace(IcsSuffix[j]) && !('A' <= IcsSuffix[j] <= 'Z');
        }
      }
    }
    r
  }

  lemma IcsStemIsPlain(title: string, stem: string)
    requires stem == ReplaceWhitespaceRuns(ToLower(title))
    ensures forall i :: 0 <= i < |stem| ==> !IsWhitespace(stem[i]) && !('A' <= stem[i] <= 'Z')
  {
    var lower := ToLower(title);
    forall i | 0 <= i < |stem|
      ensures !('A' <= stem[i] <= 'Z')
    {
      assert stem[i] in stem;
      if stem[i] != '-' {
        assert stem[i] in lower;
        var k :| 0 <= k < |lower| && lower[k] == stem[i];
        assert lower[k] == LowerChar(title[k]);
      }
    }
  }

  /** `createCalendarEvent`: fails for a missing or "TBD" deadline and for
      one `parseISO` rejects; otherwise the event runs for exactly one hour
      from the parsed deadline. */
  function CreateCalendarEvent(c: Conference, kind: CalendarKind, parseISO: string -> Option<int>): (r: Result<CalendarEvent, CalendarError>)
    ensures c.deadline == "" || c.deadline == "TBD" ==> r == Failure(NoValidDeadline)
    ensures c.deadline != "" && c.deadline != "TBD" && parseISO(c.deadline).None? ==> r == Failure(InvalidDeadlineDate)
    ensures r.Success? ==> parseISO(c.deadline) == Some(r.value.start) && r.value.end == r.value.start + 3600000
    ensures r.Success? ==> (r.value.fileName.Some? <==> kind == Apple)
    ensures r.Success? && kind == Apple ==> r.value.fileName == Some(IcsFileName(c.title))
  {
    if c.deadline == "" || c.deadline == "TBD" then Failure(NoValidDeadline)
    else
      match parseISO(c.deadline)
      case None => Failure(InvalidDeadlineDate)
      case Some(deadlineDate) =>
        var endDate := deadlineDate + 60 * 60 * 1000;
        Success(CalendarEvent(deadlineDate, endDate, if kind == Apple then Some(IcsFileName(c.title)) else None))
  }
}
