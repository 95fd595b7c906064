/**
 * The task list card: how a task's status is shown (icon, badge variant,
 * badge label) and how its duration in minutes is written out.
 */
module TaskList {
  import opened Decimal
  import opened Tasks

  /*
   * Status presentation
   */

  /** The three icons a card can show next to its title. */
  datatype StatusIcon = CheckCircle | Clock | Circle

  /** The badge's visual variant. */
  datatype BadgeVariant = Default | Secondary | Outline

  /** `getStatusIcon`: a switch on the status string with a default case. */
  function StatusIconFor(status: string): (icon: StatusIcon)
    ensures icon == CheckCircle <==> status == "COMPLETED"
    ensures icon == Clock <==> status == "ONGOING"
    ensures icon == Circle <==> status != "COMPLETED" && status != "ONGOING"
  {
    if status == "COMPLETED" then CheckCircle
    else if status == "ONGOING" then Clock
    else Circle
  }

  /** The badge's `variant`: a chain of conditional expressions on the status string. */
  function BadgeVariantFor(status: string): (v: BadgeVariant)
    ensures v == Default <==> status == "COMPLETED"
    ensures v == Secondary <==> status == "ONGOING"
    ensures v == Outline <==> status != "COMPLETED" && status != "ONGOING"
  {
    if status == "COMPLETED" then Default
    else if status == "ONGOING" then Secondary
    else Outline
  }

  /** Icon and badge always tell the same story: each icon goes with exactly one variant. */
  lemma IconMatchesBadge(status: string)
    ensures StatusIconFor(status) == CheckCircle <==> BadgeVariantFor(status) == Default
    ensures StatusIconFor(status) == Clock <==> BadgeVariantFor(status) == Secondary
    ensures StatusIconFor(status) == Circle <==> BadgeVariantFor(status) == Outline
  {
  }

  /** What each of the three statuses of a task is shown as. */
  lemma StatusPresentation(s: TaskStatus)
    ensures s == COMPLETED ==> StatusIconFor(StatusName(s)) == CheckCircle && BadgeVariantFor(StatusName(s)) == Default
    ensures s == ONGOING ==> StatusIconFor(StatusName(s)) == Clock && BadgeVariantFor(StatusName(s)) == Secondary
    ensures s == NOT_STARTED ==> StatusIconFor(StatusName(s)) == Circle && BadgeVariantFor(StatusName(s)) == Outline
  {
  }

  /** `toLowerCase` on a character; only the ASCII letters are modelled. */
  function LowerChar(c: char): char {
    if IsUpper(c) then (c as int + 32) as char else c
  }

  /** An ASCII capital letter. */
  predicate IsUpper(c: char) {
    'A' <= c <= 'Z'
  }

  /**
   * `toLowerCase`: the length is kept, no capital letter is left, each
   * capital becomes its small letter and every other character stays.
   */
  function ToLowerCase(s: string): (r: string)
    ensures |r| == |s|
    ensures forall i :: 0 <= i < |r| ==> !IsUpper(r[i])
    ensures forall i :: 0 <= i < |s| && !IsUpper(s[i]) ==> r[i] == s[i]
    ensures forall i :: 0 <= i < |s| && IsUpper(s[i]) ==> r[i] as int == s[i] as int + ('a' as int - 'A' as int)
  {
    seq(|s|, i requires 0 <= i < |s| => LowerChar(s[i]))
  }

  /** Lower-casing twice is lower-casing once. */
  lemma ToLowerCaseIdempotent(s: string)
    ensures ToLowerCase(ToLowerCase(s)) == ToLowerCase(s)
  {
  }

  /** Position `i` of `r` is position `i` of `s` with only the first `from` replaced by `to`. */
  predicate FirstReplacedAt(s: string, r: string, from: char, to: char, i: int)
    requires 0 <= i < |s| == |r|
  {
    r[i] == (if s[i] == from && from !in s[..i] then to else s[i])
  }

  /**
   * `replace(from, to)` with a string pattern: only the first occurrence
   * of `from` is replaced, every other character is kept.
   */
  function ReplaceFirst(s: string, from: char, to: char): (r: string)
    ensures |r| == |s|
    ensures forall i :: 0 <= i < |s| ==> FirstReplacedAt(s, r, from, to, i)
  {
    if s == [] then []
    else if s[0] == from then [to] + s[1..]
    else
      var rest := ReplaceFirst(s[1..], from, to);
      ReplaceFirstStep(s, rest, from, to);
      [s[0]] + rest
  }

  /** The step of `ReplaceFirst` past a character that is not the pattern. */
  lemma ReplaceFirstStep(s: string, rest: string, from: char, to: char)
    requires |s| > 0 && s[0] != from && |rest| == |s| - 1
    requires forall i :: 0 <= i < |rest| ==> FirstReplacedAt(s[1..], rest, from, to, i)
    ensures forall i :: 0 <= i < |s| ==> FirstReplacedAt(s, [s[0]] + rest, from, to, i)
  {
    var r := [s[0]] + rest;
    forall i | 0 <= i < |s| ensures FirstReplacedAt(s, r, from, to, i) {
      if i > 0 {
        assert s[..i] == [s[0]] + s[1..][..i - 1];
        assert FirstReplacedAt(s[1..], rest, from, to, i - 1);
      }
    }
  }

  /** Exactly one occurrence of `from` disappears, if there is one; nothing else changes. */
  lemma ReplaceFirstCount(s: string, from: char, to: char)
    ensures from in s ==> multiset(ReplaceFirst(s, from, to)) == multiset(s) - multiset{from} + multiset{to}
    ensures from !in s ==> ReplaceFirst(s, from, to) == s
  {
    if from == to {
      ReplaceFirstSameChar(s, from);
      if from in s {
        assert multiset(s) - multiset{from} + multiset{to} == multiset(s);
      }
    } else {
      ReplaceFirstCountDistinct(s, from, to);
    }
  }

  /** Replacing a character by itself changes nothing. */
  lemma ReplaceFirstSameChar(s: string, c: char)
    ensures ReplaceFirst(s, c, c) == s
  {
    var r := ReplaceFirst(s, c, c);
    forall i | 0 <= i < |s| ensures r[i] == s[i] {
      assert FirstReplacedAt(s, r, c, c, i);
    }
  }

  /** `ReplaceFirstCount` for a replacement that differs from the pattern. */
  lemma {:induction false} ReplaceFirstCountDistinct(s: string, from: char, to: char)
    requires from != to
    ensures from in s ==> multiset(ReplaceFirst(s, from, to)) == multiset(s) - multiset{from} + multiset{to}
    ensures from !in s ==> ReplaceFirst(s, from, to) == s
  {
    if s != [] {
      assert s == [s[0]] + s[1..];
      if s[0] != from {
        ReplaceFirstCountDistinct(s[1..], from, to);
      }
    }
  }

  /** Whether position `i` holds the first underscore of `s`. */
  predicate FirstUnderscoreAt(s: string, i: int)
    requires 0 <= i < |s|
  {
    s[i] == '_' && '_' !in s[..i]
  }

  /**
   * The badge text: as long as the status, with no capital letter; the
   * first underscore becomes a space, each capital becomes its small letter,
   * and every other character is kept, so later underscores stay.
   */
  function BadgeLabel(status: string): (r: string)
    ensures |r| == |status|
    ensures forall i :: 0 <= i < |r| ==> !IsUpper(r[i])
    ensures forall i :: 0 <= i < |status| && FirstUnderscoreAt(status, i) ==> r[i] == ' '
    ensures forall i :: 0 <= i < |status| && !FirstUnderscoreAt(status, i) && !IsUpper(status[i])
              ==> r[i] == status[i]
    ensures forall i :: 0 <= i < |status| && IsUpper(status[i])
              ==> r[i] as int == status[i] as int + ('a' as int - 'A' as int)
  {
    LowerThenReplace(status);
    ReplaceFirst(ToLowerCase(status), '_', ' ')
  }

  /** Position by position, what lower-casing and then replacing the first underscore gives. */
  lemma LowerThenReplace(status: string)
    ensures var r := ReplaceFirst(ToLowerCase(status), '_', ' ');
      forall i :: 0 <= i < |status| ==>
        (FirstUnderscoreAt(status, i) ==> r[i] == ' ') &&
        (!FirstUnderscoreAt(status, i) ==> r[i] == ToLowerCase(status)[i])
  {
    var lower := ToLowerCase(status);
    var r := ReplaceFirst(lower, '_', ' ');
    LowerCaseKeepsUnderscores(status);
    forall i | 0 <= i < |status|
      ensures FirstUnderscoreAt(status, i) ==> r[i] == ' '
      ensures !FirstUnderscoreAt(status, i) ==> r[i] == lower[i]
    {
      assert FirstReplacedAt(lower, r, '_', ' ', i);
      assert FirstUnderscoreAt(status, i) <==> lower[i] == '_' && '_' !in lower[..i];
    }
  }

  /** Lower-casing neither adds nor removes an underscore anywhere. */
  lemma LowerCaseKeepsUnderscores(s: string)
    ensures forall i :: 0 <= i < |s| ==> (ToLowerCase(s)[i] == '_' <==> s[i] == '_')
    ensures forall i :: 0 <= i <= |s| ==> ('_' in ToLowerCase(s)[..i] <==> '_' in s[..i])
  {
    var lower := ToLowerCase(s);
    forall i | 0 <= i <= |s| ensures '_' in lower[..i] <==> '_' in s[..i] {
      if '_' in lower[..i] {
        var j :| 0 <= j < i && lower[j] == '_';
        assert s[..i][j] == '_';
      }
      if '_' in s[..i] {
        var j :| 0 <= j < i && s[j] == '_';
        assert lower[..i][j] == '_';
      }
    }
  }

  /** A status without an underscore is labelled by its lower-cased self. */
  lemma LabelWithoutUnderscore(status: string)
    requires '_' !in status
    ensures BadgeLabel(status) == ToLowerCase(status)
  {
    LowerThenReplace(status);
  }

  /** `NOT_STARTED` is labelled "not started". */
  lemma NotStartedLabel()
    ensures BadgeLabel(StatusName(NOT_STARTED)) == "not started"
  {
    var lower := ToLowerCase("NOT_STARTED");
    assert lower == "not_started";
    assert lower[..3] == "not";
    assert ReplaceFirst(lower, '_', ' ') == "not started";
  }

  /** `ONGOING` is labelled "ongoing". */
  lemma OngoingLabel()
    ensures BadgeLabel(StatusName(ONGOING)) == "ongoing"
  {
    var name := StatusName(ONGOING);
    assert name == "ONGOING";
    assert forall i :: 0 <= i < |name| ==> name[i] != '_' && ToLowerCase(name)[i] == "ongoing"[i];
    LabelWithoutUnderscore(name);
  }

  /** `COMPLETED` is labelled "completed". */
  lemma CompletedLabel()
    ensures BadgeLabel(StatusName(COMPLETED)) == "completed"
  {
    var name := StatusName(COMPLETED);
    assert name == "COMPLETED";
    assert forall i :: 0 <= i < |name| ==> name[i] != '_' && ToLowerCase(name)[i] == "completed"[i];
    LabelWithoutUnderscore(name);
  }

  /** A second underscore is left in place. */
  lemma OnlyFirstUnderscoreReplaced()
    ensures BadgeLabel("A_B_C") == "a b_c"
  {
    var lower := ToLowerCase("A_B_C");
    assert lower == "a_b_c";
    assert lower[..1] == "a";
    assert lower[..3] == "a_b";
  }

  /*
   * Duration display
   */

  /**
   * `formatDuration`, as written: minutes under an hour; then whole hours,
   * or hours and minutes, while the hour count is under 24; then days and
   * the hours left over, dropping the minutes. It writes out exactly the
   * shape `Describe` selects by the thresholds 60 and 1440: the source's
   * `hours < 24` test is the test `minutes < 1440`, and its
   * `(minutes / 60) % 24` is the whole hours left after the whole days.
   */
  function FormatDuration(minutes: int): (r: string)
    ensures r == Render(Describe(minutes))
  {
    if minutes < 60 then IntToString(minutes) + " minutes"
    else
      HoursThenDays(minutes);
      var hours := minutes / 60;
      var remainingMinutes := minutes % 60;
      if hours < 24 then
        if remainingMinutes != 0 then IntToString(hours) + "h " + IntToString(remainingMinutes) + "m"
        else IntToString(hours) + " hours"
      else
        var days := hours / 24;
        var remainingHours := hours % 24;
        IntToString(days) + "d " + IntToString(remainingHours) + "h"
  }

  /** The four shapes a displayed duration can take. */
  datatype DurationDisplay =
    | Minutes(count: int)
    | WholeHours(hours: nat)
    | HoursMinutes(hours: nat, minutes: nat)
    | DaysHours(days: nat, hours: nat)

  /** The text of a displayed duration. */
  function Render(d: DurationDisplay): string {
    match d
    case Minutes(n) => IntToString(n) + " minutes"
    case WholeHours(h) => NatToString(h) + " hours"
    case HoursMinutes(h, m) => NatToString(h) + "h " + NatToString(m) + "m"
    case DaysHours(days, h) => NatToString(days) + "d " + NatToString(h) + "h"
  }

  /** The number of minutes a displayed duration stands for. */
  function DisplayedMinutes(d: DurationDisplay): int {
    match d
    case Minutes(n) => n
    case WholeHours(h) => h * 60
    case HoursMinutes(h, m) => h * 60 + m
    case DaysHours(days, h) => days * 1440 + h * 60
  }

  /**
   * Which shape a duration is shown in, decided by the thresholds of one
   * hour (60) and one day (1440) and by the whole-hour test alone.
   */
  function Describe(total: int): (d: DurationDisplay)
    ensures d.Minutes? <==> total < 60
    ensures d.WholeHours? <==> 60 <= total < 1440 && total % 60 == 0
    ensures d.HoursMinutes? <==> 60 <= total < 1440 && total % 60 != 0
    ensures d.DaysHours? <==> 1440 <= total
    ensures d.Minutes? ==> d.count == total
    ensures d.WholeHours? ==> 1 <= d.hours <= 23 && d.hours * 60 == total
    ensures d.HoursMinutes? ==> 1 <= d.hours <= 23 && 1 <= d.minutes <= 59 && d.hours * 60 + d.minutes == total
    ensures d.DaysHours? ==> d.days >= 1 && d.hours <= 23
                             && d.days * 1440 + d.hours * 60 <= total < d.days * 1440 + d.hours * 60 + 60
  {
    if total < 60 then Minutes(total)
    else if total < 1440 then
      if total % 60 == 0 then WholeHours(total / 60) else HoursMinutes(total / 60, total % 60)
    else DaysHours(total / 1440, (total % 1440) / 60)
  }

  /**
   * The display is exact below a day; from a day on it drops the leftover
   * minutes, and only those.
   */
  lemma DescribeApproximates(total: int)
    ensures total < 1440 ==> DisplayedMinutes(Describe(total)) == total
    ensures DisplayedMinutes(Describe(total)) <= total < DisplayedMinutes(Describe(total)) + 60
  {
  }

  /** Splitting minutes into hours and then hours into days is the same as splitting by days first. */
  lemma HoursThenDays(total: nat)
    ensures (total / 60) / 24 == total / 1440
    ensures (total / 60) % 24 == (total % 1440) / 60
    ensures total / 60 < 24 <==> total < 1440
  {
  }

  /** Just under an hour is shown in minutes. */
  lemma FormatDurationSample59()
    ensures FormatDuration(59) == "59 minutes"
  {
    assert NatToString(59) == "59" by { assert NatToString(5) == "5"; }
  }

  /** Exactly one hour is shown as whole hours. */
  lemma FormatDurationSample60()
    ensures FormatDuration(60) == "1 hours"
  {
    assert Describe(60) == WholeHours(1);
  }

  /** An hour and a half is shown as hours and minutes. */
  lemma FormatDurationSample90()
    ensures FormatDuration(90) == "1h 30m"
  {
    assert Describe(90) == HoursMinutes(1, 30);
    assert NatToString(30) == "30" by { assert NatToString(3) == "3"; }
    assert Render(HoursMinutes(1, 30)) == "1h 30m";
  }

  /** Sample values at and just past one day. */
  lemma FormatDurationSamplesDays()
    ensures FormatDuration(1440) == "1d 0h"
    ensures FormatDuration(1500) == "1d 1h"
  {
    assert Describe(1440) == DaysHours(1, 0);
    assert Describe(1500) == DaysHours(1, 1);
  }

  /** A whole number of hours under a day, stored in minutes by the create action, is shown as that many hours. */
  lemma WholeHoursRoundTrip(v: int)
    requires 1 <= v < 24
    ensures FormatDuration(v * 60) == IntToString(v) + " hours"
  {
    assert Describe(v * 60) == WholeHours(v);
  }

  /** A whole number of days is shown as that many days and no hours. */
  lemma WholeDaysRoundTrip(v: int)
    requires v >= 1
    ensures FormatDuration(v * 1440) == IntToString(v) + "d 0h"
  {
    assert (v * 1440) / 1440 == v && (v * 1440) % 1440 == 0;
    assert Describe(v * 1440) == DaysHours(v, 0);
  }

  /** A duration under an hour is shown as its own number of minutes. */
  lemma MinutesShownAsIs(v: int)
    requires v < 60
    ensures FormatDuration(v) == IntToString(v) + " minutes"
  {
  }

  /** The number a rendered duration starts with, when it does not start with a minus sign. */
  function LeadingNumber(d: DurationDisplay): nat
    requires !(d.Minutes? && d.count < 0)
  {
    match d
    case Minutes(n) => n
    case WholeHours(h) => h
    case HoursMinutes(h, _) => h
    case DaysHours(days, _) => days
  }

  /** What follows the leading number in a rendered duration. */
  function AfterLeadingNumber(d: DurationDisplay): (t: string)
    ensures |t| > 0 && !IsDigit(t[0])
  {
    match d
    case Minutes(_) => " minutes"
    case WholeHours(_) => " hours"
    case HoursMinutes(_, m) => "h " + NatToString(m) + "m"
    case DaysHours(_, h) => "d " + NatToString(h) + "h"
  }

  lemma RenderSplit(d: DurationDisplay)
    requires !(d.Minutes? && d.count < 0)
    ensures Render(d) == NatToString(LeadingNumber(d)) + AfterLeadingNumber(d)
  {
  }

  /** Only a negative number of minutes is written with a leading minus sign. */
  lemma RenderStartsWithMinus(d: DurationDisplay)
    ensures |Render(d)| > 0
    ensures Render(d)[0] == '-' <==> d.Minutes? && d.count < 0
  {
  }

  /** Different displays are written as different texts. */
  lemma RenderInjective(x: DurationDisplay, y: DurationDisplay)
    requires Render(x) == Render(y)
    ensures x == y
  {
    var s := Render(x);
    RenderStartsWithMinus(x);
    RenderStartsWithMinus(y);
    if x.Minutes? && y.Minutes? {
      var k := |s| - |" minutes"|;
      assert IntToString(x.count) == s[..k] == IntToString(y.count);
      IntToStringInjective(x.count, y.count);
    } else if !(x.Minutes? && x.count < 0) && !(y.Minutes? && y.count < 0) {
      RenderSplit(x);
      RenderSplit(y);
      DigitsPrefixSplit(NatToString(LeadingNumber(x)), AfterLeadingNumber(x),
                        NatToString(LeadingNumber(y)), AfterLeadingNumber(y));
      NatToStringInjective(LeadingNumber(x), LeadingNumber(y));
      var t := AfterLeadingNumber(x);
      assert t == AfterLeadingNumber(y);
      if x.HoursMinutes? && y.HoursMinutes? {
        assert NatToString(x.minutes) == t[2..|t| - 1] == NatToString(y.minutes);
        NatToStringInjective(x.minutes, y.minutes);
      } else if x.DaysHours? && y.DaysHours? {
        assert NatToString(x.hours) == t[2..|t| - 1] == NatToString(y.hours);
        NatToStringInjective(x.hours, y.hours);
      } else {
        assert t[0] == AfterLeadingNumber(y)[0];
        assert t[1] == AfterLeadingNumber(y)[1];
      }
    }
  }

  /** Below a day the text identifies the duration exactly. */
  lemma FormatDurationExactBelowDay(a: int, b: int)
    requires a < 1440 && b < 1440
    requires FormatDuration(a) == FormatDuration(b)
    ensures a == b
  {
    RenderInjective(Describe(a), Describe(b));
    DescribeApproximates(a);
    DescribeApproximates(b);
  }

  /** From a day on, two durations are written alike exactly when they have the same whole hours. */
  lemma FormatDurationToTheHour(a: int, b: int)
    requires a >= 1440 && b >= 1440
    ensures FormatDuration(a) == FormatDuration(b) <==> a / 60 == b / 60
  {
    HoursThenDays(a);
    HoursThenDays(b);
    if FormatDuration(a) == FormatDuration(b) {
      RenderInjective(Describe(a), Describe(b));
    }
  }
}
