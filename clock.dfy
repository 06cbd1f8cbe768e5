/** The "h:mm AM/PM" clock text shared by the predictions endpoint, the
    timetable builder and the timeline view: how it is parsed with
    `split(' ')`, `split(':').map(Number)` and the 12 AM / 12 PM rules, and
    where `setHours(h, m, 0, 0)` puts it on a given day. */
module Clock {
  import opened Wrappers
  import opened Builtins

  /** The hour handed to `setHours`: 12 PM stays 12, 12 AM becomes 0, other
      PM hours gain 12; any other period leaves the hour as it is. */
  function HourTo24(hours: nat, period: Option<string>): (h: nat)
    ensures period == Some("PM") ==> h == (if hours == 12 then 12 else hours + 12)
    ensures period == Some("AM") ==> h == (if hours == 12 then 0 else hours)
    ensures period != Some("PM") && period != Some("AM") ==> h == hours
  {
    var adjusted := if period == Some("PM") && hours != 12 then hours + 12 else hours;
    if period == Some("AM") && hours == 12 then 0 else adjusted
  }

  /** `[time, period] = s.split(' ')`, `[hours, minutes] = time.split(':').map(Number)`:
      the 24-hour hour and the minute, or None when either number is NaN
      (an undefined minutes part is NaN as well). */
  function ParseClock(s: string): Option<(nat, nat)> {
    var time := SplitFirst(s, ' ');
    var period := SplitSecond(s, ' ');
    var hours := JsNumber(SplitFirst(time, ':'));
    var minutesText := SplitSecond(time, ':');
    if hours.None? || minutesText.None? then None
    else
      var minutes := JsNumber(minutesText.value);
      if minutes.None? then None
      else Some((HourTo24(hours.value, period), minutes.value))
  }

  /** Epoch milliseconds of `setHours(h, m, 0, 0)` on the day that starts at
      `midnightMs` (hours and minutes past their range roll over, as `setHours`
      does). */
  function SameDayMs(midnightMs: int, h: nat, m: nat): int {
    midnightMs + (h * 60 + m) * 60000
  }

  /** Canonical clock text parses back into its parts. */
  lemma {:induction false} ParseCanonical(hs: string, ms: string, period: string)
    requires AllDigits(hs) && AllDigits(ms)
    requires forall i :: 0 <= i < |period| ==> period[i] != ' '
    ensures ParseClock(hs + ":" + ms + " " + period)
         == Some((HourTo24(DigitsValue(hs), Some(period)), DigitsValue(ms)))
  {
    var time := hs + ":" + ms;
    var s := time + " " + period;
    assert forall i :: 0 <= i < |time| ==> time[i] != ' ' by {
      forall i | 0 <= i < |time| ensures time[i] != ' ' {
        if i < |hs| { assert time[i] == hs[i]; }
        else if i > |hs| { assert time[i] == ms[i - |hs| - 1]; }
      }
    }
    SplitOfJoin(time, ' ', period);
    assert s == time + [' '] + period;
    assert SplitFirst(period, ' ') == period by {
      assert IndexOf(period, ' ') == |period|;
    }
    assert forall i :: 0 <= i < |hs| ==> hs[i] != ':';
    SplitOfJoin(hs, ':', ms);
    assert time == hs + [':'] + ms;
    assert SplitFirst(ms, ':') == ms by {
      assert forall i :: 0 <= i < |ms| ==> ms[i] != ':';
      assert IndexOf(ms, ':') == |ms|;
    }
  }
}
