/** The cron expression the `/send` handler builds from a form schedule
    `YYYY-MM-DDTHH:MM`: split on `T`, the date on `-`, the time on `:`, and
    print `minute hour day month *` with the month read through `parseInt`. */
module Schedule {
  import opened Strings

  /** The shape a `datetime-local` form field submits: `YYYY-MM-DDTHH:MM`. */
  predicate WellFormedSchedule(s: string) {
    && |s| == 16
    && IsDigits(s[0..4]) && s[4] == '-'
    && IsDigits(s[5..7]) && s[7] == '-'
    && IsDigits(s[8..10]) && s[10] == 'T'
    && IsDigits(s[11..13]) && s[13] == ':'
    && IsDigits(s[14..16])
  }

  /** A digit string contains no separator character. */
  lemma DigitsExclude(a: string, c: char)
    requires IsDigits(a) && !IsDigit(c)
    ensures c !in a
  {
  }

  /** The date and time halves of a well-formed schedule. */
  lemma SplitOnT(s: string)
    requires WellFormedSchedule(s)
    ensures Split(s, 'T') == [s[..10], s[11..]]
  {
    var date, time := s[..10], s[11..];
    assert date == s[..4] + "-" + s[5..7] + "-" + s[8..10];
    assert time == s[11..13] + ":" + s[14..16];
    DigitsExclude(s[..4], 'T');
    DigitsExclude(s[5..7], 'T');
    DigitsExclude(s[8..10], 'T');
    DigitsExclude(s[11..13], 'T');
    DigitsExclude(s[14..16], 'T');
    SplitJoin([date, time], 'T');
    JoinCons(date, [time], 'T');
    assert [date] + [time] == [date, time];
    assert s == date + "T" + time;
  }

  /** Year, month and day of a well-formed schedule. */
  lemma SplitDate(s: string)
    requires WellFormedSchedule(s)
    ensures Split(s[..10], '-') == [s[..4], s[5..7], s[8..10]]
  {
    var year, month, day := s[..4], s[5..7], s[8..10];
    DigitsExclude(year, '-');
    DigitsExclude(month, '-');
    DigitsExclude(day, '-');
    var date := s[..10];
    assert date == year + "-" + month + "-" + day;
    JoinCons(month, [day], '-');
    assert [month] + [day] == [month, day];
    assert Join([day], '-') == day;
    var tail := Join([month, day], '-');
    assert tail == month + "-" + day;
    JoinCons(year, [month, day], '-');
    assert [year] + [month, day] == [year, month, day];
    assert Join([year, month, day], '-') == year + "-" + tail;
    assert year + "-" + tail == date;
    SplitJoin([year, month, day], '-');
  }

  /** Hour and minute of a well-formed schedule. */
  lemma SplitTime(s: string)
    requires WellFormedSchedule(s)
    ensures Split(s[11..], ':') == [s[11..13], s[14..16]]
  {
    var hour, minute := s[11..13], s[14..16];
    DigitsExclude(hour, ':');
    DigitsExclude(minute, ':');
    SplitJoin([hour, minute], ':');
    assert s[11..] == hour + ":" + minute;
  }

  /** `` `${minute} ${hour} ${day} ${parseInt(month)} *` `` for a form schedule. */
  function CronOf(schedule: string): (cron: string)
    requires WellFormedSchedule(schedule)
    ensures cron == schedule[14..16] + " " + schedule[11..13] + " " + schedule[8..10] + " "
                    + Decimal(DigitsValue(schedule[5..7])) + " *"
  {
    SplitOnT(schedule);
    SplitDate(schedule);
    SplitTime(schedule);
    var parts := Split(schedule, 'T');
    var datePart, timePart := parts[0], parts[1];
    var date := Split(datePart, '-');
    var month, day := date[1], date[2];
    var time := Split(timePart, ':');
    var hour, minute := time[0], time[1];
    minute + " " + hour + " " + day + " " + Decimal(DigitsValue(month)) + " *"
  }

  /** The month field of the cron string is the form's month without its
      leading zero: "05" becomes "5", "10" stays "10". */
  lemma CronMonthDropsLeadingZero(schedule: string)
    requires WellFormedSchedule(schedule)
    ensures CronOf(schedule)[9..] == (if schedule[5] == '0' then schedule[6..7] else schedule[5..7]) + " *"
  {
    DecimalOfDigits(schedule[5..7]);
    var m := schedule[5..7];
    assert StripZeros(m) == if m[0] == '0' then m[1..] else m by {
      if m[0] == '0' {
        assert StripZeros(m) == StripZeros(m[1..]);
      }
    }
    assert m[1..] == schedule[6..7];
  }

  /** The cron string is its five fields joined with spaces. */
  lemma CronJoin(schedule: string)
    requires WellFormedSchedule(schedule)
    ensures Join([schedule[14..16], schedule[11..13], schedule[8..10],
                  Decimal(DigitsValue(schedule[5..7])), "*"], ' ') == CronOf(schedule)
  {
    var minute, hour, day := schedule[14..16], schedule[11..13], schedule[8..10];
    var month := Decimal(DigitsValue(schedule[5..7]));
    JoinFive(minute, hour, day, month, "*", ' ');
  }

  /** Five pieces joined with a separator. */
  lemma JoinFive(a: string, b: string, c: string, d: string, e: string, sep: char)
    ensures Join([a, b, c, d, e], sep) == a + [sep] + b + [sep] + c + [sep] + d + [sep] + e
  {
    JoinCons(d, [e], sep);
    assert [d] + [e] == [d, e];
    JoinCons(c, [d, e], sep);
    assert [c] + [d, e] == [c, d, e];
    JoinCons(b, [c, d, e], sep);
    assert [b] + [c, d, e] == [b, c, d, e];
    JoinCons(a, [b, c, d, e], sep);
    assert [a] + [b, c, d, e] == [a, b, c, d, e];
  }

  /** Reading the cron string back: five space-separated fields, the first
      three copied from the schedule and the fourth denoting its month. */
  lemma CronFields(schedule: string)
    requires WellFormedSchedule(schedule)
    ensures |Split(CronOf(schedule), ' ')| == 5
    ensures Split(CronOf(schedule), ' ')[0] == schedule[14..16]
    ensures Split(CronOf(schedule), ' ')[1] == schedule[11..13]
    ensures Split(CronOf(schedule), ' ')[2] == schedule[8..10]
    ensures IsDigits(Split(CronOf(schedule), ' ')[3])
    ensures DigitsValue(Split(CronOf(schedule), ' ')[3]) == DigitsValue(schedule[5..7])
    ensures Split(CronOf(schedule), ' ')[4] == "*"
  {
    var month := Decimal(DigitsValue(schedule[5..7]));
    var fields := [schedule[14..16], schedule[11..13], schedule[8..10], month, "*"];
    DigitsExclude(schedule[14..16], ' ');
    DigitsExclude(schedule[11..13], ' ');
    DigitsExclude(schedule[8..10], ' ');
    DigitsExclude(month, ' ');
    CronJoin(schedule);
    SplitJoin(fields, ' ');
    DecimalValue(DigitsValue(schedule[5..7]));
  }
}
