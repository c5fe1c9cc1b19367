/** Late days and cutoff (code/hand.c): one function charges late days by a closed form, the
    other stretches the deadline round by round. The lemmas say when the two agree. */
module LateDays {

  const DAY := 86400
  const TIME_ZONE := 8 * 3600

  type int32 = x: int | -0x8000_0000 <= x < 0x8000_0000

  /** What a 32-bit multiplication leaves of a product. */
  function WrapInt32(x: int): int32 {
    (x + 0x8000_0000) % 0x1_0000_0000 - 0x8000_0000
  }

  // --- the calendar, in local time (UTC+8) ---

  function LocalTime(t: int): int { t + TIME_ZONE }

  function Hour(t: int): int { LocalTime(t) % DAY / 3600 }

  /** 0 is Sunday, 6 is Saturday; 1970-01-01 was a Thursday. */
  function Weekday(t: int): int { (LocalTime(t) / DAY + 4) % 7 }

  function FirstPenaltyWeekday(t: int): (w: int)
    ensures 0 <= w < 7
  {
    if Hour(t) < 12 then Weekday(t) else (Weekday(t) + 1) % 7
  }

  // --- weekend days ---

  predicate IsWeekend(day: nat) { day % 7 == 0 || day % 7 == 6 }

  /** Weekend days among the days numbered 0..n-1, where day k falls on weekday k % 7. */
  function WeekendDaysBefore(n: nat): nat { (n + 6) / 7 + n / 7 }

  /** The reference: look at each of the days first..first+days-1. */
  function CountWeekendDays(first: nat, days: nat): nat {
    if days == 0 then 0
    else CountWeekendDays(first, days - 1) + if IsWeekend(first + days - 1) then 1 else 0
  }

  function WeekendDays(first: nat, days: nat): (c: nat)
    ensures c <= days
  {
    WeekendDaysCountsEachDay(first, days);
    WeekendDaysBefore(first + days) - WeekendDaysBefore(first)
  }

  lemma OneMoreDay(n: nat)
    ensures WeekendDaysBefore(n + 1) == WeekendDaysBefore(n) + if IsWeekend(n) then 1 else 0
  {
    var k, r := n / 7, n % 7;
    assert n == 7 * k + r;
    assert (n + 6) / 7 == k + (r + 6) / 7 && (n + 7) / 7 == k + 1 && (n + 1) / 7 == k + (r + 1) / 7;
  }

  /** The closed form counts the weekend days one by one. */
  lemma {:induction false} WeekendDaysCountsEachDay(first: nat, days: nat)
    ensures WeekendDaysBefore(first + days) == WeekendDaysBefore(first) + CountWeekendDays(first, days)
    ensures CountWeekendDays(first, days) <= days
  {
    if days > 0 {
      WeekendDaysCountsEachDay(first, days - 1);
      OneMoreDay(first + days - 1);
    }
  }

  lemma WeekendDaysShift(first: nat, days: nat)
    ensures WeekendDays(first % 7, days) == WeekendDays(first, days)
  {
    var k := first / 7;
    assert first == first % 7 + 7 * k;
    assert (first + 6) / 7 == (first % 7 + 6) / 7 + k;
    assert (first + days + 6) / 7 == (first % 7 + days + 6) / 7 + k;
    assert (first + days) / 7 == (first % 7 + days) / 7 + k;
  }

  lemma WeekendDaysSplit(first: nat, a: nat, b: nat)
    ensures WeekendDays(first, a + b) == WeekendDays(first, a) + WeekendDays((first + a) % 7, b)
  {
    WeekendDaysShift(first + a, b);
  }

  // --- calculate_late_submission_day ---

  /** Days begun after the deadline, whatever the weekday. */
  function Delay(deadline: int, submission: int): int {
    if submission > deadline then (submission - deadline + 86399) / DAY else 0
  }

  function Charge(firstWeekday: nat, days: nat, weekendsAsOneDay: bool): (c: nat)
    ensures c <= days
  {
    if weekendsAsOneDay then days - WeekendDays(firstWeekday, days) / 2 else days
  }

  function LateSubmissionDays(deadline: int, submission: int, weekendsAsOneDay: bool): (late: nat)
  {
    Charge(FirstPenaltyWeekday(deadline), Delay(deadline, submission), weekendsAsOneDay)
  }

  /** The first penalty weekday is the local day that holds the larger part of the 24 hours
      after t, and the later day when both hold 12 hours. */
  function Overlap(from: int, day: int): int {
    var lo := if from > day * DAY then from else day * DAY;
    var hi := if from < day * DAY then from + DAY else (day + 1) * DAY;
    if hi > lo then hi - lo else 0
  }

  lemma FirstPenaltyWeekdayHoldsTheMajority(t: int) returns (day: int)
    ensures FirstPenaltyWeekday(t) == (day + 4) % 7
    ensures Overlap(LocalTime(t), day) >= DAY / 2
    ensures forall other :: other != day && Overlap(LocalTime(t), other) >= DAY / 2 ==> other < day
  {
    var local := LocalTime(t);
    day := (local + DAY / 2) / DAY;
    var d, r := local / DAY, local % DAY;
    assert local == d * DAY + r;
    if r < DAY / 2 {
      assert day == d;
    } else {
      assert day == d + 1;
    }
  }

  lemma FirstPenaltyWeekdayByNoon(t: int)
    ensures FirstPenaltyWeekday(t) == ((LocalTime(t) + DAY / 2) / DAY + 4) % 7
  {
    var d, r := LocalTime(t) / DAY, LocalTime(t) % DAY;
    assert LocalTime(t) == d * DAY + r;
    assert (LocalTime(t) + DAY / 2) / DAY == if r < DAY / 2 then d else d + 1;
  }

  lemma DaysAdd(x: int, days: nat)
    ensures (x + days * DAY) / DAY == x / DAY + days
  {
  }

  lemma WeekdayAdd(x: int, days: nat)
    ensures (x + days) % 7 == (x % 7 + days) % 7
  {
  }

  lemma FirstPenaltyWeekdayAdvances(t: int, days: nat)
    ensures FirstPenaltyWeekday(t + days * DAY) == (FirstPenaltyWeekday(t) + days) % 7
  {
    FirstPenaltyWeekdayByNoon(t);
    FirstPenaltyWeekdayByNoon(t + days * DAY);
    var noon := LocalTime(t) + DAY / 2;
    DaysAdd(noon, days);
    assert LocalTime(t + days * DAY) + DAY / 2 == noon + days * DAY;
    WeekdayAdd(noon / DAY + 4, days);
  }

  lemma ChargeStep(w: nat, days: nat, rule: bool)
    ensures Charge(w, days, rule) <= Charge(w, days + 1, rule) <= Charge(w, days, rule) + 1
    ensures days > 0 ==> Charge(w, days, rule) >= 1
  {
    WeekendDaysSplit(w, days, 1);
  }

  lemma {:induction false} ChargeMonotone(w: nat, a: nat, b: nat, rule: bool)
    requires a <= b
    ensures Charge(w, a, rule) <= Charge(w, b, rule)
    decreases b
  {
    if a < b {
      ChargeMonotone(w, a, b - 1, rule);
      ChargeStep(w, b - 1, rule);
    }
  }

  lemma LateDaysZeroUntilDeadline(deadline: int, s: int, rule: bool)
    ensures LateSubmissionDays(deadline, s, rule) == 0 <==> s <= deadline
  {
    ChargeStep(FirstPenaltyWeekday(deadline), Delay(deadline, s), rule);
  }

  lemma LateDaysMonotone(deadline: int, s: int, t: int, rule: bool)
    requires s <= t
    ensures LateSubmissionDays(deadline, s, rule) <= LateSubmissionDays(deadline, t, rule)
  {
    ChargeMonotone(FirstPenaltyWeekday(deadline), Delay(deadline, s), Delay(deadline, t), rule);
  }

  lemma LateDaysOneMoreDay(deadline: int, s: int, rule: bool)
    ensures var late := LateSubmissionDays(deadline, s, rule);
            late <= LateSubmissionDays(deadline, s + DAY, rule) <= late + 1
  {
    var w := FirstPenaltyWeekday(deadline);
    if s + DAY > deadline {
      if s > deadline {
        assert Delay(deadline, s + DAY) == Delay(deadline, s) + 1;
        ChargeStep(w, Delay(deadline, s), rule);
      } else {
        assert Delay(deadline, s + DAY) == 1;
      }
    }
  }

  /** A week after the deadline costs six days when the weekend counts as one day. */
  lemma LateDaysOneMoreWeek(deadline: int, s: int, rule: bool)
    requires s > deadline
    ensures LateSubmissionDays(deadline, s + 7 * DAY, rule) ==
            LateSubmissionDays(deadline, s, rule) + if rule then 6 else 7
  {
    var w, d := FirstPenaltyWeekday(deadline), Delay(deadline, s);
    assert Delay(deadline, s + 7 * DAY) == d + 7;
    WeekendDaysSplit(w, d, 7);
  }

  // --- calculate_cutoff ---

  function RoundBonus(weekday: nat, daysLeft: nat): (bonus: nat)
    ensures bonus <= daysLeft / 2
  {
    WeekendDays(weekday, daysLeft) / 2
  }

  /** Whole days by which the rounds of the loop move the cutoff. */
  function CutoffSpan(weekday: nat, days: nat): nat
    decreases days
  {
    if days == 0 then 0
    else days + CutoffSpan((weekday + days) % 7, RoundBonus(weekday, days))
  }

  /** Rounds that see an odd number of weekend days: each loses half a day. */
  function OddRounds(weekday: nat, days: nat): nat
    decreases days
  {
    if days == 0 then 0
    else WeekendDays(weekday, days) % 2 + OddRounds((weekday + days) % 7, RoundBonus(weekday, days))
  }

  function Cutoff(deadline: int, cutoffDays: int32, weekendsAsOneDay: bool): int {
    if weekendsAsOneDay && cutoffDays > 0
    then deadline + CutoffSpan(FirstPenaltyWeekday(deadline), cutoffDays) * DAY
    else deadline + WrapInt32(cutoffDays * DAY)
  }

  lemma CutoffSpanOfNothing()
    ensures forall w :: CutoffSpan(w, 0) == 0
  {
  }

  /** One round of the loop. */
  lemma RoundMovesCutoff(cutoff: int, days: nat)
    requires days > 0
    ensures var w := FirstPenaltyWeekday(cutoff);
            cutoff + CutoffSpan(w, days) * DAY ==
            cutoff + days * DAY + CutoffSpan(FirstPenaltyWeekday(cutoff + days * DAY), RoundBonus(w, days)) * DAY
  {
    hide FirstPenaltyWeekday, RoundBonus;
    var w := FirstPenaltyWeekday(cutoff);
    FirstPenaltyWeekdayAdvances(cutoff, days);
    assert CutoffSpan(w, days) == days + CutoffSpan((w + days) % 7, RoundBonus(w, days));
  }

  /** The last product is computed in int, the one inside the loop in time_t. */
  method CalculateCutoff(deadline: int, cutoffDays: int32, weekendsAsOneDay: bool) returns (result: int)
    ensures result == Cutoff(deadline, cutoffDays, weekendsAsOneDay)
  {
    hide CutoffSpan;
    CutoffSpanOfNothing();
    var cutoff, dayLeft: int := deadline, cutoffDays;
    if weekendsAsOneDay {
      while dayLeft > 0
        invariant dayLeft <= cutoffDays
        invariant cutoffDays <= 0 ==> cutoff == deadline && dayLeft == cutoffDays
        invariant cutoffDays > 0 ==> dayLeft >= 0
        invariant cutoffDays > 0 ==>
                    cutoff + CutoffSpan(FirstPenaltyWeekday(cutoff), dayLeft) * DAY ==
                    deadline + CutoffSpan(FirstPenaltyWeekday(deadline), cutoffDays) * DAY
      {
        var weekday := if Hour(cutoff) < 12 then Weekday(cutoff) else (Weekday(cutoff) + 1) % 7;
        var before := (weekday + 6) / 7 + weekday / 7;
        var after := (weekday + dayLeft + 6) / 7 + (weekday + dayLeft) / 7;
        assert (after - before) / 2 == RoundBonus(weekday, dayLeft);
        RoundMovesCutoff(cutoff, dayLeft);
        cutoff := cutoff + dayLeft * DAY;
        dayLeft := (after - before) / 2;
      }
    }
    return cutoff + WrapInt32(dayLeft * DAY);
  }

  lemma NoDaysNoWeekend(w: nat)
    ensures WeekendDays(w, 0) == 0
  {
  }

  /** Every weekend day the rounds met is either given back as half a day or lost in an odd round. */
  lemma {:induction false} SpanWeekendBalance(w: nat, days: nat)
    ensures CutoffSpan(w, days) >= days
    ensures WeekendDays(w, CutoffSpan(w, days)) == 2 * (CutoffSpan(w, days) - days) + OddRounds(w, days)
    decreases days
  {
    hide WeekendDays;
    if days == 0 {
      NoDaysNoWeekend(w);
    } else {
      var next, bonus := (w + days) % 7, RoundBonus(w, days);
      SpanWeekendBalance(next, bonus);
      WeekendDaysSplit(w, days, CutoffSpan(next, bonus));
    }
  }

  /** The exact charge at the cutoff: one day less for every two odd rounds. */
  lemma ChargeAtCutoff(w: nat, days: nat)
    ensures Charge(w, CutoffSpan(w, days), true) == days - OddRounds(w, days) / 2
  {
    SpanWeekendBalance(w, days);
  }

  /** Soundness, for every deadline, rule and day count that is not negative. */
  lemma CutoffIsSound(deadline: int, days: int32, rule: bool, s: int)
    requires 0 <= days
    requires s <= Cutoff(deadline, days, rule)
    ensures LateSubmissionDays(deadline, s, rule) <= days
  {
    var w := FirstPenaltyWeekday(deadline);
    if rule && days > 0 {
      var span := CutoffSpan(w, days);
      assert Delay(deadline, s) <= span;
      ChargeMonotone(w, Delay(deadline, s), span, rule);
      ChargeAtCutoff(w, days);
    } else {
      assert WrapInt32(days * DAY) <= days * DAY;
      assert Delay(deadline, s) <= days;
    }
  }

  /** When the cutoff is the latest acceptable time. With the weekend rule at most one round may
      lose half a day, and then the day after the cutoff must not be a weekend day; without it the
      32-bit product must not wrap. */
  predicate CutoffIsTight(deadline: int, days: int32, rule: bool) {
    var w := FirstPenaltyWeekday(deadline);
    if days < 0 then false
    else if rule then
      OddRounds(w, days) == 0 || (OddRounds(w, days) == 1 && !IsWeekend(w + CutoffSpan(w, days)))
    else days <= 24855
  }

  ghost predicate CutoffIsExact(deadline: int, days: int32, rule: bool) {
    forall s :: s <= Cutoff(deadline, days, rule) <==> LateSubmissionDays(deadline, s, rule) <= days
  }

  lemma ChargeAfterCutoff(w: nat, days: nat)
    ensures Charge(w, CutoffSpan(w, days) + 1, true) > days <==>
            OddRounds(w, days) == 0 || (OddRounds(w, days) == 1 && !IsWeekend(w + CutoffSpan(w, days)))
  {
    hide CutoffSpan, OddRounds, IsWeekend, WeekendDaysBefore;
    var span := CutoffSpan(w, days);
    SpanWeekendBalance(w, days);
    OneMoreDay(w + span);
  }

  lemma BeyondSpan(deadline: int, span: nat, s: int)
    requires s > deadline + span * DAY
    ensures Delay(deadline, s) >= span + 1
  {
    assert (s - deadline + 86399) / DAY >= ((span + 1) * DAY) / DAY;
  }

  lemma ProductFits(days: int32)
    ensures 0 <= days <= 24855 ==> WrapInt32(days * DAY) == days * DAY
    ensures days > 24855 ==> WrapInt32(days * DAY) < days * DAY
  {
  }

  /** Where no round is needed, the cutoff lies as many days after the deadline, or before it. */
  lemma CutoffWithoutRounds(deadline: int, days: int32, rule: bool)
    requires -24855 <= days <= (if rule then 0 else 24855)
    ensures Cutoff(deadline, days, rule) == deadline + days * 86400
  {
  }

  lemma ChargeWithoutRule(w: nat, days: nat)
    ensures Charge(w, days, false) == days
  {
  }

  lemma BeyondTightCutoff(deadline: int, days: int32, rule: bool, s: int)
    requires CutoffIsTight(deadline, days, rule) && s > Cutoff(deadline, days, rule)
    ensures LateSubmissionDays(deadline, s, rule) > days
  {
    hide FirstPenaltyWeekday, CutoffSpan, OddRounds, Charge, Delay, IsWeekend;
    var w := FirstPenaltyWeekday(deadline);
    var span := if rule then CutoffSpan(w, days) else days;
    CutoffSpanOfNothing();
    ProductFits(days);
    BeyondSpan(deadline, span, s);
    ChargeMonotone(w, span + 1, Delay(deadline, s), rule);
    if rule {
      ChargeAfterCutoff(w, days);
    } else {
      ChargeWithoutRule(w, span + 1);
    }
  }

  lemma CutoffExactWhenTight(deadline: int, days: int32, rule: bool)
    requires CutoffIsTight(deadline, days, rule)
    ensures CutoffIsExact(deadline, days, rule)
  {
    forall s ensures s <= Cutoff(deadline, days, rule) <==> LateSubmissionDays(deadline, s, rule) <= days {
      if s <= Cutoff(deadline, days, rule) {
        CutoffIsSound(deadline, days, rule, s);
      } else {
        BeyondTightCutoff(deadline, days, rule, s);
      }
    }
  }

  /** A time that an untight cutoff gets wrong. */
  lemma CutoffInexactWhenNotTight(deadline: int, days: int32, rule: bool) returns (s: int)
    requires !CutoffIsTight(deadline, days, rule)
    ensures !(s <= Cutoff(deadline, days, rule) <==> LateSubmissionDays(deadline, s, rule) <= days)
  {
    var w := FirstPenaltyWeekday(deadline);
    if days < 0 {
      s := Cutoff(deadline, days, rule);
    } else if rule {
      var span := CutoffSpan(w, days);
      s := deadline + (span + 1) * DAY;
      assert Delay(deadline, s) == span + 1;
      ChargeAfterCutoff(w, days);
    } else {
      s := deadline + days * DAY;
      assert Delay(deadline, s) == days;
      assert WrapInt32(days * DAY) < days * DAY;
    }
  }

  lemma CutoffExactIff(deadline: int, days: int32, rule: bool)
    ensures CutoffIsExact(deadline, days, rule) <==> CutoffIsTight(deadline, days, rule)
  {
    if CutoffIsTight(deadline, days, rule) {
      CutoffExactWhenTight(deadline, days, rule);
    } else {
      var s := CutoffInexactWhenNotTight(deadline, days, rule);
    }
  }

  /** A Saturday first day with one cutoff day: the cutoff is Saturday's end, yet Sunday is
      charged one day too. */
  lemma SaturdayCutoffIsNotTheLatest()
    ensures var deadline := 1711123199;  // 2024-03-22 23:59:59, a Friday
            && Cutoff(deadline, 1, true) == deadline + DAY
            && LateSubmissionDays(deadline, deadline + 2 * DAY, true) == 1
  {
    assert FirstPenaltyWeekday(1711123199) == 6;
    assert RoundBonus(6, 1) == 0;
    assert CutoffSpan(6, 1) == 1 + CutoffSpan(0, 0);
    assert WeekendDays(6, 2) == 2;
  }

  /** Without the weekend rule 24856 days no longer fit the product: it wraps, and the cutoff falls before
      the deadline, although the next second is only one day late. */
  lemma WrappedCutoffIsNotTheLatest(deadline: int)
    ensures Cutoff(deadline, 24855, false) == deadline + 24855 * DAY
    ensures Cutoff(deadline, 24856, false) < deadline && LateSubmissionDays(deadline, deadline + 1, false) == 1
  {
    assert WrapInt32(24856 * DAY) == 24856 * DAY - 0x1_0000_0000;
    assert Delay(deadline, deadline + 1) == 1;
  }

  /** The README's example: a Thursday deadline and three late days end four days later. */
  lemma ThursdayDeadlineExample()
    ensures Cutoff(1711036799, 3, true) == 1711036799 + 4 * DAY
  {
    assert FirstPenaltyWeekday(1711036799) == 5;
    assert RoundBonus(5, 3) == 1 && RoundBonus(1, 1) == 0;
    assert CutoffSpan(5, 3) == 3 + CutoffSpan(1, 1);
  }

  // --- the calendar in seconds since 1970, without the local clock ---

  /** The weekday changes at 16:00 UTC, which is midnight at UTC+8, and nowhere else; one date fixes it. */
  lemma WeekdayChangesAtMidnight(t: int)
    ensures Weekday(t + 1) == if (t + 1) % 86400 == 57600 then (Weekday(t) + 1) % 7 else Weekday(t)
    ensures Weekday(1711080000) == 5                                        // 2024-03-22 12:00, a Friday
  {
  }

  /** The majority of the 24 hours after t, in UTC seconds: noon is at 04:00 UTC. */
  lemma FirstPenaltyWeekdayInSeconds(t: int)
    ensures FirstPenaltyWeekday(t) == ((t + 72000) / 86400 + 4) % 7
  {
    FirstPenaltyWeekdayByNoon(t);
  }

  /** What a submission is charged, day by day: n days have begun, and two weekend days among them count as one. */
  lemma LateDaysDayByDay(deadline: int, submission: int, n: nat)
    requires if submission <= deadline then n == 0
             else deadline + (n - 1) * 86400 < submission <= deadline + n * 86400
    ensures LateSubmissionDays(deadline, submission, false) == n
    ensures var first := ((deadline + 72000) / 86400 + 4) % 7;
            LateSubmissionDays(deadline, submission, true) == n - CountWeekendDays(first, n) / 2
  {
    FirstPenaltyWeekdayInSeconds(deadline);
    assert Delay(deadline, submission) == n;
    WeekendDaysCountsEachDay(FirstPenaltyWeekday(deadline), n);
  }

  lemma EveryWeekAlike(t: int, week: int)
    ensures FirstPenaltyWeekday(t + 604800 * week) == FirstPenaltyWeekday(t)
  {
    hide FirstPenaltyWeekday;
    FirstPenaltyWeekdayInSeconds(t);
    FirstPenaltyWeekdayInSeconds(t + 604800 * week);
    var days := (t + 72000) / 86400;
    assert (t + 604800 * week + 72000) / 86400 == days + 7 * week by {
      WholeDays(t + 72000, 7 * week);
    }
    assert (days + 7 * week + 4) % 7 == (days + 4) % 7 by {
      WholeWeeks(days + 4, week);
    }
  }

  lemma WholeDays(t: int, days: int)
    ensures (t + 86400 * days) / 86400 == t / 86400 + days
  {
  }

  lemma WholeWeeks(day: int, weeks: int)
    ensures (day + 7 * weeks) % 7 == day % 7
  {
  }

  /** Fridays at 11:59:59, 12:00, 19:00 and 23:59:59. */
  lemma FridayDeadlines(week: int)
    ensures FirstPenaltyWeekday(1711079999 + 604800 * week) == 5
    ensures FirstPenaltyWeekday(1711080000 + 604800 * week) == 6
    ensures FirstPenaltyWeekday(1711105200 + 604800 * week) == 6
    ensures FirstPenaltyWeekday(1711123199 + 604800 * week) == 6
  {
    hide FirstPenaltyWeekday;
    KnownFridays();
    EveryWeekAlike(1711079999, week);
    EveryWeekAlike(1711080000, week);
    EveryWeekAlike(1711105200, week);
    EveryWeekAlike(1711123199, week);
  }

  lemma KnownFridays()
    ensures FirstPenaltyWeekday(1711079999) == 5 && FirstPenaltyWeekday(1711080000) == 6
    ensures FirstPenaltyWeekday(1711105200) == 6 && FirstPenaltyWeekday(1711123199) == 6
  {
    hide FirstPenaltyWeekday;
    FirstPenaltyWeekdayInSeconds(1711079999);
    FirstPenaltyWeekdayInSeconds(1711080000);
    FirstPenaltyWeekdayInSeconds(1711105200);
    FirstPenaltyWeekdayInSeconds(1711123199);
  }

  lemma ChargesFromFriday()
    ensures Charge(5, 1, true) == 1 && Charge(5, 2, true) == 2 && Charge(5, 3, true) == 2
    ensures Charge(6, 1, true) == 1 && Charge(6, 2, true) == 1 && Charge(6, 3, true) == 2
  {
  }

  lemma DelayOfDays(deadline: int)
    ensures Delay(deadline, deadline + 1) == Delay(deadline, deadline + 86400) == 1
    ensures Delay(deadline, deadline + 86401) == Delay(deadline, deadline + 2 * 86400) == 2
    ensures Delay(deadline, deadline + 2 * 86400 + 1) == Delay(deadline, deadline + 3 * 86400) == 3
  {
  }

  /** The table in the source, in every week: late submission starting on Friday at 12:00. */
  lemma FridayNoonExample(week: int)
    ensures var deadline := 1711080000 + 604800 * week;
            && LateSubmissionDays(deadline, deadline + 86400, true) == 1
            && LateSubmissionDays(deadline, deadline + 2 * 86400, true) == 1
            && LateSubmissionDays(deadline, deadline + 3 * 86400, true) == 2
  {
    hide FirstPenaltyWeekday, Delay, Charge;
    FridayDeadlines(week);
    DelayOfDays(1711080000 + 604800 * week);
    ChargesFromFriday();
  }

  /** One second earlier. */
  lemma FridayMorningExample(week: int)
    ensures var deadline := 1711079999 + 604800 * week;
            && LateSubmissionDays(deadline, deadline + 86400, true) == 1
            && LateSubmissionDays(deadline, deadline + 2 * 86400, true) == 2
            && LateSubmissionDays(deadline, deadline + 3 * 86400, true) == 2
  {
    hide FirstPenaltyWeekday, Delay, Charge;
    FridayDeadlines(week);
    DelayOfDays(1711079999 + 604800 * week);
    ChargesFromFriday();
  }

  /** At 23:59:59 of that day. */
  lemma FridayMidnightExample(week: int)
    ensures var deadline := 1711123199 + 604800 * week;
            && LateSubmissionDays(deadline, deadline + 1, true) == 1
            && LateSubmissionDays(deadline, deadline + 86400, true) == 1
            && LateSubmissionDays(deadline, deadline + 86401, true) == 1
            && LateSubmissionDays(deadline, deadline + 2 * 86400 + 1, true) == 2
  {
    hide FirstPenaltyWeekday, Delay, Charge;
    FridayDeadlines(week);
    DelayOfDays(1711123199 + 604800 * week);
    ChargesFromFriday();
  }

  /** Two cutoff days after a Friday evening, in every week: the weekend counts once. */
  lemma FridayEveningCutoff(week: int)
    ensures var deadline := 1711105200 + 604800 * week;                     // 19:00
            Cutoff(deadline, 2, true) == deadline + 3 * 86400
  {
    FridayDeadlines(week);
    SpanOverWeekend();
    hide FirstPenaltyWeekday, CutoffSpan;
  }

  lemma SpanOverWeekend()
    ensures CutoffSpan(6, 2) == 3
  {
    assert RoundBonus(6, 2) == 1 && RoundBonus(1, 1) == 0;
    assert CutoffSpan(6, 2) == 2 + CutoffSpan(1, 1);
  }
}
