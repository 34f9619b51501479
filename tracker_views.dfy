/** The dashboard's calculations (the current week, the twelve-month trend
    per goal, the next-hours hint) and the contact form's inbox. */
module TrackerViews {
  import opened Wrappers
  import opened Users
  import opened Text
  import opened Dates
  import opened GoalModels
  import opened SessionModels
  import opened AchievementModels
  import opened GoalServices
  import opened AchievementServices
  import opened AchievementViews

  // ---------------------------------------------------------------------
  // Current week

  /** A half-open run of days `[start, end)`. */
  datatype Span = Span(start: Date, end: Date)

  /** The dashboard's week: from the Monday of `today` up to the next Monday,
      excluded. */
  function CurrentWeek(today: Date): (w: Span)
    ensures Weekday(w.start) == 0
    ensures w.start <= today < w.start + 7
    ensures w.end == w.start + 7
  {
    var start := today - Weekday(today);
    WeekdayShift(start, 0);
    Span(start, start + 7)
  }

  /** The week end shown on the dashboard, the day before the next Monday. */
  function ShownWeekEnd(w: Span): (d: Date)
    requires Weekday(w.start) == 0 && w.end == w.start + 7
    ensures Weekday(d) == 6 && d == w.start + 6
  {
    WeekdayShift(w.start - 1, 1);
    w.end - 1
  }

  /** The dashboard's week is the freezer's week window holding `today`. */
  lemma CurrentWeekIsFreezerWeek(today: Date)
    ensures CurrentWeek(today).start == MondayOf(today)
    ensures ShownWeekEnd(CurrentWeek(today)) == SundayOf(MondayOf(today))
  {
    var a, b := CurrentWeek(today).start, MondayOf(today);
    var qa, qb := (a + 6) / 7, (b + 6) / 7;
    assert a + 6 == 7 * qa && b + 6 == 7 * qb;
  }

  /** Two Mondays less than a week apart are the same day. */
  lemma MondaysWithinAWeek(a: Date, b: Date)
    requires Weekday(a) == 0 && Weekday(b) == 0 && a - 7 < b < a + 7
    ensures a == b
  {
    var qa, qb := (a + 6) / 7, (b + 6) / 7;
    assert a + 6 == 7 * qa && b + 6 == 7 * qb;
  }

  /** A day is in the dashboard's week exactly when it is in the ISO week of
      `today`, the weeks the streak counts. */
  lemma CurrentWeekIsIsoWeek(today: Date, d: Date)
    ensures CurrentWeek(today).start <= d < CurrentWeek(today).end <==> IsoCalendar(d) == IsoCalendar(today)
  {
    SameWeekIffSameMonday(IsoCalendar(d), d, IsoCalendar(today), today);
  }

  lemma SameWeekIffSameMonday(k: IsoWeek, d: Date, t: IsoWeek, today: Date)
    requires HoldsDate(k, d) && HoldsDate(t, today)
    ensures CurrentWeek(today).start <= d < CurrentWeek(today).end <==> k == t
  {
    MondayOfWeek(k, d);
    MondayOfWeek(t, today);
    if CurrentWeek(today).start <= d < CurrentWeek(today).end {
      MondaysWithinAWeek(d - Weekday(d), today - Weekday(today));
      SameMondaySameWeek(k, d, t, today);
    }
  }

  /** The user's sessions dated in `w`: every such session as often as the
      table holds it, and nothing else. */
  function WeekSessions(sessions: seq<StudySession>, user: UserId, w: Span): (r: seq<StudySession>)
    ensures forall s :: s in r <==> s in sessions && s.user == user && w.start <= s.startedOn < w.end
    ensures forall s :: multiset(r)[s] == (if s.user == user && w.start <= s.startedOn < w.end
                                           then multiset(sessions)[s] else 0)
  {
    if sessions == [] then []
    else
      var prev := WeekSessions(sessions[..|sessions| - 1], user, w);
      var s := sessions[|sessions| - 1];
      assert sessions == sessions[..|sessions| - 1] + [s];
      if s.user == user && w.start <= s.startedOn < w.end then prev + [s] else prev
  }

  /** The minutes the user studied this week (the `Sum` of the dashboard's
      weekly card, 0 when there is nothing to sum). */
  function WeeklyMinutes(sessions: seq<StudySession>, user: UserId, today: Date): (m: nat)
    ensures m <= UserMinutes(sessions, user)
  {
    WeekSessionsWithinTotal(sessions, user, CurrentWeek(today));
    SumMinutes(WeekSessions(sessions, user, CurrentWeek(today)))
  }

  /** This week's minutes never exceed the user's lifetime minutes. */
  lemma {:induction false} WeekSessionsWithinTotal(sessions: seq<StudySession>, user: UserId, w: Span)
    ensures SumMinutes(WeekSessions(sessions, user, w)) <= UserMinutes(sessions, user)
  {
    if sessions != [] {
      var init := sessions[..|sessions| - 1];
      var s := sessions[|sessions| - 1];
      WeekSessionsWithinTotal(init, user, w);
      assert sessions == init + [s];
      UserMinutesAppend(init, [s], user);
      var prev := WeekSessions(init, user, w);
      if s.user == user && w.start <= s.startedOn < w.end {
        SumMinutesAppend(prev, [s]);
      }
    }
  }

  // ---------------------------------------------------------------------
  // Twelve months

  /** The month before `ym`, January stepping back to December of the
      previous year. */
  function PrevMonth(ym: YearMonth): (p: YearMonth)
    requires ValidMonth(ym)
    ensures ValidMonth(p)
    ensures MonthIndex(p) == MonthIndex(ym) - 1
  {
    if ym.month == 1 then YearMonth(ym.year - 1, 12) else YearMonth(ym.year, ym.month - 1)
  }

  /** A valid month is determined by its index. */
  lemma MonthIndexInjective(a: YearMonth, b: YearMonth)
    requires ValidMonth(a) && ValidMonth(b) && MonthIndex(a) == MonthIndex(b)
    ensures a == b
  {
  }

  function Reverse<T>(s: seq<T>): (r: seq<T>)
    ensures |r| == |s|
    ensures forall i :: 0 <= i < |s| ==> r[i] == s[|s| - 1 - i]
  {
    if s == [] then [] else Reverse(s[1..]) + [s[0]]
  }

  /** The dashboard's month list: the month of `today` and the eleven before
      it, built newest first by stepping back a month at a time, then
      reversed so that the oldest comes first. */
  method MonthList(today: Date) returns (months: seq<YearMonth>)
    ensures |months| == 12
    ensures months[11] == MonthOf(today)
    ensures forall i :: 0 <= i < 12 ==>
      ValidMonth(months[i]) && MonthIndex(months[i]) == MonthIndex(MonthOf(today)) - 11 + i
  {
    var newestFirst: seq<YearMonth> := [];
    var current := MonthOf(today);
    ghost var top := MonthIndex(current);
    for k := 0 to 12
      invariant |newestFirst| == k
      invariant ValidMonth(current) && MonthIndex(current) == top - k
      invariant forall j :: 0 <= j < k ==> ValidMonth(newestFirst[j]) && MonthIndex(newestFirst[j]) == top - j
    {
      newestFirst := newestFirst + [current];
      current := PrevMonth(current);
    }
    months := Reverse(newestFirst);
    MonthIndexInjective(months[11], MonthOf(today));
  }

  /** Consecutive entries of the month list are consecutive months. */
  lemma MonthListConsecutive(months: seq<YearMonth>, today: Date, i: int)
    requires |months| == 12
    requires forall j :: 0 <= j < 12 ==>
      ValidMonth(months[j]) && MonthIndex(months[j]) == MonthIndex(MonthOf(today)) - 11 + j
    requires 0 <= i < 11
    ensures months[i + 1] == (if months[i].month == 12 then YearMonth(months[i].year + 1, 1)
                              else YearMonth(months[i].year, months[i].month + 1))
  {
    var next := if months[i].month == 12 then YearMonth(months[i].year + 1, 1)
                else YearMonth(months[i].year, months[i].month + 1);
    MonthIndexInjective(months[i + 1], next);
  }

  // ---------------------------------------------------------------------
  // Monthly series per goal

  /** One row of the monthly aggregate: a goal's hours (in tenths) over the
      outcomes whose week starts in `month`. */
  datatype MonthlyTotal = MonthlyTotal(goal: GoalId, month: YearMonth, tenths: nat)

  /** An entry of `data_by_goal`: the goal's label and its hours by month. */
  datatype GoalSeries = GoalSeries(name: string, values: map<YearMonth, nat>)

  /** The label of a goal: its rendered name, or "Goal <id>" when unknown. */
  function LabelOf(labels: map<GoalId, string>, id: GoalId): string
  {
    if id in labels then labels[id] else "Goal " + NatToString(id)
  }

  /** `data_by_goal` after the rows so far: each goal's entry is created on
      its first row and its month value set by every row. */
  function GroupByGoal(rows: seq<MonthlyTotal>, labels: map<GoalId, string>): map<GoalId, GoalSeries>
  {
    if rows == [] then map[]
    else
      var prev := GroupByGoal(rows[..|rows| - 1], labels);
      var o := rows[|rows| - 1];
      var entry := if o.goal in prev then prev[o.goal] else GoalSeries(LabelOf(labels, o.goal), map[]);
      prev[o.goal := entry.(values := entry.values[o.month := o.tenths])]
  }

  /** The goals in the order `data_by_goal` first saw them. */
  function GoalOrder(rows: seq<MonthlyTotal>): seq<GoalId>
  {
    if rows == [] then []
    else
      var prev := GoalOrder(rows[..|rows| - 1]);
      var g := rows[|rows| - 1].goal;
      if g in prev then prev else prev + [g]
  }

  /** No two rows of the aggregate share a goal and a month. */
  predicate GroupedRows(rows: seq<MonthlyTotal>)
  {
    forall i, j :: 0 <= i < j < |rows| ==> !(rows[i].goal == rows[j].goal && rows[i].month == rows[j].month)
  }

  /** Some row of the aggregate is for goal `g`. */
  predicate HasGoal(rows: seq<MonthlyTotal>, g: GoalId)
  {
    exists i :: 0 <= i < |rows| && rows[i].goal == g
  }

  /** Some row of the aggregate is for goal `g` and month `m`. */
  predicate HasRow(rows: seq<MonthlyTotal>, g: GoalId, m: YearMonth)
  {
    exists i :: 0 <= i < |rows| && rows[i].goal == g && rows[i].month == m
  }

  lemma HasRowAppend(rows: seq<MonthlyTotal>, o: MonthlyTotal, g: GoalId, m: YearMonth)
    ensures HasGoal(rows + [o], g) <==> HasGoal(rows, g) || o.goal == g
    ensures HasRow(rows + [o], g, m) <==> HasRow(rows, g, m) || (o.goal == g && o.month == m)
  {
    var all := rows + [o];
    if HasGoal(rows, g) {
      var i :| 0 <= i < |rows| && rows[i].goal == g;
      assert all[i] == rows[i];
    }
    if HasRow(rows, g, m) {
      var i :| 0 <= i < |rows| && rows[i].goal == g && rows[i].month == m;
      assert all[i] == rows[i];
    }
    assert all[|rows|] == o;
  }

  /** The goal order lists each goal of the aggregate once. */
  lemma {:induction false} GoalOrderContents(rows: seq<MonthlyTotal>)
    ensures forall g :: g in GoalOrder(rows) <==> HasGoal(rows, g)
    ensures forall i, j :: 0 <= i < j < |GoalOrder(rows)| ==> GoalOrder(rows)[i] != GoalOrder(rows)[j]
  {
    if rows != [] {
      var init, o := rows[..|rows| - 1], rows[|rows| - 1];
      GoalOrderContents(init);
      assert rows == init + [o];
      forall g ensures g in GoalOrder(rows) <==> HasGoal(rows, g) {
        HasRowAppend(init, o, g, YearMonth(0, 1));
      }
    }
  }

  /** `data_by_goal` has an entry for exactly the goals of the order, each
      labelled from the label table. */
  lemma {:induction false} GroupByGoalKeys(rows: seq<MonthlyTotal>, labels: map<GoalId, string>)
    ensures forall g :: g in GroupByGoal(rows, labels) <==> g in GoalOrder(rows)
    ensures forall g :: g in GroupByGoal(rows, labels) ==> GroupByGoal(rows, labels)[g].name == LabelOf(labels, g)
  {
    if rows != [] {
      GroupByGoalKeys(rows[..|rows| - 1], labels);
    }
  }

  /** A goal's entry holds a value for a month exactly when some row is for
      that goal and month. */
  lemma {:induction false} GroupByGoalMonths(rows: seq<MonthlyTotal>, labels: map<GoalId, string>)
    ensures forall g, m :: g in GroupByGoal(rows, labels) && m in GroupByGoal(rows, labels)[g].values <==>
      HasRow(rows, g, m)
  {
    if rows != [] {
      var init, o := rows[..|rows| - 1], rows[|rows| - 1];
      GroupByGoalMonths(init, labels);
      assert rows == init + [o];
      forall g, m ensures g in GroupByGoal(rows, labels) && m in GroupByGoal(rows, labels)[g].values <==>
        HasRow(rows, g, m)
      {
        HasRowAppend(init, o, g, m);
      }
    }
  }

  /** With one row per goal and month, each row's hours are what the goal's
      entry holds for that month. */
  lemma {:induction false} GroupByGoalValues(rows: seq<MonthlyTotal>, labels: map<GoalId, string>)
    requires GroupedRows(rows)
    ensures forall i :: 0 <= i < |rows| ==>
      && rows[i].goal in GroupByGoal(rows, labels)
      && rows[i].month in GroupByGoal(rows, labels)[rows[i].goal].values
      && GroupByGoal(rows, labels)[rows[i].goal].values[rows[i].month] == rows[i].tenths
  {
    if rows != [] {
      var init, o := rows[..|rows| - 1], rows[|rows| - 1];
      GroupByGoalValues(init, labels);
      var data := GroupByGoal(rows, labels);
      forall i | 0 <= i < |rows|
        ensures rows[i].goal in data && rows[i].month in data[rows[i].goal].values
        ensures data[rows[i].goal].values[rows[i].month] == rows[i].tenths
      {
        if i < |init| {
          assert rows[i] == init[i];
        }
      }
    }
  }

  /** The loop that fills `data_by_goal`, entry by entry in row order. */
  method DataByGoal(rows: seq<MonthlyTotal>, labels: map<GoalId, string>)
    returns (order: seq<GoalId>, data: map<GoalId, GoalSeries>)
    ensures data == GroupByGoal(rows, labels) && order == GoalOrder(rows)
  {
    order, data := [], map[];
    for i := 0 to |rows|
      invariant data == GroupByGoal(rows[..i], labels) && order == GoalOrder(rows[..i])
      invariant forall g :: g in data <==> g in order
    {
      assert rows[..i + 1][..i] == rows[..i];
      var o := rows[i];
      if o.goal !in data {
        data := data[o.goal := GoalSeries(LabelOf(labels, o.goal), map[])];
        order := order + [o.goal];
      }
      data := data[o.goal := data[o.goal].(values := data[o.goal].values[o.month := o.tenths])];
    }
    assert rows[..|rows|] == rows;
  }

  /** `[values_map.get(m, 0) for m in months]`. */
  function Series(values: map<YearMonth, nat>, months: seq<YearMonth>): (r: seq<nat>)
    ensures |r| == |months|
    ensures forall i :: 0 <= i < |months| ==> (months[i] in values ==> r[i] == values[months[i]])
    ensures forall i :: 0 <= i < |months| ==> (months[i] !in values ==> r[i] == 0)
  {
    if months == [] then []
    else
      var head := if months[0] in values then values[months[0]] else 0;
      [head] + Series(values, months[1..])
  }

  /** One chart line: a goal's label and its twelve monthly values. */
  datatype Dataset = Dataset(name: string, data: seq<nat>)

  /** The datasets loop: one line per goal of `data_by_goal`, in its order. */
  method Datasets(order: seq<GoalId>, data: map<GoalId, GoalSeries>, months: seq<YearMonth>)
    returns (datasets: seq<Dataset>)
    requires forall g :: g in order ==> g in data
    ensures |datasets| == |order|
    ensures forall i :: 0 <= i < |order| ==>
      datasets[i] == Dataset(data[order[i]].name, Series(data[order[i]].values, months))
  {
    datasets := [];
    for i := 0 to |order|
      invariant |datasets| == i
      invariant forall j :: 0 <= j < i ==>
        datasets[j] == Dataset(data[order[j]].name, Series(data[order[j]].values, months))
    {
      var entry := data[order[i]];
      datasets := datasets + [Dataset(entry.name, Series(entry.values, months))];
    }
  }

  /** The chart of a goal: each of its lines has a value for every listed
      month, that month's total when the aggregate has one and 0 otherwise. */
  lemma ChartLineValues(rows: seq<MonthlyTotal>, labels: map<GoalId, string>, months: seq<YearMonth>,
                        g: GoalId, k: int)
    requires GroupedRows(rows)
    requires g in GroupByGoal(rows, labels) && 0 <= k < |months|
    ensures var line := Series(GroupByGoal(rows, labels)[g].values, months);
      && |line| == |months|
      && (forall i :: 0 <= i < |rows| && rows[i].goal == g && rows[i].month == months[k] ==>
            line[k] == rows[i].tenths)
      && ((forall i :: 0 <= i < |rows| ==> !(rows[i].goal == g && rows[i].month == months[k])) ==>
            line[k] == 0)
  {
    GroupByGoalMonths(rows, labels);
    GroupByGoalValues(rows, labels);
  }

  // ---------------------------------------------------------------------
  // Next-hours hint

  /** The hint line: tenths of an hour left and the achievement's title. */
  datatype HoursHintLine = HoursHintLine(remainingTenths: nat, title: string)

  /** The hint from the first achievement the user has not earned, in the
      given (threshold) order; nothing when that one is already reached or
      when every achievement is earned. */
  function NextHoursHint(ordered: seq<Achievement>, earnedCodes: set<string>, currentTenths: nat)
    : (h: Option<HoursHintLine>)
    ensures h.Some? ==> h.value.remainingTenths > 0
    ensures h.Some? ==> exists i :: (0 <= i < |ordered| && ordered[i].code !in earnedCodes
      && h.value.title == ordered[i].title
      && 10 * Param(Params(ordered[i]), "threshold") == currentTenths + h.value.remainingTenths
      && forall j :: 0 <= j < i ==> ordered[j].code in earnedCodes)
    ensures (forall a :: a in ordered ==> a.code in earnedCodes) ==> h.None?
  {
    if ordered == [] then None
    else if ordered[0].code !in earnedCodes then
      var remaining := Remaining(10 * Param(Params(ordered[0]), "threshold"), currentTenths);
      if remaining > 0 then Some(HoursHintLine(remaining, ordered[0].title)) else None
    else
      var rest := NextHoursHint(ordered[1..], earnedCodes, currentTenths);
      if rest.Some? then
        var i :| 0 <= i < |ordered[1..]| && ordered[1..][i].code !in earnedCodes
          && rest.value.title == ordered[1..][i].title
          && 10 * Param(Params(ordered[1..][i]), "threshold") == currentTenths + rest.value.remainingTenths
          && forall j :: 0 <= j < i ==> ordered[1..][j].code in earnedCodes;
        assert ordered[i + 1] == ordered[1..][i];
        rest
      else rest
  }
  /** The hint is decided by the first unearned achievement in the list: it
      is shown, with the tenths still missing and that achievement's title,
      exactly when its threshold is above the current hours. */
  lemma {:induction false} NextHoursHintShown(ordered: seq<Achievement>, earnedCodes: set<string>,
                                              currentTenths: nat, i: nat)
    requires i < |ordered| && ordered[i].code !in earnedCodes
    requires forall j :: 0 <= j < i ==> ordered[j].code in earnedCodes
    ensures NextHoursHint(ordered, earnedCodes, currentTenths)
            == (if 10 * Param(Params(ordered[i]), "threshold") > currentTenths
                then Some(HoursHintLine(10 * Param(Params(ordered[i]), "threshold") - currentTenths,
                                        ordered[i].title))
                else None)
  {
    if i > 0 {
      assert ordered[0].code in earnedCodes;
      assert ordered[1..][i - 1] == ordered[i];
      NextHoursHintShown(ordered[1..], earnedCodes, currentTenths, i - 1);
    }
  }


  /** The dashboard's loop over the `total_hours` achievements in threshold
      order: it stops at the first one not earned. */
  method NextHoursHintLoop(ordered: seq<Achievement>, earnedCodes: set<string>, currentTenths: nat)
    returns (hint: Option<HoursHintLine>)
    ensures hint == NextHoursHint(ordered, earnedCodes, currentTenths)
  {
    hint := None;
    var i := 0;
    while i < |ordered|
      invariant 0 <= i <= |ordered|
      invariant NextHoursHint(ordered, earnedCodes, currentTenths) == NextHoursHint(ordered[i..], earnedCodes, currentTenths)
    {
      var a := ordered[i];
      if a.code !in earnedCodes {
        var remaining := Remaining(10 * Param(Params(a), "threshold"), currentTenths);
        if remaining > 0 {
          hint := Some(HoursHintLine(remaining, a.title));
        }
        return;
      }
      assert ordered[i..][1..] == ordered[i + 1..];
      i := i + 1;
    }
  }

  /** The `total_hours` achievements (`filter(rule_type="total_hours")`). */
  function HoursAchievements(catalog: seq<Achievement>): (r: seq<Achievement>)
    ensures forall a :: a in r <==> a in catalog && a.ruleType == "total_hours"
  {
    if catalog == [] then []
    else
      var prev := HoursAchievements(catalog[..|catalog| - 1]);
      var a := catalog[|catalog| - 1];
      assert catalog == catalog[..|catalog| - 1] + [a];
      if a.ruleType == "total_hours" then prev + [a] else prev
  }

  /** With the achievements sorted by threshold, a hint names the unearned
      hours achievement with the lowest threshold, and none is shown once the
      user has reached it. */
  lemma HintNamesLowestUnearned(ordered: seq<Achievement>, earnedCodes: set<string>, currentTenths: nat,
                                a: Achievement)
    requires forall i, j :: 0 <= i < j < |ordered| ==>
      Param(Params(ordered[i]), "threshold") <= Param(Params(ordered[j]), "threshold")
    requires a in ordered && a.code !in earnedCodes
    requires NextHoursHint(ordered, earnedCodes, currentTenths).Some?
    ensures var h := NextHoursHint(ordered, earnedCodes, currentTenths).value;
      currentTenths + h.remainingTenths <= 10 * Param(Params(a), "threshold")
  {
    var h := NextHoursHint(ordered, earnedCodes, currentTenths).value;
    var i :| 0 <= i < |ordered| && ordered[i].code !in earnedCodes
      && h.title == ordered[i].title
      && 10 * Param(Params(ordered[i]), "threshold") == currentTenths + h.remainingTenths
      && forall j :: 0 <= j < i ==> ordered[j].code in earnedCodes;
    var k :| 0 <= k < |ordered| && ordered[k] == a;
    assert i <= k;
  }

  // ---------------------------------------------------------------------
  // Contact form

  /** A stored contact message. */
  datatype ContactMessage = ContactMessage(user: Option<UserId>, name: string, email: string, message: string)

  /** The contact-message table. */
  class Inbox {
    var messages: seq<ContactMessage>

    /** Every stored message has a name, an email and a text, none blank. */
    predicate Valid()
      reads this
    {
      forall m :: m in messages ==> m.name != [] && m.email != [] && m.message != []
    }

    constructor()
      ensures messages == [] && Valid()
    {
      messages := [];
    }

    /** `contact` on POST: the three fields are stripped, and a message is
        stored only when none of them is left empty. */
    method Submit(user: Option<UserId>, name: string, email: string, message: string) returns (stored: bool)
      requires Valid()
      modifies this
      ensures Valid()
      ensures stored <==> Strip(name) != [] && Strip(email) != [] && Strip(message) != []
      ensures stored ==> messages == old(messages) + [ContactMessage(user, Strip(name), Strip(email), Strip(message))]
      ensures !stored ==> messages == old(messages)
    {
      var n, e, m := Strip(name), Strip(email), Strip(message);
      stored := n != [] && e != [] && m != [];
      if stored {
        messages := messages + [ContactMessage(user, n, e, m)];
      }
    }
  }

  /** A submission is refused exactly when one of its fields is blank, that
      is empty or made only of whitespace. */
  lemma ContactRefusedIffBlank(name: string, email: string, message: string)
    ensures !(Strip(name) != [] && Strip(email) != [] && Strip(message) != []) <==>
      (forall j :: 0 <= j < |name| ==> IsSpace(name[j]))
      || (forall j :: 0 <= j < |email| ==> IsSpace(email[j]))
      || (forall j :: 0 <= j < |message| ==> IsSpace(message[j]))
  {
    StripEmptyIffBlank(name);
    StripEmptyIffBlank(email);
    StripEmptyIffBlank(message);
  }
}
