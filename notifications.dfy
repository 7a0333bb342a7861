/** Grouping the notification list into the "Today", "Yesterday",
    "This Week" and "Earlier" sections (`groupNotificationsByTime`).
    Timestamps are integer milliseconds; the local calendar day that
    `toDateString` names is an arbitrary function `dayOf` of the
    timestamp, and the clock reading `now` is an input. */
module Notifications {
  import opened Wrappers
  import opened Time

  datatype Kind = Like | Comment | Reply | Follow | OtherKind

  /** A notification record. `createdAt` is `None` when `new Date(...)`
      cannot parse the server's value (an Invalid Date). */
  datatype Notification = Notification(id: string, kind: Kind, message: string, read: bool, createdAt: Option<int>)

  /** The moment of the call and the local calendar. */
  datatype Clock = Clock(now: int, dayOf: int -> int)

  datatype Cohort = Today | Yesterday | Week | Earlier

  /** How the cohort is chosen: `ElapsedDays` is what script.js does (whole
      24-hour periods since the notification); `CalendarDays` counts
      calendar days, as the section titles promise. */
  datatype Rule = ElapsedDays | CalendarDays

  /** The cohort script.js gives a notification created at `created`: the
      same calendar date is today; otherwise the floored number of elapsed
      24-hour periods decides. An invalid date matches neither test and
      ends up in "Earlier". */
  function ElapsedCohort(clk: Clock, created: Option<int>): (c: Cohort)
    ensures created.None? ==> c == Earlier
    ensures c == Today <==> created.Some? && clk.dayOf(created.value) == clk.dayOf(clk.now)
  {
    match created
    case None => Earlier
    case Some(t) =>
      if clk.dayOf(t) == clk.dayOf(clk.now) then Today
      else
        var diffDays := FloorDiv(clk.now - t, DayMs);
        if diffDays == 1 then Yesterday
        else if diffDays <= 7 then Week
        else Earlier
  }

  /** Calendar-day cohorts: yesterday is the calendar day before today,
      and "This Week" the six calendar days before that. */
  function CalendarCohort(clk: Clock, created: Option<int>): (c: Cohort)
    ensures created.None? ==> c == Earlier
    ensures c == Today <==> created.Some? && clk.dayOf(created.value) == clk.dayOf(clk.now)
  {
    match created
    case None => Earlier
    case Some(t) =>
      var days := clk.dayOf(clk.now) - clk.dayOf(t);
      if days == 0 then Today
      else if days == 1 then Yesterday
      else if days <= 7 then Week
      else Earlier
  }

  /** The bands of the rule script.js applies, in milliseconds: outside
      today's calendar date, [1, 2) days ago is "Yesterday", anything less
      than 8 days ago otherwise (a few hours ago, or a date in the future)
      is "This Week", and the rest is "Earlier". */
  lemma ElapsedCohortBands(clk: Clock, created: Option<int>)
    ensures created.None? ==> ElapsedCohort(clk, created) == Earlier
    ensures created.Some? ==>
      var c, t := ElapsedCohort(clk, created), created.value;
      var sameDay := clk.dayOf(t) == clk.dayOf(clk.now);
      && (c == Today <==> sameDay)
      && (c == Yesterday <==> !sameDay && DayMs <= clk.now - t < 2 * DayMs)
      && (c == Week <==> !sameDay && clk.now - t < 8 * DayMs && !(DayMs <= clk.now - t < 2 * DayMs))
      && (c == Earlier <==> !sameDay && clk.now - t >= 8 * DayMs)
  {
  }

  /** The corrected rule counts calendar days: 0 is today, 1 yesterday,
      up to 7 this week. */
  lemma CalendarCohortDays(clk: Clock, created: Option<int>)
    ensures created.None? ==> CalendarCohort(clk, created) == Earlier
    ensures created.Some? ==>
      var c := CalendarCohort(clk, created);
      var days := clk.dayOf(clk.now) - clk.dayOf(created.value);
      && (c == Today <==> days == 0)
      && (c == Yesterday <==> days == 1)
      && (c == Week <==> days != 0 && days != 1 && days <= 7)
      && (c == Earlier <==> days > 7)
  {
  }

  /** The two rules agree on what is today. */
  lemma RulesAgreeOnToday(clk: Clock, t: int)
    ensures ElapsedCohort(clk, Some(t)) == Today <==> CalendarCohort(clk, Some(t)) == Today
  {
  }

  /** The cohort under either rule. */
  function CohortOf(rule: Rule, clk: Clock, created: Option<int>): (c: Cohort)
  {
    match rule
    case ElapsedDays => ElapsedCohort(clk, created)
    case CalendarDays => CalendarCohort(clk, created)
  }

  /** UTC calendar days, a concrete `dayOf` for the counterexamples. */
  function UtcDay(t: int): (d: int)
  {
    t / DayMs
  }

  /** A notification from 23:00 yesterday, seen at 00:30 today, is less
      than 24 hours old, so script.js files it under "This Week" although
      its calendar date is yesterday's. */
  lemma ElapsedRuleMisfilesLateYesterday()
    ensures
      var clk := Clock(DayMs + 1800000, UtcDay);
      var created := Some(DayMs - 3600000);
      && ElapsedCohort(clk, created) == Week
      && CalendarCohort(clk, created) == Yesterday
  {
    var clk := Clock(DayMs + 1800000, UtcDay);
    assert clk.dayOf(DayMs - 3600000) == 0;
    assert clk.dayOf(clk.now) == 1;
    assert FloorDiv(clk.now - (DayMs - 3600000), DayMs) == 0;
  }

  /** A notification from 23:00 two days ago, seen at 00:30 today, is 25.5
      hours old, so script.js files it under "Yesterday" although its
      calendar date is the day before yesterday. */
  lemma ElapsedRuleMisfilesTwoDaysAgo()
    ensures
      var clk := Clock(2 * DayMs + 1800000, UtcDay);
      var created := Some(DayMs - 3600000);
      && ElapsedCohort(clk, created) == Yesterday
      && CalendarCohort(clk, created) == Week
  {
    var clk := Clock(2 * DayMs + 1800000, UtcDay);
    assert clk.dayOf(DayMs - 3600000) == 0;
    assert clk.dayOf(clk.now) == 2;
    assert FloorDiv(clk.now - (DayMs - 3600000), DayMs) == 1;
  }

  /** The four groups, each in input order. */
  datatype Groups = Groups(today: seq<Notification>, yesterday: seq<Notification>,
                           week: seq<Notification>, earlier: seq<Notification>)

  function Bucket(g: Groups, c: Cohort): (b: seq<Notification>)
  {
    match c
    case Today => g.today
    case Yesterday => g.yesterday
    case Week => g.week
    case Earlier => g.earlier
  }

  /** The notifications of cohort `c`, in input order. */
  function Select(ns: seq<Notification>, rule: Rule, clk: Clock, c: Cohort): (r: seq<Notification>)
    ensures |r| <= |ns|
    decreases |ns|
  {
    if ns == [] then []
    else
      var last := ns[|ns| - 1];
      Select(ns[..|ns| - 1], rule, clk, c) + (if CohortOf(rule, clk, last.createdAt) == c then [last] else [])
  }

  /** Filtering distributes over concatenation: whatever comes earlier in
      the input comes earlier in its group. */
  lemma {:induction false} SelectKeepsOrder(xs: seq<Notification>, ys: seq<Notification>, rule: Rule, clk: Clock, c: Cohort)
    ensures Select(xs + ys, rule, clk, c) == Select(xs, rule, clk, c) + Select(ys, rule, clk, c)
    decreases |ys|
  {
    if ys != [] {
      var init := ys[..|ys| - 1];
      assert (xs + ys)[..|xs + ys| - 1] == xs + init;
      SelectKeepsOrder(xs, init, rule, clk, c);
    } else {
      assert xs + ys == xs;
    }
  }

  /** The four groups are a partition of the input: together they hold
      every notification exactly as often as the input does. */
  lemma {:induction false} SelectPartitions(ns: seq<Notification>, rule: Rule, clk: Clock)
    ensures multiset(Select(ns, rule, clk, Today)) + multiset(Select(ns, rule, clk, Yesterday))
          + multiset(Select(ns, rule, clk, Week)) + multiset(Select(ns, rule, clk, Earlier))
         == multiset(ns)
    decreases |ns|
  {
    if ns != [] {
      var init, last := ns[..|ns| - 1], ns[|ns| - 1];
      var own := CohortOf(rule, clk, last.createdAt);
      var t0, y0, w0, e0 := multiset(Select(init, rule, clk, Today)), multiset(Select(init, rule, clk, Yesterday)),
                            multiset(Select(init, rule, clk, Week)), multiset(Select(init, rule, clk, Earlier));
      var t1, y1, w1, e1 := multiset(Select(ns, rule, clk, Today)), multiset(Select(ns, rule, clk, Yesterday)),
                            multiset(Select(ns, rule, clk, Week)), multiset(Select(ns, rule, clk, Earlier));
      assert t0 + y0 + w0 + e0 == multiset(init) by {
        SelectPartitions(init, rule, clk);
      }
      assert t1 == t0 + (if own == Today then multiset{last} else multiset{}) by {
        SelectStepMultiset(ns, rule, clk, Today);
      }
      assert y1 == y0 + (if own == Yesterday then multiset{last} else multiset{}) by {
        SelectStepMultiset(ns, rule, clk, Yesterday);
      }
      assert w1 == w0 + (if own == Week then multiset{last} else multiset{}) by {
        SelectStepMultiset(ns, rule, clk, Week);
      }
      assert e1 == e0 + (if own == Earlier then multiset{last} else multiset{}) by {
        SelectStepMultiset(ns, rule, clk, Earlier);
      }
      MultisetSplitLast(ns);
      AddToOneGroup(t0, y0, w0, e0, t1, y1, w1, e1, last, own);
    }
  }

  lemma MultisetSplitLast<T>(s: seq<T>)
    requires s != []
    ensures multiset(s) == multiset(s[..|s| - 1]) + multiset{s[|s| - 1]}
  {
    assert s == s[..|s| - 1] + [s[|s| - 1]];
  }

  /** Multiset bookkeeping for one step of the partition proof. */
  lemma AddToOneGroup<T>(t0: multiset<T>, y0: multiset<T>, w0: multiset<T>, e0: multiset<T>,
                         t1: multiset<T>, y1: multiset<T>, w1: multiset<T>, e1: multiset<T>,
                         x: T, own: Cohort)
    requires t1 == t0 + (if own == Today then multiset{x} else multiset{})
    requires y1 == y0 + (if own == Yesterday then multiset{x} else multiset{})
    requires w1 == w0 + (if own == Week then multiset{x} else multiset{})
    requires e1 == e0 + (if own == Earlier then multiset{x} else multiset{})
    ensures t1 + y1 + w1 + e1 == t0 + y0 + w0 + e0 + multiset{x}
  {
    match own
    case Today => assert y1 == y0 && w1 == w0 && e1 == e0;
    case Yesterday => assert t1 == t0 && w1 == w0 && e1 == e0;
    case Week => assert t1 == t0 && y1 == y0 && e1 == e0;
    case Earlier => assert t1 == t0 && y1 == y0 && w1 == w0;
  }

  /** Hence the group sizes add up to the input's length. */
  lemma SelectSizes(ns: seq<Notification>, rule: Rule, clk: Clock)
    ensures |Select(ns, rule, clk, Today)| + |Select(ns, rule, clk, Yesterday)|
          + |Select(ns, rule, clk, Week)| + |Select(ns, rule, clk, Earlier)| == |ns|
  {
    SelectPartitions(ns, rule, clk);
    assert |multiset(ns)| == |ns|;
  }

  lemma SelectStepMultiset(ns: seq<Notification>, rule: Rule, clk: Clock, c: Cohort)
    requires ns != []
    ensures var last := ns[|ns| - 1];
      multiset(Select(ns, rule, clk, c))
        == multiset(Select(ns[..|ns| - 1], rule, clk, c))
         + (if CohortOf(rule, clk, last.createdAt) == c then multiset{last} else multiset{})
  {
    SelectStep(ns, rule, clk, c);
  }

  /** One step of `Select`: the last notification goes to its own cohort
      and to no other. */
  lemma SelectStep(ns: seq<Notification>, rule: Rule, clk: Clock, c: Cohort)
    requires ns != []
    ensures var last := ns[|ns| - 1];
      Select(ns, rule, clk, c)
        == Select(ns[..|ns| - 1], rule, clk, c) + (if CohortOf(rule, clk, last.createdAt) == c then [last] else [])
  {
  }

  lemma SelectPrefixStep(ns: seq<Notification>, i: nat, rule: Rule, clk: Clock, c: Cohort)
    requires i < |ns|
    ensures Select(ns[..i + 1], rule, clk, c)
         == Select(ns[..i], rule, clk, c) + (if CohortOf(rule, clk, ns[i].createdAt) == c then [ns[i]] else [])
  {
    assert ns[..i + 1][..i] == ns[..i];
    SelectStep(ns[..i + 1], rule, clk, c);
  }

  /** `groupNotificationsByTime`: one pass over the input that pushes each
      notification onto the group of its cohort. */
  method GroupByTime(ns: seq<Notification>, rule: Rule, clk: Clock) returns (g: Groups)
    ensures forall c :: Bucket(g, c) == Select(ns, rule, clk, c)
  {
    g := Groups([], [], [], []);
    for i := 0 to |ns|
      invariant forall c :: Bucket(g, c) == Select(ns[..i], rule, clk, c)
    {
      var n := ns[i];
      forall c | true
        ensures Select(ns[..i + 1], rule, clk, c)
             == Select(ns[..i], rule, clk, c) + (if CohortOf(rule, clk, n.createdAt) == c then [n] else [])
      {
        SelectPrefixStep(ns, i, rule, clk, c);
      }
      ghost var before := g;
      var own := CohortOf(rule, clk, n.createdAt);
      match own {
        case Today => g := g.(today := g.today + [n]);
        case Yesterday => g := g.(yesterday := g.yesterday + [n]);
        case Week => g := g.(week := g.week + [n]);
        case Earlier => g := g.(earlier := g.earlier + [n]);
      }
      assert forall c :: Bucket(g, c) == Bucket(before, c) + (if own == c then [n] else []);
    }
    assert ns[..|ns|] == ns;
  }

  /** Each notification lands in exactly one group, the one its cohort
      names. */
  lemma {:induction false} InExactlyOneGroup(ns: seq<Notification>, rule: Rule, clk: Clock, n: Notification, c: Cohort)
    requires n in ns
    ensures n in Select(ns, rule, clk, c) <==> c == CohortOf(rule, clk, n.createdAt)
    decreases |ns|
  {
    var init, last := ns[..|ns| - 1], ns[|ns| - 1];
    assert ns == init + [last];
    SelectStep(ns, rule, clk, c);
    if n in init {
      InExactlyOneGroup(init, rule, clk, n, c);
    } else {
      assert n == last;
      NotInSelect(init, rule, clk, c, n);
    }
  }

  lemma {:induction false} NotInSelect(ns: seq<Notification>, rule: Rule, clk: Clock, c: Cohort, n: Notification)
    requires n !in ns
    ensures n !in Select(ns, rule, clk, c)
    decreases |ns|
  {
    if ns != [] {
      var init := ns[..|ns| - 1];
      assert ns == init + [ns[|ns| - 1]];
      NotInSelect(init, rule, clk, c, n);
    }
  }
}
