/** The dashboard's task view (frontend/src/pages/Dashboard.jsx): the tasks
    of the shown week split into one bucket per date (groupTasksByWeek), and
    the rule that disables a task's Send Proof button. */
module WeekTasks {
  import opened Optional
  import opened Calendar
  import opened Store
  import opened Week
  import opened TaskController

  /** The filter's test: the deadline, read as a date, has the same year,
      month and day as date. A missing or unreadable deadline gives an
      invalid date whose fields equal nothing. */
  predicate SameCalendarDay(deadline: Option<Day>, date: Day) {
    && deadline.Some?
    && ToCivil(deadline.value).year == ToCivil(date).year
    && ToCivil(deadline.value).month == ToCivil(date).month
    && ToCivil(deadline.value).day == ToCivil(date).day
  }

  /** Comparing the three fields is comparing the dates. */
  lemma SameCalendarDayIff(deadline: Option<Day>, date: Day)
    ensures SameCalendarDay(deadline, date) <==> deadline == Some(date)
  {
    if deadline.Some? {
      ToCivilInjective(deadline.value, date);
    }
  }

  /** tasks.filter(keep): the tasks that pass keep, in list order. */
  function Filter(tasks: seq<Task>, keep: Task -> bool): (r: seq<Task>)
    ensures |r| <= |tasks|
    decreases |tasks|
  {
    if tasks == [] then []
    else (if keep(tasks[0]) then [tasks[0]] else []) + Filter(tasks[1..], keep)
  }

  /** A task passes the filter exactly when it is one of the tasks and keep accepts it. */
  lemma {:induction false} FilterMembership(tasks: seq<Task>, keep: Task -> bool, t: Task)
    ensures t in Filter(tasks, keep) <==> t in tasks && keep(t)
    decreases |tasks|
  {
    if tasks != [] {
      FilterMembership(tasks[1..], keep, t);
      assert tasks == [tasks[0]] + tasks[1..];
    }
  }

  /** Filtering a concatenation filters each part and keeps them in order. */
  lemma {:induction false} FilterAppend(a: seq<Task>, b: seq<Task>, keep: Task -> bool)
    ensures Filter(a + b, keep) == Filter(a, keep) + Filter(b, keep)
    decreases |a|
  {
    if a == [] {
      assert a + b == b;
    } else {
      var head := if keep(a[0]) then [a[0]] else [];
      assert (a + b)[0] == a[0];
      assert (a + b)[1..] == a[1..] + b;
      FilterAppend(a[1..], b, keep);
      calc {
        Filter(a + b, keep);
        head + Filter(a[1..] + b, keep);
        head + (Filter(a[1..], keep) + Filter(b, keep));
        (head + Filter(a[1..], keep)) + Filter(b, keep);
      }
    }
  }

  /** The callback groupTasksByWeek passes to filter for one date. */
  function OnDate(date: Day): Task -> bool {
    (t: Task) => SameCalendarDay(t.deadline, date)
  }

  /** The callback accepts exactly the tasks whose deadline is the date. */
  lemma OnDateIff(date: Day)
    ensures forall t :: OnDate(date)(t) <==> t.deadline == Some(date)
  {
    forall t ensures OnDate(date)(t) <==> t.deadline == Some(date) {
      SameCalendarDayIff(t.deadline, date);
    }
  }

  /** The bucket of one date. */
  function DueOn(tasks: seq<Task>, date: Day): (r: seq<Task>)
    ensures |r| <= |tasks|
  {
    Filter(tasks, OnDate(date))
  }

  /** groupTasksByWeek: one bucket per date, in the order of the dates. */
  function GroupTasksByWeek(tasks: seq<Task>, dates: seq<Day>): (r: seq<seq<Task>>)
    ensures |r| == |dates|
    ensures forall i :: 0 <= i < |dates| ==> r[i] == DueOn(tasks, dates[i])
  {
    seq(|dates|, i requires 0 <= i < |dates| => DueOn(tasks, dates[i]))
  }

  /** A task is in a date's bucket exactly when it is one of the tasks and its deadline is that date. */
  lemma DueOnMembership(tasks: seq<Task>, date: Day, t: Task)
    ensures t in DueOn(tasks, date) <==> t in tasks && t.deadline == Some(date)
  {
    FilterMembership(tasks, OnDate(date), t);
    OnDateIff(date);
  }

  /** The bucket of a concatenation is the concatenation of the buckets: a
      bucket is the order-preserving subsequence of the matching tasks. */
  lemma DueOnAppend(a: seq<Task>, b: seq<Task>, date: Day)
    ensures DueOn(a + b, date) == DueOn(a, date) + DueOn(b, date)
  {
    FilterAppend(a, b, OnDate(date));
  }

  /** A single task lands in a bucket exactly when its deadline is that date. */
  lemma DueOnSingle(t: Task, date: Day)
    ensures DueOn([t], date) == if t.deadline == Some(date) then [t] else []
  {
    OnDateIff(date);
    assert [t][1..] == [];
  }

  /** Bucket i holds exactly the tasks whose deadline is the i-th date; a
      task without a readable deadline is in no bucket. */
  lemma BucketMembership(tasks: seq<Task>, dates: seq<Day>, i: int, t: Task)
    requires 0 <= i < |dates|
    ensures t in GroupTasksByWeek(tasks, dates)[i] <==> t in tasks && t.deadline == Some(dates[i])
    ensures t.deadline == None ==> t !in GroupTasksByWeek(tasks, dates)[i]
  {
    DueOnMembership(tasks, dates[i], t);
  }

  predicate Distinct(dates: seq<Day>) {
    forall i, j :: 0 <= i < j < |dates| ==> dates[i] != dates[j]
  }

  /** For pairwise distinct dates, a task is in at most one bucket. */
  lemma AtMostOneBucket(tasks: seq<Task>, dates: seq<Day>, t: Task, i: int, j: int)
    requires Distinct(dates)
    requires 0 <= i < |dates| && 0 <= j < |dates|
    requires t in GroupTasksByWeek(tasks, dates)[i] && t in GroupTasksByWeek(tasks, dates)[j]
    ensures i == j
  {
    BucketMembership(tasks, dates, i, t);
    BucketMembership(tasks, dates, j, t);
  }

  /** Total number of entries over all buckets. */
  function TotalSize(buckets: seq<seq<Task>>): nat
    decreases |buckets|
  {
    if buckets == [] then 0 else TotalSize(buckets[..|buckets| - 1]) + |buckets[|buckets| - 1]|
  }

  /** The number of tasks whose deadline is one of the days in D. */
  function CountDueIn(tasks: seq<Task>, D: set<Day>): (c: nat)
    ensures c <= |tasks|
    decreases |tasks|
  {
    if tasks == [] then 0
    else (if tasks[0].deadline.Some? && tasks[0].deadline.value in D then 1 else 0) + CountDueIn(tasks[1..], D)
  }

  /** Adding a new day d to D adds the number of tasks a filter for d keeps. */
  lemma {:induction false} CountDueInAdd(tasks: seq<Task>, D: set<Day>, d: Day, keep: Task -> bool)
    requires d !in D
    requires forall t :: keep(t) <==> t.deadline == Some(d)
    ensures CountDueIn(tasks, D + {d}) == CountDueIn(tasks, D) + |Filter(tasks, keep)|
    decreases |tasks|
  {
    if tasks != [] {
      CountDueInAdd(tasks[1..], D, d, keep);
    }
  }

  /** The days among the dates. */
  function DateSet(dates: seq<Day>): set<Day> {
    set i | 0 <= i < |dates| :: dates[i]
  }

  /** Appending a date adds it to the set, and for distinct dates it was not there before. */
  lemma DateSetSnoc(dates: seq<Day>)
    requires dates != [] && Distinct(dates)
    ensures var init, d := dates[..|dates| - 1], dates[|dates| - 1];
      DateSet(dates) == DateSet(init) + {d} && d !in DateSet(init) && Distinct(init)
  {
    var init, d := dates[..|dates| - 1], dates[|dates| - 1];
    forall x | x in DateSet(init) + {d} ensures x in DateSet(dates) {
      if x != d {
        var i :| 0 <= i < |init| && init[i] == x;
        assert dates[i] == x;
      }
    }
  }

  /** Dropping the last date drops the last bucket. */
  lemma GroupSnoc(tasks: seq<Task>, dates: seq<Day>)
    requires dates != []
    ensures var g := GroupTasksByWeek(tasks, dates);
      && g[..|g| - 1] == GroupTasksByWeek(tasks, dates[..|dates| - 1])
      && TotalSize(g) == TotalSize(GroupTasksByWeek(tasks, dates[..|dates| - 1])) + |DueOn(tasks, dates[|dates| - 1])|
  {
    var g := GroupTasksByWeek(tasks, dates);
    assert g[..|g| - 1] == GroupTasksByWeek(tasks, dates[..|dates| - 1]);
  }

  /** For pairwise distinct dates, the bucket sizes add up to the number of
      tasks due on one of the dates. */
  lemma {:induction false} TotalIsCount(tasks: seq<Task>, dates: seq<Day>)
    requires Distinct(dates)
    ensures TotalSize(GroupTasksByWeek(tasks, dates)) == CountDueIn(tasks, DateSet(dates))
    decreases |dates|
  {
    if dates == [] {
      assert DateSet(dates) == {};
      CountDueInEmpty(tasks);
    } else {
      var init, d := dates[..|dates| - 1], dates[|dates| - 1];
      DateSetSnoc(dates);
      TotalIsCount(tasks, init);
      GroupSnoc(tasks, dates);
      OnDateIff(d);
      CountDueInAdd(tasks, DateSet(init), d, OnDate(d));
    }
  }

  /** No task is due on a day of the empty set. */
  lemma {:induction false} CountDueInEmpty(tasks: seq<Task>)
    ensures CountDueIn(tasks, {}) == 0
    decreases |tasks|
  {
    if tasks != [] {
      CountDueInEmpty(tasks[1..]);
    }
  }

  /** For pairwise distinct dates the buckets together hold at most as many entries as there are tasks. */
  lemma BucketsTotalBound(tasks: seq<Task>, dates: seq<Day>)
    requires Distinct(dates)
    ensures TotalSize(GroupTasksByWeek(tasks, dates)) <= |tasks|
  {
    TotalIsCount(tasks, dates);
  }

  /** The seven dates of a week are pairwise distinct, so on the dashboard no
      task is counted on two days and the day counts add up to at most the
      number of tasks. */
  lemma WeekBucketsTotal(tasks: seq<Task>, base: Day)
    ensures TotalSize(GroupTasksByWeek(tasks, WeekDates(base))) <= |tasks|
  {
    var w := WeekDates(base);
    assert Distinct(w);
    BucketsTotalBound(tasks, w);
  }

  /** The Send Proof button is disabled for a completed task and for a task that already has a proof. */
  predicate SendProofDisabled(t: Task) {
    t.status == "completed" || Truthy(t.proofUrl)
  }

  /** Once a proof is uploaded, the button is disabled. */
  lemma UploadDisablesSendProof(t: Task, file: Upload)
    ensures SendProofDisabled(WithProof(t, file))
  {
  }

  /** After the proof is removed, the button is disabled only for a task
      that had no proof and is completed. */
  lemma RemoveProofEnablesSendProof(t: Task)
    ensures SendProofDisabled(WithoutProof(t)) <==> !Truthy(t.proofUrl) && t.status == "completed"
  {
  }
}
