/** The background runners: the one-off 90-day backfill, the per-day
    14-day sync and the periodic check that gates both on a stored email
    address. The extension's persistent store is a `class` whose methods
    update it in place; each method is proved against a function on a
    snapshot (`World`) of that store, and the lemmas are about those
    functions. */
module Scheduler {
  import opened Text
  import opened Records
  import opened Pipeline
  import Calendar

  /** A snapshot of the store and of what left the extension: the email
      address ("" when none is stored), the two status blobs, every request
      sent, and the number of "refresh report" notices sent to the popup. */
  datatype World = World(
    email: string,
    initial: Stored<StatusRecord>,
    daily: Stored<map<string, StatusRecord>>,
    network: seq<Call>,
    notices: nat)

  /** The record a runner writes after one pipeline run. */
  function NextRecord(outcome: SyncOutcome, prior: StatusRecord, range: nat, at: int): (r: StatusRecord)
    ensures IsCompleted(r) <==> outcome == Completed
    ensures r.retryCount == prior.retryCount + 1 && r.range == range && r.updatedAt == Some(at)
  {
    StatusRecord(outcome.Tag(), prior.retryCount + 1, range, Some(at))
  }

  /** `check90daysReport`: nothing once the backfill has completed; otherwise
      run the 90-day pipeline and overwrite the record, counting one more
      try and sending one notice. */
  function RunInitial(w: World, env: Environment): World
    requires WellFormed(env)
  {
    var prior := InitialRecord(w.initial);
    if IsCompleted(prior) then w
    else
      var run := RunPipeline(InitialReportRange, env, w.email);
      w.(initial := Parsed(NextRecord(run.outcome, prior, InitialReportRange, env.finishedAt)),
         network := w.network + run.calls,
         notices := w.notices + 1)
  }

  /** Today's record in a daily map, or the empty record. */
  function TodayRecord(m: map<string, StatusRecord>, today: string): StatusRecord
  {
    if today in m then m[today] else EmptyRecord
  }

  /** `checkDailyReport`: nothing when today's record has completed (or the
      clock cannot be rendered, which throws); otherwise run the 14-day
      pipeline and write back the map read at the start, with only today's
      entry replaced. */
  function RunDaily(w: World, env: Environment): World
    requires WellFormed(env)
  {
    if !Calendar.ValidTime(env.now) then w
    else
      var m := DailyRecords(w.daily);
      var today := Calendar.DateKey(env.now);
      var prior := TodayRecord(m, today);
      if IsCompleted(prior) then w
      else
        var run := RunPipeline(DailyReportRange, env, w.email);
        w.(daily := Parsed(m[today := NextRecord(run.outcome, prior, DailyReportRange, env.finishedAt)]),
           network := w.network + run.calls,
           notices := w.notices + 1)
  }

  /** `regularCheck`: without a stored address nothing happens; otherwise
      both runners run (their effects are independent, see `RunnersCommute`). */
  function RegularCheckSpec(w: World, initialEnv: Environment, dailyEnv: Environment): World
    requires WellFormed(initialEnv) && WellFormed(dailyEnv)
  {
    if w.email == "" then w
    else RunDaily(RunInitial(w, initialEnv), dailyEnv)
  }

  /** The extension's persistent store and its outgoing channels. */
  class Extension {
    var email: string
    var initialStatus: Stored<StatusRecord>
    var dailyStatus: Stored<map<string, StatusRecord>>
    var network: seq<Call>
    var notices: nat

    function State(): World
      reads this
    {
      World(email, initialStatus, dailyStatus, network, notices)
    }

    /** A freshly installed extension with an address already stored. */
    constructor (address: string)
      ensures State() == World(address, Absent, Absent, [], 0)
    {
      email := address;
      initialStatus := Absent;
      dailyStatus := Absent;
      network := [];
      notices := 0;
    }

    /** `updateReportStatus` for the initial record: store it and notify. */
    method UpdateInitialStatus(r: StatusRecord)
      modifies this
      ensures State() == old(State()).(initial := Parsed(r), notices := old(notices) + 1)
    {
      initialStatus := Parsed(r);
      notices := notices + 1;
    }

    /** `updateReportStatus` for the daily map: store it and notify. */
    method UpdateDailyStatus(m: map<string, StatusRecord>)
      modifies this
      ensures State() == old(State()).(daily := Parsed(m), notices := old(notices) + 1)
    {
      dailyStatus := Parsed(m);
      notices := notices + 1;
    }

    method Check90DaysReport(env: Environment)
      requires WellFormed(env)
      modifies this
      ensures State() == RunInitial(old(State()), env)
    {
      ghost var w := State();
      var reportStatus := InitialRecord(initialStatus);
      if reportStatus.status == CompletedTag {
        return;
      }
      var run := FetchAndUploadReport(InitialReportRange, env, email);
      var record := NextRecord(run.outcome, reportStatus, InitialReportRange, env.finishedAt);
      assert RunInitial(w, env) == w.(initial := Parsed(record), network := w.network + run.calls, notices := w.notices + 1);
      network := network + run.calls;
      UpdateInitialStatus(record);
    }

    method CheckDailyReport(env: Environment)
      requires WellFormed(env)
      modifies this
      ensures State() == RunDaily(old(State()), env)
    {
      ghost var w := State();
      var reportStatus := DailyRecords(dailyStatus);
      if !Calendar.ValidTime(env.now) {
        return;
      }
      var today := Calendar.DateKey(env.now);
      var todayReportStatus := TodayRecord(reportStatus, today);
      if todayReportStatus.status == CompletedTag {
        assert RunDaily(w, env) == w;
        return;
      }
      var run := FetchAndUploadReport(DailyReportRange, env, email);
      var record := NextRecord(run.outcome, todayReportStatus, DailyReportRange, env.finishedAt);
      reportStatus := reportStatus[today := record];
      ghost var after := w.(daily := Parsed(reportStatus), network := w.network + run.calls, notices := w.notices + 1);
      assert RunDaily(w, env) == after;
      network := network + run.calls;
      UpdateDailyStatus(reportStatus);
      assert State() == after;
    }

    method RegularCheck(initialEnv: Environment, dailyEnv: Environment)
      requires WellFormed(initialEnv) && WellFormed(dailyEnv)
      modifies this
      ensures State() == RegularCheckSpec(old(State()), initialEnv, dailyEnv)
    {
      if email == "" {
        return;
      }
      Check90DaysReport(initialEnv);
      CheckDailyReport(dailyEnv);
    }
  }

  // -----------------------------------------------------------------------
  // Properties of the runners
  // -----------------------------------------------------------------------

  /** Successive periodic runs of the initial runner. */
  function RunInitialSeq(w: World, envs: seq<Environment>): World
    requires forall e :: e in envs ==> WellFormed(e)
    decreases |envs|
  {
    if envs == [] then w else RunInitialSeq(RunInitial(w, envs[0]), envs[1..])
  }

  /** Over any number of runs: every run that does anything adds exactly one
      to the retry count and sends exactly one notice; a completed backfill
      is never run again and sends nothing more. */
  lemma {:induction false} InitialRunsCounted(w: World, envs: seq<Environment>)
    requires forall e :: e in envs ==> WellFormed(e)
    ensures var f := RunInitialSeq(w, envs);
      && w.notices <= f.notices <= w.notices + |envs|
      && InitialRecord(f.initial).retryCount == InitialRecord(w.initial).retryCount + (f.notices - w.notices)
      && (IsCompleted(InitialRecord(w.initial)) ==> f == w)
    decreases |envs|
  {
    if envs != [] {
      assert envs[0] in envs;
      var w1 := RunInitial(w, envs[0]);
      forall e | e in envs[1..] ensures WellFormed(e) {
        assert e in envs;
      }
      InitialRunsCounted(w1, envs[1..]);
    }
  }

  /** One run of the initial runner on an unfinished backfill: the record
      becomes completed exactly when the pipeline completed, and the network
      trace grows by exactly the pipeline's requests. */
  lemma InitialRunEffect(w: World, env: Environment)
    requires WellFormed(env) && !IsCompleted(InitialRecord(w.initial))
    ensures var run := RunPipeline(InitialReportRange, env, w.email);
      var w' := RunInitial(w, env);
      && w'.initial.Parsed?
      && (IsCompleted(w'.initial.value) <==> run.outcome == Completed)
      && w'.initial.value.range == 90
      && w'.network == w.network + run.calls
      && w'.daily == w.daily && w'.email == w.email
  {
  }

  /** A stored initial blob that does not parse restarts the count: the next
      record says this is the first try. */
  lemma CorruptInitialRestarts(w: World, env: Environment)
    requires WellFormed(env) && w.initial == Unparseable
    ensures RunInitial(w, env).initial.value.retryCount == 1
  {
  }

  /** The daily runner replaces today's entry and keeps every other day's
      entry it read; when the stored map does not parse, today's entry is
      all that is left. */
  lemma DailyKeepsOtherDays(w: World, env: Environment)
    requires WellFormed(env) && Calendar.ValidTime(env.now)
    requires !IsCompleted(TodayRecord(DailyRecords(w.daily), Calendar.DateKey(env.now)))
    ensures var m := DailyRecords(w.daily);
      var today := Calendar.DateKey(env.now);
      var m' := RunDaily(w, env).daily.value;
      && m'.Keys == m.Keys + {today}
      && (forall k :: k in m && k != today ==> m'[k] == m[k])
      && m'[today].retryCount == TodayRecord(m, today).retryCount + 1
      && m'[today].range == 14
      && (IsCompleted(m'[today]) <==> RunPipeline(DailyReportRange, env, w.email).outcome == Completed)
      && m'[today].updatedAt == Some(env.finishedAt)
      && (w.daily == Unparseable ==> m'.Keys == {today} && m'[today].retryCount == 1)
  {
  }

  /** Once today's run has completed, any later run on the same UTC day does
      nothing at all; a run on another day looks at another entry. */
  lemma DailyCompletedForTheDay(w: World, e1: Environment, e2: Environment)
    requires WellFormed(e1) && WellFormed(e2)
    requires Calendar.ValidTime(e1.now) && Calendar.FourDigitYear(e1.now) && Calendar.FourDigitYear(e2.now)
    requires RunPipeline(DailyReportRange, e1, w.email).outcome == Completed
    ensures var w1 := RunDaily(w, e1);
      && IsCompleted(TodayRecord(DailyRecords(w1.daily), Calendar.DateKey(e1.now)))
      && (Calendar.DayOf(e2.now) == Calendar.DayOf(e1.now) ==> RunDaily(w1, e2) == w1)
      && (Calendar.DayOf(e2.now) != Calendar.DayOf(e1.now) ==> Calendar.DateKey(e2.now) != Calendar.DateKey(e1.now))
  {
    Calendar.DateKeySameDay(e1.now, e2.now);
    var w1 := RunDaily(w, e1);
    var today := Calendar.DateKey(e1.now);
    if !IsCompleted(TodayRecord(DailyRecords(w.daily), today)) {
      assert DailyRecords(w1.daily)[today] == NextRecord(Completed, TodayRecord(DailyRecords(w.daily), today), DailyReportRange, e1.finishedAt);
    }
  }

  /** Without a stored address the periodic check changes nothing and sends
      nothing; with one, an unfinished backfill and an unfinished daily
      report are both tried again. */
  lemma EmailGate(w: World, e1: Environment, e2: Environment)
    requires WellFormed(e1) && WellFormed(e2)
    ensures w.email == "" ==> RegularCheckSpec(w, e1, e2) == w
    ensures w.email != "" && !IsCompleted(InitialRecord(w.initial)) ==>
      && RegularCheckSpec(w, e1, e2).initial.Parsed?
      && InitialRecord(RegularCheckSpec(w, e1, e2).initial).retryCount == InitialRecord(w.initial).retryCount + 1
    ensures
      && w.email != "" && Calendar.ValidTime(e2.now)
      && !IsCompleted(TodayRecord(DailyRecords(w.daily), Calendar.DateKey(e2.now)))
      ==>
      var key := Calendar.DateKey(e2.now);
      var m := DailyRecords(RegularCheckSpec(w, e1, e2).daily);
      && key in m
      && m[key].retryCount == TodayRecord(DailyRecords(w.daily), key).retryCount + 1
  {
  }

  /** The two runners touch disjoint records, so running them in either
      order gives the same store, the same number of notices, and the same
      requests up to their interleaving. */
  lemma RunnersCommute(w: World, e1: Environment, e2: Environment)
    requires WellFormed(e1) && WellFormed(e2)
    ensures var a := RunDaily(RunInitial(w, e1), e2);
      var b := RunInitial(RunDaily(w, e2), e1);
      && a.initial == b.initial && a.daily == b.daily && a.email == b.email
      && a.notices == b.notices
      && multiset(a.network) == multiset(b.network)
  {
    var i := RunInitial(w, e1);
    var d := RunDaily(w, e2);
    var ci := i.network[|w.network|..];
    var cd := d.network[|w.network|..];
    assert i.network == w.network + ci;
    assert d.network == w.network + cd;
    assert RunDaily(i, e2).network == i.network + cd;
    assert RunInitial(d, e1).network == d.network + ci;
  }
}
