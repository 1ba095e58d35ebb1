/** What the popup shows after the background context has run. */
module RunView {
  import opened Text
  import opened Records
  import opened StatusTable
  import Pipeline
  import Scheduler

  /** After a backfill run the popup's first row reports that run: its
      outcome, the 90-day range and the run's time, in a success cell
      exactly when the run completed. */
  lemma BackfillShownAfterRun(w: Scheduler.World, env: Pipeline.Environment)
    requires Pipeline.WellFormed(env) && !IsCompleted(InitialRecord(w.initial))
    requires var w' := Scheduler.RunInitial(w, env); ReportRows(w'.initial, w'.daily).Some?
    ensures var w' := Scheduler.RunInitial(w, env);
      var outcome := Pipeline.RunPipeline(Pipeline.InitialReportRange, env, w.email).outcome;
      var row := ReportRows(w'.initial, w'.daily).value[0];
      && row == Row("Initial", 90, outcome.Tag(), Some(env.finishedAt))
      && (StatusClass(row.status) == "status-success" <==> outcome == Completed)
  {
    var w' := Scheduler.RunInitial(w, env);
    var outcome := Pipeline.RunPipeline(Pipeline.InitialReportRange, env, w.email).outcome;
    assert outcome.Tag() != "";
    assert InitialRecord(w'.initial).status == outcome.Tag();
  }
}
