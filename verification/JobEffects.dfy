/** What each job statement does to its row, and a flush from its request to its end. */
module JobEffects {
  import opened Bytes
  import opened Jobs
  import opened JobSafety

  // ---- Single statements ----

  /** The table has no pending or running job. */
  ghost predicate Idle(s: State, table: nat) {
    forall id | id in s.jobs && s.jobs[id].table == table ::
      s.jobs[id].status.Completed? || s.jobs[id].status.Cancelled? || s.jobs[id].status.Error?
  }

  ghost predicate IsNew(j: Job, table: nat, scope: string, watermark: Option<int>, force: bool) {
    && j.table == table && j.scope == scope && j.watermark == watermark && j.force == force
    && j.status.Pending? && j.phase == "pending" && j.token.None? && j.error.None?
    && !j.reclaimed && !j.cancelRequested
    && j.attempts == 0 && j.rowsFlushed == j.batches == j.checkpoint == j.progressCurrent == j.progressTotal == 0
  }

  /** A request on an idle table adds a pending job; a bare insert on a busy one does nothing. */
  lemma {:induction false} RequestAdds(s: State, id: JobId, table: nat, scope: string, watermark: Option<int>,
                                       force: bool)
    requires id !in s.jobs
    ensures var s' := Do(s, Insert(id, table, force));
            if Idle(s, table) then id in s'.jobs && IsNew(s'.jobs[id], table, "", None, force)
                                   && s'.jobs - {id} == s.jobs
            else s' == s
    ensures var s' := Do(s, Enqueue(id, table, scope, watermark, force));
            Idle(s, table) ==> id in s'.jobs && IsNew(s'.jobs[id], table, scope, watermark, force)
                               && s'.jobs - {id} == s.jobs
  {
    var a, b := Do(s, Insert(id, table, force)), Do(s, Enqueue(id, table, scope, watermark, force));
    assert Idle(s, table) <==> !SomeActive(s.jobs, table) by {
      if id :| id in s.jobs && s.jobs[id].table == table && Active(s.jobs[id]) {
        assert SomeActive(s.jobs, table);
      }
    }
    if Idle(s, table) {
      assert a.jobs - {id} == s.jobs && b.jobs - {id} == s.jobs;
    }
  }

  /** A request on a table that has an active job of the scope attaches to it: only `force` can change. */
  lemma {:induction false} RequestAttaches(s: State, id: JobId, table: nat, scope: string, watermark: Option<int>,
                                           force: bool, a: JobId)
    requires OneActivePerTable(s.jobs) && a in s.jobs && s.jobs[a].table == table && s.jobs[a].scope == scope
    requires s.jobs[a].status.Pending? || s.jobs[a].status.Running?
    ensures var s' := Do(s, Enqueue(id, table, scope, watermark, force));
            && s'.jobs == s.jobs[a := s.jobs[a].(force := force || s.jobs[a].force)]
            && s'.cancels == s.cancels && s'.claims == s.claims
  {
    assert ActiveFor(s.jobs, table, scope, a);
  }

  /** A request for another scope of a busy table is refused. */
  lemma {:induction false} OtherScopeRefused(s: State, id: JobId, table: nat, scope: string, watermark: Option<int>,
                                             force: bool, a: JobId)
    requires OneActivePerTable(s.jobs) && a in s.jobs && s.jobs[a].table == table && s.jobs[a].scope != scope
    requires s.jobs[a].status.Pending? || s.jobs[a].status.Running?
    ensures Do(s, Enqueue(id, table, scope, watermark, force)) == s
  {
    assert SomeActive(s.jobs, table);
  }

  /** A claim takes a pending or running job of the table, and nothing else. A watermark already recorded stays. */
  lemma {:induction false} ClaimTakes(s: State, id: JobId, table: nat, token: Token, total: nat, watermark: Option<int>)
    ensures var s' := Do(s, Claim(id, table, token, total, watermark));
            if id in s.jobs && s.jobs[id].table == table && s.jobs[id].status in {Pending, Running} then
              var j := s.jobs[id];
              && s'.claims == s.claims + [(id, token)] && s'.cancels == s.cancels
              && s'.jobs == s.jobs[id := j.(status := Running, phase := "claimed", token := Some(token),
                                            attempts := j.attempts + 1, progressCurrent := 0, progressTotal := total,
                                            watermark := if j.watermark == None then watermark else j.watermark)]
            else s' == s
  {
  }

  /** What the executor of a running job reports is what the row shows; nobody else's report changes anything. */
  lemma {:induction false} OwnerReports(s: State, step: Step)
    requires Fenced(step)
    ensures if step.id in s.jobs && s.jobs[step.id].table == step.table && s.jobs[step.id].status == Running
               && s.jobs[step.id].token == Some(step.token)
            then step.id in Do(s, step).jobs && Reported(s.jobs[step.id], Do(s, step).jobs[step.id], step)
                 && Do(s, step) == s.(jobs := s.jobs[step.id := Do(s, step).jobs[step.id]])
            else Do(s, step) == s
  {
  }

  ghost predicate Reported(j: Job, j': Job, step: Step)
    requires Fenced(step)
  {
    match step
    case Progress(_, _, _, rows, batches, checkpoint, phase, total) =>
      && j'.progressTotal >= total && j'.progressTotal >= rows && j'.progressTotal in {total, rows}
      && j' == j.(phase := phase, rowsFlushed := rows, batches := batches, checkpoint := checkpoint,
                  progressCurrent := rows, progressTotal := j'.progressTotal)
    case Complete(_, _, _, rows, checkpoint, batches) =>
      && j'.progressTotal >= j.progressTotal && j'.progressTotal >= rows && j'.progressTotal in {j.progressTotal, rows}
      && j' == j.(status := Completed, phase := "finished", rowsFlushed := rows, batches := batches,
                  checkpoint := checkpoint, progressCurrent := rows, progressTotal := j'.progressTotal)
    case Fail(_, _, _, message) => j' == j.(status := Error, phase := "failed", error := Some(message))
    case MarkCancelled(_, _, _) => j' == j.(status := Cancelled, phase := "cancelled")
  }

  /** A reclaim makes every running, unscoped job of the table pending again, keeping its watermark and counts, and
      touches no other row. */
  lemma {:induction false} ReclaimEffect(s: State, table: nat, id: JobId)
    requires id in s.jobs
    ensures var s', j := Do(s, Reclaim(table)), s.jobs[id];
            && s'.jobs.Keys == s.jobs.Keys && s'.cancels == s.cancels && s'.claims == s.claims
            && if j.table == table && j.scope == "" && j.status == Running
               then s'.jobs[id].error.Some? && (j.error.Some? ==> s'.jobs[id].error == j.error)
                    && s'.jobs[id] == j.(status := Pending, phase := "pending", token := None, reclaimed := true,
                                         error := s'.jobs[id].error)
               else s'.jobs[id] == j
  {
  }

  /** A cancel request is recorded for the table; of its target jobs, the unlocked ones are flagged, and ended at once
      if they were pending. */
  lemma {:induction false} CancelRequestEffect(s: State, targets: set<JobId>, locked: set<JobId>, table: nat, id: JobId)
    requires id in s.jobs
    ensures var s', j := Do(s, RequestCancel(targets, locked, table)), s.jobs[id];
            && s'.jobs.Keys == s.jobs.Keys && s'.claims == s.claims && s'.cancels == s.cancels + {table}
            && if id in targets && id !in locked && j.table == table && j.status == Pending
               then s'.jobs[id] == j.(status := Cancelled, phase := "cancelled", cancelRequested := true)
               else if id in targets && id !in locked && j.table == table && j.status == Running
               then s'.jobs[id] == j.(cancelRequested := true)
               else s'.jobs[id] == j
    ensures Do(s, ClearCancel(table)) == s.(cancels := s.cancels - {table})
  {
  }

  /** Any statement may be issued at any time, but a claim only under a token that was never used. */
  lemma {:induction false} AlwaysPossible(s: State, step: Step)
    ensures Enabled(s, step) <==> !step.Claim? || forall c | c in s.claims :: c.1 != step.token
  {
    if step.Claim? && Enabled(s, step) {
      forall c | c in s.claims ensures c.1 != step.token {
        var i :| 0 <= i < |s.claims| && s.claims[i] == c;
      }
    }
  }

  // ---- A flush from its claim to its end ----

  /** The steps that can take a running job from its executor, or report on it. */
  ghost predicate Interferes(step: Step, id: JobId, table: nat) {
    || (step.Claim? && step.id == id)
    || (step.Reclaim? && step.table == table)
    || (Fenced(step) && step.id == id)
  }

  /** The row runs under the token, as the claim left it but for the flags other sessions may set. */
  ghost predicate HeldAs(s: State, id: JobId, token: Token, j: Job) {
    && id in s.jobs && s.jobs[id].status == Running && s.jobs[id].token == Some(token)
    && s.jobs[id] == j.(force := s.jobs[id].force, cancelRequested := s.jobs[id].cancelRequested)
  }

  lemma {:induction false} HeldThroughStep(s: State, step: Step, id: JobId, table: nat, token: Token, j: Job)
    requires HeldAs(s, id, token, j) && j.table == table && !Interferes(step, id, table)
    ensures HeldAs(Do(s, step), id, token, j)
  {
    match step
    case Enqueue(x, t, scope, watermark, force) =>
    case RequestCancel(targets, locked, t) => CancelRequestEffect(s, targets, locked, t, id);
    case Reclaim(t) => ReclaimEffect(s, t, id);
    case _ =>
  }

  lemma {:induction false} HeldThrough(states: seq<State>, steps: seq<Step>, i: nat, k: nat, id: JobId, token: Token,
                                       j: Job)
    requires Run(states, steps) && i <= k < |states| && HeldAs(states[i], id, token, j)
    requires forall m | i <= m < k :: !Interferes(steps[m], id, j.table)
    ensures HeldAs(states[k], id, token, j)
  {
    hide Do, HeldAs, Interferes, Enabled;
    if i < k {
      HeldThrough(states, steps, i, k - 1, id, token, j);
      HeldThroughStep(states[k - 1], steps[k - 1], id, j.table, token, j);
    }
  }

  /** A claim that nobody takes over is still held when its executor ends the job, whatever else happens meanwhile: the
      end takes effect, under the watermark the job had, or got from the claim. */
  lemma {:induction false} ExecutorEndsJob(states: seq<State>, steps: seq<Step>, i: nat, k: nat)
    requires Run(states, steps) && i < k < |steps| && steps[i].Claim? && Fenced(steps[k])
    requires steps[i].id in states[i].jobs && states[i].jobs[steps[i].id].table == steps[i].table
    requires states[i].jobs[steps[i].id].status in {Pending, Running}
    requires steps[k].id == steps[i].id && steps[k].table == steps[i].table && steps[k].token == steps[i].token
    requires forall m | i < m < k :: !Interferes(steps[m], steps[i].id, steps[i].table)
    ensures var id, before := steps[i].id, states[i].jobs[steps[i].id];
            && id in states[k].jobs && id in states[k + 1].jobs
            && Reported(states[k].jobs[id], states[k + 1].jobs[id], steps[k])
            && states[k + 1].jobs[id].attempts == before.attempts + 1
            && states[k + 1].jobs[id].watermark ==
                 (if before.watermark.Some? then before.watermark else steps[i].watermark)
  {
    hide Reported;
    var id, token := steps[i].id, steps[i].token;
    assert states[i + 1] == Do(states[i], steps[i]) && states[k + 1] == Do(states[k], steps[k]);
    ClaimTakes(states[i], id, steps[i].table, token, steps[i].estimate, steps[i].watermark);
    var j := states[i + 1].jobs[id];
    HeldThrough(states, steps, i + 1, k, id, token, j);
    OwnerReports(states[k], steps[k]);
    ReportedKeeps(states[k].jobs[id], states[k + 1].jobs[id], steps[k]);
  }

  lemma {:induction false} ReportedKeeps(j: Job, j': Job, step: Step)
    requires Fenced(step) && Reported(j, j', step)
    ensures j'.attempts == j.attempts && j'.watermark == j.watermark
  {
  }

  /** A job left running by a crash is pending again after a reclaim of its table, and the next claim takes it up under
      the watermark it was given first. */
  lemma {:induction false} ResumedUnderSameWatermark(states: seq<State>, steps: seq<Step>, i: nat, k: nat, id: JobId)
    requires Run(states, steps) && i < k < |steps| && id in states[i].jobs
    requires steps[i].Reclaim? && states[i].jobs[id].table == steps[i].table && states[i].jobs[id].scope == ""
    requires states[i].jobs[id].status == Running && states[i].jobs[id].watermark.Some?
    requires forall m | i < m < k :: !TouchesPending(steps[m], id, steps[i].table)
    requires steps[k].Claim? && steps[k].id == id && steps[k].table == steps[i].table
    ensures id in states[k + 1].jobs && states[k + 1].jobs[id].status == Running
    ensures states[k + 1].jobs[id].token == Some(steps[k].token)
    ensures states[k + 1].jobs[id].watermark == states[i].jobs[id].watermark
  {
    assert states[i + 1] == Do(states[i], steps[i]) && states[k + 1] == Do(states[k], steps[k]);
    ReclaimEffect(states[i], steps[i].table, id);
    WaitsThrough(states, steps, i + 1, k, id, states[i + 1].jobs[id]);
    ClaimTakes(states[k], id, steps[k].table, steps[k].token, steps[k].estimate, steps[k].watermark);
  }

  ghost predicate TouchesPending(step: Step, id: JobId, table: nat) {
    || (step.Claim? && step.id == id)
    || (step.RequestCancel? && id in step.targets - step.locked && step.table == table)
  }

  ghost predicate WaitsAs(s: State, id: JobId, j: Job) {
    && id in s.jobs && s.jobs[id].status == Pending
    && s.jobs[id] == j.(force := s.jobs[id].force)
  }

  lemma {:induction false} WaitsThrough(states: seq<State>, steps: seq<Step>, i: nat, k: nat, id: JobId, j: Job)
    requires Run(states, steps) && i <= k < |states| && WaitsAs(states[i], id, j)
    requires forall m | i <= m < k :: !TouchesPending(steps[m], id, j.table)
    ensures WaitsAs(states[k], id, j)
  {
    hide Do, WaitsAs, TouchesPending, Enabled;
    if i < k {
      WaitsThrough(states, steps, i, k - 1, id, j);
      WaitsThroughStep(states[k - 1], steps[k - 1], id, j);
    }
  }

  lemma {:induction false} WaitsThroughStep(s: State, step: Step, id: JobId, j: Job)
    requires WaitsAs(s, id, j) && !TouchesPending(step, id, j.table)
    ensures WaitsAs(Do(s, step), id, j)
  {
    match step
    case Enqueue(x, t, scope, watermark, force) =>
    case RequestCancel(targets, locked, t) => CancelRequestEffect(s, targets, locked, t, id);
    case Reclaim(t) => ReclaimEffect(s, t, id);
    case _ =>
  }
}
