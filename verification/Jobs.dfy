/** Flush jobs: each catalog statement is one atomic step on the job rows, fenced by attempt tokens. */
module Jobs {
  import opened Bytes

  type JobId = nat
  type Token = nat

  datatype Status = Pending | Running | Completed | Cancelled | Error

  /** One row of the jobs table; `cancelRequested` is the row's own flag. */
  datatype Job = Job(table: nat, scope: string, status: Status, phase: string, token: Option<Token>,
                     watermark: Option<int>, attempts: nat, rowsFlushed: int, batches: int, checkpoint: int,
                     progressCurrent: int, progressTotal: int, error: Option<string>, force: bool, reclaimed: bool,
                     cancelRequested: bool)

  /** The job rows, the tables with a cancel request, and the claims made so far, newest last. */
  datatype State = State(jobs: map<JobId, Job>, cancels: set<nat>, claims: seq<(JobId, Token)>)

  predicate Active(j: Job) {
    j.status.Pending? || j.status.Running?
  }

  function NewJob(table: nat, scope: string, watermark: Option<int>, force: bool): Job {
    Job(table, scope, Pending, "pending", None, watermark, 0, 0, 0, 0, 0, 0, None, force, false, false)
  }

  datatype Step =
    | Insert(id: JobId, table: nat, force: bool)
    | Enqueue(id: JobId, table: nat, scope: string, watermark: Option<int>, force: bool)
    | Claim(id: JobId, table: nat, token: Token, estimate: nat, watermark: Option<int>)
    | Progress(id: JobId, table: nat, token: Token, rows: int, batches: int, checkpoint: int, phase: string, total: int)
    | Complete(id: JobId, table: nat, token: Token, rows: int, checkpoint: int, batches: int)
    | Fail(id: JobId, table: nat, token: Token, message: string)
    | MarkCancelled(id: JobId, table: nat, token: Token)
    | Reclaim(table: nat)
    | RequestCancel(targets: set<JobId>, locked: set<JobId>, table: nat)
    | ClearCancel(table: nat)

  // ---- What a statement changes ----

  ghost predicate SomeActive(jobs: map<JobId, Job>, table: nat) {
    exists id | id in jobs :: Active(jobs[id]) && jobs[id].table == table
  }

  ghost predicate ActiveFor(jobs: map<JobId, Job>, table: nat, scope: string, id: JobId) {
    id in jobs && Active(jobs[id]) && jobs[id].table == table && jobs[id].scope == scope
  }

  /** A progress or terminal update finds its row only while the job runs under the executor's token. */
  predicate Owns(jobs: map<JobId, Job>, id: JobId, table: nat, token: Token) {
    id in jobs && jobs[id].table == table && jobs[id].status.Running? && jobs[id].token == Some(token)
  }

  function Claimed(j: Job, token: Token, total: nat, watermark: Option<int>): Job {
    j.(status := Running, phase := "claimed", attempts := j.attempts + 1, token := Some(token), progressCurrent := 0,
       progressTotal := total, watermark := if j.watermark.Some? then j.watermark else watermark)
  }

  function Progressed(j: Job, rows: int, batches: int, checkpoint: int, phase: string, total: int): Job {
    j.(phase := phase, rowsFlushed := rows, batches := batches, checkpoint := checkpoint, progressCurrent := rows,
       progressTotal := Max(total, rows))
  }

  function CompletedJob(j: Job, rows: int, checkpoint: int, batches: int): Job {
    j.(status := Completed, phase := "finished", rowsFlushed := rows, checkpoint := checkpoint, batches := batches,
       progressCurrent := rows, progressTotal := Max(j.progressTotal, rows))
  }

  function FailedJob(j: Job, message: string): Job {
    j.(status := Error, phase := "failed", error := Some(message))
  }

  function CancelledJob(j: Job): Job {
    j.(status := Cancelled, phase := "cancelled")
  }

  function ReclaimedJob(j: Job): Job {
    j.(status := Pending, phase := "pending", token := None, reclaimed := true,
       error := if j.error.Some? then j.error else Some("reclaimed: left running without an owner"))
  }

  /** A cancel request ends an unlocked pending job at once and flags an unlocked running one. */
  function AfterCancelRequest(j: Job): Job {
    if j.status.Pending? then CancelledJob(j).(cancelRequested := true)
    else if j.status.Running? then j.(cancelRequested := true)
    else j
  }

  ghost function Do(s: State, step: Step): State {
    match step
    case Insert(id, table, force) =>
      if id in s.jobs || SomeActive(s.jobs, table) then s
      else s.(jobs := s.jobs[id := NewJob(table, "", None, force)])
    case Enqueue(id, table, scope, watermark, force) =>
      if a :| ActiveFor(s.jobs, table, scope, a) then
        s.(jobs := s.jobs[a := s.jobs[a].(force := s.jobs[a].force || force)])
      else if id in s.jobs || SomeActive(s.jobs, table) then s
      else s.(jobs := s.jobs[id := NewJob(table, scope, watermark, force)])
    case Claim(id, table, token, total, watermark) =>
      if id in s.jobs && s.jobs[id].table == table && Active(s.jobs[id])
      then s.(jobs := s.jobs[id := Claimed(s.jobs[id], token, total, watermark)], claims := s.claims + [(id, token)])
      else s
    case Progress(id, table, token, rows, batches, checkpoint, phase, total) =>
      if Owns(s.jobs, id, table, token)
      then s.(jobs := s.jobs[id := Progressed(s.jobs[id], rows, batches, checkpoint, phase, total)]) else s
    case Complete(id, table, token, rows, checkpoint, batches) =>
      if Owns(s.jobs, id, table, token)
      then s.(jobs := s.jobs[id := CompletedJob(s.jobs[id], rows, checkpoint, batches)]) else s
    case Fail(id, table, token, message) =>
      if Owns(s.jobs, id, table, token) then s.(jobs := s.jobs[id := FailedJob(s.jobs[id], message)]) else s
    case MarkCancelled(id, table, token) =>
      if Owns(s.jobs, id, table, token) then s.(jobs := s.jobs[id := CancelledJob(s.jobs[id])]) else s
    case Reclaim(table) => s.(jobs := ReclaimAll(s.jobs, table))
    case RequestCancel(targets, locked, table) =>
      s.(jobs := CancelAll(s.jobs, targets - locked, table), cancels := s.cancels + {table})
    case ClearCancel(table) => s.(cancels := s.cancels - {table})
  }

  ghost function ReclaimAll(jobs: map<JobId, Job>, table: nat): map<JobId, Job> {
    map id | id in jobs ::
      if jobs[id].table == table && jobs[id].scope == "" && jobs[id].status.Running? then ReclaimedJob(jobs[id])
      else jobs[id]
  }

  ghost function CancelAll(jobs: map<JobId, Job>, ids: set<JobId>, table: nat): map<JobId, Job> {
    map id | id in jobs :: if id in ids && jobs[id].table == table then AfterCancelRequest(jobs[id]) else jobs[id]
  }

  /** Tokens are generated anew for every claim. */
  ghost predicate Fresh(s: State, token: Token) {
    forall i | 0 <= i < |s.claims| :: s.claims[i].1 != token
  }

  ghost predicate Enabled(s: State, step: Step) {
    step.Claim? ==> Fresh(s, step.token)
  }

  ghost predicate Init(s: State) {
    s.jobs == map[] && s.cancels == {} && s.claims == []
  }

  ghost predicate Run(states: seq<State>, steps: seq<Step>) {
    && |states| == |steps| + 1 && Init(states[0])
    && forall i | 0 <= i < |steps| :: Enabled(states[i], steps[i]) && states[i + 1] == Do(states[i], steps[i])
  }

  // ---- What every step keeps ----

  ghost predicate OneActivePerTable(jobs: map<JobId, Job>) {
    forall a, b | a in jobs && b in jobs && Active(jobs[a]) && Active(jobs[b]) && jobs[a].table == jobs[b].table ::
      a == b
  }

  /** The job's newest claim carries this token. */
  ghost predicate LatestClaim(s: State, id: JobId, token: Token) {
    exists i | 0 <= i < |s.claims| :: s.claims[i] == (id, token) && forall k | i < k < |s.claims| :: s.claims[k].0 != id
  }

  /** A pending job has no token; any other token is that of the job's newest claim. Progress stays within its total. */
  ghost predicate JobHolds(s: State, id: JobId)
    requires id in s.jobs
  {
    var j := s.jobs[id];
    && (j.status.Pending? ==> j.token.None?)
    && (j.status.Running? ==> j.token.Some?)
    && (j.token.Some? ==> LatestClaim(s, id, j.token.value))
    && j.progressCurrent <= j.progressTotal
  }

  ghost predicate DistinctTokens(claims: seq<(JobId, Token)>) {
    forall i, k | 0 <= i < k < |claims| :: claims[i].1 != claims[k].1
  }

  ghost predicate Inv(s: State) {
    && OneActivePerTable(s.jobs) && DistinctTokens(s.claims)
    && (forall id | id in s.jobs :: JobHolds(s, id))
    && (forall i | 0 <= i < |s.claims| :: s.claims[i].0 in s.jobs)
  }

  /** Rows that only move within their own activity keep one active job per table. */
  lemma {:induction false} ActivityKept(jobs: map<JobId, Job>, jobs': map<JobId, Job>)
    requires OneActivePerTable(jobs) && jobs'.Keys == jobs.Keys
    requires forall id | id in jobs :: jobs'[id].table == jobs[id].table && (Active(jobs'[id]) ==> Active(jobs[id]))
    ensures OneActivePerTable(jobs')
  {
    hide Active;
  }

  lemma {:induction false} RowKeeps(s: State, id: JobId, j: Job)
    requires Inv(s) && id in s.jobs && j.table == s.jobs[id].table && (Active(j) ==> Active(s.jobs[id]))
    requires (j.status.Pending? ==> j.token.None?) && (j.status.Running? ==> j.token.Some?)
    requires j.token.Some? ==> j.token == s.jobs[id].token
    requires j.progressCurrent <= j.progressTotal
    ensures Inv(s.(jobs := s.jobs[id := j]))
  {
    hide Active, LatestClaim;
    var s' := s.(jobs := s.jobs[id := j]);
    ActivityKept(s.jobs, s'.jobs);
    forall x | x in s'.jobs ensures JobHolds(s', x) {
      assert JobHolds(s, x);
      if s'.jobs[x].token.Some? {
        SameClaims(s, s', x, s'.jobs[x].token.value);
      }
    }
  }

  lemma {:induction false} SameClaims(s: State, s': State, id: JobId, token: Token)
    requires s'.claims == s.claims
    ensures LatestClaim(s', id, token) <==> LatestClaim(s, id, token)
  {
  }

  lemma {:induction false} AddKeeps(s: State, id: JobId, table: nat, scope: string, watermark: Option<int>, force: bool)
    requires Inv(s) && id !in s.jobs && !SomeActive(s.jobs, table)
    ensures Inv(s.(jobs := s.jobs[id := NewJob(table, scope, watermark, force)]))
  {
    var s' := s.(jobs := s.jobs[id := NewJob(table, scope, watermark, force)]);
    forall x | x in s'.jobs ensures JobHolds(s', x) {
      if x != id {
        assert JobHolds(s, x);
        if s.jobs[x].token.Some? {
          SameClaims(s, s', x, s.jobs[x].token.value);
        }
      }
    }
  }

  lemma {:induction false} ClaimKeeps(s: State, id: JobId, token: Token, total: nat, watermark: Option<int>)
    requires Inv(s) && Fresh(s, token) && id in s.jobs && Active(s.jobs[id])
    ensures Inv(s.(jobs := s.jobs[id := Claimed(s.jobs[id], token, total, watermark)],
                    claims := s.claims + [(id, token)]))
  {
    var s' := s.(jobs := s.jobs[id := Claimed(s.jobs[id], token, total, watermark)],
                 claims := s.claims + [(id, token)]);
    ActivityKept(s.jobs, s'.jobs);
    forall x | x in s'.jobs ensures JobHolds(s', x) {
      assert JobHolds(s, x);
      if x == id {
        assert s'.claims[|s.claims|] == (id, token);
      } else if s.jobs[x].token.Some? {
        OtherClaim(s, s', x, s.jobs[x].token.value);
      }
    }
  }

  lemma {:induction false} OtherClaim(s: State, s': State, id: JobId, token: Token)
    requires LatestClaim(s, id, token) && |s'.claims| == |s.claims| + 1 && s'.claims[..|s.claims|] == s.claims
    requires s'.claims[|s.claims|].0 != id
    ensures LatestClaim(s', id, token)
  {
    var i :| 0 <= i < |s.claims| && s.claims[i] == (id, token) && forall k | i < k < |s.claims| :: s.claims[k].0 != id;
    forall k | i < k < |s'.claims| ensures s'.claims[k].0 != id {
      if k < |s.claims| {
        assert s'.claims[..|s.claims|][k] == s'.claims[k];
      }
    }
    assert s'.claims[..|s.claims|][i] == s'.claims[i];
  }

  /** Updating every row by a rule that never adds activity or a token. */
  lemma {:induction false} RowsKeep(s: State, s': State)
    requires Inv(s) && s'.claims == s.claims && s'.jobs.Keys == s.jobs.Keys
    requires forall id | id in s.jobs :: RowStep(s.jobs[id], s'.jobs[id])
    ensures Inv(s')
  {
    hide LatestClaim;
    ActivityKept(s.jobs, s'.jobs);
    forall x | x in s'.jobs ensures JobHolds(s', x) {
      assert JobHolds(s, x) && RowStep(s.jobs[x], s'.jobs[x]);
      if s'.jobs[x].token.Some? {
        SameClaims(s, s', x, s'.jobs[x].token.value);
      }
    }
  }

  ghost predicate RowStep(j: Job, j': Job) {
    && j'.table == j.table && (Active(j') ==> Active(j))
    && (j'.token.Some? ==> j'.token == j.token) && (j'.status.Running? ==> j.status.Running? && j'.token == j.token)
    && (j'.status.Pending? ==> j'.token.None? || (j.status.Pending? && j'.token == j.token))
    && j'.progressCurrent == j.progressCurrent && j'.progressTotal == j.progressTotal
  }

  lemma {:induction false} StepKeeps(s: State, step: Step)
    requires Inv(s) && Enabled(s, step)
    ensures Inv(Do(s, step))
  {
    hide Inv;
    match step
    case Insert(id, table, force) =>
      if id !in s.jobs && !SomeActive(s.jobs, table) {
        AddKeeps(s, id, table, "", None, force);
      }
    case Enqueue(id, table, scope, watermark, force) => EnqueueKeeps(s, id, table, scope, watermark, force);
    case Claim(id, table, token, total, watermark) =>
      if id in s.jobs && s.jobs[id].table == table && Active(s.jobs[id]) {
        ClaimKeeps(s, id, token, total, watermark);
      }
    case Reclaim(table) => RowsKeep(s, Do(s, step));
    case RequestCancel(targets, locked, table) => CancelKeeps(s, targets, locked, table);
    case ClearCancel(table) => RowsKeep(s, Do(s, step));
    case _ => OwnedKeeps(s, step);
  }

  lemma {:induction false} CancelKeeps(s: State, targets: set<JobId>, locked: set<JobId>, table: nat)
    requires Inv(s)
    ensures Inv(Do(s, RequestCancel(targets, locked, table)))
  {
    var s' := Do(s, RequestCancel(targets, locked, table));
    forall id | id in s.jobs ensures RowStep(s.jobs[id], s'.jobs[id]) {
      assert JobHolds(s, id);
    }
    RowsKeep(s, s');
  }

  lemma {:induction false} EnqueueKeeps(s: State, id: JobId, table: nat, scope: string, watermark: Option<int>,
                                        force: bool)
    requires Inv(s)
    ensures Inv(Do(s, Enqueue(id, table, scope, watermark, force)))
  {
    var s' := Do(s, Enqueue(id, table, scope, watermark, force));
    if exists a :: ActiveFor(s.jobs, table, scope, a) {
      forall x | x in s.jobs ensures RowStep(s.jobs[x], s'.jobs[x]) {
        assert JobHolds(s, x);
      }
      RowsKeep(s, s');
    } else if id !in s.jobs && !SomeActive(s.jobs, table) {
      AddKeeps(s, id, table, scope, watermark, force);
    }
  }

  lemma {:induction false} OwnedKeeps(s: State, step: Step)
    requires Inv(s) && (step.Progress? || step.Complete? || step.Fail? || step.MarkCancelled?)
    ensures Inv(Do(s, step))
  {
    hide LatestClaim;
    if Owns(s.jobs, step.id, step.table, step.token) {
      assert JobHolds(s, step.id);
      RowKeeps(s, step.id, Do(s, step).jobs[step.id]);
    }
  }

  lemma {:induction false} RunKeeps(states: seq<State>, steps: seq<Step>, i: nat)
    requires Run(states, steps) && i < |states|
    ensures Inv(states[i])
  {
    hide Do, Inv, Enabled;
    if i == 0 {
      InitHolds(states[0]);
    } else {
      RunKeeps(states, steps, i - 1);
      StepKeeps(states[i - 1], steps[i - 1]);
    }
  }

  lemma {:induction false} InitHolds(s: State)
    requires Init(s)
    ensures Inv(s)
  {
  }
}
