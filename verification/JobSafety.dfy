/** What holds of flush jobs over whole runs: one active job per table, final states, fixed watermarks, token fencing.
    */
module JobSafety {
  import opened Bytes
  import opened Jobs

  /** In every reachable state a table has at most one pending or running flush job, so one per table and scope. */
  lemma {:induction false} OneActiveFlushJob(states: seq<State>, steps: seq<Step>, i: nat, a: JobId, b: JobId)
    requires Run(states, steps) && i < |states| && a in states[i].jobs && b in states[i].jobs
    requires Active(states[i].jobs[a]) && Active(states[i].jobs[b])
             && states[i].jobs[a].table == states[i].jobs[b].table
    ensures a == b
  {
    hide Run;
    RunKeeps(states, steps, i);
  }

  // ---- What a step may do to a row ----

  /** A row survives; a terminal one is untouched, a watermark stays, and a token only gives way. */
  ghost predicate RowMoves(s: State, s': State, id: JobId)
    requires id in s.jobs
  {
    && id in s'.jobs
    && (!Active(s.jobs[id]) ==> s'.jobs[id] == s.jobs[id])
    && (s.jobs[id].watermark.Some? ==> s'.jobs[id].watermark == s.jobs[id].watermark)
    && s'.jobs[id].table == s.jobs[id].table && s'.jobs[id].scope == s.jobs[id].scope
    && s'.jobs[id].attempts >= s.jobs[id].attempts
  }

  lemma {:induction false} StepMoves(s: State, step: Step, id: JobId)
    requires id in s.jobs
    ensures RowMoves(s, Do(s, step), id)
  {
  }

  lemma {:induction false} RowMovesOn(s: State, s': State, s'': State, id: JobId)
    requires id in s.jobs && RowMoves(s, s', id) && RowMoves(s', s'', id)
    ensures RowMoves(s, s'', id)
  {
  }

  lemma {:induction false} RowMovesStill(s: State, id: JobId)
    requires id in s.jobs
    ensures RowMoves(s, s, id)
  {
  }

  lemma {:induction false} RunMoves(states: seq<State>, steps: seq<Step>, i: nat, k: nat, id: JobId)
    requires Run(states, steps) && i <= k < |states| && id in states[i].jobs
    ensures RowMoves(states[i], states[k], id)
    decreases k - i
  {
    hide Do, Enabled, RowMoves;
    if i == k {
      RowMovesStill(states[i], id);
    } else {
      RunMoves(states, steps, i, k - 1, id);
      assert id in states[k - 1].jobs by { StillThere(states[i], states[k - 1], id); }
      StepMoves(states[k - 1], steps[k - 1], id);
      RowMovesOn(states[i], states[k - 1], states[k], id);
    }
  }

  lemma {:induction false} StillThere(s: State, s': State, id: JobId)
    requires id in s.jobs && RowMoves(s, s', id)
    ensures id in s'.jobs
  {
  }

  /** Terminal states are final: the row never changes again. */
  lemma {:induction false} TerminalIsFinal(states: seq<State>, steps: seq<Step>, i: nat, k: nat, id: JobId)
    requires Run(states, steps) && i <= k < |states| && id in states[i].jobs && !Active(states[i].jobs[id])
    ensures id in states[k].jobs && states[k].jobs[id] == states[i].jobs[id]
  {
    hide Run;
    RunMoves(states, steps, i, k, id);
  }

  /** A watermark, once set, never changes. */
  lemma {:induction false} WatermarkIsFixed(states: seq<State>, steps: seq<Step>, i: nat, k: nat, id: JobId)
    requires Run(states, steps) && i <= k < |states| && id in states[i].jobs && states[i].jobs[id].watermark.Some?
    ensures id in states[k].jobs && states[k].jobs[id].watermark == states[i].jobs[id].watermark
  {
    hide Run;
    RunMoves(states, steps, i, k, id);
  }

  // ---- Fencing ----

  ghost predicate Fenced(step: Step) {
    step.Progress? || step.Complete? || step.Fail? || step.MarkCancelled?
  }

  /** A progress or terminal update takes effect only under the token of the job's newest claim, and then only on that
      job's row. */
  lemma {:induction false} OnlyLatestClaimUpdates(states: seq<State>, steps: seq<Step>, i: nat)
    requires Run(states, steps) && i < |steps| && Fenced(steps[i])
    ensures states[i + 1] != states[i] ==>
              steps[i].id in states[i].jobs && states[i].jobs[steps[i].id].status.Running?
              && LatestClaim(states[i], steps[i].id, steps[i].token)
    ensures forall x | x in states[i].jobs && x != steps[i].id ::
              x in states[i + 1].jobs && states[i + 1].jobs[x] == states[i].jobs[x]
  {
    hide LatestClaim;
    RunKeeps(states, steps, i);
    assert states[i + 1] == Do(states[i], steps[i]);
    if Owns(states[i].jobs, steps[i].id, steps[i].table, steps[i].token) {
      assert JobHolds(states[i], steps[i].id);
    }
  }

  /** The token was claimed, and no job runs under it any more. */
  ghost predicate Lost(s: State, token: Token) {
    !Fresh(s, token) && forall id | id in s.jobs :: s.jobs[id].token != Some(token)
  }

  lemma {:induction false} LostStays(s: State, step: Step, token: Token)
    requires Enabled(s, step) && Lost(s, token)
    ensures Lost(Do(s, step), token)
  {
    ClaimsGrow(s, step, token);
    forall id | id in Do(s, step).jobs ensures Do(s, step).jobs[id].token != Some(token) {
      if Do(s, step).jobs[id].token.Some? {
        TokenSource(s, step, id);
      }
    }
  }

  lemma {:induction false} ClaimsGrow(s: State, step: Step, token: Token)
    requires !Fresh(s, token)
    ensures !Fresh(Do(s, step), token)
  {
    var i :| 0 <= i < |s.claims| && s.claims[i].1 == token;
    assert Do(s, step).claims[i] == s.claims[i];
  }

  /** A row's token was there before the step, or is the one just claimed. */
  lemma {:induction false} TokenSource(s: State, step: Step, id: JobId)
    requires id in Do(s, step).jobs && Do(s, step).jobs[id].token.Some?
    ensures (id in s.jobs && s.jobs[id].token == Do(s, step).jobs[id].token)
            || (step.Claim? && Do(s, step).jobs[id].token == Some(step.token))
  {
  }

  lemma {:induction false} LostForever(states: seq<State>, steps: seq<Step>, i: nat, k: nat, token: Token)
    requires Run(states, steps) && i <= k < |states| && Lost(states[i], token)
    ensures Lost(states[k], token)
    decreases k - i
  {
    hide Do, Enabled, Lost;
    if i < k {
      LostForever(states, steps, i, k - 1, token);
      LostStays(states[k - 1], steps[k - 1], token);
    }
  }

  /** A step takes a job from the executor that holds `token`: another claim, or a reclaim of the running job. */
  ghost predicate Takes(s: State, step: Step, id: JobId) {
    && id in s.jobs
    && ((step.Claim? && step.id == id && step.table == s.jobs[id].table && Active(s.jobs[id]))
        || (step.Reclaim? && step.table == s.jobs[id].table && s.jobs[id].scope == "" && s.jobs[id].status.Running?))
  }

  /** Whoever held the job loses its token by that step. */
  lemma {:induction false} TakenIsLost(s: State, step: Step, id: JobId, token: Token)
    requires Inv(s) && Enabled(s, step) && Takes(s, step, id) && LatestClaim(s, id, token)
    ensures Lost(Do(s, step), token)
  {
    var i :| 0 <= i < |s.claims| && s.claims[i] == (id, token);
    assert !Fresh(s, token);
    ClaimsGrow(s, step, token);
    forall x | x in Do(s, step).jobs ensures Do(s, step).jobs[x].token != Some(token) {
      if Do(s, step).jobs[x].token.Some? {
        TokenSource(s, step, x);
      }
      if x in s.jobs && s.jobs[x].token == Some(token) {
        SameClaimant(s, id, x, token);
      }
    }
  }

  lemma {:induction false} SameClaimant(s: State, id: JobId, x: JobId, token: Token)
    requires Inv(s) && LatestClaim(s, id, token) && x in s.jobs && s.jobs[x].token == Some(token)
    ensures x == id
  {
    assert JobHolds(s, x);
    var i :| 0 <= i < |s.claims| && s.claims[i] == (id, token);
    var k :| 0 <= k < |s.claims| && s.claims[k] == (x, token);
    assert i == k;
  }

  /** An executor that lost its job to a reclaim or to another claim changes nothing, ever after. */
  lemma {:induction false} LostExecutorChangesNothing(states: seq<State>, steps: seq<Step>, i: nat, k: nat, id: JobId,
                                                      token: Token)
    requires Run(states, steps) && i < k < |steps|
    requires Takes(states[i], steps[i], id) && LatestClaim(states[i], id, token)
    requires Fenced(steps[k]) && steps[k].token == token
    ensures states[k + 1] == states[k]
  {
    hide LatestClaim, Takes, Fresh, Inv;
    RunKeeps(states, steps, i);
    assert Enabled(states[i], steps[i]) && states[i + 1] == Do(states[i], steps[i]);
    TakenIsLost(states[i], steps[i], id, token);
    LostForever(states, steps, i + 1, k, token);
    assert states[k + 1] == Do(states[k], steps[k]);
  }

  /** Nothing the executors report makes a job's progress exceed its total. */
  lemma {:induction false} ProgressWithinTotal(states: seq<State>, steps: seq<Step>, i: nat, id: JobId)
    requires Run(states, steps) && i < |states| && id in states[i].jobs
    ensures states[i].jobs[id].progressCurrent <= states[i].jobs[id].progressTotal
  {
    hide Run, LatestClaim;
    RunKeeps(states, steps, i);
    assert JobHolds(states[i], id);
  }
}
