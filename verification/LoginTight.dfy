/** The bound on recorded failures cannot be improved: runs that reach it. */
module LoginTight {
  import opened LoginLimiter
  import opened LoginRuns

  function WrongPassword(call: nat): Step
  {
    Finish(call, true, DbFailed(DbInvalidCredentials), LdapDisabled, 0)
  }

  ghost function Range(lo: nat, n: nat): (r: set<nat>)
    ensures |r| == n && forall c: nat :: c in r <==> lo <= c < lo + n
  {
    if n == 0 then {} else Range(lo, n - 1) + {lo + n - 1}
  }

  /** `done` recorded failures and then `open` calls in flight, all of one user at time 0. */
  ghost predicate Shape(s: State, username: string, done: nat, open: nat)
  {
    && s.now == 0 && s.deleted == 0
    && |s.rows| == done && |s.checks| == done + open
    && s.inFlight == Range(done, open)
    && (forall c | 0 <= c < |s.checks| :: s.checks[c].username == username)
    && (forall i | 0 <= i < |s.rows| :: s.rows[i].username == username && s.rows[i].created == 0)
  }

  lemma OpenOne(k: nat, s: State, username: string, done: nat, open: nat)
    requires Shape(s, username, done, open) && done < 5 && open < k
    ensures Enabled(k, s, Begin(username, 0)) && Shape(Next(s, Begin(username, 0)), username, done, open + 1)
  {
    OpenIsAllowed(s, username, done, open);
    assert !Blocked(s, username, 0);
    AcceptShape(s, username, done, open);
  }

  lemma AcceptShape(s: State, username: string, done: nat, open: nat)
    requires Shape(s, username, done, open)
    ensures Shape(Accept(s, username, 0), username, done, open + 1)
  {
    assert Range(done, open + 1) == Range(done, open) + {done + open};
  }

  lemma OpenIsAllowed(s: State, username: string, done: nat, open: nat)
    requires Shape(s, username, done, open)
    ensures |CallsOf(s, username)| == open && |Matching(s.rows, 0, username, -300)| == done
  {
    assert CallsOf(s, username) == Range(done, open);
    assert Matching(s.rows, 0, username, -300) == Range(0, done);
  }

  lemma CloseOne(k: nat, s: State, username: string, done: nat, open: nat)
    requires Shape(s, username, done, open) && open > 0
    ensures Enabled(k, s, WrongPassword(done))
    ensures Shape(Next(s, WrongPassword(done)), username, done + 1, open - 1)
  {
  }

  lemma Extend(k: nat, run: seq<State>, steps: seq<Step>, step: Step) returns (run': seq<State>, steps': seq<Step>)
    requires IsRun(k, run, steps)
    requires var s := run[|steps|]; Enabled(k, s, step) && s.deleted <= |s.rows|
    ensures IsRun(k, run', steps') && steps' == steps + [step] && run'[|steps'|] == Next(run[|steps|], step)
  {
    run', steps' := run + [Next(run[|steps|], step)], steps + [step];
    forall i: nat | i < |steps'| ensures Moves(k, run', steps', i) {
      if i < |steps| {
        assert Moves(k, run, steps, i);
      }
    }
  }

  ghost predicate Reaches(k: nat, run: seq<State>, steps: seq<Step>, username: string, done: nat, open: nat)
  {
    IsRun(k, run, steps) && Shape(run[|steps|], username, done, open)
  }

  lemma StartShape(k: nat, username: string)
    ensures Reaches(k, [INITIAL], [], username, 0, 0)
  {
    assert Shape(INITIAL, username, 0, 0);
    hide Shape;
  }

  lemma OpenRun(k: nat, run: seq<State>, steps: seq<Step>, username: string, done: nat, open: nat)
    returns (run': seq<State>, steps': seq<Step>)
    requires Reaches(k, run, steps, username, done, open) && done < 5 && open < k
    ensures Reaches(k, run', steps', username, done, open + 1)
  {
    hide Next;
    OpenOne(k, run[|steps|], username, done, open);
    run', steps' := Extend(k, run, steps, Begin(username, 0));
  }

  lemma CloseRun(k: nat, run: seq<State>, steps: seq<Step>, username: string, done: nat, open: nat)
    returns (run': seq<State>, steps': seq<Step>)
    requires Reaches(k, run, steps, username, done, open) && open > 0
    ensures Reaches(k, run', steps', username, done + 1, open - 1)
  {
    hide Next;
    CloseOne(k, run[|steps|], username, done, open);
    run', steps' := Extend(k, run, steps, WrongPassword(done));
  }

  lemma {:induction false} ReachShape(k: nat, username: string, done: nat, open: nat)
    returns (run: seq<State>, steps: seq<Step>)
    requires k >= 1 && open <= k && (done <= 4 || done + open <= 4 + k)
    ensures Reaches(k, run, steps, username, done, open)
    decreases done + open, done
  {
    hide *;
    if open > 0 && done <= 4 {
      run, steps := ReachShape(k, username, done, open - 1);
      run, steps := OpenRun(k, run, steps, username, done, open - 1);
    } else if done > 0 {
      run, steps := ReachShape(k, username, done - 1, open + 1);
      run, steps := CloseRun(k, run, steps, username, done - 1, open + 1);
    } else {
      run, steps := [INITIAL], [];
      StartShape(k, username);
    }
  }

  /** The bound cannot be improved: for every k >= 1 some run puts 4 + k failures into one window. */
  lemma WindowBoundIsTight(k: nat, username: string) returns (run: seq<State>, steps: seq<Step>)
    requires k >= 1
    ensures IsRun(k, run, steps)
    ensures |InWindow(run[|steps|].rows, username, 0)| == 4 + k
  {
    run, steps := ReachShape(k, username, 4 + k, 0);
    assert InWindow(run[|steps|].rows, username, 0) == Range(0, 4 + k);
  }
}
