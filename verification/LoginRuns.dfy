/**
  Concurrent login calls: every call first checks the count and later records its failure, other
  calls and the cleanup job may come in between. How many failures a window can then hold.
*/
module LoginRuns {
  import opened LoginLimiter

  /** A call that passed the count check: who, when, and how many rows had been inserted by then. */
  datatype Check = Check(username: string, at: int, seen: nat)

  /**
    `rows` is every row ever inserted; rows before `deleted` have been cleaned up.
    `inFlight` holds the calls between their count query and their answer.
  */
  datatype State = State(now: int, rows: seq<Row>, deleted: nat, checks: seq<Check>, inFlight: set<nat>)

  datatype Step =
    | Begin(username: string, at: int)
    | Finish(call: nat, grafanaLogin: bool, db: DbAnswer, ldap: LdapAnswer, at: int)
    | Cleanup(at: int)

  const INITIAL := State(0, [], 0, [], {})

  ghost function CallsOf(s: State, username: string): set<nat>
  {
    set c | c in s.inFlight && c < |s.checks| && s.checks[c].username == username
  }

  /** Whether the step can happen in `s`, with at most `k` calls of one user in flight. */
  ghost predicate Enabled(k: nat, s: State, step: Step)
  {
    match step
    case Begin(u, at) => s.now <= at && |CallsOf(s, u)| < k
    case Finish(c, _, _, _, at) => s.now <= at && c in s.inFlight && c < |s.checks|
    case Cleanup(at) => s.now <= at
  }

  /** The row the deletion job keeps first: everything up to the last expired row goes. */
  ghost function FirstKept(rows: seq<Row>, deleted: nat, olderThan: int): (n: nat)
    requires deleted <= |rows|
    ensures deleted <= n <= |rows|
    ensures n > deleted ==> rows[n - 1].created < olderThan
    ensures forall i | n <= i < |rows| :: rows[i].created >= olderThan
    decreases |rows| - deleted
  {
    if |rows| == deleted then deleted
    else if rows[|rows| - 1].created < olderThan then |rows|
    else FirstKept(rows[..|rows| - 1], deleted, olderThan)
  }

  /** The count query at time `at` finds too many rows. */
  ghost predicate Blocked(s: State, username: string, at: int)
  {
    |Matching(s.rows, s.deleted, username, at - LOGIN_ATTEMPTS_WINDOW)| >= MAX_INVALID_LOGIN_ATTEMPTS
  }

  ghost function Accept(s: State, username: string, at: int): State
  {
    s.(now := at, checks := s.checks + [Check(username, at, |s.rows|)], inFlight := s.inFlight + {|s.checks|})
  }

  ghost function Next(s: State, step: Step): State
    requires s.deleted <= |s.rows|
    requires step.Finish? ==> step.call < |s.checks|
  {
    match step
    case Begin(u, at) =>
      if Blocked(s, u, at) then s.(now := at) else Accept(s, u, at)
    case Finish(c, form, db, ldap, at) =>
      var s' := s.(now := at, inFlight := s.inFlight - {c});
      if Combine(form, db, ldap) == ErrInvalidCredentials then
        s'.(rows := s.rows + [Row(s.checks[c].username, at, c)])
      else s'
    case Cleanup(at) =>
      s.(now := at, deleted := FirstKept(s.rows, s.deleted, at - CLEANUP_AGE))
  }

  /** Calls numbered up to `c` that were still running when `c` checked: running now, or recorded since. */
  ghost function Overlapping(s: State, c: nat): set<nat>
    requires c < |s.checks|
  {
    var u := s.checks[c].username;
    (set d | d in CallsOf(s, u) && d <= c) + (set i: nat | i < |s.rows| && RecordedSince(s, c, i) :: s.rows[i].call)
  }

  ghost predicate RecordedSince(s: State, c: nat, i: nat)
    requires c < |s.checks| && i < |s.rows|
  {
    s.checks[c].seen <= i && s.rows[i].username == s.checks[c].username && s.rows[i].call <= c
  }

  /** A row names a finished call, its user, and a time between that call's check and now. */
  ghost predicate RowOk(s: State, i: nat)
    requires i < |s.rows|
  {
    var row := s.rows[i];
    && row.call < |s.checks|
    && row.call !in s.inFlight
    && row.username == s.checks[row.call].username
    && s.checks[row.call].at <= row.created <= s.now
  }

  ghost predicate Ordered(rows: seq<Row>)
  {
    forall i, j | 0 <= i < j < |rows| :: rows[i].call != rows[j].call && rows[i].created <= rows[j].created
  }

  ghost predicate Expired(s: State)
  {
    s.deleted <= |s.rows| && forall i | 0 <= i < s.deleted :: s.rows[i].created < s.now - CLEANUP_AGE
  }

  /** When the call checked, fewer than the maximum of its user's failures were recent. */
  ghost predicate PassedCheck(s: State, c: nat)
    requires c < |s.checks|
  {
    var check := s.checks[c];
    && check.seen <= |s.rows|
    && check.at <= s.now
    && |Matching(s.rows[..check.seen], 0, check.username, check.at - LOGIN_ATTEMPTS_WINDOW)| < MAX_INVALID_LOGIN_ATTEMPTS
  }

  ghost predicate FewOverlap(k: nat, s: State, c: nat)
    requires c < |s.checks|
  {
    |Overlapping(s, c)| <= k
  }

  ghost predicate Inv(k: nat, s: State)
  {
    && Expired(s)
    && Ordered(s.rows)
    && (forall c | c in s.inFlight :: c < |s.checks|)
    && (forall i: nat | i < |s.rows| :: RowOk(s, i))
    && (forall c: nat | c < |s.checks| :: PassedCheck(s, c))
    && (forall c: nat | c < |s.checks| :: FewOverlap(k, s, c))
  }

  /** Cleanup deletes a row exactly when it, or one inserted after it, is older than ten minutes. */
  lemma CleanupDeletes(s: State, at: int, i: nat)
    requires s.deleted <= i < |s.rows|
    ensures i < Next(s, Cleanup(at)).deleted <==> exists j :: i <= j < |s.rows| && s.rows[j].created < at - 600
  {
    var n := FirstKept(s.rows, s.deleted, at - CLEANUP_AGE);
    if i < n {
      assert s.rows[n - 1].created < at - 600;
    }
  }

  ghost predicate Moves(k: nat, run: seq<State>, steps: seq<Step>, i: nat)
    requires i < |steps| < |run|
  {
    Enabled(k, run[i], steps[i]) && run[i].deleted <= |run[i].rows| && run[i + 1] == Next(run[i], steps[i])
  }

  /** Every run of the limiter with at most `k` calls of one user in flight at a time. */
  ghost predicate IsRun(k: nat, run: seq<State>, steps: seq<Step>)
  {
    && |run| == |steps| + 1
    && run[0] == INITIAL
    && forall i: nat | i < |steps| :: Moves(k, run, steps, i)
  }

  lemma SubsetSize<T>(a: set<T>, b: set<T>)
    requires a <= b
    ensures |a| <= |b|
  {
    assert b == a + (b - a);
  }

  /** Deleted rows are too old to be counted. */
  lemma DeletedRowsAreExpired(s: State, username: string, at: int)
    requires Expired(s) && s.now <= at
    ensures Matching(s.rows, s.deleted, username, at - LOGIN_ATTEMPTS_WINDOW)
         == Matching(s.rows, 0, username, at - LOGIN_ATTEMPTS_WINDOW)
  {
  }

  /** A step that only moves the clock, the deletion mark or other users' calls leaves an old check as it was. */
  lemma OverlapUnchanged(k: nat, s: State, s': State, c: nat)
    requires c < |s.checks| && s.checks <= s'.checks && s'.rows == s.rows
    requires s'.inFlight == s.inFlight || s'.inFlight == s.inFlight + {|s.checks|}
    requires FewOverlap(k, s, c)
    ensures FewOverlap(k, s', c)
  {
    var u := s.checks[c].username;
    assert forall d | d <= c :: d in CallsOf(s', u) <==> d in CallsOf(s, u);
    assert forall i: nat | i < |s.rows| :: RecordedSince(s, c, i) == RecordedSince(s', c, i);
    assert Overlapping(s', c) == Overlapping(s, c);
  }

  lemma NewCheckOverlap(k: nat, s: State, u: string, at: int)
    requires forall c | c in s.inFlight :: c < |s.checks|
    requires |CallsOf(s, u)| < k
    ensures FewOverlap(k, Accept(s, u, at), |s.checks|)
  {
    var s' := Accept(s, u, at);
    assert forall i: nat | i < |s'.rows| :: !RecordedSince(s', |s.checks|, i);
    assert Overlapping(s', |s.checks|) == CallsOf(s, u) + {|s.checks|};
  }

  /** Later rows and a later clock do not revise a check that was passed. */
  lemma CheckStays(s: State, s': State, c: nat)
    requires c < |s.checks| <= |s'.checks| && s'.checks[c] == s.checks[c]
    requires s.rows <= s'.rows && s.now <= s'.now
    requires PassedCheck(s, c)
    ensures PassedCheck(s', c)
  {
    assert s'.rows[..s.checks[c].seen] == s.rows[..s.checks[c].seen];
  }

  lemma RowStays(s: State, s': State, i: nat)
    requires i < |s.rows| && s.rows <= s'.rows && s.checks <= s'.checks && s.now <= s'.now
    requires s'.inFlight <= s.inFlight + {|s.checks|}
    requires RowOk(s, i)
    ensures RowOk(s', i)
  {
  }

  lemma BeginKeepsInv(k: nat, s: State, step: Step)
    requires Inv(k, s) && Enabled(k, s, step) && step.Begin?
    ensures Inv(k, Next(s, step))
  {
    var s' := Next(s, step);
    BeginKeepsChecks(k, s, step);
    forall i: nat | i < |s.rows| ensures RowOk(s', i) {
      RowStays(s, s', i);
    }
  }

  lemma BeginKeepsChecks(k: nat, s: State, step: Step)
    requires Inv(k, s) && Enabled(k, s, step) && step.Begin?
    ensures forall c: nat | c < |Next(s, step).checks| :: PassedCheck(Next(s, step), c)
    ensures forall c: nat | c < |Next(s, step).checks| :: FewOverlap(k, Next(s, step), c)
  {
    var s' := Next(s, step);
    forall c: nat | c < |s.checks| ensures FewOverlap(k, s', c) {
      OverlapUnchanged(k, s, s', c);
    }
    forall c: nat | c < |s.checks| ensures PassedCheck(s', c) {
      CheckStays(s, s', c);
    }
    if !Blocked(s, step.username, step.at) {
      NewCheckOverlap(k, s, step.username, step.at);
      NewCheckPassed(s, step.username, step.at);
    }
  }

  lemma NewCheckPassed(s: State, u: string, at: int)
    requires Expired(s) && s.now <= at && !Blocked(s, u, at)
    ensures PassedCheck(Accept(s, u, at), |s.checks|)
  {
    DeletedRowsAreExpired(s, u, at);
    assert s.rows[..|s.rows|] == s.rows;
  }

  /** A recorded call leaves the running calls and joins the recorded ones; it is never counted twice. */
  lemma OverlapShrinks(k: nat, s: State, s': State, call: nat, c: nat)
    requires call < |s.checks| && c < |s.checks| && s'.checks == s.checks
    requires call in s.inFlight && s'.inFlight == s.inFlight - {call}
    requires s'.rows == s.rows || exists at :: s'.rows == s.rows + [Row(s.checks[call].username, at, call)]
    requires FewOverlap(k, s, c)
    ensures FewOverlap(k, s', c)
  {
    forall i: nat | i < |s'.rows| && RecordedSince(s', c, i) ensures s'.rows[i].call in Overlapping(s, c) {
      if i < |s.rows| {
        assert RecordedSince(s, c, i);
      } else {
        assert call in CallsOf(s, s.checks[c].username);
      }
    }
    SubsetSize(Overlapping(s', c), Overlapping(s, c));
  }

  lemma FinishKeepsInv(k: nat, s: State, step: Step)
    requires Inv(k, s) && Enabled(k, s, step) && step.Finish?
    ensures Inv(k, Next(s, step))
  {
    var s' := Next(s, step);
    forall c: nat | c < |s.checks| ensures FewOverlap(k, s', c) {
      OverlapShrinks(k, s, s', step.call, c);
    }
    forall c: nat | c < |s.checks| ensures PassedCheck(s', c) {
      CheckStays(s, s', c);
    }
    FinishKeepsRows(k, s, step);
  }

  lemma FinishKeepsRows(k: nat, s: State, step: Step)
    requires Inv(k, s) && Enabled(k, s, step) && step.Finish?
    ensures Ordered(Next(s, step).rows)
    ensures forall i: nat | i < |Next(s, step).rows| :: RowOk(Next(s, step), i)
  {
    var s' := Next(s, step);
    assert PassedCheck(s, step.call);
    forall i: nat | i < |s.rows| ensures RowOk(s', i) && s.rows[i].call != step.call && s.rows[i].created <= step.at {
      assert RowOk(s, i);
    }
  }

  lemma CleanupKeepsInv(k: nat, s: State, step: Step)
    requires Inv(k, s) && Enabled(k, s, step) && step.Cleanup?
    ensures Inv(k, Next(s, step))
  {
    var s' := Next(s, step);
    forall c: nat | c < |s.checks| ensures FewOverlap(k, s', c) {
      OverlapUnchanged(k, s, s', c);
    }
    forall c: nat | c < |s.checks| ensures PassedCheck(s', c) {
      CheckStays(s, s', c);
    }
    forall i: nat | i < |s.rows| ensures RowOk(s', i) {
      RowStays(s, s', i);
    }
  }

  lemma {:induction false} RunKeepsInv(k: nat, run: seq<State>, steps: seq<Step>, n: nat)
    requires IsRun(k, run, steps) && n < |run|
    ensures Inv(k, run[n])
  {
    if n > 0 {
      RunKeepsInv(k, run, steps, n - 1);
      assert Moves(k, run, steps, n - 1);
      match steps[n - 1] {
        case Begin(_, _) => BeginKeepsInv(k, run[n - 1], steps[n - 1]);
        case Finish(_, _, _, _, _) => FinishKeepsInv(k, run[n - 1], steps[n - 1]);
        case Cleanup(_) => CleanupKeepsInv(k, run[n - 1], steps[n - 1]);
      }
    }
  }

  /** The failures recorded for a user inside the closed window that starts at `from`. */
  ghost function InWindow(rows: seq<Row>, username: string, from: int): set<nat>
  {
    set i: nat | i < |rows| && rows[i].username == username && from <= rows[i].created <= from + 300
  }

  lemma {:induction false} LatestCheck(rows: seq<Row>, w: set<nat>) returns (best: nat)
    requires w != {} && forall i | i in w :: i < |rows|
    ensures best in w && forall i | i in w :: rows[i].call <= rows[best].call
    decreases |w|
  {
    best :| best in w;
    if w != {best} {
      var other := LatestCheck(rows, w - {best});
      if rows[best].call < rows[other].call {
        best := other;
      }
    }
  }

  /** The calls that recorded these rows. */
  ghost function Callers(rows: seq<Row>, w: set<nat>): set<nat>
  {
    set i | i in w && i < |rows| :: rows[i].call
  }

  /** Every row is by a call of its own. */
  ghost predicate OwnCalls(rows: seq<Row>)
  {
    forall i, j | 0 <= i < j < |rows| :: rows[i].call != rows[j].call
  }

  lemma {:induction false} DistinctCalls(rows: seq<Row>, w: set<nat>)
    requires OwnCalls(rows) && forall i | i in w :: i < |rows|
    ensures |Callers(rows, w)| == |w|
    decreases |w|
  {
    if w != {} {
      var x :| x in w;
      DistinctCalls(rows, w - {x});
      assert Callers(rows, w) == Callers(rows, w - {x}) + {rows[x].call};
      assert rows[x].call !in Callers(rows, w - {x});
    }
  }

  /** The latest checker counted every earlier row of the window. */
  lemma EarlyRowsWereCounted(s: State, username: string, from: int, best: nat) returns (early: set<nat>)
    requires best in InWindow(s.rows, username, from)
    requires RowOk(s, best) && PassedCheck(s, s.rows[best].call)
    ensures early == set i | i in InWindow(s.rows, username, from) && i < s.checks[s.rows[best].call].seen
    ensures |early| <= MAX_INVALID_LOGIN_ATTEMPTS - 1
  {
    var check := s.checks[s.rows[best].call];
    early := set i | i in InWindow(s.rows, username, from) && i < check.seen;
    SubsetSize(early, Matching(s.rows[..check.seen], 0, username, check.at - LOGIN_ATTEMPTS_WINDOW));
  }

  /** The rows that came after it belong to calls that overlapped it. */
  lemma LateRowsOverlapped(k: nat, s: State, w: set<nat>, c: nat)
    requires Ordered(s.rows) && c < |s.checks| && FewOverlap(k, s, c)
    requires forall i | i in w :: i < |s.rows| && RecordedSince(s, c, i)
    ensures |w| <= k
  {
    DistinctCalls(s.rows, w);
    SubsetSize(Callers(s.rows, w), Overlapping(s, c));
  }

  lemma WindowBoundFromInv(k: nat, s: State, username: string, from: int)
    requires Inv(k, s)
    ensures |InWindow(s.rows, username, from)| <= MAX_INVALID_LOGIN_ATTEMPTS - 1 + k
  {
    var w := InWindow(s.rows, username, from);
    if w != {} {
      var best := LatestCheck(s.rows, w);
      assert RowOk(s, best);
      var c := s.rows[best].call;
      assert PassedCheck(s, c) && FewOverlap(k, s, c);
      var early := EarlyRowsWereCounted(s, username, from, best);
      LateRowsOverlapped(k, s, w - early, c);
      assert w == early + (w - early);
    }
  }

  /**
    In every run in which a user never has more than `k` calls in flight, no five-minute
    window (both ends included) holds more than 4 + k recorded failures of that user.
    The cleanup job may run at any time.
  */
  lemma WindowBound(k: nat, run: seq<State>, steps: seq<Step>, n: nat, username: string, from: int)
    requires IsRun(k, run, steps) && n < |run|
    ensures |InWindow(run[n].rows, username, from)| <= 4 + k
  {
    RunKeepsInv(k, run, steps, n);
    WindowBoundFromInv(k, run[n], username, from);
  }

  /** Step `i` tells the user that the credentials are invalid, inside the window. */
  ghost predicate TellsInvalid(run: seq<State>, steps: seq<Step>, i: nat, username: string, from: int)
    requires i < |steps| < |run|
  {
    var step := steps[i];
    && step.Finish?
    && step.call < |run[i].checks|
    && run[i].checks[step.call].username == username
    && Combine(step.grafanaLogin, step.db, step.ldap) == ErrInvalidCredentials
    && from <= step.at <= from + 300
  }

  /** How many of the first `n` steps do. */
  ghost function InvalidAnswers(run: seq<State>, steps: seq<Step>, n: nat, username: string, from: int): nat
    requires n <= |steps| < |run|
  {
    if n == 0 then 0
    else InvalidAnswers(run, steps, n - 1, username, from) + if TellsInvalid(run, steps, n - 1, username, from) then 1 else 0
  }

  lemma InWindowGrows(rows: seq<Row>, row: Row, username: string, from: int)
    ensures |InWindow(rows + [row], username, from)| ==
      |InWindow(rows, username, from)| +
      if row.username == username && from <= row.created <= from + 300 then 1 else 0
  {
    var before, after := InWindow(rows, username, from), InWindow(rows + [row], username, from);
    assert after == if row.username == username && from <= row.created <= from + 300
                    then before + {|rows|} else before;
  }

  /** The log is faithful: a window holds as many rows of a user as that user was told "invalid" in it. */
  lemma {:induction false} AnswersAreRecorded(k: nat, run: seq<State>, steps: seq<Step>, n: nat, username: string, from: int)
    requires IsRun(k, run, steps) && n < |run|
    ensures InvalidAnswers(run, steps, n, username, from) == |InWindow(run[n].rows, username, from)|
  {
    if n > 0 {
      hide Combine;
      AnswersAreRecorded(k, run, steps, n - 1, username, from);
      assert Moves(k, run, steps, n - 1);
      var s, step := run[n - 1], steps[n - 1];
      if step.Finish? {
        InWindowGrows(s.rows, Row(s.checks[step.call].username, step.at, step.call), username, from);
      }
    }
  }

  /** So no user is told "invalid credentials" more than 4 + k times in any closed five-minute window. */
  lemma AnswerBound(k: nat, run: seq<State>, steps: seq<Step>, n: nat, username: string, from: int)
    requires IsRun(k, run, steps) && n < |run|
    ensures InvalidAnswers(run, steps, n, username, from) <= 4 + k
  {
    AnswersAreRecorded(k, run, steps, n, username, from);
    WindowBound(k, run, steps, n, username, from);
  }
}
