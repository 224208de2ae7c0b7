/**
 * What the three elimination kernels (echelon_apply, det_elim, inverse_apply)
 * have in common: a working matrix, an optional op-counting observer, and the
 * outcome of each step -- carry on, stop because the observer reached its
 * target, or fail with an error code.
 *
 * The state also keeps the list of row ops applied so far (`trace`). The
 * source does not store it; it is the record against which the kernels are
 * specified: replaying the trace on the input gives the working matrix, and a
 * run whose observer stops after T ops is the unobserved run cut after T ops.
 */
module Kernels {

  import opened Errors
  import opened Rationals
  import opened Matrices
  import opened RowOps

  datatype Flow = Go | Stop | Fail(code: ErrorCode)

  datatype KState = KState(m: Matrix, obs: Option<Observer>, trace: seq<RowOp>)

  datatype Run = Run(s: KState, flow: Flow)

  /** The observer has counted exactly the ops of the trace and remembers the last one. */
  predicate Counted(s: KState) {
    s.obs.Some? ==>
      s.obs.value.count == |s.trace| &&
      (s.obs.value.hasLast <==> |s.trace| > 0) &&
      (|s.trace| > 0 ==> s.obs.value.lastOp == s.trace[|s.trace| - 1])
  }

  /** A state at the start of a kernel: nothing applied, a fresh observer or none. */
  function Start(m: Matrix, obs: Option<Observer>): (s: KState)
    requires obs.Some? ==> obs.value.count == 0 && !obs.value.hasLast
    ensures Counted(s) && s.m == m && s.trace == []
  {
    KState(m, obs, [])
  }

  /**
   * Applying one op: the working matrix becomes m', the op is logged, and the
   * observer (if any) is notified; it stops the run when it has now seen
   * exactly `target` ops.
   */
  function Record(s: KState, op: RowOp, m': Matrix): (r: Run)
    requires Counted(s)
    ensures r.s.m == m' && r.s.trace == s.trace + [op] && Counted(r.s)
    ensures AllInvertible(s.trace) && op.Invertible() ==> AllInvertible(r.s.trace)
    ensures r.s.obs.Some? == s.obs.Some?
    ensures s.obs.Some? ==> r.s.obs.value.target == s.obs.value.target
    ensures r.flow == Go || r.flow == Stop
    ensures r.flow == Stop <==> s.obs.Some? && |s.trace| + 1 == s.obs.value.target
  {
    var t := s.trace + [op];
    match s.obs
    case None => Run(KState(m', None, t), Go)
    case Some(o) =>
      var n := OnOp(o, op);
      Run(KState(m', Some(n.obs), t), if n.proceed then Go else Stop)
  }

  /** What every kernel step keeps: the shape, the observer, and the log only grows. */
  predicate Steps(s: KState, r: KState) {
    r.m.Wf() && SameDim(r.m, s.m) && s.trace <= r.trace && Counted(r) &&
    (AllInvertible(s.trace) ==> AllInvertible(r.trace)) &&
    r.obs.Some? == s.obs.Some? &&
    (s.obs.Some? ==> r.obs.value.target == s.obs.value.target)
  }

  /** The ops a step added to the log. */
  function Added(s: KState, r: KState): seq<RowOp>
    requires |s.trace| <= |r.trace|
  {
    r.trace[|s.trace|..]
  }

  /** Unless the step failed, replaying the ops it added to its input gives its result. */
  ghost predicate ReplayMatches(s: KState, r: Run)
    requires s.m.Wf() && |s.trace| <= |r.s.trace|
  {
    !r.flow.Fail? ==>
      AllFit(Added(s, r.s), s.m) && Replay(s.m, Added(s, r.s)) == Written(r.s.m, Ok)
  }

  /**
   * ReplayMatches behind a recursion whose depth is never a literal (as for
   * rationals): kernel steps pass the fact along by name, and only the lemmas
   * below expand it with ReplaysDef, which keeps the replayed arithmetic out of
   * the proofs about runs.
   */
  ghost predicate Replays(s: KState, r: Run)
    requires s.m.Wf() && |s.trace| <= |r.s.trace|
  {
    ReplaysAt(s, r, |r.s.trace| + 1)
  }

  ghost predicate ReplaysAt(s: KState, r: Run, depth: nat)
    requires s.m.Wf() && |s.trace| <= |r.s.trace|
    decreases depth
  {
    if depth == 0 then ReplayMatches(s, r) else ReplaysAt(s, r, depth - 1)
  }

  lemma {:induction false} ReplaysAtDef(s: KState, r: Run, depth: nat)
    requires s.m.Wf() && |s.trace| <= |r.s.trace|
    ensures ReplaysAt(s, r, depth) <==> ReplayMatches(s, r)
    decreases depth
  {
    if depth > 0 {
      ReplaysAtDef(s, r, depth - 1);
    }
  }

  lemma ReplaysDef(s: KState, r: Run)
    requires s.m.Wf() && |s.trace| <= |r.s.trace|
    ensures Replays(s, r) <==> ReplayMatches(s, r)
  {
    ReplaysAtDef(s, r, |r.s.trace| + 1);
  }

  // ---------------------------------------------------------------------
  // Replay composition
  // ---------------------------------------------------------------------

  /** Ops that fit a matrix fit every matrix of the same number of rows. */
  lemma FitSameRows(ops: seq<RowOp>, m: Matrix, m': Matrix)
    requires AllFit(ops, m) && m'.rows == m.rows
    ensures AllFit(ops, m')
  {
  }

  /** Replaying a + b is replaying a, then b on the result. */
  lemma {:induction false} ReplayAppend(m: Matrix, a: seq<RowOp>, b: seq<RowOp>)
    requires m.Wf() && AllFit(a, m) && AllFit(b, m)
    ensures AllFit(a + b, m)
    ensures Replay(m, a).ec == Ok ==>
              Replay(m, a + b) == Replay(Replay(m, a).m, b)
    decreases |b|
  {
    assert AllFit(a + b, m);
    if b == [] {
      assert a + b == a;
    } else {
      var b' := b[..|b| - 1];
      var op := b[|b| - 1];
      assert AllFit(b', m);
      ReplayAppend(m, a, b');
      assert a + b == (a + b') + [op];
      assert b == b' + [op];
      ReplaySnoc(m, a + b', op);
      var p := Replay(m, a);
      if p.ec == Ok {
        FitSameRows(b', m, p.m);
        FitSameRows(b, m, p.m);
        ReplaySnoc(p.m, b', op);
      }
    }
  }

  /** Two successive steps that replay compose into one that replays. */
  lemma ReplaysTrans(s0: KState, s1: KState, r: Run)
    requires s0.m.Wf() && s1.m.Wf() && SameDim(s0.m, s1.m)
    requires s0.trace <= s1.trace <= r.s.trace
    requires AllFit(Added(s0, s1), s0.m) && Replay(s0.m, Added(s0, s1)) == Written(s1.m, Ok)
    requires Replays(s1, r)
    ensures Replays(s0, r)
  {
    ReplaysDef(s1, r);
    ReplaysDef(s0, r);
    if !r.flow.Fail? {
      var a := Added(s0, s1);
      var b := Added(s1, r.s);
      assert Added(s0, r.s) == a + b;
      FitSameRows(b, s1.m, s0.m);
      ReplayAppend(s0.m, a, b);
    }
  }

  /** A step that carried on, followed by another step, is one step that replays. */
  lemma Chain(s: KState, a: Run, r: Run)
    requires s.m.Wf() && Steps(s, a.s) && Replays(s, a) && a.flow == Go
    requires Steps(a.s, r.s) && Replays(a.s, r)
    ensures Steps(s, r.s) && Replays(s, r)
  {
    ReplaysDef(s, a);
    ReplaysTrans(s, a.s, r);
  }

  /** A step that added nothing and did not fail left the matrix as it was. */
  lemma ReplaysNothing(s: KState, r: Run)
    requires s.m.Wf() && s.trace == r.s.trace && r.s.m == s.m
    ensures Replays(s, r)
  {
    assert Added(s, r.s) == [];
    ReplaysDef(s, r);
  }

  /** Recording the result of applying `op` is a step that replays. */
  lemma ReplaysRecord(s: KState, op: RowOp, m': Matrix)
    requires s.m.Wf() && Counted(s) && op.FitsIn(s.m) && Apply(s.m, op) == Written(m', Ok)
    ensures Replays(s, Record(s, op, m'))
  {
    var r := Record(s, op, m');
    assert Added(s, r.s) == [op];
    assert [op][..0] == [];
    assert Replay(s.m, [op]) == Apply(s.m, op);
    ReplaysDef(s, r);
  }

  /** A failed step replays vacuously. */
  lemma ReplaysFail(s: KState, r: Run)
    requires s.m.Wf() && |s.trace| <= |r.s.trace| && r.flow.Fail?
    ensures Replays(s, r)
  {
    ReplaysDef(s, r);
  }

  // ---------------------------------------------------------------------
  // Observed and unobserved runs
  // ---------------------------------------------------------------------

  /**
   * s1 and s2 are the same point of a run, s1 under an observer that stops
   * after T ops, s2 without observer; the observer has not fired yet.
   */
  predicate Twin(s1: KState, s2: KState, T: nat) {
    s1.m == s2.m && s1.trace == s2.trace && s2.obs.None? &&
    s1.obs.Some? && s1.obs.value.target == T && Counted(s1) && |s1.trace| < T
  }

  /**
   * The observed outcome r1 is the unobserved outcome r2 cut after T ops:
   * identical while r2 applied fewer than T ops, otherwise a Stop holding
   * exactly the first T ops of r2.
   */
  predicate Truncated(r1: Run, r2: Run, T: nat) {
    if |r2.s.trace| < T then
      r1.flow == r2.flow && r1.s.m == r2.s.m && r1.s.trace == r2.s.trace
    else
      r1.flow == Stop && |r1.s.trace| == T && r1.s.trace == r2.s.trace[..T]
  }

  /** Truncated behind a non-literal recursion, expanded only by CutDef (as Replays). */
  ghost predicate Cut(r1: Run, r2: Run, T: nat) {
    CutAt(r1, r2, T, |r2.s.trace| + 1)
  }

  ghost predicate CutAt(r1: Run, r2: Run, T: nat, depth: nat)
    decreases depth
  {
    if depth == 0 then Truncated(r1, r2, T) else CutAt(r1, r2, T, depth - 1)
  }

  lemma {:induction false} CutAtDef(r1: Run, r2: Run, T: nat, depth: nat)
    ensures CutAt(r1, r2, T, depth) <==> Truncated(r1, r2, T)
    decreases depth
  {
    if depth > 0 {
      CutAtDef(r1, r2, T, depth - 1);
    }
  }

  lemma CutDef(r1: Run, r2: Run, T: nat)
    ensures Cut(r1, r2, T) <==> Truncated(r1, r2, T)
  {
    CutAtDef(r1, r2, T, |r2.s.trace| + 1);
  }

  /** Runs that end alike before the target are cut from each other. */
  lemma CutSame(r1: Run, r2: Run, T: nat)
    requires |r2.s.trace| < T && r1.flow == r2.flow && r1.s.m == r2.s.m && r1.s.trace == r2.s.trace
    ensures Cut(r1, r2, T)
  {
    CutDef(r1, r2, T);
  }

  /** Sequencing: `a` then (if it carried on) `b`, as the early returns of the kernels do. */
  function Then(a: Run, b: Run): Run {
    if a.flow != Go then a else b
  }

  /**
   * Cut is preserved by sequencing: if the first steps are related and, when
   * both carried on below T, so are the continuations, then the whole runs are.
   */
  lemma CutThen(T: nat, a1: Run, a2: Run, b1: Run, b2: Run)
    requires Cut(a1, a2, T) && a2.flow != Stop && a2.s.trace <= b2.s.trace
    requires a1.flow == Go && |a2.s.trace| < T ==> Cut(b1, b2, T)
    ensures Cut(Then(a1, b1), Then(a2, b2), T)
  {
    CutDef(a1, a2, T);
    CutDef(b1, b2, T);
    CutDef(Then(a1, b1), Then(a2, b2), T);
    if |a2.s.trace| >= T {
      var r2 := Then(a2, b2);
      assert a2.s.trace <= r2.s.trace;
      assert r2.s.trace[..T] == a2.s.trace[..T];
    }
  }

  /** Twins whose first steps both carried on below T are twins again. */
  lemma TwinAfter(s1: KState, s2: KState, T: nat, a1: Run, a2: Run)
    requires Twin(s1, s2, T) && Cut(a1, a2, T) && Steps(s1, a1.s) && Steps(s2, a2.s)
    requires a1.flow == Go && |a2.s.trace| < T
    ensures Twin(a1.s, a2.s, T) && a2.flow == Go
  {
    CutDef(a1, a2, T);
  }

  /** Two states at the same point, neither about to record, stay twins. */
  lemma TwinStays(s1: KState, s2: KState, T: nat)
    requires Twin(s1, s2, T)
    ensures Cut(Run(s1, Go), Run(s2, Go), T)
  {
    CutDef(Run(s1, Go), Run(s2, Go), T);
  }

  /** Recording the same op in twin states gives cut outcomes. */
  lemma CutRecord(s1: KState, s2: KState, T: nat, op: RowOp, m': Matrix)
    requires Twin(s1, s2, T)
    ensures Cut(Record(s1, op, m'), Record(s2, op, m'), T)
    ensures Record(s2, op, m').flow == Go
  {
    var r2 := Record(s2, op, m');
    CutDef(Record(s1, op, m'), r2, T);
    if |r2.s.trace| >= T {
      assert r2.s.trace[..T] == r2.s.trace;
    }
  }

  // ---------------------------------------------------------------------
  // Pivot search
  // ---------------------------------------------------------------------

  /** The first row at or below `from` whose entry in `col` is nonzero. */
  function FindPivot(m: Matrix, col: nat, from: nat): (r: Option<nat>)
    requires m.Wf() && col < m.cols && from <= m.rows
    ensures r.Some? ==> from <= r.value < m.rows && !m.cells[r.value][col].IsZero()
    ensures r.Some? ==> forall i :: from <= i < r.value ==> m.cells[i][col].IsZero()
    ensures r.None? <==> forall i :: from <= i < m.rows ==> m.cells[i][col].IsZero()
    decreases m.rows - from
  {
    if from == m.rows then None
    else if !m.cells[from][col].IsZero() then Some(from)
    else FindPivot(m, col, from + 1)
  }
}
