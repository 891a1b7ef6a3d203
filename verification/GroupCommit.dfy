/**
  `Commits` of crates/zu-zu1/src/wal.rs: writers that share the syncs of one log,
  each step under its lock, in any order between them, with syncs that fail and a
  log that is cut while they wait.
 */
module GroupCommit {
  import opened Common

  /** How far the log is written and how far it is taken to be durable. */
  datatype Marks = Marks(staged: nat, durable: nat, running: Option<nat>, failed: bool, waiting: int)

  /**
    Where a writer is in `sync_through`: at the top of its loop, pausing for others,
    syncing, or back. A sync under way covers so many bytes of the log as it is now.
   */
  datatype Phase = Owing(counted: bool) | Pausing | Syncing(target: nat, covers: nat) | Returned(ok: bool)

  /** A commit, the byte it ends at, and whether the log was cut below that byte since. */
  datatype Commit = Commit(need: nat, cut: bool, phase: Phase)

  /** The marks, how many bytes of the log as it is now are on the platter, and all commits so far. */
  datatype Log = Log(marks: Marks, platter: nat, commits: seq<Commit>)

  function Start(len: nat): Log { Log(Marks(len, len, None, false, 0), len, []) }

  // ---- steps ----

  datatype Step =
    | Spill(len: nat)
    | Stage(len: nat)
    | Reset(len: nat, synced: bool)
    | Look(i: nat, gather: bool)
    | Resume(i: nat)
    | Land(i: nat, ok: bool)

  predicate Can(s: Log, step: Step) {
    match step
    case Look(i, _) => i < |s.commits| && s.commits[i].phase.Owing?
    case Resume(i) => i < |s.commits| && s.commits[i].phase.Pausing?
    case Land(i, _) => i < |s.commits| && s.commits[i].phase.Syncing?
    case _ => true
  }

  function Put(s: Log, i: nat, marks: Marks, phase: Phase): Log
    requires i < |s.commits|
  { s.(marks := marks, commits := s.commits[i := s.commits[i].(phase := phase)]) }

  /** What a cut to `len` bytes does to a commit and to the sync it may be in. */
  function CutTo(c: Commit, len: nat): Commit {
    var phase := if c.phase.Syncing? then c.phase.(covers := Min(c.phase.covers, len)) else c.phase;
    Commit(c.need, c.cut || len < c.need, phase)
  }

  function CutAll(commits: seq<Commit>, len: nat): (r: seq<Commit>)
    ensures |r| == |commits| && forall i :: 0 <= i < |r| ==> r[i] == CutTo(commits[i], len)
  { seq(|commits|, i requires 0 <= i < |commits| => CutTo(commits[i], len)) }

  /** `reset`. */
  function Cut(s: Log, len: nat, synced: bool): Log {
    var marks := s.marks.(staged := len, durable := if synced then len else 0,
                          failed := !synced && s.marks.failed);
    Log(marks, if synced then len else Min(s.platter, len), CutAll(s.commits, len))
  }

  /** One turn of the loop of `sync_through`, to the wait, the pause, the sync or the return. */
  function Turn(s: Log, i: nat, gather: bool): Log
    requires Can(s, Look(i, gather))
  {
    var m, c := s.marks, s.commits[i];
    var counted := if c.phase.counted then 1 else 0;
    if !m.failed && (m.durable >= c.need || m.staged < c.need) then
      Put(s, i, m.(waiting := m.waiting - counted), Returned(true))
    else
      var now := m.(waiting := m.waiting + 1 - counted);
      if m.running.Some? then Put(s, i, now, Owing(true))
      else if gather then Put(s, i, now.(running := Some(m.staged)), Pausing)
      else Put(s, i, now.(running := Some(m.staged)), Syncing(m.staged, m.staged))
  }

  /** A sync that is over. */
  function Landed(s: Log, i: nat, ok: bool): Log
    requires Can(s, Land(i, ok))
  {
    var m, c := s.marks, s.commits[i];
    var now := if ok then m.(durable := Max(m.durable, c.phase.target), failed := false) else m.(failed := true);
    var t := Put(s, i, now.(running := None, waiting := m.waiting - 1), Returned(ok));
    t.(platter := if ok then Max(s.platter, c.phase.covers) else s.platter)
  }

  function Do(s: Log, step: Step): Log
    requires Can(s, step)
  {
    var m := s.marks;
    match step
    case Spill(len) => s.(marks := m.(staged := Max(m.staged, len)))
    case Stage(len) =>
      s.(marks := m.(staged := Max(m.staged, len)), commits := s.commits + [Commit(len, false, Owing(false))])
    case Reset(len, synced) => Cut(s, len, synced)
    case Look(i, gather) => Turn(s, i, gather)
    case Resume(i) => Put(s, i, m.(running := Some(m.staged)), Syncing(m.staged, m.staged))
    case Land(i, ok) => Landed(s, i, ok)
  }

  /** A run, if every step of it can be taken. */
  function After(s: Log, steps: seq<Step>): Option<Log>
    decreases |steps|
  {
    if steps == [] then Some(s)
    else if Can(s, steps[0]) then After(Do(s, steps[0]), steps[1..])
    else None
  }

  // ---- what every run keeps ----

  predicate Leads(c: Commit) { c.phase.Pausing? || c.phase.Syncing? }

  predicate Waits(c: Commit) { Leads(c) || c.phase == Owing(true) }

  function Waiting(commits: seq<Commit>): nat {
    if commits == [] then 0
    else Waiting(commits[..|commits| - 1]) + if Waits(commits[|commits| - 1]) then 1 else 0
  }

  /** A commit's byte is in the log or was cut off, and a sync that it leads will cover it. */
  predicate Sane(c: Commit, staged: nat) {
    (c.cut || c.need <= staged) &&
    (c.phase.Syncing? ==> c.phase.covers <= c.phase.target && c.phase.covers <= staged &&
                          (c.cut || c.need <= c.phase.covers))
  }

  /** One leader while a sync is announced and none otherwise, and the count of those who wait is right. */
  predicate Inv(s: Log) {
    s.platter <= s.marks.staged &&
    (forall i :: 0 <= i < |s.commits| ==> Sane(s.commits[i], s.marks.staged)) &&
    (forall i, j :: 0 <= i < j < |s.commits| ==> !(Leads(s.commits[i]) && Leads(s.commits[j]))) &&
    (s.marks.running.Some? <==> exists i :: 0 <= i < |s.commits| && Leads(s.commits[i])) &&
    s.marks.waiting == Waiting(s.commits)
  }

  lemma {:induction false} WaitingPut(commits: seq<Commit>, i: nat, c: Commit)
    requires i < |commits|
    ensures Waiting(commits[i := c]) + (if Waits(commits[i]) then 1 else 0)
         == Waiting(commits) + if Waits(c) then 1 else 0
  {
    hide Waits;
    var last := |commits| - 1;
    var now := commits[i := c];
    if i < last {
      WaitingPut(commits[..last], i, c);
      assert now[..last] == commits[..last][i := c];
    } else {
      assert now[..last] == commits[..last];
    }
  }

  lemma {:induction false} WaitingCut(commits: seq<Commit>, len: nat)
    ensures Waiting(CutAll(commits, len)) == Waiting(commits)
  {
    if commits != [] {
      var last := |commits| - 1;
      WaitingCut(commits[..last], len);
      assert CutAll(commits, len)[..last] == CutAll(commits[..last], len);
    }
  }

  lemma WaitingMore(commits: seq<Commit>, c: Commit)
    ensures Waiting(commits + [c]) == Waiting(commits) + if Waits(c) then 1 else 0
  {
    assert (commits + [c])[..|commits|] == commits;
  }

  lemma StepKeeps(s: Log, step: Step)
    requires Inv(s) && Can(s, step)
    ensures Inv(Do(s, step))
  {
    hide Waiting;
    match step
    case Spill(_) =>
    case Stage(len) => StageKeeps(s, len);
    case Reset(len, synced) => CutKeeps(s, len, synced);
    case Look(i, gather) => TurnKeeps(s, i, gather);
    case Resume(i) => WaitingPut(s.commits, i, Do(s, step).commits[i]);
    case Land(i, ok) => LandKeeps(s, i, ok);
  }

  lemma StageKeeps(s: Log, len: nat)
    requires Inv(s)
    ensures Inv(Do(s, Stage(len)))
  {
    hide Waiting;
    var c := Commit(len, false, Owing(false));
    var t := Do(s, Stage(len));
    WaitingMore(s.commits, c);
    assert t.commits == s.commits + [c] && !Leads(c);
    assert forall i :: 0 <= i < |s.commits| ==> t.commits[i] == s.commits[i];
  }

  lemma CutKeeps(s: Log, len: nat, synced: bool)
    requires Inv(s)
    ensures Inv(Cut(s, len, synced))
  {
    hide Waiting;
    var t := Cut(s, len, synced);
    WaitingCut(s.commits, len);
    assert forall i :: 0 <= i < |s.commits| ==> (Leads(t.commits[i]) <==> Leads(s.commits[i]));
  }

  lemma TurnKeeps(s: Log, i: nat, gather: bool)
    requires Inv(s) && Can(s, Look(i, gather))
    ensures Inv(Turn(s, i, gather))
  {
    hide Waiting;
    var t := Turn(s, i, gather);
    WaitingPut(s.commits, i, t.commits[i]);
    assert forall j :: 0 <= j < |s.commits| && j != i ==> t.commits[j] == s.commits[j];
    if Leads(t.commits[i]) { assert 0 <= i < |t.commits| && Leads(t.commits[i]); }
  }

  lemma LandKeeps(s: Log, i: nat, ok: bool)
    requires Inv(s) && Can(s, Land(i, ok))
    ensures Inv(Landed(s, i, ok))
  {
    hide Waiting;
    var t := Landed(s, i, ok);
    WaitingPut(s.commits, i, t.commits[i]);
    assert Leads(s.commits[i]);
    assert forall j :: 0 <= j < |s.commits| && j != i ==> t.commits[j] == s.commits[j] && !Leads(s.commits[j]);
  }

  /** Every run: nobody waits with no leader to wait for, there are never two, and the count never wraps. */
  lemma {:induction false} EveryRunKeeps(s: Log, steps: seq<Step>)
    requires Inv(s)
    ensures After(s, steps).Some? ==> Inv(After(s, steps).value)
    decreases |steps|
  {
    hide Inv, Can, Do;
    if steps != [] && Can(s, steps[0]) {
      StepKeeps(s, steps[0]);
      EveryRunKeeps(Do(s, steps[0]), steps[1..]);
    }
  }

  // ---- the promise ----

  /** A commit that came back well is on the platter, or the log was cut below it. */
  predicate Kept(c: Commit, platter: nat) { c.phase == Returned(true) ==> c.cut || c.need <= platter }

  predicate Promise(s: Log) { forall i :: 0 <= i < |s.commits| ==> Kept(s.commits[i], s.platter) }

  /** What is taken to be durable is, and a sync in the air will have made what it says durable. */
  predicate Truthful(s: Log) {
    s.marks.durable <= s.platter &&
    forall i :: 0 <= i < |s.commits| && s.commits[i].phase.Syncing? ==>
      s.commits[i].phase.covers == s.commits[i].phase.target
  }

  /** A cut is quiet when no sync is in the air that claims more than it leaves. */
  predicate Quiet(s: Log, len: nat) {
    forall i :: 0 <= i < |s.commits| && s.commits[i].phase.Syncing? ==> s.commits[i].phase.target <= len
  }

  predicate QuietRun(s: Log, steps: seq<Step>)
    decreases |steps|
  {
    steps == [] ||
    (Can(s, steps[0]) && (steps[0].Reset? ==> Quiet(s, steps[0].len)) && QuietRun(Do(s, steps[0]), steps[1..]))
  }

  lemma StepPromises(s: Log, step: Step)
    requires Inv(s) && Promise(s) && Truthful(s) && Can(s, step) && (step.Reset? ==> Quiet(s, step.len))
    ensures Promise(Do(s, step)) && Truthful(Do(s, step))
  {
    hide Waiting;
    var t := Do(s, step);
    match step
    case Spill(_) =>
    case Stage(len) => assert t.commits == s.commits + [Commit(len, false, Owing(false))];
    case Reset(len, synced) => CutPromises(s, len, synced);
    case Look(i, gather) => TurnPromises(s, i, gather);
    case Resume(i) =>
    case Land(i, ok) => LandPromises(s, i, ok);
  }

  lemma CutPromises(s: Log, len: nat, synced: bool)
    requires Inv(s) && Promise(s) && Truthful(s) && Quiet(s, len)
    ensures Promise(Cut(s, len, synced)) && Truthful(Cut(s, len, synced))
  {
    hide Waiting;
  }

  lemma TurnPromises(s: Log, i: nat, gather: bool)
    requires Inv(s) && Promise(s) && Truthful(s) && Can(s, Look(i, gather))
    ensures Promise(Turn(s, i, gather)) && Truthful(Turn(s, i, gather))
  {
    hide Waiting;
    assert Sane(s.commits[i], s.marks.staged);
  }

  lemma LandPromises(s: Log, i: nat, ok: bool)
    requires Inv(s) && Promise(s) && Truthful(s) && Can(s, Land(i, ok))
    ensures Promise(Landed(s, i, ok)) && Truthful(Landed(s, i, ok))
  {
    hide Waiting;
    assert Sane(s.commits[i], s.marks.staged);
  }

  /** Where every cut is quiet the promise holds throughout, and `durable` is never above `staged`. */
  lemma {:induction false} QuietRunsPromise(s: Log, steps: seq<Step>)
    requires Inv(s) && Promise(s) && Truthful(s) && QuietRun(s, steps)
    ensures After(s, steps).Some?
    ensures var t := After(s, steps).value;
            Inv(t) && Promise(t) && Truthful(t) && t.marks.durable <= t.platter <= t.marks.staged
    decreases |steps|
  {
    if steps != [] {
      hide Promise, Truthful, Do, Can, Quiet, Waiting;
      StepKeeps(s, steps[0]);
      StepPromises(s, steps[0]);
      QuietRunsPromise(Do(s, steps[0]), steps[1..]);
    }
  }

  /** A log just opened is such a state. */
  lemma FromTheStart(len: nat, steps: seq<Step>)
    requires QuietRun(Start(len), steps)
    ensures After(Start(len), steps).Some?
    ensures var t := After(Start(len), steps).value;
            Inv(t) && Promise(t) && t.marks.durable <= t.platter <= t.marks.staged
  {
    assert Inv(Start(len)) && Promise(Start(len)) && Truthful(Start(len));
    hide Inv, Promise, Truthful;
    QuietRunsPromise(Start(len), steps);
  }

  /** After a cut that is not quiet: the sync lands, and a commit staged next comes back with nothing synced for it. */
  function Breaking(s: Log, i: nat, len: nat, synced: bool): seq<Step> {
    [Reset(len, synced), Land(i, true), Stage(len + 1), Look(|s.commits|, false)]
  }

  lemma LoudBreaks(s: Log, i: nat, len: nat, synced: bool)
    requires Inv(s) && i < |s.commits| && s.commits[i].phase.Syncing? && len < s.commits[i].phase.target
    ensures var r := After(s, Breaking(s, i, len, synced));
            r.Some? &&
            var t := r.value;
            |t.commits| == |s.commits| + 1 && !Kept(t.commits[|s.commits|], t.platter) && !Promise(t)
  {
    hide Waiting, Inv;
    var a := Cut(s, len, synced);
    var sync := s.commits[i].phase;
    assert a.platter <= len && a.commits[i].phase == Syncing(sync.target, Min(sync.covers, len));
    var b := Landed(a, i, true);
    assert b.platter <= len && b.marks.durable > len && !b.marks.failed && |b.commits| == |s.commits|;
    var c := Do(b, Stage(len + 1));
    var n := |s.commits|;
    assert c.commits[n] == Commit(len + 1, false, Owing(false));
    var d := Turn(c, n, false);
    assert d.commits[n] == Commit(len + 1, false, Returned(true)) && d.platter == b.platter;
    AfterFour(s, Reset(len, synced), Land(i, true), Stage(len + 1), Look(n, false));
  }

  lemma AfterFour(s: Log, p: Step, q: Step, u: Step, v: Step)
    requires Can(s, p) && Can(Do(s, p), q) && Can(Do(Do(s, p), q), u) && Can(Do(Do(Do(s, p), q), u), v)
    ensures After(s, [p, q, u, v]) == Some(Do(Do(Do(Do(s, p), q), u), v))
  {
    hide Do, Can;
    var a, b, c := Do(s, p), Do(Do(s, p), q), Do(Do(Do(s, p), q), u);
    assert [p, q, u, v][1..] == [q, u, v] && [q, u, v][1..] == [u, v] && [u, v][1..] == [v] && [v][1..] == [];
    assert After(c, [v]) == After(Do(c, v), []);
    assert After(b, [u, v]) == After(c, [v]);
    assert After(a, [q, u, v]) == After(b, [u, v]);
  }

  /** A cut can be made, whatever comes after it, exactly when it is quiet. */
  lemma CutIsSafeIff(s: Log, len: nat, synced: bool)
    requires Inv(s) && Promise(s) && Truthful(s)
    ensures Quiet(s, len) <==>
      forall steps: seq<Step> :: QuietRun(Cut(s, len, synced), steps) ==>
        After(Cut(s, len, synced), steps).Some? && Promise(After(Cut(s, len, synced), steps).value)
  {
    hide Waiting;
    var t := Cut(s, len, synced);
    if Quiet(s, len) {
      CutKeeps(s, len, synced);
      CutPromises(s, len, synced);
      forall steps: seq<Step> | QuietRun(t, steps)
        ensures After(t, steps).Some? && Promise(After(t, steps).value)
      {
        QuietRunsPromise(t, steps);
      }
    } else {
      var i :| 0 <= i < |s.commits| && s.commits[i].phase.Syncing? && s.commits[i].phase.target > len;
      var all := Breaking(s, i, len, synced);
      LoudBreaks(s, i, len, synced);
      var steps := all[1..];
      assert After(s, all) == After(Do(s, all[0]), steps);
      RunsAreQuiet(t, steps);
    }
  }

  /** A run that can be taken and cuts nothing is quiet. */
  lemma {:induction false} RunsAreQuiet(s: Log, steps: seq<Step>)
    requires After(s, steps).Some? && forall k :: 0 <= k < |steps| ==> !steps[k].Reset?
    ensures QuietRun(s, steps)
    decreases |steps|
  {
    hide Do, Can;
    if steps != [] { RunsAreQuiet(Do(s, steps[0]), steps[1..]); }
  }

  /**
    A checkpoint cuts the log while a sync of 100 bytes is in the air; it lands, and
    the next commit, of 60 bytes, comes back at once with none of them synced.
   */
  lemma LostCommit()
    ensures var steps := [Stage(100), Look(0, false), Reset(0, false), Land(0, true), Stage(60), Look(1, false)];
            var r := After(Start(0), steps);
            r.Some? && r.value.commits[1..] == [Commit(60, false, Returned(true))] && r.value.platter == 0
            && r.value.marks.durable == 100 && r.value.marks.staged == 60
  {
    var a := Do(Start(0), Stage(100));
    assert a == Log(Marks(100, 0, None, false, 0), 0, [Commit(100, false, Owing(false))]);
    var b := Do(a, Look(0, false));
    assert b.marks == Marks(100, 0, Some(100), false, 1) && b.commits == [Commit(100, false, Syncing(100, 100))];
    var c := Do(b, Reset(0, false));
    assert c.marks == Marks(0, 0, Some(100), false, 1) && c.commits == [Commit(100, true, Syncing(100, 0))];
    var d := Do(c, Land(0, true));
    assert d.marks == Marks(0, 100, None, false, 0) && d.commits == [Commit(100, true, Returned(true))];
    assert d.platter == 0;
    var e := Do(d, Stage(60));
    assert e.commits == [Commit(100, true, Returned(true)), Commit(60, false, Owing(false))];
    var steps := [Stage(100), Look(0, false), Reset(0, false), Land(0, true), Stage(60), Look(1, false)];
    assert steps[1..][1..] == [Reset(0, false), Land(0, true), Stage(60), Look(1, false)];
    hide Do;
    AfterFour(b, Reset(0, false), Land(0, true), Stage(60), Look(1, false));
    assert After(Start(0), steps) == After(a, steps[1..]);
    assert steps[1..][0] == Look(0, false);
    assert After(a, steps[1..]) == After(b, steps[1..][1..]);
  }

  // ---- what sharing gives ----

  lemma AfterOne(s: Log, step: Step)
    ensures After(s, [step]) == if Can(s, step) then Some(Do(s, step)) else None
  {
    hide Do, Can;
    assert [step][0] == step && [step][1..] == [];
    if Can(s, step) { assert After(Do(s, step), []) == Some(Do(s, step)); }
  }

  /**
    Writing the log out moves its end up and never down, and nothing else: no byte of it
    is durable by that, no sync begins or ends, and no commit moves. A commit that is
    staged is one more, owing, whose byte is that end.
   */
  lemma StagedGrows(s: Log, len: nat, commit: bool)
    ensures var t := After(s, [if commit then Stage(len) else Spill(len)]);
            t.Some? && s.marks.staged <= t.value.marks.staged && len <= t.value.marks.staged
            && t.value.marks.staged in {s.marks.staged, len}
            && t.value.marks.(staged := s.marks.staged) == s.marks && t.value.platter == s.platter
            && |t.value.commits| == |s.commits| + (if commit then 1 else 0)
            && t.value.commits[..|s.commits|] == s.commits
            && (commit ==> t.value.commits[|s.commits|] == Commit(len, false, Owing(false)))
  {
    AfterOne(s, if commit then Stage(len) else Spill(len));
  }

  /** A run is its first part and then its second. */
  lemma {:induction false} AfterConcat(s: Log, a: seq<Step>, b: seq<Step>)
    ensures After(s, a + b) == if After(s, a).Some? then After(After(s, a).value, b) else None
    decreases |a|
  {
    hide Do, Can;
    if a == [] {
      assert a + b == b;
    } else {
      assert (a + b)[0] == a[0] && (a + b)[1..] == a[1..] + b;
      if Can(s, a[0]) { AfterConcat(Do(s, a[0]), a[1..], b); }
    }
  }

  /** Where a commit is after a run, if the run can be taken. */
  function PhaseAfter(s: Log, steps: seq<Step>, i: nat): Option<Phase> {
    var t :- After(s, steps);
    if i < |t.commits| then Some(t.commits[i].phase) else None
  }

  predicate IsBack(phase: Option<Phase>) { phase == Some(Returned(true)) }

  /** `start` is where commit `i` begins its sync. */
  predicate Begins(s: Log, start: Step, i: nat) {
    i < |s.commits| && !s.commits[i].phase.Syncing?
    && var phase := PhaseAfter(s, [start], i); phase.Some? && phase.value.Syncing?
  }

  /** Commit `i` syncs at least `len` bytes, and commit `j`, which needs `need`, is owed something or is back well. */
  predicate Rides(s: Log, i: nat, len: nat, j: nat, need: nat) {
    i < |s.commits| && j < |s.commits| && i != j
    && s.commits[i].phase.Syncing? && len <= s.commits[i].phase.target
    && s.commits[j].need == need && (s.commits[j].phase.Owing? || s.commits[j].phase == Returned(true))
  }

  /** Whatever is done while a sync is in the air, short of its landing. */
  lemma RidesOn(s: Log, step: Step, i: nat, len: nat, j: nat, need: nat)
    requires Inv(s) && Can(s, step) && Rides(s, i, len, j, need)
    ensures Rides(Do(s, step), i, len, j, need) || Do(s, step).commits[i].phase.Returned?
  {
    hide Waiting;
    assert Leads(s.commits[i]);
  }

  /** A commit that is back stays back. */
  lemma {:induction false} StaysBack(s: Log, steps: seq<Step>, i: nat)
    requires i < |s.commits| && s.commits[i].phase.Returned? && After(s, steps).Some?
    ensures i < |After(s, steps).value.commits| && After(s, steps).value.commits[i].phase == s.commits[i].phase
    decreases |steps|
  {
    if steps != [] {
      var t := Do(s, steps[0]);
      assert i < |t.commits| && t.commits[i].phase == s.commits[i].phase;
      hide Do, Can;
      StaysBack(t, steps[1..], i);
    }
  }

  lemma {:induction false} RidesThrough(s: Log, steps: seq<Step>, i: nat, len: nat, j: nat, need: nat)
    requires Inv(s) && Rides(s, i, len, j, need) && After(s, steps).Some?
    requires Can(After(s, steps).value, Land(i, true))
    ensures Inv(After(s, steps).value) && Rides(After(s, steps).value, i, len, j, need)
    decreases |steps|
  {
    if steps != [] {
      hide Do, Inv, Rides;
      var t := Do(s, steps[0]);
      StepKeeps(s, steps[0]);
      RidesOn(s, steps[0], i, len, j, need);
      if Rides(t, i, len, j, need) {
        RidesThrough(t, steps[1..], i, len, j, need);
      } else {
        hide Can;
        StaysBack(t, steps[1..], i);
        assert false by { BackCannotLand(After(t, steps[1..]).value, i); }
      }
    }
  }

  lemma BackCannotLand(s: Log, i: nat)
    requires i < |s.commits| && s.commits[i].phase.Returned?
    ensures !Can(s, Land(i, true))
  {
  }

  /** The commit is back well, or it is at its next turn. */
  ghost predicate BackNext(s: Log, j: nat) {
    IsBack(PhaseAfter(s, [], j)) || forall gather :: IsBack(PhaseAfter(s, [Look(j, gather)], j))
  }

  /**
    One sync is enough for everybody. Whatever is staged, cut or looked at while it is in
    the air, once it lands every commit that was owed something when it began is back
    well at its next turn: all whose byte was in the log by then, and all whose byte no
    longer is.
   */
  lemma OneSyncForAll(s: Log, start: Step, i: nat, mid: seq<Step>, j: nat)
    requires Inv(s) && Begins(s, start, i) && j < |s.commits| && j != i && s.commits[j].phase.Owing?
    requires After(s, [start] + mid + [Land(i, true)]).Some?
    ensures var t := After(s, [start] + mid + [Land(i, true)]).value;
            s.commits[j].need <= s.marks.staged || t.marks.staged < s.commits[j].need ==> BackNext(t, j)
  {
    hide Waiting, Inv;
    var need, len := s.commits[j].need, s.marks.staged;
    AfterOne(s, start);
    var a := Do(s, start);
    AfterConcat(s, [start] + mid, [Land(i, true)]);
    AfterConcat(s, [start], mid);
    var b := After(a, mid).value;
    AfterOne(b, Land(i, true));
    StepKeeps(s, start);
    assert Rides(a, i, len, j, need);
    RidesThrough(a, mid, i, len, j, need);
    var t := Do(b, Land(i, true));
    if need <= len || t.marks.staged < need {
      forall gather: bool | t.commits[j].phase.Owing? ensures IsBack(PhaseAfter(t, [Look(j, gather)], j)) {
        AfterOne(t, Look(j, gather));
      }
    }
  }

  /** With nothing in between: all that were owed something, whether or not the leader paused for them. */
  lemma BurstCostsOneSync(s: Log, i: nat, pauses: bool, j: nat)
    requires Inv(s) && s.marks.running == None
    requires var phase := PhaseAfter(s, [Look(i, pauses)], i);
             phase == Some(Pausing) || (phase.Some? && phase.value.Syncing?)
    requires j < |s.commits| && j != i && s.commits[j].phase.Owing?
    ensures var steps := [Look(i, pauses)] + (if pauses then [Resume(i)] else []) + [Land(i, true)];
            var r := After(s, steps);
            r.Some? && IsBack(PhaseAfter(s, steps, i)) && BackNext(r.value, j)
  {
    hide Waiting, Inv;
    AfterOne(s, Look(i, pauses));
    var a := Do(s, Look(i, pauses));
    if pauses {
      StepKeeps(s, Look(i, true));
      AfterOne(a, Resume(i));
      OneLands(a, Resume(i), i, j);
      AfterConcat(s, [Look(i, true)], [Resume(i), Land(i, true)]);
      assert [Look(i, true)] + [Resume(i), Land(i, true)] == [Look(i, true)] + [Resume(i)] + [Land(i, true)];
    } else {
      OneLands(s, Look(i, false), i, j);
      assert [Look(i, false)] + [] + [Land(i, true)] == [Look(i, false), Land(i, true)];
    }
  }

  lemma OneLands(s: Log, start: Step, i: nat, j: nat)
    requires Inv(s) && Begins(s, start, i) && j < |s.commits| && j != i && s.commits[j].phase.Owing?
    ensures var r := After(s, [start, Land(i, true)]);
            r.Some? && IsBack(PhaseAfter(s, [start, Land(i, true)], i)) && BackNext(r.value, j)
  {
    hide Waiting, Inv, BackNext;
    AfterOne(s, start);
    var a := Do(s, start);
    AfterOne(a, Land(i, true));
    AfterConcat(s, [start], [Land(i, true)]);
    assert [start] + [Land(i, true)] == [start, Land(i, true)] == [start] + [] + [Land(i, true)];
    OneSyncForAll(s, start, i, [], j);
  }

  /** The first commit that looks and is not served already takes the lead; a leader keeps all others waiting. */
  lemma SomeoneLeads(s: Log, i: nat, gather: bool)
    requires Inv(s) && Can(s, Look(i, gather))
    ensures var t := After(s, [Look(i, gather)]);
            t.Some? && i < |t.value.commits| &&
            (t.value.commits[i].phase == Returned(true)
             || if s.marks.running == None then Leads(t.value.commits[i])
                else t.value.commits[i].phase.Owing? && t.value.marks.running == s.marks.running)
  {
    hide Waiting, Inv;
    AfterOne(s, Look(i, gather));
  }

  /** Between a sync that failed and one that lands, or a cut that is synced, no commit comes back well. */
  lemma {:induction false} FailureStands(s: Log, steps: seq<Step>)
    requires s.marks.failed && After(s, steps).Some?
    requires forall k :: 0 <= k < |steps| ==> !(steps[k].Land? && steps[k].ok) && !(steps[k].Reset? && steps[k].synced)
    ensures var t := After(s, steps).value;
            t.marks.failed && |s.commits| <= |t.commits| &&
            forall i :: 0 <= i < |t.commits| && t.commits[i].phase == Returned(true) ==>
              i < |s.commits| && s.commits[i].phase == Returned(true)
    decreases |steps|
  {
    if steps != [] {
      FailureStep(s, steps[0]);
      hide Do, Can;
      FailureStands(Do(s, steps[0]), steps[1..]);
    }
  }

  lemma FailureStep(s: Log, step: Step)
    requires s.marks.failed && Can(s, step)
    requires !(step.Land? && step.ok) && !(step.Reset? && step.synced)
    ensures var t := Do(s, step);
            t.marks.failed && |s.commits| <= |t.commits| &&
            forall i :: 0 <= i < |t.commits| && t.commits[i].phase == Returned(true) ==>
              i < |s.commits| && s.commits[i].phase == Returned(true)
  {
  }

  /** The leader of a sync that failed is told so, and the log is marked. */
  lemma FailureIsTold(s: Log, i: nat)
    requires Can(s, Land(i, false))
    ensures var t := After(s, [Land(i, false)]);
            t.Some? && t.value.marks.failed && t.value.marks.durable == s.marks.durable
            && PhaseAfter(s, [Land(i, false)], i) == Some(Returned(false))
  {
    AfterOne(s, Land(i, false));
  }

  /** And the leader reaches its own byte, unless the log was cut below it. */
  lemma LeaderIsServed(s: Log, i: nat)
    requires Inv(s) && Can(s, Land(i, true))
    ensures Kept(Landed(s, i, true).commits[i], Landed(s, i, true).platter)
  {
    hide Waiting;
    assert Sane(s.commits[i], s.marks.staged);
  }

  /** `settled`. */
  predicate Settled(m: Marks) { !m.failed && m.durable >= m.staged }

  /** A log that says it is settled owes nothing: every byte of it is on the platter. */
  lemma SettledIsDurable(s: Log)
    requires Inv(s) && Truthful(s) && Settled(s.marks)
    ensures s.platter == s.marks.staged
  {
    hide Waiting;
  }

  /** A synced cut settles the log at once, whatever failed before it; any other leaves it owing all it holds. */
  lemma CutSettles(s: Log, len: nat, synced: bool)
    ensures var t := After(s, [Reset(len, synced)]);
            t.Some? && t.value.marks.staged == len
            && (Settled(t.value.marks) <==> synced || (len == 0 && !s.marks.failed))
  {
    AfterOne(s, Reset(len, synced));
  }
}
