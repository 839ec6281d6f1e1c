/**
  The code generator's pseudo file system: merging file sets, writing them to disk with
  concurrent workers, and verifying what is on disk.
*/
module WriteDiffer {
  import opened Wrappers

  type Bytes = seq<int>

  datatype Item = Item(path: string, contents: Bytes)

  /** The files on disk, by cleaned path. */
  type Disk = map<string, Bytes>

  // --------------------------------------------------------------------- Merge

  class Differ {
    var files: map<string, Bytes>

    constructor()
      ensures files == map[]
    {
      files := map[];
    }

    /**
      Entries are visited in no particular order and added until one is already there, so a
      refused merge can leave some of the new entries behind, but never changes an old one.
    */
    method Merge(other: map<string, Bytes>) returns (ok: bool)
      modifies this
      ensures ok <==> forall k | k in other :: k !in old(files)
      ensures ok ==> Extends(old(files), files, other, other.Keys)
      ensures !ok ==> exists done :: done <= other.Keys && Extends(old(files), files, other, done)
    {
      var done: set<string> := {};
      while done != other.Keys
        invariant Extends(old(files), files, other, done)
        invariant done !! old(files).Keys
        decreases other.Keys - done
      {
        var k :| k in other && k !in done;
        if k in files {
          return false;
        }
        ExtendByOne(old(files), files, other, done, k);
        files := files[k := other[k]];
        done := done + {k};
      }
      return true;
    }
  }

  /** `after` is `before` with the entries of `other` under `done` added, and nothing else changed. */
  ghost predicate Extends(before: map<string, Bytes>, after: map<string, Bytes>, other: map<string, Bytes>, done: set<string>)
  {
    && done <= other.Keys
    && after.Keys == before.Keys + done
    && (forall k | k in before :: after[k] == before[k])
    && (forall k | k in done :: after[k] == other[k])
  }

  lemma ExtendByOne(before: map<string, Bytes>, after: map<string, Bytes>, other: map<string, Bytes>, done: set<string>, k: string)
    requires Extends(before, after, other, done) && k in other && k !in after
    ensures Extends(before, after[k := other[k]], other, done + {k})
  {
  }

  /** Folding Merge over a list of file sets. */
  function MergeAll(sets: seq<map<string, Bytes>>): Option<map<string, Bytes>>
  {
    if sets == [] then Some(map[])
    else
      var rest, last := MergeAll(sets[..|sets| - 1]), sets[|sets| - 1];
      if rest.Some? && rest.value.Keys !! last.Keys then Some(rest.value + last) else None
  }

  /** What callers do with a list of file sets: merge one after another, until one is refused. */
  method MergeEach(sets: seq<map<string, Bytes>>) returns (d: Differ, ok: bool)
    ensures fresh(d)
    ensures ok <==> MergeAll(sets).Some?
    ensures ok ==> d.files == MergeAll(sets).value
  {
    d := new Differ();
    for i := 0 to |sets|
      invariant fresh(d)
      invariant MergeAll(sets[..i]) == Some(d.files)
    {
      assert sets[..i + 1][..i] == sets[..i];
      ghost var before := d.files;
      ok := d.Merge(sets[i]);
      if !ok {
        assert MergeAll(sets[..i + 1]).None?;
        RefusedStaysRefused(sets, i + 1);
        return;
      }
      assert d.files == before + sets[i];
    }
    assert sets[..|sets|] == sets;
    ok := true;
  }

  lemma {:induction false} RefusedStaysRefused(sets: seq<map<string, Bytes>>, n: nat)
    requires n <= |sets| && MergeAll(sets[..n]).None?
    ensures MergeAll(sets).None?
  {
    if n == |sets| {
      assert sets[..n] == sets;
    } else {
      assert sets[..|sets| - 1][..n] == sets[..n];
      RefusedStaysRefused(sets[..|sets| - 1], n);
    }
  }

  ghost predicate PairwiseDisjoint(sets: seq<map<string, Bytes>>)
  {
    forall i, j | 0 <= i < j < |sets| :: sets[i].Keys !! sets[j].Keys
  }

  ghost predicate IsUnion(sets: seq<map<string, Bytes>>, u: map<string, Bytes>)
  {
    && (forall k | k in u :: exists i :: 0 <= i < |sets| && k in sets[i])
    && (forall i, k | 0 <= i < |sets| && k in sets[i] :: k in u && u[k] == sets[i][k])
  }

  /** Merging a list succeeds exactly when its key sets are pairwise disjoint, and gives their union. */
  lemma {:induction false} MergeAllIffDisjoint(sets: seq<map<string, Bytes>>)
    ensures MergeAll(sets).Some? <==> PairwiseDisjoint(sets)
    ensures MergeAll(sets).Some? ==> IsUnion(sets, MergeAll(sets).value)
  {
    if sets != [] {
      var init, last := sets[..|sets| - 1], sets[|sets| - 1];
      MergeAllIffDisjoint(init);
      if PairwiseDisjoint(sets) {
        DisjointSnoc(sets);
      }
      if MergeAll(sets).Some? {
        UnionSnoc(sets, MergeAll(init).value);
      }
    }
  }

  lemma DisjointSnoc(sets: seq<map<string, Bytes>>)
    requires sets != [] && PairwiseDisjoint(sets)
    ensures PairwiseDisjoint(sets[..|sets| - 1])
    ensures forall i | 0 <= i < |sets| - 1 :: sets[i].Keys !! sets[|sets| - 1].Keys
  {
  }

  lemma UnionSnoc(sets: seq<map<string, Bytes>>, u: map<string, Bytes>)
    requires sets != [] && IsUnion(sets[..|sets| - 1], u) && PairwiseDisjoint(sets[..|sets| - 1])
    requires u.Keys !! sets[|sets| - 1].Keys
    ensures IsUnion(sets, u + sets[|sets| - 1]) && PairwiseDisjoint(sets)
  {
    var init, last := sets[..|sets| - 1], sets[|sets| - 1];
    assert forall i | 0 <= i < |init| :: init[i] == sets[i];
    forall k | k in u + last ensures exists i :: 0 <= i < |sets| && k in sets[i] {
      if k in last {
        assert k in sets[|init|];
      } else {
        var i :| 0 <= i < |init| && k in init[i];
        assert k in sets[i];
      }
    }
    forall i, j | 0 <= i < j < |sets| ensures sets[i].Keys !! sets[j].Keys {
      assert forall k | k in sets[i] && i < |init| :: k in init[i];
    }
  }

  /** `others` lists the same sets in another order; `to` and `from` are the index maps. */
  ghost predicate Reordered(sets: seq<map<string, Bytes>>, others: seq<map<string, Bytes>>, to: seq<nat>, from: seq<nat>)
  {
    && |sets| == |others| == |to| == |from|
    && (forall i | 0 <= i < |to| :: to[i] < |from| && from[to[i]] == i && others[to[i]] == sets[i])
    && (forall i | 0 <= i < |from| :: from[i] < |to| && to[from[i]] == i)
  }

  lemma ReorderedDisjoint(sets: seq<map<string, Bytes>>, others: seq<map<string, Bytes>>, to: seq<nat>, from: seq<nat>)
    requires Reordered(sets, others, to, from) && PairwiseDisjoint(sets)
    ensures PairwiseDisjoint(others)
  {
    forall i, j | 0 <= i < j < |others| ensures others[i].Keys !! others[j].Keys {
      var a, b := from[i], from[j];
      assert to[a] == i && to[b] == j;
      assert sets[a].Keys !! sets[b].Keys;
    }
  }

  lemma ReorderedUnion(sets: seq<map<string, Bytes>>, others: seq<map<string, Bytes>>, to: seq<nat>, from: seq<nat>,
                       u: map<string, Bytes>, v: map<string, Bytes>)
    requires Reordered(sets, others, to, from) && IsUnion(sets, u) && IsUnion(others, v)
    ensures u == v
  {
    forall k | k in u ensures k in v && u[k] == v[k] {
      var i :| 0 <= i < |sets| && k in sets[i];
      assert others[to[i]] == sets[i];
    }
    forall k | k in v ensures k in u {
      var i :| 0 <= i < |others| && k in others[i];
      assert to[from[i]] == i && others[i] == sets[from[i]];
    }
  }

  /** The order in which file sets are merged changes neither the verdict nor the result. */
  lemma MergeOrderIrrelevant(sets: seq<map<string, Bytes>>, others: seq<map<string, Bytes>>, to: seq<nat>, from: seq<nat>)
    requires Reordered(sets, others, to, from)
    ensures MergeAll(sets) == MergeAll(others)
  {
    MergeAllIffDisjoint(sets);
    MergeAllIffDisjoint(others);
    if PairwiseDisjoint(sets) {
      ReorderedDisjoint(sets, others, to, from);
      ReorderedUnion(sets, others, to, from, MergeAll(sets).value, MergeAll(others).value);
    } else if PairwiseDisjoint(others) {
      Backwards(sets, others, to, from);
      ReorderedDisjoint(others, sets, from, to);
    }
  }

  lemma Backwards(sets: seq<map<string, Bytes>>, others: seq<map<string, Bytes>>, to: seq<nat>, from: seq<nat>)
    requires Reordered(sets, others, to, from)
    ensures Reordered(others, sets, from, to)
  {
    forall i | 0 <= i < |from| ensures sets[from[i]] == others[i] {
      assert to[from[i]] == i;
    }
  }

  // --------------------------------------------------------------------- Write

  /** Where a worker is: nothing done, parent directory made, file truncated, contents written. */
  datatype Stage = Start | DirMade | Truncated | Written

  /**
    The state of a Write: the disk and every worker's stage. `clean` is the path as the file
    system sees it, so two spellings of one path are one file.
  */
  datatype State = State(disk: Disk, dirs: set<string>, stages: seq<Stage>)

  datatype Job = Job(items: seq<Item>, clean: string -> string, parent: string -> string)

  /** A write at offset zero: what lies beyond the new contents stays. */
  function Overlay(old_: Bytes, contents: Bytes): Bytes
  {
    if |contents| < |old_| then contents + old_[|contents|..] else contents
  }

  function At(disk: Disk, p: string): Bytes
  {
    if p in disk then disk[p] else []
  }

  predicate Enabled(job: Job, s: State, w: nat)
  {
    w < |job.items| == |s.stages| && s.stages[w] != Written
  }

  /** Worker `w` takes its next action. */
  function Next(job: Job, s: State, w: nat): State
    requires Enabled(job, s, w)
  {
    var item := job.items[w];
    var p := job.clean(item.path);
    match s.stages[w]
    case Start => s.(dirs := s.dirs + {job.parent(p)}, stages := s.stages[w := DirMade])
    case DirMade => s.(disk := s.disk[p := []], stages := s.stages[w := Truncated])
    case Truncated => s.(disk := s.disk[p := Overlay(At(s.disk, p), item.contents)], stages := s.stages[w := Written])
    case Written => s
  }

  ghost predicate Moves(job: Job, run: seq<State>, schedule: seq<nat>, i: nat)
    requires i < |schedule| < |run|
  {
    Enabled(job, run[i], schedule[i]) && run[i + 1] == Next(job, run[i], schedule[i])
  }

  /** A complete, failure-free Write under some scheduling of its workers. */
  ghost predicate IsWrite(job: Job, disk: Disk, dirs: set<string>, run: seq<State>, schedule: seq<nat>)
  {
    && |run| == |schedule| + 1
    && run[0] == State(disk, dirs, seq(|job.items|, i => Start))
    && (forall i: nat | i < |schedule| :: Moves(job, run, schedule, i))
    && (forall w | 0 <= w < |run[|schedule|].stages| :: run[|schedule|].stages[w] == Written)
  }

  /** Items that land on one file agree on its contents. */
  ghost predicate Consistent(job: Job)
  {
    forall i, j | 0 <= i < |job.items| && 0 <= j < |job.items| && job.clean(job.items[i].path) == job.clean(job.items[j].path) ::
      job.items[i].contents == job.items[j].contents
  }

  ghost predicate Addressed(job: Job, p: string)
  {
    exists w :: 0 <= w < |job.items| && job.clean(job.items[w].path) == p
  }

  /** Some worker has truncated the file and has not written it yet. */
  ghost predicate HalfDone(job: Job, s: State, p: string)
    requires |s.stages| == |job.items|
  {
    exists w :: 0 <= w < |job.items| && job.clean(job.items[w].path) == p && s.stages[w] == Truncated
  }

  /** Once a worker has started on its file, the file is empty or complete, and complete if nobody is half done. */
  ghost predicate WorkerOk(job: Job, s: State, w: nat)
    requires w < |job.items| == |s.stages|
  {
    var p := job.clean(job.items[w].path);
    (s.stages[w] == Truncated || s.stages[w] == Written) ==>
      p in s.disk && (s.disk[p] == job.items[w].contents || (s.disk[p] == [] && HalfDone(job, s, p)))
  }

  ghost predicate Inv(job: Job, disk: Disk, s: State)
  {
    && |s.stages| == |job.items|
    && (forall w: nat | w < |job.items| :: WorkerOk(job, s, w))
    && (forall p: string :: !Addressed(job, p) ==> (p in s.disk <==> p in disk) && At(s.disk, p) == At(disk, p))
  }

  lemma StepKeepsOther(job: Job, disk: Disk, s: State, w: nat, p: string)
    requires Enabled(job, s, w) && !Addressed(job, p)
    ensures var s' := Next(job, s, w); (p in s'.disk <==> p in s.disk) && At(s'.disk, p) == At(s.disk, p)
  {
    assert job.clean(job.items[w].path) != p;
  }

  lemma HalfDoneStays(job: Job, s: State, s': State, w: nat, p: string)
    requires |s.stages| == |s'.stages| == |job.items| && w < |job.items|
    requires s'.stages == s.stages[w := s'.stages[w]]
    requires HalfDone(job, s, p) && (s.stages[w] != Truncated || job.clean(job.items[w].path) != p)
    ensures HalfDone(job, s', p)
  {
    var v :| 0 <= v < |job.items| && job.clean(job.items[v].path) == p && s.stages[v] == Truncated;
    assert s'.stages[v] == Truncated;
  }

  lemma StepKeepsWorker(job: Job, disk: Disk, s: State, w: nat, v: nat)
    requires Inv(job, disk, s) && Consistent(job) && Enabled(job, s, w) && v < |job.items|
    ensures WorkerOk(job, Next(job, s, w), v)
  {
    var s' := Next(job, s, w);
    var p, q := job.clean(job.items[w].path), job.clean(job.items[v].path);
    assert WorkerOk(job, s, v) && WorkerOk(job, s, w);
    if p == q {
      if s.stages[w] == DirMade {
        assert s'.stages[w] == Truncated;
        assert HalfDone(job, s', q);
      } else if s.stages[w] == Start && HalfDone(job, s, q) {
        HalfDoneStays(job, s, s', w, q);
      }
    } else if HalfDone(job, s, q) {
      HalfDoneStays(job, s, s', w, q);
    }
  }

  lemma {:induction false} WriteKeepsInv(job: Job, disk: Disk, dirs: set<string>, run: seq<State>, schedule: seq<nat>, n: nat)
    requires IsWrite(job, disk, dirs, run, schedule) && Consistent(job) && n < |run|
    ensures Inv(job, disk, run[n])
  {
    if n > 0 {
      WriteKeepsInv(job, disk, dirs, run, schedule, n - 1);
      assert Moves(job, run, schedule, n - 1);
      var s, w := run[n - 1], schedule[n - 1];
      forall v: nat | v < |job.items| ensures WorkerOk(job, Next(job, s, w), v) {
        StepKeepsWorker(job, disk, s, w, v);
      }
      forall p: string | !Addressed(job, p)
        ensures var s' := Next(job, s, w); (p in s'.disk <==> p in disk) && At(s'.disk, p) == At(disk, p)
      {
        StepKeepsOther(job, disk, s, w, p);
      }
    }
  }

  // -------------------------------------------------------------------- Verify

  predicate Agrees(job: Job, disk: Disk, item: Item)
  {
    var p := job.clean(item.path);
    p in disk && disk[p] == item.contents
  }

  /** Verify collects one error per file that is missing or differs. */
  method Verify(job: Job, disk: Disk) returns (errors: seq<string>)
    ensures errors == [] <==> forall i | 0 <= i < |job.items| :: Agrees(job, disk, job.items[i])
    ensures forall i | 0 <= i < |job.items| :: job.items[i].path in errors <==>
      exists j :: 0 <= j < |job.items| && job.items[j].path == job.items[i].path && !Agrees(job, disk, job.items[j])
  {
    errors := [];
    for n := 0 to |job.items|
      invariant errors == [] <==> forall i | 0 <= i < n :: Agrees(job, disk, job.items[i])
      invariant forall e :: e in errors <==>
        exists j :: 0 <= j < n && job.items[j].path == e && !Agrees(job, disk, job.items[j])
    {
      var item := job.items[n];
      var p := job.clean(item.path);
      if p !in disk {
        errors := errors + [item.path];
        continue;
      }
      if disk[p] != item.contents {
        errors := errors + [item.path];
      }
    }
  }

  /**
    After a successful Write, under every scheduling of the workers, every file verifies if and
    only if items that share a cleaned path share their contents.
  */
  lemma WriteThenVerifyIff(job: Job, disk: Disk, dirs: set<string>, run: seq<State>, schedule: seq<nat>)
    requires IsWrite(job, disk, dirs, run, schedule)
    ensures Consistent(job) <==>
      forall i | 0 <= i < |job.items| :: Agrees(job, run[|schedule|].disk, job.items[i])
  {
    var end := run[|schedule|];
    if Consistent(job) {
      WriteKeepsInv(job, disk, dirs, run, schedule, |schedule|);
      forall i: nat | i < |job.items| ensures Agrees(job, end.disk, job.items[i]) {
        assert WorkerOk(job, end, i);
      }
    }
  }

  /** With consistent items the final disk does not depend on the scheduling. */
  lemma WriteIsDeterministic(job: Job, disk: Disk, dirs: set<string>, run1: seq<State>, schedule1: seq<nat>,
                             run2: seq<State>, schedule2: seq<nat>)
    requires IsWrite(job, disk, dirs, run1, schedule1) && IsWrite(job, disk, dirs, run2, schedule2) && Consistent(job)
    ensures run1[|schedule1|].disk == run2[|schedule2|].disk
  {
    var a, b := run1[|schedule1|].disk, run2[|schedule2|].disk;
    WriteKeepsInv(job, disk, dirs, run1, schedule1, |schedule1|);
    WriteKeepsInv(job, disk, dirs, run2, schedule2, |schedule2|);
    WriteThenVerifyIff(job, disk, dirs, run1, schedule1);
    WriteThenVerifyIff(job, disk, dirs, run2, schedule2);
    forall p: string ensures (p in a <==> p in b) && At(a, p) == At(b, p) {
      if Addressed(job, p) {
        var w :| 0 <= w < |job.items| && job.clean(job.items[w].path) == p;
        assert Agrees(job, a, job.items[w]) && Agrees(job, b, job.items[w]);
      }
    }
    assert forall p | p in a :: a[p] == At(a, p);
    assert forall p | p in b :: b[p] == At(b, p);
  }
}
