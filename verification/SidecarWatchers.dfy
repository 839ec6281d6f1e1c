/**
  One watcher process runs per (resource, namespace) pair, and all of them write to the same
  file system. Every interleaving of their file steps ends in the file system that running
  them one after another produces, and every watcher sees what it would have seen alone.
*/
module SidecarWatchers {
  import opened Wrappers
  import opened SidecarFiles
  import opened Sidecar
  import opened SidecarNames

  /** One file step of a process. */
  datatype Act = Act(op: FileOp, remove: bool)

  datatype Tick = Tick(proc: nat, act: Act)

  function Perform(files: Files, acts: seq<Act>): Files
  {
    if acts == [] then files
    else ApplyOp(Perform(files, acts[..|acts| - 1]), acts[|acts| - 1].op, acts[|acts| - 1].remove)
  }

  /** The change flags the steps return. */
  function Flags(files: Files, acts: seq<Act>): (flags: seq<bool>)
    ensures |flags| == |acts|
  {
    if acts == [] then []
    else
      var init, last := acts[..|acts| - 1], acts[|acts| - 1];
      Flags(files, init) + [OpReports(Perform(files, init), last.op, last.remove)]
  }

  function ActsOf(ticks: seq<Tick>): (acts: seq<Act>)
    ensures |acts| == |ticks| && forall i | 0 <= i < |acts| :: acts[i] == ticks[i].act
  {
    seq(|ticks|, i requires 0 <= i < |ticks| => ticks[i].act)
  }

  /** The steps of one process, in the order the schedule runs them. */
  function Project(ticks: seq<Tick>, proc: nat): seq<Act>
  {
    if ticks == [] then []
    else
      var rest, last := Project(ticks[..|ticks| - 1], proc), ticks[|ticks| - 1];
      if last.proc == proc then rest + [last.act] else rest
  }

  /** The change flags that one process gets back under a schedule. */
  function Observed(files: Files, ticks: seq<Tick>, proc: nat): seq<bool>
  {
    if ticks == [] then []
    else
      var init, last := ticks[..|ticks| - 1], ticks[|ticks| - 1];
      var rest := Observed(files, init, proc);
      if last.proc == proc
        then rest + [OpReports(Perform(files, ActsOf(init)), last.act.op, last.act.remove)] else rest
  }

  ghost predicate IsSchedule(ticks: seq<Tick>, programs: seq<seq<Act>>)
  {
    && (forall t | 0 <= t < |ticks| :: ticks[t].proc < |programs|)
    && (forall i | 0 <= i < |programs| :: Project(ticks, i) == programs[i])
  }

  /** Steps of different processes never address the same path. */
  ghost predicate PathsApart(ticks: seq<Tick>)
  {
    forall t, u | 0 <= t < |ticks| && 0 <= u < |ticks| && ticks[t].proc != ticks[u].proc ::
      ticks[t].act.op.path != ticks[u].act.op.path
  }

  /** Under a schedule, process `proc` is the only one that addresses `p`. */
  ghost predicate Owns(ticks: seq<Tick>, proc: nat, p: string)
  {
    forall t | 0 <= t < |ticks| && ticks[t].act.op.path == p :: ticks[t].proc == proc
  }

  lemma PerformSnoc(files: Files, ticks: seq<Tick>)
    requires ticks != []
    ensures
      var init, last := ticks[..|ticks| - 1], ticks[|ticks| - 1];
      Perform(files, ActsOf(ticks)) == ApplyOp(Perform(files, ActsOf(init)), last.act.op, last.act.remove)
  {
    assert ActsOf(ticks)[..|ticks| - 1] == ActsOf(ticks[..|ticks| - 1]);
  }

  lemma PerformOne(files: Files, acts: seq<Act>, act: Act)
    ensures Perform(files, acts + [act]) == ApplyOp(Perform(files, acts), act.op, act.remove)
    ensures Flags(files, acts + [act]) == Flags(files, acts) + [OpReports(Perform(files, acts), act.op, act.remove)]
  {
    assert (acts + [act])[..|acts|] == acts;
  }

  /** On the paths a process owns, the schedule does what the process alone does. */
  lemma {:induction false} OwnView(files: Files, ticks: seq<Tick>, proc: nat, p: string)
    requires Owns(ticks, proc, p)
    ensures Get(Perform(files, ActsOf(ticks)), p) == Get(Perform(files, Project(ticks, proc)), p)
  {
    if ticks != [] {
      var init, last := ticks[..|ticks| - 1], ticks[|ticks| - 1];
      assert Owns(init, proc, p);
      OwnView(files, init, proc, p);
      PerformSnoc(files, ticks);
      PerformOne(files, Project(init, proc), last.act);
    }
  }

  /** Every process gets exactly the change flags it would get if it ran alone. */
  lemma {:induction false} ObservesAlone(files: Files, ticks: seq<Tick>, proc: nat)
    requires PathsApart(ticks)
    ensures Observed(files, ticks, proc) == Flags(files, Project(ticks, proc))
  {
    if ticks != [] {
      var init, last := ticks[..|ticks| - 1], ticks[|ticks| - 1];
      ObservesAlone(files, init, proc);
      if last.proc == proc {
        assert Owns(init, proc, last.act.op.path);
        OwnView(files, init, proc, last.act.op.path);
        PerformOne(files, Project(init, proc), last.act);
        assert Get(Perform(files, ActsOf(init)), last.act.op.path) ==
          Get(Perform(files, Project(init, proc)), last.act.op.path);
      }
    }
  }

  lemma {:induction false} UntouchedPath(files: Files, ticks: seq<Tick>, p: string)
    requires forall t | 0 <= t < |ticks| :: ticks[t].act.op.path != p
    ensures Get(Perform(files, ActsOf(ticks)), p) == Get(files, p)
  {
    if ticks != [] {
      UntouchedPath(files, ticks[..|ticks| - 1], p);
      PerformSnoc(files, ticks);
    }
  }

  lemma {:induction false} ProjectionKeepsActs(ticks: seq<Tick>, t: nat) returns (k: nat)
    requires t < |ticks|
    ensures k < |Project(ticks, ticks[t].proc)| && Project(ticks, ticks[t].proc)[k] == ticks[t].act
  {
    var last := |ticks| - 1;
    if t == last {
      k := |Project(ticks, ticks[t].proc)| - 1;
    } else {
      k := ProjectionKeepsActs(ticks[..last], t);
    }
  }

  lemma {:induction false} ProjectionAddsNothing(ticks: seq<Tick>, proc: nat, k: nat) returns (t: nat)
    requires k < |Project(ticks, proc)|
    ensures t < |ticks| && ticks[t].proc == proc && ticks[t].act == Project(ticks, proc)[k]
  {
    var last := |ticks| - 1;
    if ticks[last].proc == proc && k == |Project(ticks, proc)| - 1 {
      t := last;
    } else {
      t := ProjectionAddsNothing(ticks[..last], proc, k);
    }
  }

  /** Programs whose steps address different paths pairwise. */
  ghost predicate ProgramsApart(programs: seq<seq<Act>>)
  {
    forall i: nat, j: nat, k: nat, l: nat | i < |programs| && j < |programs| && i != j &&
      0 <= k < |programs[i]| && 0 <= l < |programs[j]| :: programs[i][k].op.path != programs[j][l].op.path
  }

  lemma ScheduleIsApart(ticks: seq<Tick>, programs: seq<seq<Act>>)
    requires IsSchedule(ticks, programs) && ProgramsApart(programs)
    ensures PathsApart(ticks)
  {
    forall t, u | 0 <= t < |ticks| && 0 <= u < |ticks| && ticks[t].proc != ticks[u].proc
      ensures ticks[t].act.op.path != ticks[u].act.op.path
    {
      var k := ProjectionKeepsActs(ticks, t);
      var l := ProjectionKeepsActs(ticks, u);
      assert programs[ticks[t].proc][k] == ticks[t].act && programs[ticks[u].proc][l] == ticks[u].act;
    }
  }

  lemma SchedulesAgreeAt(files: Files, one: seq<Tick>, two: seq<Tick>, programs: seq<seq<Act>>, p: string)
    requires IsSchedule(one, programs) && IsSchedule(two, programs) && PathsApart(one) && PathsApart(two)
    ensures Get(Perform(files, ActsOf(one)), p) == Get(Perform(files, ActsOf(two)), p)
  {
    if t :| 0 <= t < |one| && one[t].act.op.path == p {
      var i := one[t].proc;
      var k := ProjectionKeepsActs(one, t);
      var u := ProjectionAddsNothing(two, i, k);
      assert Owns(one, i, p) && Owns(two, i, p);
      OwnView(files, one, i, p);
      OwnView(files, two, i, p);
    } else if u :| 0 <= u < |two| && two[u].act.op.path == p {
      var i := two[u].proc;
      var k := ProjectionKeepsActs(two, u);
      var t := ProjectionAddsNothing(one, i, k);
    } else {
      UntouchedPath(files, one, p);
      UntouchedPath(files, two, p);
    }
  }

  /**
    With disjoint paths, any two schedules of the same processes end in the same file system,
    and under every schedule each process observes what it observes alone.
  */
  lemma WatchersCommute(files: Files, one: seq<Tick>, two: seq<Tick>, programs: seq<seq<Act>>)
    requires IsSchedule(one, programs) && IsSchedule(two, programs) && ProgramsApart(programs)
    ensures Perform(files, ActsOf(one)) == Perform(files, ActsOf(two))
    ensures forall i | 0 <= i < |programs| :: Observed(files, one, i) == Flags(files, programs[i])
  {
    ScheduleIsApart(one, programs);
    ScheduleIsApart(two, programs);
    var a, b := Perform(files, ActsOf(one)), Perform(files, ActsOf(two));
    forall p: string ensures Get(a, p) == Get(b, p) {
      SchedulesAgreeAt(files, one, two, programs, p);
    }
    assert forall p :: p in a <==> Get(a, p).Some?;
    assert forall p :: p in b <==> Get(b, p).Some?;
    assert a == b;
    forall i | 0 <= i < |programs| ensures Observed(files, one, i) == Flags(files, programs[i]) {
      ObservesAlone(files, one, i);
    }
  }

  // --------------------------------------------------------- one after another

  function Tag(proc: nat, acts: seq<Act>): (ticks: seq<Tick>)
    ensures |ticks| == |acts| && forall i | 0 <= i < |acts| :: ticks[i] == Tick(proc, acts[i])
  {
    seq(|acts|, i requires 0 <= i < |acts| => Tick(proc, acts[i]))
  }

  /** The first `n` programs, one after another. */
  function OneByOne(programs: seq<seq<Act>>, n: nat): seq<Tick>
    requires n <= |programs|
  {
    if n == 0 then [] else OneByOne(programs, n - 1) + Tag(n - 1, programs[n - 1])
  }

  lemma {:induction false} ProjectTag(ticks: seq<Tick>, proc: nat, acts: seq<Act>, i: nat)
    ensures Project(ticks + Tag(proc, acts), i) == Project(ticks, i) + if i == proc then acts else []
  {
    if acts == [] {
      assert ticks + Tag(proc, acts) == ticks;
    } else {
      var init := acts[..|acts| - 1];
      var whole := ticks + Tag(proc, acts);
      assert whole[..|whole| - 1] == ticks + Tag(proc, init);
      ProjectTag(ticks, proc, init, i);
      assert acts == init + [acts[|acts| - 1]];
    }
  }

  lemma {:induction false} OneByOneIsSchedule(programs: seq<seq<Act>>, n: nat, i: nat)
    requires n <= |programs|
    ensures Project(OneByOne(programs, n), i) == if i < n then programs[i] else []
    ensures forall t | 0 <= t < |OneByOne(programs, n)| :: OneByOne(programs, n)[t].proc < n
  {
    if n > 0 {
      OneByOneIsSchedule(programs, n - 1, i);
      ProjectTag(OneByOne(programs, n - 1), n - 1, programs[n - 1], i);
    }
  }

  // ---------------------------------------------------- the watchers themselves

  datatype Watcher = Watcher(cfg: Config, ignore: bool, namespace: string, events: seq<Event>)

  function ToActs(ops: seq<FileOp>, remove: bool): (acts: seq<Act>)
    ensures |acts| == |ops| && forall i | 0 <= i < |acts| :: acts[i] == Act(ops[i], remove)
  {
    seq(|ops|, i requires 0 <= i < |ops| => Act(ops[i], remove))
  }

  /** The version map alone; it never looks at the file system. */
  function VersionsRun(ignore: bool, events: seq<Event>): map<string, string>
  {
    if events == [] then map[]
    else
      var before, e := VersionsRun(ignore, events[..|events| - 1]), events[|events| - 1];
      if !ignore || (Seen(before, e.obj.meta) && !e.kind.Deleted?) then before else VersionsAfter(before, e)
  }

  /** The file steps of a watch run: the steps of every event that is not skipped. */
  function Program(w: Watcher): seq<Act>
    decreases |w.events|
  {
    if w.events == [] then []
    else
      var init, e := w.events[..|w.events| - 1], w.events[|w.events| - 1];
      var rest := Program(w.(events := init));
      if w.ignore && Seen(VersionsRun(w.ignore, init), e.obj.meta) && !e.kind.Deleted? then rest
      else rest + ToActs(Ops(w.cfg, e.obj), e.kind.Deleted?)
  }

  lemma {:induction false} PerformObject(files: Files, acts: seq<Act>, ops: seq<FileOp>, remove: bool)
    ensures Perform(files, acts + ToActs(ops, remove)) == Apply(Perform(files, acts), ops, remove)
  {
    if ops == [] {
      assert acts + ToActs(ops, remove) == acts;
    } else {
      var init := ops[..|ops| - 1];
      PerformObject(files, acts, init, remove);
      var last := Act(ops[|ops| - 1], remove);
      assert acts + ToActs(ops, remove) == (acts + ToActs(init, remove)) + [last];
      PerformOne(files, acts + ToActs(init, remove), last);
    }
  }

  /** A watcher's program, performed, is its watch run. */
  lemma {:induction false} ProgramIsWatchRun(w: Watcher, files: Files)
    ensures
      var end := WatchRun(w.cfg, w.ignore, Snapshot(files, map[], []), w.events);
      end.files == Perform(files, Program(w)) && end.versions == VersionsRun(w.ignore, w.events)
    decreases |w.events|
  {
    if w.events != [] {
      var init, e := w.events[..|w.events| - 1], w.events[|w.events| - 1];
      ProgramIsWatchRun(w.(events := init), files);
      PerformObject(files, Program(w.(events := init)), Ops(w.cfg, e.obj), e.kind.Deleted?);
    }
  }

  predicate EntriesOk(entries: Option<seq<Entry>>)
  {
    entries.Some? ==> forall i | 0 <= i < |entries.value| :: Without('/', entries.value[i].key)
  }

  /** Kubernetes names: no slash anywhere and no dot in a namespace; the watcher's own namespace, or any. */
  predicate EventOk(w: Watcher, e: Event)
  {
    var meta := e.obj.meta;
    && Without('.', meta.namespace) && Without('/', meta.namespace) && Without('/', meta.name)
    && (w.namespace == "ALL" || w.namespace == meta.namespace)
    && EntriesOk(e.obj.data) && EntriesOk(e.obj.binaryData)
  }

  predicate WatcherOk(w: Watcher)
  {
    w.cfg.uniqueFilenames && forall i | 0 <= i < |w.events| :: EventOk(w, w.events[i])
  }

  predicate Separated(v: Watcher, w: Watcher)
  {
    v.cfg.resource != w.cfg.resource ||
    (v.namespace != "ALL" && w.namespace != "ALL" && v.namespace != w.namespace)
  }

  /** The shape of every path that a watcher of `resource` in `namespace` with unique filenames addresses. */
  ghost predicate PathOf(resource: Resource, namespace: string, p: string, folder: string, file: string, meta: Meta)
  {
    && Without('/', file) && Without('/', meta.namespace) && Without('/', meta.name) && Without('.', meta.namespace)
    && (namespace == "ALL" || namespace == meta.namespace)
    && p == Join(folder, UniqueFilename(file, meta.namespace, resource.Name(), meta.name))
  }

  ghost predicate ComesFrom(resource: Resource, namespace: string, p: string)
  {
    exists folder, file, meta :: PathOf(resource, namespace, p, folder, file, meta)
  }

  lemma EntryPath(w: Watcher, e: Event, entry: Entry)
    requires w.cfg.uniqueFilenames && EventOk(w, e) && Without('/', entry.key)
    ensures ComesFrom(w.cfg.resource, w.namespace, OpFor(w.cfg, e.obj.meta, entry).path)
  {
    var file := if IsUrlKey(entry.key) then entry.key[..|entry.key| - 4] else entry.key;
    assert PathOf(w.cfg.resource, w.namespace, OpFor(w.cfg, e.obj.meta, entry).path,
                  DestinationFolder(w.cfg, e.obj.meta), file, e.obj.meta);
  }

  lemma EntriesPath(w: Watcher, e: Event, entries: Option<seq<Entry>>, binary: bool, k: nat)
    requires w.cfg.uniqueFilenames && EventOk(w, e) && EntriesOk(entries)
    requires k < |EntryOps(w.cfg, e.obj.meta, entries, binary)|
    ensures ComesFrom(w.cfg.resource, w.namespace, EntryOps(w.cfg, e.obj.meta, entries, binary)[k].path)
  {
    OpsForAt(w.cfg, e.obj.meta, entries.value, binary);
    var entry := Written(entries.value, binary)[k];
    assert entry in entries.value;
    EntryPath(w, e, entry);
  }

  lemma EventEntries(w: Watcher, e: Event)
    requires EventOk(w, e)
    ensures EntriesOk(e.obj.data) && EntriesOk(e.obj.binaryData)
  {
  }

  lemma ObjectPath(w: Watcher, e: Event, k: nat)
    requires w.cfg.uniqueFilenames && EventOk(w, e) && k < |Ops(w.cfg, e.obj)|
    ensures ComesFrom(w.cfg.resource, w.namespace, Ops(w.cfg, e.obj)[k].path)
  {
    hide EntryOps;
    hide ComesFrom;
    hide EventOk;
    EventEntries(w, e);
    hide EntriesOk;
    var n := |EntryOps(w.cfg, e.obj.meta, e.obj.data, w.cfg.resource.Secret?)|;
    if k < n {
      EntriesPath(w, e, e.obj.data, w.cfg.resource.Secret?, k);
    } else {
      EntriesPath(w, e, e.obj.binaryData, true, k - n);
    }
  }

  lemma {:induction false} ProgramAct(w: Watcher, k: nat) returns (i: nat, j: nat)
    requires k < |Program(w)|
    ensures i < |w.events| && j < |Ops(w.cfg, w.events[i].obj)| && Program(w)[k].op == Ops(w.cfg, w.events[i].obj)[j]
    decreases |w.events|
  {
    hide Ops;
    hide VersionsRun;
    hide Seen;
    var init := w.events[..|w.events| - 1];
    var rest := Program(w.(events := init));
    if k < |rest| {
      i, j := ProgramAct(w.(events := init), k);
    } else {
      i, j := |init|, k - |rest|;
    }
  }

  lemma ProgramPath(w: Watcher, k: nat)
    requires WatcherOk(w) && k < |Program(w)|
    ensures ComesFrom(w.cfg.resource, w.namespace, Program(w)[k].op.path)
  {
    var i, j := ProgramAct(w, k);
    ObjectPath(w, w.events[i], j);
  }

  lemma SeparatedPathsDiffer(v: Watcher, w: Watcher, p: string)
    requires Separated(v, w) && ComesFrom(v.cfg.resource, v.namespace, p)
    ensures !ComesFrom(w.cfg.resource, w.namespace, p)
  {
    var f1, file1, m1 :| PathOf(v.cfg.resource, v.namespace, p, f1, file1, m1);
    forall f2, file2, m2 ensures !PathOf(w.cfg.resource, w.namespace, p, f2, file2, m2) {
      if PathOf(w.cfg.resource, w.namespace, p, f2, file2, m2) {
        SamePathSameOrigin(v, w, p, f1, file1, m1, f2, file2, m2);
      }
    }
  }

  lemma SamePathSameOrigin(v: Watcher, w: Watcher, p: string, f1: string, file1: string, m1: Meta,
                           f2: string, file2: string, m2: Meta)
    requires PathOf(v.cfg.resource, v.namespace, p, f1, file1, m1)
    requires PathOf(w.cfg.resource, w.namespace, p, f2, file2, m2)
    ensures v.cfg.resource == w.cfg.resource && m1.namespace == m2.namespace
  {
    var u1 := UniqueFilename(file1, m1.namespace, v.cfg.resource.Name(), m1.name);
    var u2 := UniqueFilename(file2, m2.namespace, w.cfg.resource.Name(), m2.name);
    JoinedNamesEqual(f1, u1, f2, u2);
    UniqueFilenameEqualIff(file1, m1.namespace, v.cfg.resource, m1.name, file2, m2.namespace, w.cfg.resource, m2.name);
  }

  function Programs(watchers: seq<Watcher>): (programs: seq<seq<Act>>)
    ensures |programs| == |watchers| && forall i | 0 <= i < |watchers| :: programs[i] == Program(watchers[i])
  {
    seq(|watchers|, i requires 0 <= i < |watchers| => Program(watchers[i]))
  }

  /**
    With unique filenames, watchers for different (resource, namespace) pairs can be interleaved
    in any way: the file system ends up as if they had run one after another in any fixed order,
    and no watcher sees another one's work.
  */
  lemma SeparatedWatchersCommute(files: Files, watchers: seq<Watcher>, ticks: seq<Tick>)
    requires forall i | 0 <= i < |watchers| :: WatcherOk(watchers[i])
    requires forall i, j | 0 <= i < |watchers| && 0 <= j < |watchers| && i != j :: Separated(watchers[i], watchers[j])
    requires IsSchedule(ticks, Programs(watchers))
    ensures Perform(files, ActsOf(ticks)) == Perform(files, ActsOf(OneByOne(Programs(watchers), |watchers|)))
    ensures forall i | 0 <= i < |watchers| :: Observed(files, ticks, i) == Flags(files, Program(watchers[i]))
  {
    var programs: seq<seq<Act>> := Programs(watchers);
    forall i: nat, j: nat, k: nat, l: nat | i < |programs| && j < |programs| && i != j &&
      k < |programs[i]| && l < |programs[j]|
      ensures programs[i][k].op.path != programs[j][l].op.path
    {
      ProgramPath(watchers[i], k);
      ProgramPath(watchers[j], l);
      SeparatedPathsDiffer(watchers[i], watchers[j], programs[i][k].op.path);
    }
    forall i | 0 <= i < |programs| ensures Project(OneByOne(programs, |programs|), i) == programs[i] {
      OneByOneIsSchedule(programs, |programs|, i);
    }
    OneByOneIsSchedule(programs, |programs|, 0);
    WatchersCommute(files, ticks, OneByOne(programs, |programs|), programs);
  }
}
