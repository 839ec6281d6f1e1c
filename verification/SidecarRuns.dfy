/**
  Whole WATCH runs of the sidecar: skipping already processed versions changes nothing that can
  be observed, and what the files mirror afterwards.
*/
module SidecarRuns {
  import opened Wrappers
  import opened SidecarFiles
  import opened Sidecar

  predicate SameObject(a: Object, b: Object)
  {
    a.meta.namespace == b.meta.namespace && a.meta.name == b.meta.name
  }

  ghost predicate Touches(cfg: Config, e: Event, p: string)
  {
    Targets(Ops(cfg, e.obj), p)
  }

  ghost predicate Apart(cfg: Config, a: Object, b: Object)
  {
    forall p :: !(Targets(Ops(cfg, a), p) && Targets(Ops(cfg, b), p))
  }

  /** Own paths are distinct, and different objects never share one. */
  ghost predicate DisjointPaths(cfg: Config, events: seq<Event>)
  {
    && (forall i | 0 <= i < |events| :: DistinctPaths(Ops(cfg, events[i].obj)))
    && (forall i, j | 0 <= i < |events| && 0 <= j < |events| && !SameObject(events[i].obj, events[j].obj) ::
          Apart(cfg, events[i].obj, events[j].obj))
  }

  lemma PrefixIsDisjoint(cfg: Config, events: seq<Event>, n: nat)
    requires DisjointPaths(cfg, events) && n <= |events|
    ensures DisjointPaths(cfg, events[..n])
  {
  }

  // ----------------------------------------------------------- cache simulation

  /** A resourceVersion names one object with one content. */
  ghost predicate VersionsIdentify(events: seq<Event>)
  {
    forall i, j | 0 <= i < j < |events| && !events[i].kind.Deleted? && !events[j].kind.Deleted? &&
      events[i].obj.meta.version == events[j].obj.meta.version :: events[i].obj == events[j].obj
  }

  /** After a deletion, a version of the deleted object that was delivered before does not come back. */
  ghost predicate NoResurrection(events: seq<Event>)
  {
    forall i, d, j | 0 <= i < d < j < |events| && !events[i].kind.Deleted? && events[d].kind.Deleted? &&
      !events[j].kind.Deleted? && SameObject(events[i].obj, events[d].obj) ::
      events[i].obj.meta.version != events[j].obj.meta.version
  }

  ghost predicate DeletedAfter(events: seq<Event>, i: nat)
    requires i < |events|
  {
    exists d :: i < d < |events| && events[d].kind.Deleted? && SameObject(events[i].obj, events[d].obj)
  }

  /** Event `i` is the one a cache entry remembers, and its files are in place unless deleted since. */
  ghost predicate Remembers(cfg: Config, events: seq<Event>, files: Files, key: string, version: string, i: nat)
  {
    && i < |events|
    && !events[i].kind.Deleted?
    && CacheKey(events[i].obj.meta) == key
    && events[i].obj.meta.version == version
    && (DeletedAfter(events, i) || InPlace(files, Ops(cfg, events[i].obj), false))
  }

  ghost predicate CacheOk(cfg: Config, events: seq<Event>, s: Snapshot)
  {
    forall key | key in s.versions :: exists i: nat :: Remembers(cfg, events, s.files, key, s.versions[key], i)
  }

  lemma InPlaceSurvives(cfg: Config, files: Files, kept: Object, other: Object, remove: bool)
    requires Apart(cfg, kept, other) && InPlace(files, Ops(cfg, kept), false)
    ensures InPlace(Apply(files, Ops(cfg, other), remove), Ops(cfg, kept), false)
  {
    var ops := Ops(cfg, kept);
    forall i | 0 <= i < |ops| ensures !OpReports(Apply(files, Ops(cfg, other), remove), ops[i], false) {
      assert Targets(ops, ops[i].path);
      assert !OpReports(files, ops[i], false);
      ApplyElsewhere(files, Ops(cfg, other), remove, ops[i].path);
    }
  }

  /** An older cache entry is still good after the event `e` of a different cache key, or after a deletion. */
  lemma RemembersStays(cfg: Config, events: seq<Event>, e: Event, files: Files, key: string, version: string, i: nat)
    requires Remembers(cfg, events, files, key, version, i)
    requires SameObject(events[i].obj, e.obj) || Apart(cfg, events[i].obj, e.obj)
    requires SameObject(events[i].obj, e.obj) ==> e.kind.Deleted?
    ensures Remembers(cfg, events + [e], Apply(files, Ops(cfg, e.obj), e.kind.Deleted?), key, version, i)
  {
    var after := events + [e];
    if DeletedAfter(events, i) {
      var d :| i < d < |events| && events[d].kind.Deleted? && SameObject(events[i].obj, events[d].obj);
      assert after[d] == events[d] && after[i] == events[i];
    } else if SameObject(events[i].obj, e.obj) {
      assert after[|events|] == e && after[i] == events[i];
    } else {
      InPlaceSurvives(cfg, files, events[i].obj, e.obj, e.kind.Deleted?);
    }
  }

  lemma StepKeepsCache(cfg: Config, events: seq<Event>, e: Event, s: Snapshot)
    requires CacheOk(cfg, events, s) && DisjointPaths(cfg, events + [e])
    requires e.kind.Deleted? || !Seen(s.versions, e.obj.meta)
    ensures CacheOk(cfg, events + [e], WatchStep(cfg, true, s, e))
  {
    var s' := WatchStep(cfg, true, s, e);
    var n := |events|;
    forall key | key in s'.versions
      ensures exists i: nat :: Remembers(cfg, events + [e], s'.files, key, s'.versions[key], i)
    {
      if !e.kind.Deleted? && key == CacheKey(e.obj.meta) {
        assert (events + [e])[n] == e;
        AppliedIsInPlace(s.files, Ops(cfg, e.obj), false);
        assert Remembers(cfg, events + [e], s'.files, key, s'.versions[key], n);
      } else {
        var i: nat :| Remembers(cfg, events, s.files, key, s.versions[key], i);
        assert (events + [e])[i] == events[i] && (events + [e])[n] == e;
        RemembersStays(cfg, events, e, s.files, key, s.versions[key], i);
      }
    }
  }

  /** A skipped event is one the uncached loop would have processed without effect. */
  lemma SkippedIsQuiet(cfg: Config, events: seq<Event>, e: Event, s: Snapshot)
    requires CacheOk(cfg, events, s)
    requires VersionsIdentify(events + [e]) && NoResurrection(events + [e])
    requires !e.kind.Deleted? && Seen(s.versions, e.obj.meta)
    ensures InPlace(s.files, Ops(cfg, e.obj), false)
  {
    var all := events + [e];
    var i: nat :| Remembers(cfg, events, s.files, CacheKey(e.obj.meta), e.obj.meta.version, i);
    assert all[i] == events[i] && all[|events|] == e;
    assert events[i].obj == e.obj;
    forall d | i < d < |events|
      ensures !(events[d].kind.Deleted? && SameObject(events[i].obj, events[d].obj))
    {
      assert all[d] == events[d];
    }
  }

  lemma SkipKeepsCache(cfg: Config, events: seq<Event>, e: Event, s: Snapshot)
    requires CacheOk(cfg, events, s) && !e.kind.Deleted?
    ensures CacheOk(cfg, events + [e], s)
  {
    forall key | key in s.versions
      ensures exists i: nat :: Remembers(cfg, events + [e], s.files, key, s.versions[key], i)
    {
      var i: nat :| Remembers(cfg, events, s.files, key, s.versions[key], i);
      assert (events + [e])[i] == events[i];
      if DeletedAfter(events, i) {
        var d :| i < d < |events| && events[d].kind.Deleted? && SameObject(events[i].obj, events[d].obj);
        assert (events + [e])[d] == events[d];
      }
      assert Remembers(cfg, events + [e], s.files, key, s.versions[key], i);
    }
  }

  /** One event: the cached loop and the plain loop move from matching states to matching states. */
  lemma StepSimulates(cfg: Config, events: seq<Event>, e: Event, s: Snapshot, plain: Snapshot)
    requires CacheOk(cfg, events, s) && s.files == plain.files && s.notes == plain.notes
    requires VersionsIdentify(events + [e]) && NoResurrection(events + [e]) && DisjointPaths(cfg, events + [e])
    ensures
      var s', plain' := WatchStep(cfg, true, s, e), WatchStep(cfg, false, plain, e);
      s'.files == plain'.files && s'.notes == plain'.notes && CacheOk(cfg, events + [e], s')
  {
    hide Ops;
    hide CacheOk;
    hide InPlace;
    if !e.kind.Deleted? && Seen(s.versions, e.obj.meta) {
      SkippedIsQuiet(cfg, events, e, s);
      InPlaceIsQuiet(s.files, Ops(cfg, e.obj), false);
      SkipKeepsCache(cfg, events, e, s);
    } else {
      StepKeepsCache(cfg, events, e, s);
    }
  }

  /**
    The loop that ignores already processed versions produces the same files and the same
    notifications as the loop that processes everything, on every event stream in which a
    version names one content, deleted versions do not return and objects keep to their paths.
  */
  lemma {:induction false} CacheSimulation(cfg: Config, files: Files, events: seq<Event>)
    requires VersionsIdentify(events) && NoResurrection(events) && DisjointPaths(cfg, events)
    ensures
      var start := Snapshot(files, map[], []);
      var cached, plain := WatchRun(cfg, true, start, events), WatchRun(cfg, false, start, events);
      cached.files == plain.files && cached.notes == plain.notes && CacheOk(cfg, events, cached)
  {
    if events != [] {
      var init, e := events[..|events| - 1], events[|events| - 1];
      assert init + [e] == events;
      PrefixIsDisjoint(cfg, events, |init|);
      CacheSimulation(cfg, files, init);
      var start := Snapshot(files, map[], []);
      StepSimulates(cfg, init, e, WatchRun(cfg, true, start, init), WatchRun(cfg, false, start, init));
    }
  }

  // --------------------------------------------------------------------- mirror

  /** What a touching event leaves at `p`. */
  ghost function Left(cfg: Config, e: Event, p: string): Option<string>
    requires Touches(cfg, e, p)
  {
    if e.kind.Deleted? then None
    else var i :| 0 <= i < |Ops(cfg, e.obj)| && Ops(cfg, e.obj)[i].path == p; Some(Ops(cfg, e.obj)[i].content)
  }

  lemma EventAt(cfg: Config, s: Snapshot, e: Event, p: string)
    requires DistinctPaths(Ops(cfg, e.obj))
    ensures Get(WatchStep(cfg, false, s, e).files, p) ==
      if Touches(cfg, e, p) then Left(cfg, e, p) else Get(s.files, p)
  {
    if Touches(cfg, e, p) {
      var i :| 0 <= i < |Ops(cfg, e.obj)| && Ops(cfg, e.obj)[i].path == p;
      ApplyAt(s.files, Ops(cfg, e.obj), e.kind.Deleted?, i);
    } else {
      ApplyElsewhere(s.files, Ops(cfg, e.obj), e.kind.Deleted?, p);
    }
  }

  ghost predicate TouchedAfter(cfg: Config, events: seq<Event>, i: int, p: string)
    requires -1 <= i < |events|
  {
    exists j :: i < j < |events| && Touches(cfg, events[j], p)
  }

  lemma UntouchedPrefix(cfg: Config, events: seq<Event>, i: int, p: string)
    requires -1 <= i < |events| - 1 && !TouchedAfter(cfg, events, i, p)
    ensures !TouchedAfter(cfg, events[..|events| - 1], i, p) && !Touches(cfg, events[|events| - 1], p)
  {
    hide Touches;
  }

  /** The last event that touches a path decides it; an untouched path keeps its initial file. */
  lemma {:induction false} LastTouchDecides(cfg: Config, s: Snapshot, events: seq<Event>, i: int, p: string)
    requires forall j | 0 <= j < |events| :: DistinctPaths(Ops(cfg, events[j].obj))
    requires -1 <= i < |events| && !TouchedAfter(cfg, events, i, p)
    requires i >= 0 ==> Touches(cfg, events[i], p)
    ensures Get(WatchRun(cfg, false, s, events).files, p) ==
      if i == -1 then Get(s.files, p) else Left(cfg, events[i], p)
  {
    if events != [] {
      hide Touches;
      hide TouchedAfter;
      hide Left;
      hide Ops;
      hide DistinctPaths;
      hide WatchStep;
      var last := |events| - 1;
      EventAt(cfg, WatchRun(cfg, false, s, events[..last]), events[last], p);
      if i < last {
        UntouchedPrefix(cfg, events, i, p);
        LastTouchDecides(cfg, s, events[..last], i, p);
      }
    }
  }

  /** The object of event `i` exists at the end and `i` is its latest state. */
  ghost predicate Live(events: seq<Event>, i: nat)
    requires i < |events|
  {
    !events[i].kind.Deleted? && forall j | i < j < |events| :: !SameObject(events[i].obj, events[j].obj)
  }

  lemma OthersDoNotTouch(cfg: Config, events: seq<Event>, i: nat, p: string)
    requires DisjointPaths(cfg, events) && i < |events| && Live(events, i) && Touches(cfg, events[i], p)
    ensures !TouchedAfter(cfg, events, i, p)
  {
    hide Ops;
    hide Targets;
    forall j | i < j < |events| ensures !Touches(cfg, events[j], p) {
      assert Apart(cfg, events[i].obj, events[j].obj);
    }
  }

  lemma LeftByOp(cfg: Config, e: Event, k: nat)
    requires DistinctPaths(Ops(cfg, e.obj)) && !e.kind.Deleted? && k < |Ops(cfg, e.obj)|
    ensures Touches(cfg, e, Ops(cfg, e.obj)[k].path)
    ensures Left(cfg, e, Ops(cfg, e.obj)[k].path) == Some(Ops(cfg, e.obj)[k].content)
  {
    hide Ops;
  }

  /** After any watch run, every key of every live object has a file with the last delivered content. */
  lemma LiveObjectsAreMirrored(cfg: Config, s: Snapshot, events: seq<Event>, i: nat, k: nat)
    requires DisjointPaths(cfg, events) && i < |events| && Live(events, i) && k < |Ops(cfg, events[i].obj)|
    ensures
      var op := Ops(cfg, events[i].obj)[k];
      Get(WatchRun(cfg, false, s, events).files, op.path) == Some(op.content)
  {
    hide Ops;
    hide Targets;
    hide Left;
    hide WatchRun;
    LeftByOp(cfg, events[i], k);
    OthersDoNotTouch(cfg, events, i, Ops(cfg, events[i].obj)[k].path);
    LastTouchDecides(cfg, s, events, i, Ops(cfg, events[i].obj)[k].path);
  }

  /** A file that outlives the key it came from: written by event `i`, then dropped by a later state. */
  ghost predicate Stale(cfg: Config, events: seq<Event>, i: nat, p: string)
  {
    && i < |events|
    && !events[i].kind.Deleted?
    && Touches(cfg, events[i], p)
    && !TouchedAfter(cfg, events, i, p)
    && !Live(events, i)
  }

  ghost predicate LiveAt(cfg: Config, events: seq<Event>, i: nat, p: string)
  {
    i < |events| && Live(events, i) && Touches(cfg, events[i], p)
  }

  /** Each path the run touched holds exactly what a live object puts there, and nothing otherwise. */
  ghost predicate ExactMirror(cfg: Config, files: Files, events: seq<Event>)
  {
    forall p | TouchedAfter(cfg, events, -1, p) ::
      && (forall i: nat | LiveAt(cfg, events, i, p) :: Get(files, p) == Left(cfg, events[i], p))
      && (p in files ==> exists i: nat :: LiveAt(cfg, events, i, p))
  }

  lemma {:induction false} LastTrue(marks: seq<bool>, w: nat) returns (i: nat)
    requires w < |marks| && marks[w]
    ensures i < |marks| && marks[i] && forall j | i < j < |marks| :: !marks[j]
  {
    var last := |marks| - 1;
    if marks[last] {
      i := last;
    } else {
      i := LastTrue(marks[..last], w);
    }
  }

  lemma LastTouch(cfg: Config, events: seq<Event>, p: string) returns (i: nat)
    requires TouchedAfter(cfg, events, -1, p)
    ensures i < |events| && Touches(cfg, events[i], p) && !TouchedAfter(cfg, events, i, p)
  {
    var w :| 0 <= w < |events| && Touches(cfg, events[w], p);
    var marks := seq(|events|, j requires 0 <= j < |events| => Touches(cfg, events[j], p));
    i := LastTrue(marks, w);
    forall j | i < j < |events| ensures !Touches(cfg, events[j], p) {
      assert !marks[j];
    }
  }

  /**
    The mirror is exact if and only if no path was left behind by a later state of its object.
    (A MODIFIED event that drops a key, or moves the object to another folder, leaves one.)
  */
  lemma MirrorExactIffNothingStale(cfg: Config, s: Snapshot, events: seq<Event>)
    requires DisjointPaths(cfg, events)
    ensures ExactMirror(cfg, WatchRun(cfg, false, s, events).files, events) <==>
      forall i: nat, p :: !Stale(cfg, events, i, p)
  {
    hide WatchRun;
    hide Left;
    hide DisjointPaths;
    hide Live;
    hide Touches;
    var files := WatchRun(cfg, false, s, events).files;
    forall i: nat, p | Stale(cfg, events, i, p) ensures !ExactMirror(cfg, files, events) {
      StaleBreaksMirror(cfg, s, events, i, p);
    }
    if forall i: nat, p :: !Stale(cfg, events, i, p) {
      forall p | TouchedAfter(cfg, events, -1, p)
        ensures forall i: nat | LiveAt(cfg, events, i, p) :: Get(files, p) == Left(cfg, events[i], p)
        ensures p in files ==> exists i: nat :: LiveAt(cfg, events, i, p)
      {
        forall i: nat | LiveAt(cfg, events, i, p) ensures Get(files, p) == Left(cfg, events[i], p) {
          LiveDecides(cfg, s, events, i, p);
        }
        if p in files {
          var i := LastTouch(cfg, events, p);
          LastLeft(cfg, s, events, i, p);
        }
      }
    }
  }

  lemma DisjointAreDistinct(cfg: Config, events: seq<Event>)
    requires DisjointPaths(cfg, events)
    ensures forall j | 0 <= j < |events| :: DistinctPaths(Ops(cfg, events[j].obj))
  {
  }

  /** A live object's event decides its paths. */
  lemma LiveDecides(cfg: Config, s: Snapshot, events: seq<Event>, i: nat, p: string)
    requires DisjointPaths(cfg, events) && LiveAt(cfg, events, i, p)
    ensures Get(WatchRun(cfg, false, s, events).files, p) == Left(cfg, events[i], p)
  {
    hide WatchRun;
    hide Left;
    hide DisjointPaths;
    DisjointAreDistinct(cfg, events);
    OthersDoNotTouch(cfg, events, i, p);
    LastTouchDecides(cfg, s, events, i, p);
  }

  /** A file that is there although nothing touched it after event `i` is that event's, live or stale. */
  lemma LastLeft(cfg: Config, s: Snapshot, events: seq<Event>, i: nat, p: string)
    requires DisjointPaths(cfg, events) && i < |events| && Touches(cfg, events[i], p) && !TouchedAfter(cfg, events, i, p)
    requires p in WatchRun(cfg, false, s, events).files
    ensures LiveAt(cfg, events, i, p) || Stale(cfg, events, i, p)
  {
    hide WatchRun;
    hide DisjointPaths;
    hide Touches;
    DisjointAreDistinct(cfg, events);
    LastTouchDecides(cfg, s, events, i, p);
  }

  lemma StaleBreaksMirror(cfg: Config, s: Snapshot, events: seq<Event>, i: nat, p: string)
    requires DisjointPaths(cfg, events) && Stale(cfg, events, i, p)
    ensures !ExactMirror(cfg, WatchRun(cfg, false, s, events).files, events)
  {
    hide WatchRun;
    DisjointAreDistinct(cfg, events);
    LastTouchDecides(cfg, s, events, i, p);
    assert TouchedAfter(cfg, events, -1, p);
    forall j: nat ensures !LiveAt(cfg, events, j, p) {
      if j < |events| && !SameObject(events[i].obj, events[j].obj) {
        assert Apart(cfg, events[i].obj, events[j].obj);
      }
    }
  }

  /** Each state of an object targets every path that its previous state targeted. */
  ghost predicate KeysKept(cfg: Config, events: seq<Event>)
  {
    forall i, j | 0 <= i < j < |events| && IsNextState(events, i, j) ::
      forall p :: Touches(cfg, events[i], p) ==> Touches(cfg, events[j], p)
  }

  ghost predicate IsNextState(events: seq<Event>, i: nat, j: nat)
    requires i < j < |events|
  {
    && SameObject(events[i].obj, events[j].obj)
    && forall k | i < k < j :: !SameObject(events[i].obj, events[k].obj)
  }

  lemma {:induction false} NextState(events: seq<Event>, i: nat, j: nat) returns (n: nat)
    requires i < j < |events| && SameObject(events[i].obj, events[j].obj)
    ensures i < n <= j && IsNextState(events, i, n)
    decreases j
  {
    if IsNextState(events, i, j) {
      n := j;
    } else {
      var k :| i < k < j && SameObject(events[i].obj, events[k].obj);
      n := NextState(events, i, k);
    }
  }

  /** If no event drops a key or changes a folder, the files mirror the live objects exactly. */
  lemma KeptKeysMirrorExactly(cfg: Config, s: Snapshot, events: seq<Event>)
    requires DisjointPaths(cfg, events) && KeysKept(cfg, events)
    ensures ExactMirror(cfg, WatchRun(cfg, false, s, events).files, events)
  {
    forall i: nat, p ensures !Stale(cfg, events, i, p) {
      if i < |events| && !events[i].kind.Deleted? && Touches(cfg, events[i], p) && !Live(events, i) {
        var j :| i < j < |events| && SameObject(events[i].obj, events[j].obj);
        var n := NextState(events, i, j);
        assert Touches(cfg, events[n], p);
      }
    }
    MirrorExactIffNothingStale(cfg, s, events);
  }

  /** All of this holds of the loop that ignores already processed versions, too. */
  lemma CachedRunMirrors(cfg: Config, files: Files, events: seq<Event>)
    requires VersionsIdentify(events) && NoResurrection(events) && DisjointPaths(cfg, events)
    ensures
      var after := WatchRun(cfg, true, Snapshot(files, map[], []), events).files;
      && (forall i: nat, p | LiveAt(cfg, events, i, p) :: Get(after, p) == Left(cfg, events[i], p))
      && (ExactMirror(cfg, after, events) <==> forall i: nat, p :: !Stale(cfg, events, i, p))
  {
    hide DisjointPaths;
    hide WatchRun;
    hide ExactMirror;
    hide Stale;
    hide Live;
    hide Touches;
    hide Left;
    var start := Snapshot(files, map[], []);
    CacheSimulation(cfg, files, events);
    MirrorExactIffNothingStale(cfg, start, events);
    forall i: nat, p | LiveAt(cfg, events, i, p)
      ensures Get(WatchRun(cfg, false, start, events).files, p) == Left(cfg, events[i], p)
    {
      LiveDecides(cfg, start, events, i, p);
    }
  }

  // --------------------------------------------------------------- notifications

  /**
    A WATCH event notifies exactly when it changed a file, if and only if it is a deletion or no
    file of the object is overwritten and then restored.
  */
  lemma WatchNotifiesIff(cfg: Config, s: Snapshot, e: Event)
    requires cfg.hasScript || cfg.hasUrl
    ensures
      var s', ops := WatchStep(cfg, false, s, e), Ops(cfg, e.obj);
      (s'.notes != s.notes <==> s'.files != s.files) <==>
      (e.kind.Deleted? || (LastInPlace(s.files, ops, false) ==> InPlace(s.files, ops, false)))
  {
    hide Ops;
    hide Apply;
    hide Reports;
    var ops := Ops(cfg, e.obj);
    if e.kind.Deleted? {
      RemovalFlagIsTruthful(s.files, ops);
    } else {
      FlagTruthfulIff(s.files, ops, false);
    }
  }
}
