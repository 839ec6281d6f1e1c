/**
  LIST passes of the sidecar: what a pass leaves behind, what its change flag tells, and that
  skipping already processed versions does not change the files, nor, for config maps, the
  notifications.
*/
module SidecarLists {
  import opened SidecarFiles
  import opened Sidecar
  import opened SidecarRuns

  ghost predicate DisjointItems(cfg: Config, items: seq<Object>)
  {
    && (forall i | 0 <= i < |items| :: DistinctPaths(Ops(cfg, items[i])))
    && (forall i, j | 0 <= i < j < |items| :: Apart(cfg, items[i], items[j]))
  }

  lemma ItemsPrefix(cfg: Config, items: seq<Object>, n: nat)
    requires DisjointItems(cfg, items) && n <= |items|
    ensures DisjointItems(cfg, items[..n])
  {
  }

  ghost predicate AllInPlace(cfg: Config, files: Files, items: seq<Object>)
  {
    forall i | 0 <= i < |items| :: InPlace(files, Ops(cfg, items[i]), false)
  }

  lemma OthersStayInPlace(cfg: Config, files: Files, items: seq<Object>, n: nat)
    requires n < |items| && DisjointItems(cfg, items) && AllInPlace(cfg, files, items[..n])
    ensures AllInPlace(cfg, Apply(files, Ops(cfg, items[n]), false), items[..n])
  {
    forall i | 0 <= i < n ensures InPlace(Apply(files, Ops(cfg, items[n]), false), Ops(cfg, items[..n][i]), false) {
      assert InPlace(files, Ops(cfg, items[..n][i]), false);
      assert Apart(cfg, items[i], items[n]);
      InPlaceSurvives(cfg, files, items[i], items[n], false);
    }
  }

  /** A LIST pass leaves every listed object's files in place. */
  lemma {:induction false} ListPlaces(cfg: Config, s: Snapshot, items: seq<Object>)
    requires DisjointItems(cfg, items)
    ensures AllInPlace(cfg, ListRun(cfg, false, s, items).0.files, items)
  {
    if items != [] {
      var n := |items| - 1;
      ItemsPrefix(cfg, items, n);
      ListPlaces(cfg, s, items[..n]);
      var before := ListRun(cfg, false, s, items[..n]).0.files;
      var after := Apply(before, Ops(cfg, items[n]), false);
      OthersStayInPlace(cfg, before, items, n);
      AppliedIsInPlace(before, Ops(cfg, items[n]), false);
      assert ListRun(cfg, false, s, items).0.files == after;
      SnocInPlace(cfg, after, items, n);
    }
  }

  lemma SnocInPlace(cfg: Config, files: Files, items: seq<Object>, n: nat)
    requires n + 1 == |items| && AllInPlace(cfg, files, items[..n]) && InPlace(files, Ops(cfg, items[n]), false)
    ensures AllInPlace(cfg, files, items)
  {
    forall i | 0 <= i < |items| ensures InPlace(files, Ops(cfg, items[i]), false) {
      if i < n {
        assert InPlace(files, Ops(cfg, items[..n][i]), false);
      }
    }
  }

  /** When everything is in place, a LIST pass raises no flag and writes nothing. */
  lemma {:induction false} PlacedListIsQuiet(cfg: Config, s: Snapshot, items: seq<Object>)
    requires AllInPlace(cfg, s.files, items)
    ensures ListRun(cfg, false, s, items) == (s, false)
  {
    if items != [] {
      var init, obj := items[..|items| - 1], items[|items| - 1];
      assert forall i | 0 <= i < |init| :: init[i] == items[i];
      PlacedListIsQuiet(cfg, s, init);
      assert InPlace(s.files, Ops(cfg, obj), false);
      InPlaceIsQuiet(s.files, Ops(cfg, obj), false);
    }
  }

  /** An immediate second LIST of the same items changes nothing and notifies nobody. */
  lemma ListIsIdempotent(cfg: Config, s: Snapshot, items: seq<Object>)
    requires DisjointItems(cfg, items)
    ensures var once := ListPass(cfg, false, s, items); ListPass(cfg, false, once, items) == once
  {
    ListPlaces(cfg, s, items);
    PlacedListIsQuiet(cfg, ListPass(cfg, false, s, items), items);
  }

  lemma {:induction false} ListTouchesOnlyItems(cfg: Config, s: Snapshot, items: seq<Object>, p: string)
    requires forall i | 0 <= i < |items| :: !Targets(Ops(cfg, items[i]), p)
    ensures Get(ListRun(cfg, false, s, items).0.files, p) == Get(s.files, p)
  {
    if items != [] {
      var init, obj := items[..|items| - 1], items[|items| - 1];
      ListTouchesOnlyItems(cfg, s, init, p);
      ApplyElsewhere(ListRun(cfg, false, s, init).0.files, Ops(cfg, obj), false, p);
    }
  }

  /** Earlier items do not disturb the files of the last one. */
  lemma LastItemSeesOriginal(cfg: Config, s: Snapshot, items: seq<Object>)
    requires DisjointItems(cfg, items) && items != []
    ensures
      var ops := Ops(cfg, items[|items| - 1]);
      var before := ListRun(cfg, false, s, items[..|items| - 1]).0.files;
      forall k | 0 <= k < |ops| :: Get(before, ops[k].path) == Get(s.files, ops[k].path)
  {
    var init, obj := items[..|items| - 1], items[|items| - 1];
    var ops := Ops(cfg, obj);
    forall k | 0 <= k < |ops|
      ensures Get(ListRun(cfg, false, s, init).0.files, ops[k].path) == Get(s.files, ops[k].path)
    {
      assert Targets(ops, ops[k].path);
      forall i | 0 <= i < |init| ensures !Targets(Ops(cfg, init[i]), ops[k].path) {
        assert Apart(cfg, items[i], obj);
      }
      ListTouchesOnlyItems(cfg, s, init, ops[k].path);
    }
  }

  /** For config maps the flag of a LIST pass is raised exactly when some file changed. */
  lemma {:induction false} ConfigMapFlagIffChanged(cfg: Config, s: Snapshot, items: seq<Object>)
    requires cfg.resource.ConfigMap? && DisjointItems(cfg, items)
    ensures ListRun(cfg, false, s, items).1 <==> ListRun(cfg, false, s, items).0.files != s.files
  {
    if items != [] {
      var init, obj := items[..|items| - 1], items[|items| - 1];
      ItemsPrefix(cfg, items, |init|);
      ConfigMapFlagIffChanged(cfg, s, init);
      var before := ListRun(cfg, false, s, init).0.files;
      var after := Apply(before, Ops(cfg, obj), false);
      ReportsIffChanged(before, Ops(cfg, obj), false);
      if after == s.files {
        LastItemSeesOriginal(cfg, s, items);
        LastRestoresNothing(cfg, s, items);
      }
    }
  }

  /** The last item cannot undo what earlier items did, because it owns other paths. */
  lemma LastRestoresNothing(cfg: Config, s: Snapshot, items: seq<Object>)
    requires DisjointItems(cfg, items) && items != []
    requires Apply(ListRun(cfg, false, s, items[..|items| - 1]).0.files, Ops(cfg, items[|items| - 1]), false) == s.files
    ensures ListRun(cfg, false, s, items[..|items| - 1]).0.files == s.files
  {
    var ops := Ops(cfg, items[|items| - 1]);
    var before := ListRun(cfg, false, s, items[..|items| - 1]).0.files;
    LastItemSeesOriginal(cfg, s, items);
    forall p: string ensures Get(before, p) == Get(s.files, p) {
      if Targets(ops, p) {
        var k :| 0 <= k < |ops| && ops[k].path == p;
      } else {
        ApplyElsewhere(before, ops, false, p);
      }
    }
    SameLookups(before, s.files);
  }

  /** For secrets the flag of a LIST pass is the last secret's alone: earlier changes are forgotten. */
  lemma SecretFlagIsLastOnly(cfg: Config, s: Snapshot, items: seq<Object>)
    requires cfg.resource.Secret? && DisjointItems(cfg, items) && items != []
    ensures ListRun(cfg, false, s, items).1 <==> !InPlace(s.files, Ops(cfg, items[|items| - 1]), false)
  {
    var ops := Ops(cfg, items[|items| - 1]);
    var before := ListRun(cfg, false, s, items[..|items| - 1]).0.files;
    LastItemSeesOriginal(cfg, s, items);
    if InPlace(s.files, ops, false) {
      forall k | 0 <= k < |ops| ensures !OpReports(before, ops[k], false) {
        assert !OpReports(s.files, ops[k], false);
        assert Get(before, ops[k].path) == Get(s.files, ops[k].path);
      }
      InPlaceIsQuiet(before, ops, false);
    } else {
      var k :| 0 <= k < |ops| && OpReports(s.files, ops[k], false);
      assert Get(before, ops[k].path) == Get(s.files, ops[k].path);
      if !Reports(before, ops, false) {
        NoReportNoChange(before, ops, false);
        QuietIsInPlace(before, ops, false, k);
      }
    }
  }

  /**
    The LIST pass over secrets notifies correctly if and only if the last secret changed
    something or no secret did.
  */
  lemma SecretPassNotifiesIff(cfg: Config, s: Snapshot, items: seq<Object>)
    requires cfg.resource.Secret? && (cfg.hasScript || cfg.hasUrl) && DisjointItems(cfg, items) && items != []
    ensures
      var pass := ListPass(cfg, false, s, items);
      (pass.notes != s.notes <==> !AllInPlace(cfg, s.files, items)) <==>
      (!InPlace(s.files, Ops(cfg, items[|items| - 1]), false) || AllInPlace(cfg, s.files, items))
  {
    SecretFlagIsLastOnly(cfg, s, items);
    ListKeepsNotes(cfg, false, s, items);
  }

  lemma {:induction false} ListKeepsNotes(cfg: Config, ignore: bool, s: Snapshot, items: seq<Object>)
    ensures ListRun(cfg, ignore, s, items).0.notes == s.notes
  {
    if items != [] {
      ListKeepsNotes(cfg, ignore, s, items[..|items| - 1]);
    }
  }

  // ----------------------------------------------------------- cache simulation

  /** A listed object, seen as an event. */
  function AsEvents(items: seq<Object>): (events: seq<Event>)
    ensures |events| == |items| && forall i | 0 <= i < |items| :: events[i] == Event(Added, items[i])
  {
    seq(|items|, i requires 0 <= i < |items| => Event(Added, items[i]))
  }

  /** A version names one object with one content, and objects keep to their own paths. */
  ghost predicate Sane(cfg: Config, items: seq<Object>)
  {
    VersionsIdentify(AsEvents(items)) && DisjointPaths(cfg, AsEvents(items))
  }

  lemma SanePrefix(cfg: Config, items: seq<Object>, n: nat)
    requires Sane(cfg, items) && n <= |items|
    ensures Sane(cfg, items[..n])
  {
    hide DisjointPaths;
    assert AsEvents(items[..n]) == AsEvents(items)[..n];
    PrefixIsDisjoint(cfg, AsEvents(items), n);
  }

  /** One listed object: the cached and the plain pass stay in step. */
  lemma ItemSimulates(cfg: Config, before: seq<Object>, s: Snapshot, obj: Object)
    requires CacheOk(cfg, AsEvents(before), s) && Sane(cfg, before + [obj])
    ensures Seen(s.versions, obj.meta) ==>
      InPlace(s.files, Ops(cfg, obj), false) && CacheOk(cfg, AsEvents(before + [obj]), s)
    ensures !Seen(s.versions, obj.meta) ==>
      CacheOk(cfg, AsEvents(before + [obj]), WatchStep(cfg, true, s, Event(Added, obj)))
  {
    hide CacheOk;
    hide DisjointPaths;
    hide InPlace;
    hide Ops;
    var e := Event(Added, obj);
    assert AsEvents(before + [obj]) == AsEvents(before) + [e];
    if Seen(s.versions, obj.meta) {
      SkippedIsQuiet(cfg, AsEvents(before), e, s);
      SkipKeepsCache(cfg, AsEvents(before), e, s);
    } else {
      StepKeepsCache(cfg, AsEvents(before), e, s);
    }
  }

  lemma CacheOkForgetsNotes(cfg: Config, events: seq<Event>, s: Snapshot, s': Snapshot)
    requires CacheOk(cfg, events, s) && s'.files == s.files && s'.versions == s.versions
    ensures CacheOk(cfg, events, s')
  {
  }

  /** One pass from matching states: the files agree, and for config maps so do the flags. */
  lemma {:induction false} ListRunSimulates(cfg: Config, before: seq<Object>, s: Snapshot, plain: Snapshot, items: seq<Object>)
    requires CacheOk(cfg, AsEvents(before), s) && s.files == plain.files && Sane(cfg, before + items)
    ensures
      var (t, flag) := ListRun(cfg, true, s, items);
      var (t', flag') := ListRun(cfg, false, plain, items);
      && t.files == t'.files
      && CacheOk(cfg, AsEvents(before + items), t)
      && (cfg.resource.ConfigMap? ==> flag == flag')
  {
    hide CacheOk;
    hide Sane;
    hide Ops;
    hide InPlace;
    if items == [] {
      assert before + items == before;
    } else {
      var init, obj := items[..|items| - 1], items[|items| - 1];
      assert before + items == before + init + [obj];
      assert (before + items)[..|before + init|] == before + init;
      SanePrefix(cfg, before + items, |before + init|);
      ListRunSimulates(cfg, before, s, plain, init);
      var t := ListRun(cfg, true, s, init).0;
      ItemSimulates(cfg, before + init, t, obj);
      if Seen(t.versions, obj.meta) {
        InPlaceIsQuiet(t.files, Ops(cfg, obj), false);
      } else {
        CacheOkForgetsNotes(cfg, AsEvents(before + items), WatchStep(cfg, true, t, Event(Added, obj)),
                            ListRun(cfg, true, s, items).0);
      }
    }
  }

  /** The LIST loop: one pass after another. */
  function ListPasses(cfg: Config, ignore: bool, s: Snapshot, passes: seq<seq<Object>>): Snapshot
  {
    if passes == [] then s
    else ListPass(cfg, ignore, ListPasses(cfg, ignore, s, passes[..|passes| - 1]), passes[|passes| - 1])
  }

  function Listed(passes: seq<seq<Object>>): seq<Object>
  {
    if passes == [] then [] else Listed(passes[..|passes| - 1]) + passes[|passes| - 1]
  }

  /**
    Over any number of passes, the LIST loop that ignores already processed versions produces the
    files of the loop that processes everything, and for config maps the same notifications.
  */
  lemma {:induction false} ListSimulation(cfg: Config, files: Files, passes: seq<seq<Object>>)
    requires Sane(cfg, Listed(passes))
    ensures
      var start := Snapshot(files, map[], []);
      var cached, plain := ListPasses(cfg, true, start, passes), ListPasses(cfg, false, start, passes);
      && cached.files == plain.files
      && CacheOk(cfg, AsEvents(Listed(passes)), cached)
      && (cfg.resource.ConfigMap? ==> cached.notes == plain.notes)
  {
    if passes != [] {
      hide ListRun;
      hide Sane;
      var init, items := passes[..|passes| - 1], passes[|passes| - 1];
      var start := Snapshot(files, map[], []);
      assert Listed(passes)[..|Listed(init)|] == Listed(init);
      SanePrefix(cfg, Listed(passes), |Listed(init)|);
      ListSimulation(cfg, files, init);
      hide CacheOk;
      var s, plain := ListPasses(cfg, true, start, init), ListPasses(cfg, false, start, init);
      ListRunSimulates(cfg, Listed(init), s, plain, items);
      ListKeepsNotes(cfg, true, s, items);
      ListKeepsNotes(cfg, false, plain, items);
      CacheOkForgetsNotes(cfg, AsEvents(Listed(passes)), ListRun(cfg, true, s, items).0, ListPass(cfg, true, s, items));
    }
  }

  // ------------------------------------------------- the cached pass over secrets

  /** The version map after a pass; recording a version that is already there changes nothing. */
  function ListVersions(versions: map<string, string>, items: seq<Object>): map<string, string>
  {
    if items == [] then versions
    else
      var meta := items[|items| - 1].meta;
      ListVersions(versions, items[..|items| - 1])[CacheKey(meta) := meta.version]
  }

  lemma {:induction false} VersionsAfterList(cfg: Config, s: Snapshot, items: seq<Object>)
    ensures ListRun(cfg, true, s, items).0.versions == ListVersions(s.versions, items)
  {
    if items != [] {
      hide Ops;
      VersionsAfterList(cfg, s, items[..|items| - 1]);
    }
  }

  predicate Skipped(versions: map<string, string>, items: seq<Object>, i: nat)
    requires i < |items|
  {
    Seen(ListVersions(versions, items[..i]), items[i].meta)
  }

  /** Item `i` is the last one the cached pass does not skip. */
  ghost predicate LastProcessed(versions: map<string, string>, items: seq<Object>, i: nat)
  {
    i < |items| && !Skipped(versions, items, i) && forall j | i < j < |items| :: Skipped(versions, items, j)
  }

  lemma LastProcessedSnoc(versions: map<string, string>, items: seq<Object>, i: nat)
    requires items != []
    ensures
      var n := |items| - 1;
      LastProcessed(versions, items, i) <==>
      if Skipped(versions, items, n) then LastProcessed(versions, items[..n], i) else i == n
  {
    var n := |items| - 1;
    hide Seen;
    forall j: nat | j < n ensures Skipped(versions, items, j) == Skipped(versions, items[..n], j) {
      assert items[..n][..j] == items[..j];
    }
    if i < n {
      if LastProcessed(versions, items, i) {
        assert Skipped(versions, items, n);
      }
    }
  }

  ghost predicate LastProcessedChanges(cfg: Config, s: Snapshot, items: seq<Object>, i: nat)
  {
    LastProcessed(s.versions, items, i) && !InPlace(s.files, Ops(cfg, items[i]), false)
  }

  /** With the cache, a pass over secrets tells what the last secret it did not skip changed. */
  lemma {:induction false} CachedSecretFlag(cfg: Config, before: seq<Object>, s: Snapshot, items: seq<Object>)
    requires cfg.resource.Secret? && CacheOk(cfg, AsEvents(before), s)
    requires Sane(cfg, before + items) && DisjointItems(cfg, items)
    ensures ListRun(cfg, true, s, items).1 <==> exists i :: LastProcessedChanges(cfg, s, items, i)
  {
    if items != [] {
      hide CacheOk;
      hide Sane;
      hide Ops;
      hide InPlace;
      hide DisjointItems;
      hide LastProcessed;
      hide Skipped;
      var n := |items| - 1;
      var init := items[..n];
      assert (before + items)[..|before + init|] == before + init;
      SanePrefix(cfg, before + items, |before + init|);
      ItemsPrefix(cfg, items, n);
      CachedSecretFlag(cfg, before, s, init);
      VersionsAfterList(cfg, s, init);
      SkippedIsSeen(cfg, s, items);
      forall i: nat ensures LastProcessedChanges(cfg, s, items, i) <==>
        if Skipped(s.versions, items, n) then LastProcessedChanges(cfg, s, init, i)
        else i == n && !InPlace(s.files, Ops(cfg, items[n]), false)
      {
        LastProcessedSnoc(s.versions, items, i);
        LastProcessedInRange(s.versions, init, i);
      }
      if !Skipped(s.versions, items, n) {
        ListRunSimulates(cfg, before, s, s, init);
        SecretFlagIsLastOnly(cfg, s, items);
        assert LastProcessedChanges(cfg, s, items, n) <==> ListRun(cfg, true, s, items).1;
      } else {
        assert ListRun(cfg, true, s, items).1 == ListRun(cfg, true, s, init).1;
      }
    }
  }

  lemma SkippedIsSeen(cfg: Config, s: Snapshot, items: seq<Object>)
    requires items != []
    ensures
      var n := |items| - 1;
      Skipped(s.versions, items, n) <==> Seen(ListRun(cfg, true, s, items[..n]).0.versions, items[n].meta)
  {
    VersionsAfterList(cfg, s, items[..|items| - 1]);
  }

  lemma LastProcessedInRange(versions: map<string, string>, items: seq<Object>, i: nat)
    ensures LastProcessed(versions, items, i) ==> i < |items|
  {
  }

  /**
    For secrets the notifications of the two loops differ in one case only: the cached pass skips
    the last secret, so it keeps the flag of the last secret it did process, where the plain pass
    overwrites it.
  */
  lemma SecretNotificationsAgreeIff(cfg: Config, before: seq<Object>, s: Snapshot, items: seq<Object>)
    requires cfg.resource.Secret? && (cfg.hasScript || cfg.hasUrl) && items != []
    requires CacheOk(cfg, AsEvents(before), s) && Sane(cfg, before + items) && DisjointItems(cfg, items)
    ensures ListPass(cfg, true, s, items).notes == ListPass(cfg, false, s, items).notes <==>
      !(Skipped(s.versions, items, |items| - 1) && exists i :: LastProcessedChanges(cfg, s, items, i))
  {
    hide Sane;
    hide DisjointItems;
    hide CacheOk;
    hide Ops;
    hide InPlace;
    hide Skipped;
    hide LastProcessedChanges;
    var n := |items| - 1;
    var init := items[..n];
    CachedSecretFlag(cfg, before, s, items);
    SkippedIsSeen(cfg, s, items);
    ListKeepsNotes(cfg, true, s, items);
    ListKeepsNotes(cfg, false, s, items);
    assert (before + items)[..|before + init|] == before + init && before + items == before + init + [items[n]];
    SanePrefix(cfg, before + items, |before + init|);
    ListRunSimulates(cfg, before, s, s, init);
    var t := ListRun(cfg, true, s, init).0;
    ItemSimulates(cfg, before + init, t, items[n]);
    if Skipped(s.versions, items, n) {
      InPlaceIsQuiet(t.files, Ops(cfg, items[n]), false);
      assert !ListRun(cfg, false, s, items).1;
    } else {
      assert ListRun(cfg, true, s, items).1 == ListRun(cfg, false, s, items).1;
    }
  }
}
