/** What the version cache holds after a run, in terms of what was delivered, and when it skips. */
module SidecarCache {
  import opened SidecarFiles
  import opened Sidecar

  /** Event `i` delivers an object under the key, which is its namespace followed by its name. */
  predicate Delivers(events: seq<Event>, key: string, i: nat)
  {
    i < |events| && !events[i].kind.Deleted? && events[i].obj.meta.namespace + events[i].obj.meta.name == key
  }

  predicate Deletes(events: seq<Event>, key: string, version: string, i: nat)
  {
    && i < |events| && events[i].kind.Deleted?
    && events[i].obj.meta.namespace + events[i].obj.meta.name == key && events[i].obj.meta.version == version
  }

  /** Event `i` was the last to deliver the key, in this version, and no event since deleted that version. */
  ghost predicate HoldsSince(events: seq<Event>, key: string, version: string, i: nat)
  {
    && Delivers(events, key, i) && events[i].obj.meta.version == version
    && (forall j: nat | i < j :: !Delivers(events, key, j))
    && (forall d: nat | i < d :: !Deletes(events, key, version, d))
  }

  ghost predicate CacheHolds(events: seq<Event>, key: string, version: string)
  {
    exists i: nat :: HoldsSince(events, key, version, i)
  }

  lemma OneMoreEvent(events: seq<Event>, e: Event, key: string, version: string)
    ensures
      var here := e.obj.meta.namespace + e.obj.meta.name == key;
      CacheHolds(events + [e], key, version) <==>
        if here && !e.kind.Deleted? then e.obj.meta.version == version
        else CacheHolds(events, key, version) && !(here && e.obj.meta.version == version)
  {
    var after, n := events + [e], |events|;
    assert forall i | 0 <= i < n :: after[i] == events[i];
    var here := e.obj.meta.namespace + e.obj.meta.name == key;
    if i: nat :| HoldsSince(after, key, version, i) && i < n {
      assert !Delivers(after, key, n) && !Deletes(after, key, version, n);
      assert forall j: nat | j < n :: Delivers(events, key, j) == Delivers(after, key, j);
      assert forall j: nat | j < n :: Deletes(events, key, version, j) == Deletes(after, key, version, j);
      assert HoldsSince(events, key, version, i);
    }
    if i: nat :| HoldsSince(events, key, version, i) {
      if !(here && (!e.kind.Deleted? || e.obj.meta.version == version)) {
        assert forall j: nat | j < n :: Delivers(events, key, j) == Delivers(after, key, j);
        assert forall j: nat | j < n :: Deletes(events, key, version, j) == Deletes(after, key, version, j);
        assert HoldsSince(after, key, version, i);
      }
    }
    if here && !e.kind.Deleted? {
      assert Delivers(after, key, n);
      if e.obj.meta.version == version {
        assert HoldsSince(after, key, version, n);
      }
    }
  }

  /**
    The cache of a watch run that began empty: under each namespace and name, the version that was
    delivered last, unless that very version has been deleted since.
  */
  lemma {:induction false} CacheIs(cfg: Config, s: Snapshot, events: seq<Event>, key: string, version: string)
    requires s.versions == map[]
    ensures
      var versions := WatchRun(cfg, true, s, events).versions;
      key in versions && versions[key] == version <==> CacheHolds(events, key, version)
  {
    if events != [] {
      hide CacheHolds;
      hide Ops;
      hide Apply;
      var init, e := events[..|events| - 1], events[|events| - 1];
      assert events == init + [e];
      CacheIs(cfg, s, init, key, version);
      OneMoreEvent(init, e, key, version);
    }
  }

  /**
    An event is skipped exactly if it delivers an object in the version that was delivered last
    under its namespace and name and not deleted since; any other event is processed.
  */
  lemma SkipsIff(cfg: Config, s: Snapshot, events: seq<Event>, e: Event)
    requires s.versions == map[]
    ensures
      var before, after := WatchRun(cfg, true, s, events), WatchRun(cfg, true, s, events + [e]);
      var meta, remove := e.obj.meta, e.kind.Deleted?;
      if !remove && CacheHolds(events, meta.namespace + meta.name, meta.version) then after == before
      else
        && after.files == Apply(before.files, Ops(cfg, e.obj), remove)
        && after.notes == before.notes
             + (if cfg.hasScript && Reports(before.files, Ops(cfg, e.obj), remove) then [RanScript] else [])
             + (if cfg.hasUrl && Reports(before.files, Ops(cfg, e.obj), remove) then [SentRequest] else [])
  {
    hide CacheHolds;
    hide Ops;
    hide Apply;
    hide Reports;
    var meta := e.obj.meta;
    CacheIs(cfg, s, events, meta.namespace + meta.name, meta.version);
    assert (events + [e])[..|events|] == events;
  }
}
