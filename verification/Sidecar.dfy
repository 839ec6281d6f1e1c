/**
  The sidecar process: the LIST pass and the WATCH loop over the file system and the
  version map, and the functions that specify what each does to the whole state.
*/
module Sidecar {
  import opened SidecarFiles

  datatype EventType = Added | Modified | Deleted

  datatype Event = Event(kind: EventType, obj: Object)

  datatype Notification = RanScript | SentRequest

  datatype Snapshot = Snapshot(files: Files, versions: map<string, string>, notes: seq<Notification>)

  /** The cache key: namespace and name with nothing in between. */
  function CacheKey(meta: Meta): string
  {
    meta.namespace + meta.name
  }

  predicate Seen(versions: map<string, string>, meta: Meta)
  {
    CacheKey(meta) in versions && versions[CacheKey(meta)] == meta.version
  }

  function Notify(cfg: Config, changed: bool): seq<Notification>
  {
    if !changed then []
    else (if cfg.hasScript then [RanScript] else []) + (if cfg.hasUrl then [SentRequest] else [])
  }

  /** The version map after an event that is not skipped. */
  function VersionsAfter(versions: map<string, string>, e: Event): map<string, string>
  {
    if !e.kind.Deleted? then versions[CacheKey(e.obj.meta) := e.obj.meta.version]
    else if Seen(versions, e.obj.meta) then versions - {CacheKey(e.obj.meta)}
    else versions
  }

  function WatchStep(cfg: Config, ignore: bool, s: Snapshot, e: Event): Snapshot
  {
    if ignore && Seen(s.versions, e.obj.meta) && !e.kind.Deleted? then s
    else
      var ops := Ops(cfg, e.obj);
      Snapshot(
        Apply(s.files, ops, e.kind.Deleted?),
        if ignore then VersionsAfter(s.versions, e) else s.versions,
        s.notes + Notify(cfg, Reports(s.files, ops, e.kind.Deleted?)))
  }

  function WatchRun(cfg: Config, ignore: bool, s: Snapshot, events: seq<Event>): Snapshot
  {
    if events == [] then s
    else WatchStep(cfg, ignore, WatchRun(cfg, ignore, s, events[..|events| - 1]), events[|events| - 1])
  }

  /** The LIST pass up to, and without, its final notification; the flag is what it has accumulated. */
  function ListRun(cfg: Config, ignore: bool, s: Snapshot, items: seq<Object>): (Snapshot, bool)
  {
    if items == [] then (s, false)
    else
      var (t, flag) := ListRun(cfg, ignore, s, items[..|items| - 1]);
      var obj := items[|items| - 1];
      if ignore && Seen(t.versions, obj.meta) then (t, flag)
      else
        var ops := Ops(cfg, obj);
        var versions := if ignore then t.versions[CacheKey(obj.meta) := obj.meta.version] else t.versions;
        var reported := Reports(t.files, ops, false);
        (Snapshot(Apply(t.files, ops, false), versions, t.notes),
         if cfg.resource.ConfigMap? then flag || reported else reported)
  }

  function ListPass(cfg: Config, ignore: bool, s: Snapshot, items: seq<Object>): Snapshot
  {
    var (t, flag) := ListRun(cfg, ignore, s, items);
    t.(notes := t.notes + Notify(cfg, flag))
  }

  lemma {:induction false} ApplyConcat(files: Files, a: seq<FileOp>, b: seq<FileOp>, remove: bool)
    ensures Apply(files, a + b, remove) == Apply(Apply(files, a, remove), b, remove)
    ensures Reports(files, a + b, remove) <==>
      Reports(files, a, remove) || Reports(Apply(files, a, remove), b, remove)
  {
    if b == [] {
      assert a + b == a;
    } else {
      var init := b[..|b| - 1];
      assert (a + b)[..|a + b| - 1] == a + init;
      ApplyConcat(files, a, init, remove);
    }
  }

  lemma ApplySnoc(files: Files, ops: seq<FileOp>, op: FileOp, remove: bool)
    ensures Apply(files, ops + [op], remove) == ApplyOp(Apply(files, ops, remove), op, remove)
    ensures Reports(files, ops + [op], remove) <==>
      Reports(files, ops, remove) || OpReports(Apply(files, ops, remove), op, remove)
  {
    assert (ops + [op])[..|ops|] == ops;
  }

  lemma OneMoreOp(cfg: Config, meta: Meta, entries: seq<Entry>, binary: bool, i: nat)
    requires i < |entries|
    ensures OpsFor(cfg, meta, entries[..i + 1], binary) == OpsFor(cfg, meta, entries[..i], binary) +
      if PassedOver(entries[i], binary) then [] else [OpFor(cfg, meta, entries[i])]
  {
    assert entries[..i + 1][..i] == entries[..i];
  }

  class Process {
    const cfg: Config
    const ignoreAlreadyProcessed: bool
    var files: Files
    var versions: map<string, string>
    var notes: seq<Notification>

    constructor(cfg: Config, ignore: bool, files: Files)
      ensures this.cfg == cfg && ignoreAlreadyProcessed == ignore
      ensures Now() == Snapshot(files, map[], [])
    {
      this.cfg := cfg;
      ignoreAlreadyProcessed := ignore;
      this.files := files;
      versions := map[];
      notes := [];
    }

    ghost function Now(): Snapshot
      reads this
    {
      Snapshot(files, versions, notes)
    }

    method UpdateFile(entry: Entry, meta: Meta, binary: bool, remove: bool) returns (changed: bool)
      modifies this`files
      ensures PassedOver(entry, binary) ==> files == old(files)
      ensures !PassedOver(entry, binary) ==>
        && files == ApplyOp(old(files), OpFor(cfg, meta, entry), remove)
        && changed == OpReports(old(files), OpFor(cfg, meta, entry), remove)
      ensures changed <==> files != old(files)
    {
      var filename, data := entry.key, entry.content;
      if IsUrlKey(entry.key) {
        if binary {
          return false;
        }
        filename, data := entry.key[..|entry.key| - 4], cfg.fetch(entry.content);
      }
      if cfg.uniqueFilenames {
        filename := UniqueFilename(filename, meta.namespace, cfg.resource.Name(), meta.name);
      }
      var path := Join(DestinationFolder(cfg, meta), filename);
      if !remove {
        if path in files && files[path] == data {
          assert files[path := data] == files;
          return false;
        }
        files := files[path := data];
        assert files[path] == data;
        return true;
      } else if path in files {
        files := files - {path};
        return true;
      }
      return false;
    }

    method IterateData(entries: seq<Entry>, meta: Meta, binary: bool, remove: bool) returns (changed: bool)
      modifies this`files
      ensures files == Apply(old(files), OpsFor(cfg, meta, entries, binary), remove)
      ensures changed == Reports(old(files), OpsFor(cfg, meta, entries, binary), remove)
    {
      changed := false;
      for i := 0 to |entries|
        invariant files == Apply(old(files), OpsFor(cfg, meta, entries[..i], binary), remove)
        invariant changed == Reports(old(files), OpsFor(cfg, meta, entries[..i], binary), remove)
      {
        ghost var before := OpsFor(cfg, meta, entries[..i], binary);
        OneMoreOp(cfg, meta, entries, binary, i);
        ApplySnoc(old(files), before, OpFor(cfg, meta, entries[i]), remove);
        assert before + [] == before;
        var one := UpdateFile(entries[i], meta, binary, remove);
        changed := changed || one;
      }
      assert entries[..|entries|] == entries;
    }

    method ProcessSecret(obj: Object, remove: bool) returns (changed: bool)
      requires cfg.resource.Secret?
      modifies this`files
      ensures files == Apply(old(files), Ops(cfg, obj), remove)
      ensures changed == Reports(old(files), Ops(cfg, obj), remove)
    {
      if obj.data.None? {
        return false;
      }
      changed := IterateData(obj.data.value, obj.meta, true, remove);
    }

    method ProcessConfigMap(obj: Object, remove: bool) returns (changed: bool)
      requires cfg.resource.ConfigMap?
      modifies this`files
      ensures files == Apply(old(files), Ops(cfg, obj), remove)
      ensures changed == Reports(old(files), Ops(cfg, obj), remove)
    {
      changed := false;
      if obj.data.Some? {
        changed := IterateData(obj.data.value, obj.meta, false, remove);
      }
      ghost var text := EntryOps(cfg, obj.meta, obj.data, false);
      assert files == Apply(old(files), text, remove) && changed == Reports(old(files), text, remove);
      ApplyConcat(old(files), text, EntryOps(cfg, obj.meta, obj.binaryData, true), remove);
      if obj.binaryData.Some? {
        var more := IterateData(obj.binaryData.value, obj.meta, true, remove);
        changed := changed || more;
      }
    }

    method SendNotifications(changed: bool)
      modifies this`notes
      ensures notes == old(notes) + Notify(cfg, changed)
      ensures notes == old(notes)
        + (if changed && cfg.hasScript then [RanScript] else [])
        + (if changed && cfg.hasUrl then [SentRequest] else [])
    {
      if cfg.hasScript && changed {
        notes := notes + [RanScript];
      }
      if cfg.hasUrl && changed {
        notes := notes + [SentRequest];
      }
    }

    method ListResources(items: seq<Object>)
      modifies this
      ensures Now() == ListPass(cfg, ignoreAlreadyProcessed, old(Now()), items)
    {
      var filesChanged := false;
      for i := 0 to |items|
        invariant notes == old(notes)
        invariant (Now(), filesChanged) == ListRun(cfg, ignoreAlreadyProcessed, old(Now()), items[..i])
      {
        assert items[..i + 1][..i] == items[..i];
        var meta := items[i].meta;
        if ignoreAlreadyProcessed {
          if Seen(versions, meta) {
            continue;
          }
          versions := versions[CacheKey(meta) := meta.version];
        }
        if cfg.resource.ConfigMap? {
          var changed := ProcessConfigMap(items[i], false);
          filesChanged := filesChanged || changed;
        } else {
          filesChanged := ProcessSecret(items[i], false);
        }
      }
      assert items[..|items|] == items;
      SendNotifications(filesChanged);
    }

    method WatchEvent(e: Event)
      modifies this
      ensures Now() == WatchStep(cfg, ignoreAlreadyProcessed, old(Now()), e)
    {
      var meta := e.obj.meta;
      if ignoreAlreadyProcessed {
        if Seen(versions, meta) {
          if e.kind.Added? || e.kind.Modified? {
            return;
          } else if e.kind.Deleted? {
            versions := versions - {CacheKey(meta)};
          }
        }
        if e.kind.Added? || e.kind.Modified? {
          versions := versions[CacheKey(meta) := meta.version];
        }
      }
      var filesChanged;
      if cfg.resource.ConfigMap? {
        filesChanged := ProcessConfigMap(e.obj, e.kind.Deleted?);
      } else {
        filesChanged := ProcessSecret(e.obj, e.kind.Deleted?);
      }
      SendNotifications(filesChanged);
    }

    method WatchResourceIterator(stream: seq<Event>)
      modifies this
      ensures Now() == WatchRun(cfg, ignoreAlreadyProcessed, old(Now()), stream)
    {
      for i := 0 to |stream|
        invariant Now() == WatchRun(cfg, ignoreAlreadyProcessed, old(Now()), stream[..i])
      {
        assert stream[..i + 1][..i] == stream[..i];
        WatchEvent(stream[i]);
      }
      assert stream[..|stream|] == stream;
    }
  }
}
