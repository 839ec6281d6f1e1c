/**
  What the sidecar does to the files, said about the entries of an object: where an entry's file
  is, that it is written and removed, and that nothing else is touched.
*/
module SidecarEntries {
  import opened Wrappers
  import opened SidecarFiles
  import opened Sidecar
  import opened SidecarRuns
  import opened SidecarLists

  // ------------------------------------------------------------- where a file is

  /** A path below a folder; an absolute path stands for itself. */
  function Below(folder: string, path: string): string
  {
    if path != "" && path[0] == '/' then path
    else if folder == "" || folder[|folder| - 1] == '/' then folder + path
    else folder + "/" + path
  }

  /**
    The file of an entry: in the folder its object's annotation names, which is taken below the
    target folder unless it is absolute, or else in the target folder; under its key without
    ".url", with kind, namespace and object in front if file names are to be unique.
  */
  function Place(cfg: Config, meta: Meta, key: string): string
  {
    var folder := if cfg.folderAnnotation in meta.annotations then Below(cfg.targetFolder, meta.annotations[cfg.folderAnnotation])
                  else cfg.targetFolder;
    Below(folder, NameOf(cfg, meta, key))
  }

  function NameOf(cfg: Config, meta: Meta, key: string): string
  {
    var base := if |key| >= 4 && key[|key| - 4..] == ".url" then key[..|key| - 4] else key;
    var kind := if cfg.resource == Secret then "secret" else "configmap";
    if cfg.uniqueFilenames then "namespace_" + meta.namespace + "." + kind + "_" + meta.name + "." + base else base
  }

  /** What the file holds: the entry's content, or what the address in it answers. */
  function Content(cfg: Config, entry: Entry): string
  {
    if |entry.key| >= 4 && entry.key[|entry.key| - 4..] == ".url" then cfg.fetch(entry.content) else entry.content
  }

  lemma BelowIsJoin(folder: string, path: string)
    ensures Below(folder, path) == Join(folder, path)
  {
  }

  lemma NameIsFilename(cfg: Config, meta: Meta, key: string)
    ensures Filename(cfg, meta, key) == NameOf(cfg, meta, key)
  {
    assert cfg.resource.Name() == if cfg.resource == Secret then "secret" else "configmap";
  }

  lemma PlaceIsPath(cfg: Config, meta: Meta, entry: Entry)
    ensures OpFor(cfg, meta, entry) == FileOp(Place(cfg, meta, entry.key), Content(cfg, entry))
  {
    NameIsFilename(cfg, meta, entry.key);
    hide NameOf;
    hide Filename;
    BelowIsJoin(DestinationFolder(cfg, meta), NameOf(cfg, meta, entry.key));
    if cfg.folderAnnotation in meta.annotations {
      BelowIsJoin(cfg.targetFolder, meta.annotations[cfg.folderAnnotation]);
    }
    hide Below;
    hide Join;
  }

  // ------------------------------------------------------------------- the slots

  /** A place in an object where an entry can stand. */
  datatype Slot = InData(i: nat) | InBinaryData(i: nat)

  /**
    The slot holds an entry that has a file: text always, base64 (a secret's data, a config map's
    binaryData) unless its key ends in ".url". A secret's binaryData is not looked at.
  */
  predicate HasFile(cfg: Config, obj: Object, slot: Slot)
  {
    match slot
    case InData(i) =>
      obj.data.Some? && i < |obj.data.value| && (cfg.resource == ConfigMap || !IsUrl(obj.data.value[i].key))
    case InBinaryData(i) =>
      obj.binaryData.Some? && i < |obj.binaryData.value| && cfg.resource == ConfigMap && !IsUrl(obj.binaryData.value[i].key)
  }

  predicate IsUrl(key: string)
  {
    |key| >= 4 && key[|key| - 4..] == ".url"
  }

  function EntryAt(cfg: Config, obj: Object, slot: Slot): Entry
    requires HasFile(cfg, obj, slot)
  {
    if slot.InData? then obj.data.value[slot.i] else obj.binaryData.value[slot.i]
  }

  function PlaceAt(cfg: Config, obj: Object, slot: Slot): string
    requires HasFile(cfg, obj, slot)
  {
    Place(cfg, obj.meta, EntryAt(cfg, obj, slot).key)
  }

  /** The path is the file of none of the object's entries. */
  ghost predicate Elsewhere(cfg: Config, obj: Object, p: string)
  {
    forall slot | HasFile(cfg, obj, slot) :: PlaceAt(cfg, obj, slot) != p
  }

  /** No two entries of the object have the same file. */
  ghost predicate OwnFiles(cfg: Config, obj: Object)
  {
    forall a, b | HasFile(cfg, obj, a) && HasFile(cfg, obj, b) && a != b :: PlaceAt(cfg, obj, a) != PlaceAt(cfg, obj, b)
  }

  /** The two objects have no file in common. */
  ghost predicate FilesApart(cfg: Config, x: Object, y: Object)
  {
    forall a, b | HasFile(cfg, x, a) && HasFile(cfg, y, b) :: PlaceAt(cfg, x, a) != PlaceAt(cfg, y, b)
  }

  // -------------------------------------------------------- slots and file steps

  /** Which entry the k-th written one is. */
  function Source(entries: seq<Entry>, binary: bool, k: nat): (i: nat)
    requires k < |Written(entries, binary)|
    ensures i < |entries| && entries[i] == Written(entries, binary)[k] && !PassedOver(entries[i], binary)
  {
    var last := |entries| - 1;
    if k < |Written(entries[..last], binary)| then Source(entries[..last], binary, k) else last
  }

  lemma {:induction false} SourceIsMonotone(entries: seq<Entry>, binary: bool, k: nat, l: nat)
    requires k < l < |Written(entries, binary)|
    ensures Source(entries, binary, k) < Source(entries, binary, l)
  {
    var last := |entries| - 1;
    if l < |Written(entries[..last], binary)| {
      SourceIsMonotone(entries[..last], binary, k, l);
    }
  }

  lemma {:induction false} WrittenAt(entries: seq<Entry>, binary: bool, i: nat) returns (k: nat)
    requires i < |entries| && !PassedOver(entries[i], binary)
    ensures k < |Written(entries, binary)| && Written(entries, binary)[k] == entries[i]
  {
    hide PassedOver;
    var last := |entries| - 1;
    if i < last {
      k := WrittenAt(entries[..last], binary, i);
    } else {
      k := |Written(entries[..last], binary)|;
    }
  }

  function DataOps(cfg: Config, obj: Object): seq<FileOp>
  {
    EntryOps(cfg, obj.meta, obj.data, cfg.resource.Secret?)
  }

  lemma OpsParts(cfg: Config, obj: Object)
    ensures Ops(cfg, obj) == DataOps(cfg, obj) +
      if cfg.resource.ConfigMap? then EntryOps(cfg, obj.meta, obj.binaryData, true) else []
  {
  }

  lemma EntryHasOp(cfg: Config, meta: Meta, entries: seq<Entry>, binary: bool, i: nat) returns (k: nat)
    requires i < |entries| && !PassedOver(entries[i], binary)
    ensures k < |OpsFor(cfg, meta, entries, binary)|
    ensures OpsFor(cfg, meta, entries, binary)[k] == FileOp(Place(cfg, meta, entries[i].key), Content(cfg, entries[i]))
  {
    hide Place;
    hide OpFor;
    hide OpsFor;
    k := WrittenAt(entries, binary, i);
    OpsForAt(cfg, meta, entries, binary);
    PlaceIsPath(cfg, meta, entries[i]);
  }

  /** Every slot with a file has its file step. */
  lemma SlotHasOp(cfg: Config, obj: Object, slot: Slot) returns (k: nat)
    requires HasFile(cfg, obj, slot)
    ensures k < |Ops(cfg, obj)|
    ensures Ops(cfg, obj)[k] == FileOp(PlaceAt(cfg, obj, slot), Content(cfg, EntryAt(cfg, obj, slot)))
  {
    OpsParts(cfg, obj);
    hide Ops;
    hide OpsFor;
    hide Place;
    hide Content;
    if slot.InData? {
      k := EntryHasOp(cfg, obj.meta, obj.data.value, cfg.resource.Secret?, slot.i);
    } else {
      var l := EntryHasOp(cfg, obj.meta, obj.binaryData.value, true, slot.i);
      k := |DataOps(cfg, obj)| + l;
    }
  }

  /** The entries of one of the object's parts, and whether they are base64. */
  lemma PartHasSlot(cfg: Config, meta: Meta, entries: seq<Entry>, binary: bool, k: nat)
    requires k < |OpsFor(cfg, meta, entries, binary)|
    ensures k < |Written(entries, binary)|
    ensures var entry := entries[Source(entries, binary, k)];
      !PassedOver(entry, binary) && OpsFor(cfg, meta, entries, binary)[k].path == Place(cfg, meta, entry.key)
  {
    OpsForAt(cfg, meta, entries, binary);
    PlaceIsPath(cfg, meta, entries[Source(entries, binary, k)]);
  }

  lemma WrittenSize(cfg: Config, meta: Meta, entries: seq<Entry>, binary: bool)
    ensures |OpsFor(cfg, meta, entries, binary)| == |Written(entries, binary)|
  {
    OpsForAt(cfg, meta, entries, binary);
  }

  /** The slot of the k-th file step. */
  function SlotOf(cfg: Config, obj: Object, k: nat): Slot
    requires k < |Ops(cfg, obj)|
  {
    OpsParts(cfg, obj);
    var n := |DataOps(cfg, obj)|;
    if k < n then
      WrittenSize(cfg, obj.meta, obj.data.value, cfg.resource.Secret?);
      InData(Source(obj.data.value, cfg.resource.Secret?, k))
    else
      WrittenSize(cfg, obj.meta, obj.binaryData.value, true);
      InBinaryData(Source(obj.binaryData.value, true, k - n))
  }

  lemma OpHasSlot(cfg: Config, obj: Object, k: nat)
    requires k < |Ops(cfg, obj)|
    ensures HasFile(cfg, obj, SlotOf(cfg, obj, k))
    ensures Ops(cfg, obj)[k].path == PlaceAt(cfg, obj, SlotOf(cfg, obj, k))
  {
    OpsParts(cfg, obj);
    hide Ops;
    hide OpsFor;
    hide Place;
    hide Written;
    hide Source;
    var n := |DataOps(cfg, obj)|;
    if k < n {
      PartHasSlot(cfg, obj.meta, obj.data.value, cfg.resource.Secret?, k);
    } else {
      PartHasSlot(cfg, obj.meta, obj.binaryData.value, true, k - n);
    }
  }

  lemma SlotsDiffer(cfg: Config, obj: Object, k: nat, l: nat)
    requires k < l < |Ops(cfg, obj)|
    ensures SlotOf(cfg, obj, k) != SlotOf(cfg, obj, l)
  {
    OpsParts(cfg, obj);
    hide Ops;
    hide OpsFor;
    hide Written;
    hide Source;
    var n := |DataOps(cfg, obj)|;
    if l < n {
      WrittenSize(cfg, obj.meta, obj.data.value, cfg.resource.Secret?);
      SourceIsMonotone(obj.data.value, cfg.resource.Secret?, k, l);
    } else if k >= n {
      WrittenSize(cfg, obj.meta, obj.binaryData.value, true);
      SourceIsMonotone(obj.binaryData.value, true, k - n, l - n);
    }
  }

  lemma OwnFilesAreDistinct(cfg: Config, obj: Object)
    requires OwnFiles(cfg, obj)
    ensures DistinctPaths(Ops(cfg, obj))
  {
    hide Ops;
    hide SlotOf;
    hide HasFile;
    forall k, l | 0 <= k < l < |Ops(cfg, obj)| ensures Ops(cfg, obj)[k].path != Ops(cfg, obj)[l].path {
      OpHasSlot(cfg, obj, k);
      OpHasSlot(cfg, obj, l);
      SlotsDiffer(cfg, obj, k, l);
    }
  }

  lemma TargetsAreFiles(cfg: Config, obj: Object, p: string)
    ensures Targets(Ops(cfg, obj), p) <==> !Elsewhere(cfg, obj, p)
  {
    hide Ops;
    hide SlotOf;
    hide HasFile;
    if Targets(Ops(cfg, obj), p) {
      var k :| 0 <= k < |Ops(cfg, obj)| && Ops(cfg, obj)[k].path == p;
      OpHasSlot(cfg, obj, k);
    }
    if !Elsewhere(cfg, obj, p) {
      var slot :| HasFile(cfg, obj, slot) && PlaceAt(cfg, obj, slot) == p;
      var k := SlotHasOp(cfg, obj, slot);
    }
  }

  lemma ApartFilesAreApart(cfg: Config, x: Object, y: Object)
    requires FilesApart(cfg, x, y)
    ensures Apart(cfg, x, y)
  {
    hide Ops;
    hide HasFile;
    hide Targets;
    forall p ensures !(Targets(Ops(cfg, x), p) && Targets(Ops(cfg, y), p)) {
      TargetsAreFiles(cfg, x, p);
      TargetsAreFiles(cfg, y, p);
    }
  }

  // ------------------------------------------------------------------- one event

  /** After an ADDED or MODIFIED event every entry has its file with its content. */
  lemma EntryIsWritten(cfg: Config, s: Snapshot, e: Event, slot: Slot)
    requires !e.kind.Deleted? && OwnFiles(cfg, e.obj) && HasFile(cfg, e.obj, slot)
    ensures Get(WatchStep(cfg, false, s, e).files, PlaceAt(cfg, e.obj, slot)) == Some(Content(cfg, EntryAt(cfg, e.obj, slot)))
  {
    hide Ops;
    hide Place;
    hide HasFile;
    OwnFilesAreDistinct(cfg, e.obj);
    var k := SlotHasOp(cfg, e.obj, slot);
    ApplyAt(s.files, Ops(cfg, e.obj), false, k);
  }

  /** After a DELETED event no entry has its file. */
  lemma EntryIsRemoved(cfg: Config, s: Snapshot, e: Event, slot: Slot)
    requires e.kind.Deleted? && HasFile(cfg, e.obj, slot)
    ensures PlaceAt(cfg, e.obj, slot) !in WatchStep(cfg, false, s, e).files
  {
    hide Ops;
    hide Place;
    hide HasFile;
    var k := SlotHasOp(cfg, e.obj, slot);
    var l := LastOnSamePath(Ops(cfg, e.obj), k);
    ApplyAtLast(s.files, Ops(cfg, e.obj), true, l);
  }

  /** No other file changes. */
  lemma OthersAreKept(cfg: Config, s: Snapshot, e: Event, p: string)
    requires Elsewhere(cfg, e.obj, p)
    ensures Get(WatchStep(cfg, false, s, e).files, p) == Get(s.files, p)
  {
    hide Ops;
    hide Elsewhere;
    TargetsAreFiles(cfg, e.obj, p);
    ApplyElsewhere(s.files, Ops(cfg, e.obj), e.kind.Deleted?, p);
  }

  // ------------------------------------------------------------------ LIST passes

  /** The listed objects have files of their own. */
  ghost predicate ItemsApart(cfg: Config, items: seq<Object>)
  {
    && (forall i | 0 <= i < |items| :: OwnFiles(cfg, items[i]))
    && (forall i, j | 0 <= i < j < |items| :: FilesApart(cfg, items[i], items[j]))
  }

  lemma ApartItemsAreDisjoint(cfg: Config, items: seq<Object>)
    requires ItemsApart(cfg, items)
    ensures DisjointItems(cfg, items)
  {
    hide Ops;
    hide OwnFiles;
    hide FilesApart;
    forall i | 0 <= i < |items| ensures DistinctPaths(Ops(cfg, items[i])) {
      OwnFilesAreDistinct(cfg, items[i]);
    }
    forall i, j | 0 <= i < j < |items| ensures Apart(cfg, items[i], items[j]) {
      ApartFilesAreApart(cfg, items[i], items[j]);
    }
  }

  /** After a LIST pass every entry of every listed object has its file with its content. */
  lemma ListedEntryIsWritten(cfg: Config, s: Snapshot, items: seq<Object>, i: nat, slot: Slot)
    requires ItemsApart(cfg, items) && i < |items| && HasFile(cfg, items[i], slot)
    ensures Get(ListPass(cfg, false, s, items).files, PlaceAt(cfg, items[i], slot)) ==
      Some(Content(cfg, EntryAt(cfg, items[i], slot)))
  {
    hide Ops;
    hide Place;
    hide HasFile;
    hide ListRun;
    ApartItemsAreDisjoint(cfg, items);
    ListPlaces(cfg, s, items);
    var k := SlotHasOp(cfg, items[i], slot);
    assert InPlace(ListPass(cfg, false, s, items).files, Ops(cfg, items[i]), false);
    assert !OpReports(ListPass(cfg, false, s, items).files, Ops(cfg, items[i])[k], false);
  }

  /** And no other file changes. */
  lemma OthersAreKeptByList(cfg: Config, s: Snapshot, items: seq<Object>, p: string)
    requires forall i | 0 <= i < |items| :: Elsewhere(cfg, items[i], p)
    ensures Get(ListPass(cfg, false, s, items).files, p) == Get(s.files, p)
  {
    hide Ops;
    hide Elsewhere;
    hide ListRun;
    forall i | 0 <= i < |items| ensures !Targets(Ops(cfg, items[i]), p) {
      TargetsAreFiles(cfg, items[i], p);
    }
    ListTouchesOnlyItems(cfg, s, items, p);
  }

  // ------------------------------------------------------------------- whole runs

  /** The events' objects have files of their own. */
  ghost predicate EventsApart(cfg: Config, events: seq<Event>)
  {
    && (forall i | 0 <= i < |events| :: OwnFiles(cfg, events[i].obj))
    && (forall i, j | 0 <= i < |events| && 0 <= j < |events| && !SameObject(events[i].obj, events[j].obj) ::
          FilesApart(cfg, events[i].obj, events[j].obj))
  }

  lemma ApartEventsAreDisjoint(cfg: Config, events: seq<Event>)
    requires EventsApart(cfg, events)
    ensures DisjointPaths(cfg, events)
  {
    hide Ops;
    hide OwnFiles;
    hide FilesApart;
    hide Apart;
    hide DistinctPaths;
    forall i | 0 <= i < |events| ensures DistinctPaths(Ops(cfg, events[i].obj)) {
      OwnFilesAreDistinct(cfg, events[i].obj);
    }
    forall i, j | 0 <= i < |events| && 0 <= j < |events| && !SameObject(events[i].obj, events[j].obj)
      ensures Apart(cfg, events[i].obj, events[j].obj)
    {
      ApartFilesAreApart(cfg, events[i].obj, events[j].obj);
    }
  }

  /**
    After any WATCH run, with the version cache or without, every entry of every live object has
    its file with the content last delivered.
  */
  lemma LiveEntriesAreMirrored(cfg: Config, ignore: bool, files: Files, events: seq<Event>, i: nat, slot: Slot)
    requires EventsApart(cfg, events) && (ignore ==> VersionsIdentify(events) && NoResurrection(events))
    requires i < |events| && Live(events, i) && HasFile(cfg, events[i].obj, slot)
    ensures
      Get(WatchRun(cfg, ignore, Snapshot(files, map[], []), events).files, PlaceAt(cfg, events[i].obj, slot)) ==
        Some(Content(cfg, EntryAt(cfg, events[i].obj, slot)))
  {
    hide Ops;
    hide Place;
    hide HasFile;
    hide WatchRun;
    hide EventsApart;
    ApartEventsAreDisjoint(cfg, events);
    hide DisjointPaths;
    var start := Snapshot(files, map[], []);
    var k := SlotHasOp(cfg, events[i].obj, slot);
    LiveObjectsAreMirrored(cfg, start, events, i, k);
    if ignore {
      CacheSimulation(cfg, files, events);
    }
  }
}
