/**
  What the sidecar does to the file system for one ConfigMap or Secret: which paths it
  targets, in which order, and when it reports a change. Contents are compared as values
  where the program compares SHA-256 digests; base64 is taken as already decoded.
*/
module SidecarFiles {
  import opened Wrappers

  datatype Resource = ConfigMap | Secret
  {
    function Name(): string
    {
      if ConfigMap? then "configmap" else "secret"
    }
  }

  datatype Meta = Meta(namespace: string, name: string, version: string, annotations: map<string, string>)

  datatype Entry = Entry(key: string, content: string)

  /** `data` and `binaryData` keep the order in which the dictionaries are walked. */
  datatype Object = Object(meta: Meta, data: Option<seq<Entry>>, binaryData: Option<seq<Entry>>)

  datatype Config = Config(
    targetFolder: string,
    folderAnnotation: string,
    resource: Resource,
    uniqueFilenames: bool,
    hasScript: bool,
    hasUrl: bool,
    fetch: string -> string)      // what a ".url" entry's address answers

  type Files = map<string, string>

  datatype FileOp = FileOp(path: string, content: string)

  // ------------------------------------------------------------------- names

  /** os.path.join for two components. */
  function Join(folder: string, name: string): string
  {
    if name != "" && name[0] == '/' then name
    else if folder == "" || folder[|folder| - 1] == '/' then folder + name
    else folder + "/" + name
  }

  function DestinationFolder(cfg: Config, meta: Meta): string
  {
    if cfg.folderAnnotation in meta.annotations then
      // Joining already lets an absolute override win.
      Join(cfg.targetFolder, meta.annotations[cfg.folderAnnotation])
    else cfg.targetFolder
  }

  function UniqueFilename(filename: string, namespace: string, resource: string, name: string): string
  {
    "namespace_" + namespace + "." + resource + "_" + name + "." + filename
  }

  predicate IsUrlKey(key: string)
  {
    |key| >= 4 && key[|key| - 4..] == ".url"
  }

  function Filename(cfg: Config, meta: Meta, key: string): string
  {
    var filename := if IsUrlKey(key) then key[..|key| - 4] else key;
    if cfg.uniqueFilenames then UniqueFilename(filename, meta.namespace, cfg.resource.Name(), meta.name) else filename
  }

  function OpFor(cfg: Config, meta: Meta, entry: Entry): FileOp
  {
    FileOp(Join(DestinationFolder(cfg, meta), Filename(cfg, meta, entry.key)),
           if IsUrlKey(entry.key) then cfg.fetch(entry.content) else entry.content)
  }

  /**
    A base64 entry under a ".url" key is never written nor removed: its decoded address is bytes,
    which no request accepts, so the download fails and the entry is passed over.
  */
  predicate PassedOver(entry: Entry, binary: bool)
  {
    binary && IsUrlKey(entry.key)
  }

  /** The entries that lead to a file step. */
  function Written(entries: seq<Entry>, binary: bool): (r: seq<Entry>)
    ensures forall e :: e in r <==> e in entries && !PassedOver(e, binary)
    ensures !binary ==> r == entries
  {
    if entries == [] then []
    else
      var e := entries[|entries| - 1];
      Written(entries[..|entries| - 1], binary) + if PassedOver(e, binary) then [] else [e]
  }

  function OpsFor(cfg: Config, meta: Meta, entries: seq<Entry>, binary: bool): seq<FileOp>
  {
    if entries == [] then []
    else
      var e := entries[|entries| - 1];
      OpsFor(cfg, meta, entries[..|entries| - 1], binary) + if PassedOver(e, binary) then [] else [OpFor(cfg, meta, e)]
  }

  lemma {:induction false} OpsForAt(cfg: Config, meta: Meta, entries: seq<Entry>, binary: bool)
    ensures
      var ops, es := OpsFor(cfg, meta, entries, binary), Written(entries, binary);
      |ops| == |es| && forall i | 0 <= i < |ops| :: ops[i] == OpFor(cfg, meta, es[i])
  {
    if entries != [] {
      hide OpFor;
      hide PassedOver;
      OpsForAt(cfg, meta, entries[..|entries| - 1], binary);
    }
  }

  function EntryOps(cfg: Config, meta: Meta, entries: Option<seq<Entry>>, binary: bool): seq<FileOp>
  {
    if entries.None? then [] else OpsFor(cfg, meta, entries.value, binary)
  }

  /** The file operations of an object, in order: `data`, then for a ConfigMap `binaryData`. */
  function Ops(cfg: Config, obj: Object): seq<FileOp>
  {
    var data := EntryOps(cfg, obj.meta, obj.data, cfg.resource.Secret?);
    if cfg.resource.ConfigMap? then data + EntryOps(cfg, obj.meta, obj.binaryData, true) else data
  }

  // ------------------------------------------------------------- file system

  function ApplyOp(files: Files, op: FileOp, remove: bool): Files
  {
    if remove then files - {op.path} else files[op.path := op.content]
  }

  /** The boolean that writing or removing one file returns. */
  predicate OpReports(files: Files, op: FileOp, remove: bool)
  {
    if remove then op.path in files else op.path !in files || files[op.path] != op.content
  }

  function Apply(files: Files, ops: seq<FileOp>, remove: bool): Files
  {
    if ops == [] then files else ApplyOp(Apply(files, ops[..|ops| - 1], remove), ops[|ops| - 1], remove)
  }

  predicate Reports(files: Files, ops: seq<FileOp>, remove: bool)
  {
    ops != [] &&
    (Reports(files, ops[..|ops| - 1], remove) ||
     OpReports(Apply(files, ops[..|ops| - 1], remove), ops[|ops| - 1], remove))
  }

  function Get(files: Files, p: string): Option<string>
  {
    if p in files then Some(files[p]) else None
  }

  ghost predicate Targets(ops: seq<FileOp>, p: string)
  {
    exists i :: 0 <= i < |ops| && ops[i].path == p
  }

  /** No two operations of the list address the same file. */
  ghost predicate DistinctPaths(ops: seq<FileOp>)
  {
    forall i, j :: 0 <= i < j < |ops| ==> ops[i].path != ops[j].path
  }

  /** Every operation's file is already as the operation would leave it. */
  ghost predicate InPlace(files: Files, ops: seq<FileOp>, remove: bool)
  {
    forall i :: 0 <= i < |ops| ==> !OpReports(files, ops[i], remove)
  }

  lemma {:induction false} ApplyElsewhere(files: Files, ops: seq<FileOp>, remove: bool, p: string)
    requires !Targets(ops, p)
    ensures Get(Apply(files, ops, remove), p) == Get(files, p)
  {
    if ops != [] {
      var init := ops[..|ops| - 1];
      assert forall i | 0 <= i < |init| :: init[i] == ops[i];
      assert ops[|ops| - 1].path != p;
      ApplyElsewhere(files, init, remove, p);
    }
  }

  lemma {:induction false} ApplyAt(files: Files, ops: seq<FileOp>, remove: bool, i: nat)
    requires DistinctPaths(ops) && i < |ops|
    ensures Get(Apply(files, ops, remove), ops[i].path) == if remove then None else Some(ops[i].content)
  {
    var last := |ops| - 1;
    if i < last {
      assert ops[..last][i] == ops[i];
      ApplyAt(files, ops[..last], remove, i);
      assert ops[last].path != ops[i].path;
    }
  }

  lemma {:induction false} NoReportNoChange(files: Files, ops: seq<FileOp>, remove: bool)
    requires !Reports(files, ops, remove)
    ensures Apply(files, ops, remove) == files
  {
    if ops != [] {
      NoReportNoChange(files, ops[..|ops| - 1], remove);
    }
  }

  /** Processing an object whose files are in place reports nothing and writes nothing. */
  lemma {:induction false} InPlaceIsQuiet(files: Files, ops: seq<FileOp>, remove: bool)
    requires InPlace(files, ops, remove)
    ensures !Reports(files, ops, remove) && Apply(files, ops, remove) == files
  {
    if ops != [] {
      var init := ops[..|ops| - 1];
      assert InPlace(files, init, remove) by {
        forall i | 0 <= i < |init| ensures !OpReports(files, init[i], remove) {
          assert init[i] == ops[i];
        }
      }
      InPlaceIsQuiet(files, init, remove);
      assert !OpReports(files, ops[|ops| - 1], remove);
    }
  }

  lemma {:induction false} QuietIsInPlace(files: Files, ops: seq<FileOp>, remove: bool, i: nat)
    requires i < |ops| && Apply(files, ops, remove) == files && DistinctPaths(ops)
    ensures !OpReports(files, ops[i], remove)
  {
    ApplyAt(files, ops, remove, i);
  }

  lemma AppliedIsInPlace(files: Files, ops: seq<FileOp>, remove: bool)
    requires DistinctPaths(ops)
    ensures InPlace(Apply(files, ops, remove), ops, remove)
  {
    forall i | 0 <= i < |ops| ensures !OpReports(Apply(files, ops, remove), ops[i], remove) {
      ApplyAt(files, ops, remove, i);
    }
  }

  // ------------------------------------------------------------ the change flag

  /** The flag is raised exactly when some file is not already as its operation would leave it. */
  lemma {:induction false} ReportsIffNotInPlace(files: Files, ops: seq<FileOp>, remove: bool)
    ensures Reports(files, ops, remove) <==> !InPlace(files, ops, remove)
  {
    if InPlace(files, ops, remove) {
      InPlaceIsQuiet(files, ops, remove);
    } else if !Reports(files, ops, remove) {
      var init := ops[..|ops| - 1];
      assert forall i | 0 <= i < |init| :: init[i] == ops[i];
      NoReportNoChange(files, init, remove);
      ReportsIffNotInPlace(files, init, remove);
    }
  }

  /** No later operation addresses the same file. */
  ghost predicate LastOnPath(ops: seq<FileOp>, i: nat)
    requires i < |ops|
  {
    forall j | i < j < |ops| :: ops[j].path != ops[i].path
  }

  /** Every operation that has the last word on its file finds it as it would leave it. */
  ghost predicate LastInPlace(files: Files, ops: seq<FileOp>, remove: bool)
  {
    forall i: nat | i < |ops| && LastOnPath(ops, i) :: !OpReports(files, ops[i], remove)
  }

  lemma {:induction false} ApplyAtLast(files: Files, ops: seq<FileOp>, remove: bool, i: nat)
    requires i < |ops| && LastOnPath(ops, i)
    ensures Get(Apply(files, ops, remove), ops[i].path) == if remove then None else Some(ops[i].content)
  {
    var last := |ops| - 1;
    if i < last {
      assert ops[..last][i] == ops[i] && ops[last].path != ops[i].path;
      ApplyAtLast(files, ops[..last], remove, i);
    }
  }

  lemma {:induction false} LastOnSamePath(ops: seq<FileOp>, i: nat) returns (k: nat)
    requires i < |ops|
    ensures i <= k < |ops| && LastOnPath(ops, k) && ops[k].path == ops[i].path
    decreases |ops| - i
  {
    if LastOnPath(ops, i) {
      k := i;
    } else {
      var j :| i < j < |ops| && ops[j].path == ops[i].path;
      k := LastOnSamePath(ops, j);
    }
  }

  /** The file system stays as it is exactly when every last word changes nothing. */
  lemma UnchangedIff(files: Files, ops: seq<FileOp>, remove: bool)
    ensures Apply(files, ops, remove) == files <==> LastInPlace(files, ops, remove)
  {
    var after := Apply(files, ops, remove);
    forall i: nat | i < |ops| && LastOnPath(ops, i)
      ensures Get(after, ops[i].path) == if remove then None else Some(ops[i].content)
    {
      ApplyAtLast(files, ops, remove, i);
    }
    if LastInPlace(files, ops, remove) {
      forall p ensures Get(after, p) == Get(files, p) {
        if Targets(ops, p) {
          var i :| 0 <= i < |ops| && ops[i].path == p;
          var k := LastOnSamePath(ops, i);
        } else {
          ApplyElsewhere(files, ops, remove, p);
        }
      }
      SameLookups(after, files);
    }
  }

  lemma SameLookups(a: Files, b: Files)
    requires forall p: string :: Get(a, p) == Get(b, p)
    ensures a == b
  {
    forall p ensures p in a <==> p in b {
      assert Get(a, p) == Get(b, p);
    }
    forall p | p in a ensures a[p] == b[p] {
      assert Get(a, p) == Get(b, p);
    }
  }

  /**
    When the change flag of one object tells the truth: it is raised exactly when the file system
    is not what it was, if and only if no file is first overwritten and then restored, that is,
    unless some operation finds work to do while every last word on a path finds none.
  */
  lemma FlagTruthfulIff(files: Files, ops: seq<FileOp>, remove: bool)
    ensures (Reports(files, ops, remove) <==> Apply(files, ops, remove) != files) <==>
      (LastInPlace(files, ops, remove) ==> InPlace(files, ops, remove))
  {
    ReportsIffNotInPlace(files, ops, remove);
    UnchangedIff(files, ops, remove);
  }

  /** With distinct paths it always does. */
  lemma ReportsIffChanged(files: Files, ops: seq<FileOp>, remove: bool)
    requires DistinctPaths(ops)
    ensures Reports(files, ops, remove) <==> Apply(files, ops, remove) != files
  {
    FlagTruthfulIff(files, ops, remove);
    assert forall i: nat | i < |ops| :: LastOnPath(ops, i);
  }

  /** A removal's flag always does, whatever its paths. */
  lemma RemovalFlagIsTruthful(files: Files, ops: seq<FileOp>)
    ensures Reports(files, ops, true) <==> Apply(files, ops, true) != files
  {
    FlagTruthfulIff(files, ops, true);
    if LastInPlace(files, ops, true) {
      forall i | 0 <= i < |ops| ensures !OpReports(files, ops[i], true) {
        var k := LastOnSamePath(ops, i);
      }
    }
  }

  lemma OverwrittenAndRestored(files: Files, p: string, first: string, second: string)
    requires first != second && Get(files, p) == Some(second)
    ensures
      var ops := [FileOp(p, first), FileOp(p, second)];
      Reports(files, ops, false) && Apply(files, ops, false) == files
  {
    var ops := [FileOp(p, first), FileOp(p, second)];
    assert OpReports(files, ops[0], false);
    assert !LastOnPath(ops, 0) by {
      assert ops[1].path == ops[0].path;
    }
    ReportsIffNotInPlace(files, ops, false);
    UnchangedIff(files, ops, false);
  }

  lemma OpsOfOne(cfg: Config, meta: Meta, a: Entry, binary: bool)
    requires !PassedOver(a, binary)
    ensures OpsFor(cfg, meta, [a], binary) == [OpFor(cfg, meta, a)]
  {
    hide OpFor;
    assert [a][..0] == [];
    assert OpsFor(cfg, meta, [], binary) == [];
  }

  lemma OpsOfTwo(cfg: Config, meta: Meta, a: Entry, b: Entry, binary: bool)
    requires !PassedOver(a, binary) && !PassedOver(b, binary)
    ensures OpsFor(cfg, meta, [a, b], binary) == [OpFor(cfg, meta, a), OpFor(cfg, meta, b)]
  {
    hide OpFor;
    hide PassedOver;
    assert [a, b][..1] == [a];
    OpsOfOne(cfg, meta, a, binary);
  }

  /** The keys `a` and `a.url` of one object name one file. */
  lemma UrlKeyNamesSameFile(cfg: Config, meta: Meta, content: string, address: string)
    ensures OpFor(cfg, meta, Entry("a.url", address)) ==
      FileOp(OpFor(cfg, meta, Entry("a", content)).path, cfg.fetch(address))
  {
    hide Join;
    hide UniqueFilename;
    hide DestinationFolder;
    assert "a.url"[1..] == ".url" && "a.url"[..1] == "a";
  }

  /**
    It need not for a write: when the file of such a config map already holds what the address
    answers, it is overwritten and restored.
  */
  lemma CollidingKeysOverstate(cfg: Config, meta: Meta, files: Files, content: string, address: string)
    requires cfg.resource.ConfigMap? && content != cfg.fetch(address)
    requires Get(files, OpFor(cfg, meta, Entry("a", content)).path) == Some(cfg.fetch(address))
    ensures
      var ops := Ops(cfg, Object(meta, Some([Entry("a", content), Entry("a.url", address)]), None));
      Reports(files, ops, false) && Apply(files, ops, false) == files
  {
    hide OpFor;
    hide OpsFor;
    hide Apply;
    hide Reports;
    var a, b := Entry("a", content), Entry("a.url", address);
    OpsOfTwo(cfg, meta, a, b, false);
    UrlKeyNamesSameFile(cfg, meta, content, address);
    var op := OpFor(cfg, meta, a);
    assert op.content == content by {
      OpContent(cfg, meta, a);
    }
    OverwrittenAndRestored(files, op.path, content, cfg.fetch(address));
    assert Ops(cfg, Object(meta, Some([a, b]), None)) == [op, FileOp(op.path, cfg.fetch(address))];
  }

  lemma OpContent(cfg: Config, meta: Meta, entry: Entry)
    requires !IsUrlKey(entry.key)
    ensures OpFor(cfg, meta, entry).content == entry.content
  {
  }
}
