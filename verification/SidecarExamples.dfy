/** Concrete inputs on which the sidecar does not do what one might expect of it. */
module SidecarExamples {
  import opened Wrappers
  import opened SidecarFiles
  import opened Sidecar
  import opened SidecarRuns
  import opened SidecarLists

  /** A sidecar that writes below `t` and runs a script on changes. */
  function ScriptConfig(resource: Resource): Config
  {
    Config("t", "folder", resource, false, true, false, address => address)
  }

  function Holding(name: string, version: string, entries: seq<Entry>): Object
  {
    Object(Meta("ns", name, version, map[]), Some(entries), None)
  }

  function Path(key: string): string
  {
    if key == "a" then "t/a" else "t/b"
  }

  lemma PathOfKey(resource: Resource, name: string, version: string, entry: Entry)
    requires entry.key == "a" || entry.key == "b"
    ensures OpFor(ScriptConfig(resource), Meta("ns", name, version, map[]), entry) == FileOp(Path(entry.key), entry.content)
  {
    assert "t" + "/" + "a" == "t/a" && "t" + "/" + "b" == "t/b";
  }

  lemma OpsOfOneKey(resource: Resource, name: string, version: string, entry: Entry)
    requires entry.key == "a" || entry.key == "b"
    ensures Ops(ScriptConfig(resource), Holding(name, version, [entry])) == [FileOp(Path(entry.key), entry.content)]
  {
    hide OpFor;
    PathOfKey(resource, name, version, entry);
    OpsOfOne(ScriptConfig(resource), Meta("ns", name, version, map[]), entry, resource.Secret?);
  }

  lemma OneWrite(files: Files, op: FileOp)
    ensures Apply(files, [op], false) == files[op.path := op.content]
    ensures Reports(files, [op], false) <==> Get(files, op.path) != Some(op.content)
  {
    assert [op][..0] == [];
    assert Apply(files, [], false) == files && !Reports(files, [], false);
  }

  lemma ListOne(cfg: Config, ignore: bool, s: Snapshot, x: Object)
    requires !(ignore && Seen(s.versions, x.meta))
    ensures
      var versions := if ignore then s.versions[CacheKey(x.meta) := x.meta.version] else s.versions;
      ListRun(cfg, ignore, s, [x]) ==
        (Snapshot(Apply(s.files, Ops(cfg, x), false), versions, s.notes), Reports(s.files, Ops(cfg, x), false))
  {
    hide Ops;
    assert [x][..0] == [];
    assert ListRun(cfg, ignore, s, []) == (s, false);
  }

  const SECRETS := ScriptConfig(Secret)
  const NEW := Holding("x", "1", [Entry("a", "new")])
  const OLD := Holding("y", "1", [Entry("b", "old")])
  const PLACED := map["t/b" := "old"]
  const BOTH := map["t/b" := "old", "t/a" := "new"]

  lemma KeysDiffer()
    ensures CacheKey(NEW.meta) == "nsx" && CacheKey(OLD.meta) == "nsy" && "nsx" != "nsy"
  {
    assert "nsx"[2] != "nsy"[2];
  }

  /** Listing the two secrets when the second one's file is in place: plain, and with its version cached. */
  lemma ListNewThenOld(versions: map<string, string>, notes: seq<Notification>)
    ensures ListRun(SECRETS, false, Snapshot(PLACED, versions, notes), [NEW, OLD]) == (Snapshot(BOTH, versions, notes), false)
    ensures versions == map["nsy" := "1"] ==>
      var (t, flag) := ListRun(SECRETS, true, Snapshot(PLACED, versions, notes), [NEW, OLD]);
      t.files == BOTH && t.notes == notes && flag
  {
    hide Ops;
    hide Apply;
    hide Reports;
    OpsOfOneKey(Secret, "x", "1", Entry("a", "new"));
    OpsOfOneKey(Secret, "y", "1", Entry("b", "old"));
    OneWrite(PLACED, FileOp("t/a", "new"));
    OneWrite(BOTH, FileOp("t/b", "old"));
    assert PLACED["t/a" := "new"] == BOTH && BOTH["t/b" := "old"] == BOTH;
    assert Path("a") == "t/a" && Path("b") == "t/b";
    assert [NEW, OLD][..1] == [NEW];
    var s := Snapshot(PLACED, versions, notes);
    ListOne(SECRETS, false, s, NEW);
    if versions == map["nsy" := "1"] {
      KeysDiffer();
      ListOne(SECRETS, true, s, NEW);
    }
  }

  /** A LIST pass over two secrets that writes a file and notifies nobody. */
  lemma SecretChangeGoesUnnoticed()
    ensures ListPass(SECRETS, false, Snapshot(PLACED, map[], []), [NEW, OLD]) == Snapshot(BOTH, map[], [])
  {
    hide ListRun;
    ListNewThenOld(map[], []);
  }

  /**
    Two passes over secrets, the first listing one and the second both: with the version cache the
    script runs twice, without it once, although the files are the same.
  */
  lemma CachedSecretsNotifyMore()
    ensures
      var start, passes := Snapshot(map[], map[], []), [[OLD], [NEW, OLD]];
      var cached, plain := ListPasses(SECRETS, true, start, passes), ListPasses(SECRETS, false, start, passes);
      cached.files == plain.files && cached.notes == [RanScript, RanScript] && plain.notes == [RanScript]
  {
    hide ListRun;
    hide Apply;
    hide Reports;
    hide Ops;
    var start, passes := Snapshot(map[], map[], []), [[OLD], [NEW, OLD]];
    OpsOfOneKey(Secret, "y", "1", Entry("b", "old"));
    OneWrite(map[], FileOp("t/b", "old"));
    ListOne(SECRETS, true, start, OLD);
    ListOne(SECRETS, false, start, OLD);
    KeysDiffer();
    assert map[]["t/b" := "old"] == PLACED;
    assert passes[..1] == [[OLD]] && passes[..1][..0] == [];
    assert ListPass(SECRETS, true, start, [OLD]) == Snapshot(PLACED, map["nsy" := "1"], [RanScript]);
    assert ListPass(SECRETS, false, start, [OLD]) == Snapshot(PLACED, map[], [RanScript]);
    assert forall ignore :: ListPasses(SECRETS, ignore, start, []) == start;
    assert forall ignore :: ListPasses(SECRETS, ignore, start, passes[..1]) == ListPass(SECRETS, ignore, start, [OLD]);
    ListNewThenOld(map["nsy" := "1"], [RanScript]);
    ListNewThenOld(map[], [RanScript]);
  }

  const MAPS := ScriptConfig(ConfigMap)
  const ADDED := Event(Added, Holding("m", "1", [Entry("a", "1"), Entry("b", "2")]))
  const MODIFIED := Event(Modified, Holding("m", "2", [Entry("a", "1")]))

  /** A config map that loses its key `b` keeps the file of that key. */
  lemma DroppedKeyLeavesItsFile(s: Snapshot)
    ensures
      var files := WatchRun(MAPS, false, s, [ADDED, MODIFIED]).files;
      Get(files, "t/b") == Some("2") && !ExactMirror(MAPS, files, [ADDED, MODIFIED])
  {
    hide Ops;
    hide WatchRun;
    var events := [ADDED, MODIFIED];
    var a, b := Entry("a", "1"), Entry("b", "2");
    TwoKeyOps();
    OpsOfOneKey(ConfigMap, "m", "2", a);
    var ops := Ops(MAPS, ADDED.obj);
    assert ops[1].path == "t/b" && Ops(MAPS, MODIFIED.obj)[0].path == "t/a";
    assert "t/a"[2] != "t/b"[2];
    assert SameObject(events[0].obj, events[1].obj);
    LeftByOp(MAPS, ADDED, 1);
    LastTouchDecides(MAPS, s, events, 0, "t/b");
    StaleBreaksMirror(MAPS, s, events, 0, "t/b");
  }

  lemma TwoKeyOps()
    ensures Ops(MAPS, ADDED.obj) == [FileOp("t/a", "1"), FileOp("t/b", "2")]
  {
    hide OpFor;
    var a, b := Entry("a", "1"), Entry("b", "2");
    PathOfKey(ConfigMap, "m", "1", a);
    PathOfKey(ConfigMap, "m", "1", b);
    OpsOfTwo(MAPS, ADDED.obj.meta, a, b, false);
  }
}
