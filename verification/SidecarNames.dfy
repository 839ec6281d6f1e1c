/** When two data keys can end up in the same file: unique_filename and the path join. */
module SidecarNames {
  import opened SidecarFiles

  predicate Without(c: char, s: string)
  {
    c !in s
  }

  /** A separator that occurs in neither head splits the text in one way only. */
  lemma SplitAtSeparator(c: char, a: string, x: string, b: string, y: string)
    requires Without(c, a) && Without(c, b) && a + [c] + x == b + [c] + y
    ensures a == b && x == y
  {
    var s := a + [c] + x;
    assert s[|a|] == c && s[|b|] == c;
    assert forall i | 0 <= i < |a| :: s[i] == a[i];
    assert forall i | 0 <= i < |b| :: s[i] == b[i];
    assert |a| == |b|;
    assert s[..|a|] == a && s[..|b|] == b && s[|a| + 1..] == x && s[|b| + 1..] == y;
  }

  /** What follows the namespace in a unique filename. */
  function Tail(filename: string, resource: Resource, name: string): string
  {
    resource.Name() + "_" + (name + "." + filename)
  }

  lemma TailIsInjective(f1: string, r1: Resource, n1: string, f2: string, r2: Resource, n2: string)
    requires Tail(f1, r1, n1) == Tail(f2, r2, n2)
    ensures r1 == r2 && n1 + "." + f1 == n2 + "." + f2
  {
    var t := Tail(f1, r1, n1);
    assert t[0] == r1.Name()[0] && t[0] == r2.Name()[0];
    var k := |r1.Name()| + 1;
    assert t[k..] == n1 + "." + f1 && t[k..] == n2 + "." + f2;
  }

  lemma UniqueFilenameParts(filename: string, namespace: string, resource: Resource, name: string)
    ensures UniqueFilename(filename, namespace, resource.Name(), name) ==
      "namespace_" + (namespace + ['.'] + Tail(filename, resource, name))
  {
  }

  /**
    With dot-free namespaces, two unique filenames are equal if and only if namespace, resource
    and the text name.filename are equal.
  */
  lemma UniqueFilenameEqualIff(f1: string, s1: string, r1: Resource, n1: string,
                               f2: string, s2: string, r2: Resource, n2: string)
    requires Without('.', s1) && Without('.', s2)
    ensures UniqueFilename(f1, s1, r1.Name(), n1) == UniqueFilename(f2, s2, r2.Name(), n2) <==>
      s1 == s2 && r1 == r2 && n1 + "." + f1 == n2 + "." + f2
  {
    var u1, u2 := UniqueFilename(f1, s1, r1.Name(), n1), UniqueFilename(f2, s2, r2.Name(), n2);
    UniqueFilenameParts(f1, s1, r1, n1);
    UniqueFilenameParts(f2, s2, r2, n2);
    if u1 == u2 {
      var k := |"namespace_"|;
      assert u1[k..] == s1 + ['.'] + Tail(f1, r1, n1) && u2[k..] == s2 + ['.'] + Tail(f2, r2, n2);
      SplitAtSeparator('.', s1, Tail(f1, r1, n1), s2, Tail(f2, r2, n2));
      TailIsInjective(f1, r1, n1, f2, r2, n2);
    }
  }

  /** With dot-free namespaces and names the unique filename determines everything it was made from. */
  lemma UniqueFilenameIsInjective(f1: string, s1: string, r1: Resource, n1: string,
                                  f2: string, s2: string, r2: Resource, n2: string)
    requires Without('.', s1) && Without('.', s2) && Without('.', n1) && Without('.', n2)
    requires UniqueFilename(f1, s1, r1.Name(), n1) == UniqueFilename(f2, s2, r2.Name(), n2)
    ensures s1 == s2 && r1 == r2 && n1 == n2 && f1 == f2
  {
    UniqueFilenameEqualIff(f1, s1, r1, n1, f2, s2, r2, n2);
    SplitAtSeparator('.', n1, f1, n2, f2);
  }

  /** A dot in the object name makes two different objects share a "unique" filename. */
  lemma DottedNamesCollide()
    ensures UniqueFilename("c", "ns", "configmap", "a.b") == UniqueFilename("b.c", "ns", "configmap", "a")
  {
    var u := UniqueFilename("c", "ns", "configmap", "a.b");
    var v := UniqueFilename("b.c", "ns", "configmap", "a");
    assert |u| == |v| && forall i | 0 <= i < |u| :: u[i] == v[i];
  }

  /** The parts in their order, as the documented example has them. */
  lemma UniqueFilenameExample()
    ensures UniqueFilename("f.json", "ns", "configmap", "n") == "namespace_ns.configmap_n.f.json"
    ensures UniqueFilename("f.json", "ns", "secret", "n") == "namespace_ns.secret_n.f.json"
  {
  }

  /** The directory part that Join puts before a relative name. */
  function Prefix(folder: string): string
  {
    if folder == "" || folder[|folder| - 1] == '/' then folder else folder + "/"
  }

  lemma SameBasename(a: string, n1: string, b: string, n2: string)
    requires Without('/', n1) && Without('/', n2) && a + n1 == b + n2
    requires a == "" || a[|a| - 1] == '/'
    requires b == "" || b[|b| - 1] == '/'
    ensures n1 == n2
  {
    var s := a + n1;
    assert a != "" ==> s[|a| - 1] == '/';
    assert b != "" ==> s[|b| - 1] == '/';
    assert forall i | |a| <= i < |s| :: s[i] == n1[i - |a|];
    assert forall i | |b| <= i < |s| :: s[i] == n2[i - |b|];
    assert |a| == |b|;
    assert s[|a|..] == n1 && s[|b|..] == n2;
  }

  /** Equal joined paths end in equal file names, whatever the folders are. */
  lemma JoinedNamesEqual(folder1: string, n1: string, folder2: string, n2: string)
    requires Without('/', n1) && Without('/', n2) && Join(folder1, n1) == Join(folder2, n2)
    ensures n1 == n2
  {
    assert Join(folder1, n1) == Prefix(folder1) + n1;
    assert Join(folder2, n2) == Prefix(folder2) + n2;
    SameBasename(Prefix(folder1), n1, Prefix(folder2), n2);
  }
}
