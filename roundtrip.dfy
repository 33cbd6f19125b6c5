/**
 * Packing and unpacking together: the members addDirToArchive writes for a
 * tree, extracted by the loop of Download, leave each regular file's bytes
 * at dest/rootName/rel.
 */
module RoundTrip {
  import opened Results
  import Paths
  import Fs
  import Tar
  import Upload
  import Client

  /** Where the member for the entry at `segs` lands below `dest`. */
  function Landing(dest: string, rootName: string, segs: seq<string>): Fs.Path
  {
    Fs.Path(Paths.IsRooted(dest), Paths.CleanParts(dest) + Paths.CleanParts(rootName) + segs)
  }

  /** A member other than a regular file at `q` leaves the entry at `q` as it was. */
  lemma EntryKeepsOther(nodes: map<Fs.Path, Fs.Node>, denied: set<Fs.Path>, dest: string, e: Tar.Entry, q: Fs.Path)
    requires q in nodes
    requires e.Reg? ==> q != Fs.Resolve(Client.TargetPath(dest, e.name))
    ensures var r := Client.ExtractEntryOn(nodes, denied, dest, e).nodes;
            q in r && r[q] == nodes[q]
  {
    var target := Client.TargetPath(dest, e.name);
    match e
    case Dir(_, mode) =>
      Fs.MkdirAllFrame(nodes, denied, Fs.Resolve(target), Fs.FileMode(mode));
    case Reg(_, mode, data) =>
      var parent := Paths.Dir(target);
      assert Client.ExtractEntryOn(nodes, denied, dest, e) ==
             Client.PlaceAt(nodes, denied, parent, target, Fs.Resolve(parent), Fs.Resolve(target), mode, data, true);
      PlaceAtKeepsOther(nodes, denied, parent, target, Fs.Resolve(parent), Fs.Resolve(target), mode, data, q);
    case Other(_, _) =>
  }

  /** Placing a file at `t` leaves the entry at any other path as it was. */
  lemma PlaceAtKeepsOther(nodes: map<Fs.Path, Fs.Node>, denied: set<Fs.Path>, parent: string, target: string,
                          p: Fs.Path, t: Fs.Path, mode: int, data: seq<Fs.byte>, q: Fs.Path)
    requires q in nodes && q != t
    ensures var r := Client.PlaceAt(nodes, denied, parent, target, p, t, mode, data, true).nodes;
            q in r && r[q] == nodes[q]
  {
    Fs.MkdirAllFrame(nodes, denied, p, Fs.ModeDir);
    var m := Fs.MkdirAllOn(nodes, denied, p, Fs.ModeDir);
    if m.err.None? {
      Fs.OpenTruncResult(m.nodes, denied, t, Fs.FileMode(mode));
    }
  }

  /** Extracting `a + b` is extracting `a`, then `b` from where `a` left off. */
  lemma {:induction false} ExtractAllSplit(nodes: map<Fs.Path, Fs.Node>, denied: set<Fs.Path>, dest: string,
                                           a: seq<Tar.Entry>, b: seq<Tar.Entry>)
    ensures var r := Client.ExtractAll(nodes, denied, dest, a);
            Client.ExtractAll(nodes, denied, dest, a + b) ==
              if r.err.Some? then r else Client.ExtractAll(r.nodes, denied, dest, b)
    decreases |b|
  {
    var r := Client.ExtractAll(nodes, denied, dest, a);
    if r.err.Some? {
      assert (a + b)[..|a|] == a;
      Client.ExtractAllStops(nodes, denied, dest, a + b, |a|);
    } else if b == [] {
      assert a + b == a;
    } else {
      var b' := b[..|b| - 1];
      assert (a + b)[..|a + b| - 1] == a + b';
      assert (a + b)[|a + b| - 1] == b[|b| - 1];
      ExtractAllSplit(nodes, denied, dest, a, b');
      var x := Client.ExtractAll(nodes, denied, dest, a + b');
      var y := Client.ExtractAll(r.nodes, denied, dest, b');
      assert x == y;
      assert Client.ExtractAll(nodes, denied, dest, a + b) ==
             if x.err.Some? then x else Client.ExtractEntryOn(x.nodes, denied, dest, b[|b| - 1]);
      assert Client.ExtractAll(r.nodes, denied, dest, b) ==
             if y.err.Some? then y else Client.ExtractEntryOn(y.nodes, denied, dest, b[|b| - 1]);
    }
  }

  /** Members none of which is a regular file at `q` leave the entry at `q` as it was. */
  lemma {:induction false} ExtractAllKeepsOther(nodes: map<Fs.Path, Fs.Node>, denied: set<Fs.Path>, dest: string,
                                                es: seq<Tar.Entry>, q: Fs.Path)
    requires q in nodes
    requires forall i :: 0 <= i < |es| && es[i].Reg? ==> q != Fs.Resolve(Client.TargetPath(dest, es[i].name))
    ensures var r := Client.ExtractAll(nodes, denied, dest, es).nodes;
            q in r && r[q] == nodes[q]
  {
    if es != [] {
      var init := es[..|es| - 1];
      ExtractAllKeepsOther(nodes, denied, dest, init, q);
      var r := Client.ExtractAll(nodes, denied, dest, init);
      if r.err.None? {
        EntryKeepsOther(r.nodes, denied, dest, es[|es| - 1], q);
      }
    }
  }

  /** The member for a regular file at `segs` is extracted to its landing place. */
  lemma MemberTarget(dest: string, rootName: string, segs: seq<string>, n: Upload.Tree)
    requires dest != "" && Paths.Clean(rootName) == rootName && !Paths.ClimbsOut(rootName)
    requires |segs| >= 1 && Paths.AllPlain(segs)
    requires n.Regular? && n.content.Some?
    ensures var e := Upload.Member(rootName, segs, n);
            e.Reg? && Fs.Resolve(Client.TargetPath(dest, e.name)) == Landing(dest, rootName, segs)
    ensures Paths.Clean(Client.TargetPath(dest, Upload.Member(rootName, segs, n).name)) ==
            Client.TargetPath(dest, Upload.Member(rootName, segs, n).name)
  {
    var name := Upload.HeaderName(rootName, segs);
    Upload.HeaderNameShape(rootName, segs);
    assert Paths.CleanParts(name) == Paths.CleanParts(rootName) + segs;
    assert Paths.Plain(segs[0]);
    assert !Paths.ClimbsOut(name);
    Client.TargetUnderDest(dest, name);
  }

  /** Different paths below the root land in different places. */
  lemma LandingInjective(dest: string, rootName: string, a: seq<string>, b: seq<string>)
    requires Landing(dest, rootName, a) == Landing(dest, rootName, b)
    ensures a == b
  {
    var pre := Paths.CleanParts(dest) + Paths.CleanParts(rootName);
    assert (pre + a)[|pre|..] == a;
    assert (pre + b)[|pre|..] == b;
  }

  /**
   * After the member for the file at `segs` has been extracted, the later
   * members, all for other entries of the tree, leave it alone.
   */
  lemma LaterMembersElsewhere(rootName: string, t: Upload.Tree, dest: string, k: nat)
    requires Upload.ValidTree(t) && dest != ""
    requires Paths.Clean(rootName) == rootName && !Paths.ClimbsOut(rootName)
    requires Upload.Packed(rootName, Upload.Walk(t)).Success?
    requires 1 <= k < |Upload.Walk(t)|
    ensures var w := Upload.Walk(t); var es := Upload.Packed(rootName, w).value;
            && |es| == |w| - 1
            && w[k].Visit? && !(w[k].node.Regular? && w[k].node.content.None?)
            && es[k - 1] == Upload.Member(rootName, w[k].segs, w[k].node)
            && forall i :: k <= i < |es| && es[i].Reg? && w[k].node.Regular? ==>
                 Fs.Resolve(Client.TargetPath(dest, es[i].name)) != Landing(dest, rootName, w[k].segs)
  {
    var w := Upload.Walk(t);
    var es := Upload.Packed(rootName, w).value;
    Upload.WalkBelowOrigin(t);
    Upload.PackedSucceeds(rootName, w);
    forall j | 1 <= j < |w| ensures w[j].segs != [] {
      assert Upload.Emit(rootName, w[j]).Success?;
    }
    Upload.PackedAligned(rootName, w);
    Upload.WalkOrdered(t);
    Upload.WalkSound(t);
    forall i | k <= i < |es| && es[i].Reg? && w[k].node.Regular?
      ensures Fs.Resolve(Client.TargetPath(dest, es[i].name)) != Landing(dest, rootName, w[k].segs)
    {
      var c := w[i + 1];
      assert Upload.Reports(t, c);
      Upload.HasPlain(t, c.segs, c.node);
      Upload.MemberName(rootName, c.segs, c.node);
      MemberTarget(dest, rootName, c.segs, c.node);
      assert Upload.SegLess(w[k].segs, c.segs);
      if Landing(dest, rootName, c.segs) == Landing(dest, rootName, w[k].segs) {
        LandingInjective(dest, rootName, c.segs, w[k].segs);
        Upload.SegLessIrreflexive(c.segs);
      }
    }
  }

  /** The `k`-th member, a regular file, holds its payload once extracted. */
  lemma OwnMemberPlaced(nodes: map<Fs.Path, Fs.Node>, denied: set<Fs.Path>, dest: string, es: seq<Tar.Entry>,
                        k: nat, name: string, mode: int, data: seq<Fs.byte>)
    requires Fs.Tidy(nodes) && 1 <= k <= |es|
    requires Client.ExtractAll(nodes, denied, dest, es[..k]).err.None?
    requires es[k - 1] == Tar.Reg(name, mode, data)
    requires Paths.Clean(Client.TargetPath(dest, name)) == Client.TargetPath(dest, name)
    requires Fs.Resolve(Client.TargetPath(dest, name)).parts != []
    ensures var r := Client.ExtractAll(nodes, denied, dest, es[..k]).nodes;
            var p := Fs.Resolve(Client.TargetPath(dest, name));
            p in r && r[p].File? && r[p].data == data
  {
    assert es[..k][..k - 1] == es[..k - 1];
    assert es[..k][k - 1] == es[k - 1];
    var r0 := Client.ExtractAll(nodes, denied, dest, es[..k - 1]);
    assert r0.err.None?;
    Client.ExtractAllTidy(nodes, denied, dest, es[..k - 1]);
    Client.PlaceFileResult(r0.nodes, denied, Client.TargetPath(dest, name), mode, data, true);
  }

  /** An entry extracted by the `k`-th member that no later regular member targets stays as it is. */
  lemma PlacedStays(nodes: map<Fs.Path, Fs.Node>, denied: set<Fs.Path>, dest: string, es: seq<Tar.Entry>,
                    k: nat, p: Fs.Path)
    requires k <= |es|
    requires Client.ExtractAll(nodes, denied, dest, es).err.None?
    requires p in Client.ExtractAll(nodes, denied, dest, es[..k]).nodes
    requires forall i :: k <= i < |es| && es[i].Reg? ==> Fs.Resolve(Client.TargetPath(dest, es[i].name)) != p
    ensures var r := Client.ExtractAll(nodes, denied, dest, es).nodes;
            p in r && r[p] == Client.ExtractAll(nodes, denied, dest, es[..k]).nodes[p]
  {
    assert es[..|es|] == es;
    KeptFrom(nodes, denied, dest, es, k, |es|, p);
  }

  /** What the first `k` members left at `p` is still there after the first `j`. */
  lemma {:induction false} KeptFrom(nodes: map<Fs.Path, Fs.Node>, denied: set<Fs.Path>, dest: string,
                                    es: seq<Tar.Entry>, k: nat, j: nat, p: Fs.Path)
    requires k <= j <= |es|
    requires Client.ExtractAll(nodes, denied, dest, es[..j]).err.None?
    requires p in Client.ExtractAll(nodes, denied, dest, es[..k]).nodes
    requires forall i :: k <= i < |es| && es[i].Reg? ==> Fs.Resolve(Client.TargetPath(dest, es[i].name)) != p
    ensures var r := Client.ExtractAll(nodes, denied, dest, es[..j]).nodes;
            p in r && r[p] == Client.ExtractAll(nodes, denied, dest, es[..k]).nodes[p]
    decreases j
  {
    if j > k {
      ExtractAllStep(nodes, denied, dest, es, j);
      var r := Client.ExtractAll(nodes, denied, dest, es[..j - 1]);
      KeptFrom(nodes, denied, dest, es, k, j - 1, p);
      var e := es[j - 1];
      assert e.Reg? ==> Fs.Resolve(Client.TargetPath(dest, e.name)) != p;
      EntryKeepsOther(r.nodes, denied, dest, e, p);
    }
  }

  /** A prefix that extracts without error is its shorter prefix followed by one more member. */
  lemma ExtractAllStep(nodes: map<Fs.Path, Fs.Node>, denied: set<Fs.Path>, dest: string, es: seq<Tar.Entry>, j: nat)
    requires 1 <= j <= |es|
    requires Client.ExtractAll(nodes, denied, dest, es[..j]).err.None?
    ensures var r := Client.ExtractAll(nodes, denied, dest, es[..j - 1]);
            r.err.None? && Client.ExtractAll(nodes, denied, dest, es[..j]) == Client.ExtractEntryOn(r.nodes, denied, dest, es[j - 1])
  {
    assert es[..j][..j - 1] == es[..j - 1] && es[..j][j - 1] == es[j - 1];
  }

  /**
   * Pack, then extract: when every member of the archive addDirToArchive
   * writes for a tree is extracted without error, each regular file of
   * the tree holds its exact bytes at dest/rootName/rel.
   */
  lemma PackThenExtract(rootName: string, t: Upload.Tree, nodes: map<Fs.Path, Fs.Node>, denied: set<Fs.Path>,
                        dest: string, segs: seq<string>, mode: int, data: seq<Fs.byte>)
    requires Upload.ValidTree(t) && Fs.Tidy(nodes) && dest != ""
    requires Paths.Clean(rootName) == rootName && !Paths.ClimbsOut(rootName)
    requires Upload.Packed(rootName, Upload.Walk(t)).Success?
    requires Client.ExtractAll(nodes, denied, dest, Upload.Packed(rootName, Upload.Walk(t)).value).err.None?
    requires segs != [] && Upload.Has(t, segs, Upload.Regular(mode, Some(data)))
    ensures var r := Client.ExtractAll(nodes, denied, dest, Upload.Packed(rootName, Upload.Walk(t)).value).nodes;
            var p := Landing(dest, rootName, segs);
            p in r && r[p].File? && r[p].data == data
  {
    var n := Upload.Regular(mode, Some(data));
    var w := Upload.Walk(t);
    var es := Upload.Packed(rootName, w).value;
    Upload.WalkComplete(t, segs, n);
    var k :| 0 <= k < |w| && w[k] == Upload.Visit(segs, n);
    Upload.WalkStart(t);
    LaterMembersElsewhere(rootName, t, dest, k);
    Upload.HasPlain(t, segs, n);
    MemberTarget(dest, rootName, segs, n);
    var name := Upload.HeaderName(rootName, segs);
    assert es[k - 1] == Tar.Reg(name, mode, data);
    Client.ExtractAllPrefixes(nodes, denied, dest, es, k);
    OwnMemberPlaced(nodes, denied, dest, es, k, name, mode, data);
    PlacedStays(nodes, denied, dest, es, k, Landing(dest, rootName, segs));
  }
}
