/**
 * cmd/upload.go: checking the manifest before an upload, and packing the
 * package directory into an archive. The directory is a finite tree read
 * through filepath.WalkDir; the archive is the list of members written to
 * the tar writer.
 */
module Upload {
  import opened Results
  import Strings
  import Paths
  import Fs
  import Tar
  import Init

  // ---------------------------------------------------------------------
  // validateManifest

  /** The four fields of package.yml. */
  datatype Manifest = Manifest(name: string, version: string, description: string, author: string)

  /** What os.Stat and then os.ReadFile report for the manifest path. */
  datatype Probe =
    | Missing
    | StatFailed(reason: string)
    | Found(regular: bool, content: Result<seq<Fs.byte>, string>)

  datatype ManifestError =
    | NotFound
    | StatError(reason: string)
    | NotRegular
    | ReadError(reason: string)
    | ParseError(reason: string)
    | MissingFields(fields: seq<string>)

  /** The required fields, in the order they are reported. */
  const FieldNames: seq<string> := ["name", "version", "description", "author"]

  lemma FieldNamesAre()
    ensures FieldNames[0] == "name" && FieldNames[1] == "version"
    ensures FieldNames[2] == "description" && FieldNames[3] == "author"
  {
  }

  /** The value of the field at position `i` of FieldNames. */
  function Field(m: Manifest, i: nat): string
    requires i < 4
  {
    if i == 0 then m.name else if i == 1 then m.version else if i == 2 then m.description else m.author
  }

  /** The position of a field name in FieldNames, 4 for any other string. */
  function Rank(f: string): (k: nat)
    ensures k <= 4 && (k < 4 <==> f in FieldNames)
    ensures k < 4 ==> FieldNames[k] == f
  {
    if f == "name" then 0 else if f == "version" then 1 else if f == "description" then 2
    else if f == "author" then 3 else 4
  }

  /** `fields` lists names of FieldNames without repetition, in that order. */
  predicate InFieldOrder(fields: seq<string>)
  {
    && (forall k :: 0 <= k < |fields| ==> Rank(fields[k]) < 4)
    && (forall k, l :: 0 <= k < l < |fields| ==> Rank(fields[k]) < Rank(fields[l]))
  }

  /** The text fmt.Errorf builds for each error. */
  function Message(e: ManifestError): string
  {
    match e
    case NotFound => Init.ManifestName + " not found; run `cpm init` first"
    case StatError(r) => "failed to get manifest file: " + r
    case NotRegular => Init.ManifestName + " is not a regular file"
    case ReadError(r) => "failed to read " + Init.ManifestName + ": " + r
    case ParseError(r) => "failed to parse " + Init.ManifestName + ": " + r
    case MissingFields(fs) => Init.ManifestName + " missing required field(s): " + Strings.Join(fs, ", ")
  }

  /**
   * The state of the missing-field list once the first `i` fields have been
   * examined: in field order, naming exactly the empty ones among them.
   */
  predicate Tally(missing: seq<string>, m: Manifest, i: nat)
    requires i <= 4
  {
    && InFieldOrder(missing)
    && (forall k :: 0 <= k < |missing| ==> Rank(missing[k]) < i)
    && (forall j :: 0 <= j < i ==> (FieldNames[j] in missing <==> Field(m, j) == ""))
  }

  /** Examining the next field, and appending its name when empty, extends the tally. */
  lemma TallyStep(missing: seq<string>, m: Manifest, i: nat, name: string, value: string)
    requires i < 4 && Tally(missing, m, i)
    requires name == FieldNames[i] && value == Field(m, i)
    ensures value == "" ==> Tally(missing + [name], m, i + 1)
    ensures value != "" ==> Tally(missing, m, i + 1)
  {
    assert Rank(name) == i;
    assert name !in missing;
    if value == "" {
      var next := missing + [name];
      assert forall k :: 0 <= k < |missing| ==> next[k] == missing[k];
      forall j | 0 <= j < i ensures FieldNames[j] != name {
        assert Rank(FieldNames[j]) == j;
      }
    }
  }

  /** A complete tally is empty exactly when no field is empty. */
  lemma TallyEmpty(missing: seq<string>, m: Manifest)
    requires Tally(missing, m, 4)
    ensures InFieldOrder(missing)
    ensures forall i :: 0 <= i < 4 ==> (FieldNames[i] in missing <==> Field(m, i) == "")
    ensures missing == [] <==> m.name != "" && m.version != "" && m.description != "" && m.author != ""
  {
    if missing != [] {
      var i := Rank(missing[0]);
      assert FieldNames[i] in missing;
    }
    assert Field(m, 0) == m.name && Field(m, 1) == m.version;
    assert Field(m, 2) == m.description && Field(m, 3) == m.author;
  }

  /** The missing-field list of validateManifest, built by appending in field order. */
  method RequiredMissing(m: Manifest) returns (missing: seq<string>)
    ensures InFieldOrder(missing)
    ensures forall i :: 0 <= i < 4 ==> (FieldNames[i] in missing <==> Field(m, i) == "")
    ensures missing == [] <==> m.name != "" && m.version != "" && m.description != "" && m.author != ""
  {
    missing := [];
    FieldNamesAre();
    TallyStep(missing, m, 0, "name", m.name);
    if m.name == "" {
      missing := missing + ["name"];
    }
    TallyStep(missing, m, 1, "version", m.version);
    if m.version == "" {
      missing := missing + ["version"];
    }
    TallyStep(missing, m, 2, "description", m.description);
    if m.description == "" {
      missing := missing + ["description"];
    }
    TallyStep(missing, m, 3, "author", m.author);
    if m.author == "" {
      missing := missing + ["author"];
    }
    TallyEmpty(missing, m);
  }

  /**
   * validateManifest. The stat result is examined before anything is read;
   * `parse` stands for yaml.Unmarshal into the four fields.
   */
  method ValidateManifest(probe: Probe, parse: seq<Fs.byte> -> Result<Manifest, string>)
    returns (r: Result<Manifest, ManifestError>)
    ensures probe.Missing? ==> r == Failure(NotFound)
    ensures probe.StatFailed? ==> r == Failure(StatError(probe.reason))
    ensures probe.Found? && !probe.regular ==> r == Failure(NotRegular)
    ensures probe.Found? && probe.regular && probe.content.Failure? ==>
              r == Failure(ReadError(probe.content.error))
    ensures probe.Found? && probe.regular && probe.content.Success? &&
            parse(probe.content.value).Failure? ==>
              r == Failure(ParseError(parse(probe.content.value).error))
    ensures probe.Found? && probe.regular && probe.content.Success? &&
            parse(probe.content.value).Success? ==>
              var m := parse(probe.content.value).value;
              && (r.Success? <==> m.name != "" && m.version != "" && m.description != "" && m.author != "")
              && (r.Success? ==> r.value == m)
              && (r.Failure? ==>
                    && r.error.MissingFields?
                    && InFieldOrder(r.error.fields)
                    && forall i :: 0 <= i < 4 ==> (FieldNames[i] in r.error.fields <==> Field(m, i) == ""))
  {
    if probe.Missing? {
      return Failure(NotFound);
    }
    if probe.StatFailed? {
      return Failure(StatError(probe.reason));
    }
    if !probe.regular {
      return Failure(NotRegular);
    }
    if probe.content.Failure? {
      return Failure(ReadError(probe.content.error));
    }
    var parsed := parse(probe.content.value);
    if parsed.Failure? {
      return Failure(ParseError(parsed.error));
    }
    var m := parsed.value;
    var missing := RequiredMissing(m);
    if |missing| > 0 {
      return Failure(MissingFields(missing));
    }
    return Success(m);
  }

  // ---------------------------------------------------------------------
  // The directory being packed

  /** The file types WalkDir can meet besides directories and regular files. */
  datatype Kind = Symlink | NamedPipe | Device | Socket

  /**
   * A directory entry as Lstat sees it. A folder's children are what
   * os.ReadDir returns when `listed` holds; otherwise reading it fails. A
   * regular file's content is None when opening or reading it fails.
   */
  datatype Tree =
    | Folder(mode: int, listed: bool, children: seq<Child>)
    | Regular(mode: int, content: Option<seq<Fs.byte>>)
    | Special(mode: int, kind: Kind)

  datatype Child = Child(name: string, tree: Tree)

  /** Byte-wise string order, as os.ReadDir sorts names. */
  predicate Less(a: string, b: string)
  {
    if a == [] then b != []
    else b != [] && (a[0] < b[0] || (a[0] == b[0] && Less(a[1..], b[1..])))
  }

  /**
   * What os.ReadDir guarantees of a listing, everywhere in the tree: names
   * are single path elements, in increasing order.
   */
  predicate ValidTree(t: Tree)
  {
    match t
    case Folder(_, true, cs) =>
      && (forall i :: 0 <= i < |cs| ==> Paths.Plain(cs[i].name) && ValidTree(cs[i].tree))
      && (forall i, j :: 0 <= i < j < |cs| ==> Less(cs[i].name, cs[j].name))
    case _ => true
  }

  /** `n` is the entry found at `segs` below `t`. */
  predicate Has(t: Tree, segs: seq<string>, n: Tree)
  {
    if segs == [] then n == t
    else
      match t
      case Folder(_, true, cs) => exists i :: 0 <= i < |cs| && cs[i].name == segs[0] && Has(cs[i].tree, segs[1..], n)
      case _ => false
  }

  /**
   * One invocation of the WalkDir callback: for the entry at `segs`
   * relative to the walk origin, or with an error for it (the origin could
   * not be Lstat'ed, or a directory could not be read).
   */
  datatype Call = Visit(segs: seq<string>, node: Tree) | Failed(segs: seq<string>)

  function Within(name: string, calls: seq<Call>): (r: seq<Call>)
    ensures |r| == |calls|
    ensures forall k :: 0 <= k < |r| ==> r[k].Visit? == calls[k].Visit? && r[k].segs == [name] + calls[k].segs
    ensures forall k :: 0 <= k < |r| && r[k].Visit? ==> r[k].node == calls[k].node
  {
    if calls == [] then []
    else
      var c := calls[0];
      [if c.Visit? then Visit([name] + c.segs, c.node) else Failed([name] + c.segs)] + Within(name, calls[1..])
  }

  /**
   * filepath.WalkDir below an entry that has been Lstat'ed: the callback for
   * the entry itself, then for a directory either a second callback with
   * the ReadDir error or the walk of each child in listing order.
   */
  function Walk(t: Tree): seq<Call>
    decreases t, 1
  {
    [Visit([], t)] +
    match t
    case Folder(_, listed, _) => if listed then WalkFrom(t, 0) else [Failed([])]
    case _ => []
  }

  /** The walks of the children of `t` from the `i`-th on. */
  function WalkFrom(t: Tree, i: nat): seq<Call>
    requires t.Folder? && t.listed && i <= |t.children|
    decreases t, 0, |t.children| - i
  {
    var cs := t.children;
    if i == |cs| then []
    else Within(cs[i].name, Walk(cs[i].tree)) + WalkFrom(t, i + 1)
  }

  /** WalkDir from the origin: a failed Lstat is reported to the callback. */
  function WalkOrigin(src: Option<Tree>): seq<Call>
  {
    if src.None? then [Failed([])] else Walk(src.value)
  }

  // ---------------------------------------------------------------------
  // addDirToArchive and archiveDirectory

  /** The errors the walk callback passes up. */
  datatype PackError =
    | WalkFailed(segs: seq<string>)
    | SocketEntry(segs: seq<string>)
    | OpenFailed(segs: seq<string>)

  /**
   * The top-level name of the archive: Clean(root), or the base name of the
   * cleaned source directory when that is ".". The source also tests for
   * "", which Clean never returns.
   */
  function RootName(dir: string, root: string): string
  {
    var rn := Paths.Clean(root);
    if rn == "." || rn == "" then Paths.Base(Paths.Clean(dir)) else rn
  }

  /** ToSlash(Join(rootName, rel)) with rel the entry's path below the origin. */
  function HeaderName(rootName: string, segs: seq<string>): string
  {
    Paths.Join(rootName, Strings.Join(segs, "/"))
  }

  /** A directory's header name ends in "/". */
  function DirName(name: string): string
  {
    if name == "" || name[|name| - 1] != '/' then name + "/" else name
  }

  /**
   * The entries the callback stops at: a directory that cannot be read
   * (the origin included), and below the origin a file that cannot be
   * opened or read and a socket, for which tar.FileInfoHeader has no header.
   */
  predicate Faulty(segs: seq<string>, n: Tree)
  {
    || (n.Folder? && !n.listed)
    || (segs != [] && n.Regular? && n.content.None?)
    || (segs != [] && n.Special? && n.kind == Socket)
  }

  /** The member written for an entry below the origin. */
  function Member(rootName: string, segs: seq<string>, n: Tree): Tar.Entry
    requires !(n.Regular? && n.content.None?)
  {
    var name := HeaderName(rootName, segs);
    match n
    case Folder(mode, _, _) => Tar.Dir(DirName(name), mode)
    case Regular(mode, content) => Tar.Reg(name, mode, content.value)
    case Special(mode, _) => Tar.Other(name, mode)
  }

  /**
   * The member one invocation of the callback contributes: nothing for the
   * origin, and a header, with the payload for a regular file, for any
   * other entry. An error passed in, a socket and a file that cannot be
   * read end the walk; the header the source writes before a failed
   * Open or Copy is not part of the failure.
   */
  function Emit(rootName: string, c: Call): Result<seq<Tar.Entry>, PackError>
  {
    match c
    case Failed(segs) => Failure(WalkFailed(segs))
    case Visit(segs, n) =>
      if segs == [] then Success([])
      else if n.Regular? && n.content.None? then Failure(OpenFailed(segs))
      else if n.Special? && n.kind == Socket then Failure(SocketEntry(segs))
      else Success([Member(rootName, segs, n)])
  }

  /** The members written for a run of callbacks; the first error ends the walk. */
  function Packed(rootName: string, calls: seq<Call>): Result<seq<Tar.Entry>, PackError>
  {
    if calls == [] then Success([])
    else
      var r := Packed(rootName, calls[..|calls| - 1]);
      if r.Failure? then r
      else
        var e := Emit(rootName, calls[|calls| - 1]);
        if e.Failure? then Failure(e.error) else Success(r.value + e.value)
  }

  /**
   * addDirToArchive: the callbacks of the walk of `src` (the tree at
   * Clean(dir)), run in order, each appending to the members written so far.
   */
  method AddDirToArchive(dir: string, root: string, src: Option<Tree>)
    returns (written: seq<Tar.Entry>, err: Option<PackError>)
    ensures var p := Packed(RootName(dir, root), WalkOrigin(src));
            && (err.None? <==> p.Success?)
            && (p.Success? ==> written == p.value)
            && (p.Failure? ==> err == Some(p.error))
  {
    var rootName := RootName(dir, root);
    var calls := WalkOrigin(src);
    written, err := [], None;
    var i := 0;
    while i < |calls|
      invariant 0 <= i <= |calls|
      invariant Packed(rootName, calls[..i]) == Success(written)
    {
      assert calls[..i + 1][..i] == calls[..i];
      var e := Emit(rootName, calls[i]);
      if e.Failure? {
        err := Some(e.error);
        assert Packed(rootName, calls[..i + 1]) == Failure(e.error);
        PackedFailureStays(rootName, calls, i + 1);
        return;
      }
      written := written + e.value;
      i := i + 1;
    }
    assert calls[..i] == calls;
  }

  /** Once a callback fails, the walk's result is that failure. */
  lemma {:induction false} PackedFailureStays(rootName: string, calls: seq<Call>, k: nat)
    requires k <= |calls| && Packed(rootName, calls[..k]).Failure?
    ensures Packed(rootName, calls) == Packed(rootName, calls[..k])
    decreases |calls| - k
  {
    if k < |calls| {
      assert calls[..k + 1][..k] == calls[..k];
      PackedFailureStays(rootName, calls, k + 1);
    } else {
      assert calls[..k] == calls;
    }
  }

  /**
   * archiveDirectory: the archive, or no bytes at all together with the
   * error. Closing writers that write into memory does not fail.
   */
  method ArchiveDirectory(dir: string, root: string, src: Option<Tree>)
    returns (archive: Option<seq<Tar.Entry>>, err: Option<PackError>)
    ensures archive.None? <==> err.Some?
    ensures var p := Packed(RootName(dir, root), WalkOrigin(src));
            && (p.Success? ==> archive == Some(p.value))
            && (p.Failure? ==> err == Some(p.error))
  {
    var written;
    written, err := AddDirToArchive(dir, root, src);
    if err.Some? {
      return None, err;
    }
    archive := Some(written);
  }

  // ---------------------------------------------------------------------
  // The order of the walk

  /** Path order: an entry before everything below it, siblings by name. */
  predicate SegLess(a: seq<string>, b: seq<string>)
  {
    if a == [] then b != []
    else b != [] && (Less(a[0], b[0]) || (a[0] == b[0] && SegLess(a[1..], b[1..])))
  }

  /** The visits of a run of calls come in strictly increasing path order. */
  predicate InPathOrder(w: seq<Call>)
  {
    forall a, b :: 0 <= a < b < |w| && w[a].Visit? && w[b].Visit? ==> SegLess(w[a].segs, w[b].segs)
  }

  lemma {:induction false} LessIrreflexive(a: string)
    ensures !Less(a, a)
  {
    if a != [] {
      LessIrreflexive(a[1..]);
    }
  }

  lemma {:induction false} SegLessIrreflexive(a: seq<string>)
    ensures !SegLess(a, a)
  {
    if a != [] {
      LessIrreflexive(a[0]);
      SegLessIrreflexive(a[1..]);
    }
  }

  /** A common first part does not change the order. */
  lemma SegLessCons(n: string, a: seq<string>, b: seq<string>)
    ensures SegLess([n] + a, [n] + b) <==> SegLess(a, b)
  {
    assert ([n] + a)[0] == n && ([n] + a)[1..] == a;
    assert ([n] + b)[0] == n && ([n] + b)[1..] == b;
    LessIrreflexive(n);
  }

  /** Paths below different siblings are ordered as the siblings' names. */
  lemma SegLessHeads(n: string, m: string, a: seq<string>, b: seq<string>)
    requires Less(n, m)
    ensures SegLess([n] + a, [m] + b)
  {
    assert ([n] + a)[0] == n && ([m] + b)[0] == m;
  }

  /** A path precedes every path below it, and never follows one. */
  lemma {:induction false} SegLessPrefix(p: seq<string>, b: seq<string>)
    requires |p| < |b| && b[..|p|] == p
    ensures SegLess(p, b) && !SegLess(b, p)
  {
    if p != [] {
      assert b[0] == p[0];
      assert b[1..][..|p| - 1] == p[1..];
      SegLessPrefix(p[1..], b[1..]);
      LessIrreflexive(p[0]);
    }
  }

  lemma WithinOrdered(name: string, w: seq<Call>)
    requires InPathOrder(w)
    ensures InPathOrder(Within(name, w))
  {
    var r := Within(name, w);
    forall a, b | 0 <= a < b < |r| && r[a].Visit? && r[b].Visit? ensures SegLess(r[a].segs, r[b].segs) {
      SegLessCons(name, w[a].segs, w[b].segs);
    }
  }

  /** The calls for a folder's children all lie below one of those children. */
  lemma {:induction false} WalkFromBelow(t: Tree, i: nat)
    requires t.Folder? && t.listed && i <= |t.children|
    ensures forall k :: 0 <= k < |WalkFrom(t, i)| ==>
              && WalkFrom(t, i)[k].segs != []
              && exists j :: i <= j < |t.children| && WalkFrom(t, i)[k].segs[0] == t.children[j].name
    decreases |t.children| - i
  {
    var cs := t.children;
    if i < |cs| {
      var A := Within(cs[i].name, Walk(cs[i].tree));
      var B := WalkFrom(t, i + 1);
      WalkFromBelow(t, i + 1);
      var w: seq<Call> := A + B;
      assert WalkFrom(t, i) == w;
      forall k | 0 <= k < |w|
        ensures w[k].segs != [] && exists j :: i <= j < |cs| && w[k].segs[0] == cs[j].name
      {
        if k < |A| {
          assert w[k] == A[k];
          assert A[k].segs[0] == cs[i].name;
        } else {
          assert w[k] == B[k - |A|];
        }
      }
    }
  }

  /** The origin's visit comes before every visit below it. */
  lemma OriginFirst(v: Call, rest: seq<Call>)
    requires v.Visit? && v.segs == [] && InPathOrder(rest)
    requires forall k :: 0 <= k < |rest| ==> rest[k].segs != []
    ensures InPathOrder([v] + rest)
  {
    var w := [v] + rest;
    forall a, b | 0 <= a < b < |w| && w[a].Visit? && w[b].Visit? ensures SegLess(w[a].segs, w[b].segs) {
      assert w[b] == rest[b - 1];
      if a > 0 {
        assert w[a] == rest[a - 1];
      }
    }
  }

  /** For a tree whose listings are sorted, WalkDir visits in path order. */
  lemma {:induction false} WalkOrdered(t: Tree)
    requires ValidTree(t)
    ensures InPathOrder(Walk(t))
    decreases t, 1
  {
    if t.Folder? && t.listed {
      WalkFromOrdered(t, 0);
      WalkFromBelow(t, 0);
      OriginFirst(Visit([], t), WalkFrom(t, 0));
    } else if t.Folder? {
      assert Walk(t) == [Visit([], t), Failed([])];
    } else {
      assert Walk(t) == [Visit([], t)];
    }
  }

  lemma {:induction false} WalkFromOrdered(t: Tree, i: nat)
    requires ValidTree(t) && t.Folder? && t.listed && i <= |t.children|
    ensures InPathOrder(WalkFrom(t, i))
    decreases t, 0, |t.children| - i
  {
    var cs := t.children;
    if i < |cs| {
      var A := Within(cs[i].name, Walk(cs[i].tree));
      var B := WalkFrom(t, i + 1);
      WalkOrdered(cs[i].tree);
      WithinOrdered(cs[i].name, Walk(cs[i].tree));
      WalkFromOrdered(t, i + 1);
      ChildBeforeLater(t, i);
      OrderedJoin(A, B);
      assert WalkFrom(t, i) == A + B;
    }
  }

  /** Every visit of `A` precedes every visit of `B` in path order. */
  predicate AllBefore(A: seq<Call>, B: seq<Call>)
  {
    forall a, b :: 0 <= a < |A| && 0 <= b < |B| && A[a].Visit? && B[b].Visit? ==> SegLess(A[a].segs, B[b].segs)
  }

  /** Two runs in path order, the first wholly before the second, make one run in path order. */
  lemma OrderedJoin(A: seq<Call>, B: seq<Call>)
    requires InPathOrder(A) && InPathOrder(B)
    requires AllBefore(A, B)
    ensures InPathOrder(A + B)
  {
    var w := A + B;
    forall a, b | 0 <= a < b < |w| && w[a].Visit? && w[b].Visit? ensures SegLess(w[a].segs, w[b].segs) {
      if b < |A| {
        assert w[a] == A[a] && w[b] == A[b];
      } else if a >= |A| {
        assert w[a] == B[a - |A|] && w[b] == B[b - |A|];
      } else {
        assert w[a] == A[a] && w[b] == B[b - |A|];
      }
    }
  }

  /** Every path below child `i` precedes every path the walk reports for the later children. */
  lemma ChildBeforeLater(t: Tree, i: nat)
    requires ValidTree(t) && t.Folder? && t.listed && i < |t.children|
    ensures AllBefore(Within(t.children[i].name, Walk(t.children[i].tree)), WalkFrom(t, i + 1))
  {
    var cs := t.children;
    var A := Within(cs[i].name, Walk(cs[i].tree));
    var B := WalkFrom(t, i + 1);
    WalkFromBelow(t, i + 1);
    forall a, b | 0 <= a < |A| && 0 <= b < |B| && A[a].Visit? && B[b].Visit? ensures SegLess(A[a].segs, B[b].segs) {
      var x, y := A[a].segs, B[b].segs;
      var j :| i + 1 <= j < |cs| && y[0] == cs[j].name;
      assert x == [cs[i].name] + x[1..];
      assert y == [cs[j].name] + y[1..];
      SegLessHeads(cs[i].name, cs[j].name, x[1..], y[1..]);
    }
  }

  // ---------------------------------------------------------------------
  // What the walk reports

  /** A call reports the entry at its path, or a directory there that cannot be read. */
  ghost predicate Reports(t: Tree, c: Call)
  {
    if c.Visit? then Has(t, c.segs, c.node)
    else exists n :: Has(t, c.segs, n) && n.Folder? && !n.listed
  }

  lemma HasChild(t: Tree, j: nat, s: seq<string>, n: Tree)
    requires t.Folder? && t.listed && j < |t.children| && Has(t.children[j].tree, s, n)
    ensures Has(t, [t.children[j].name] + s, n)
  {
    var segs := [t.children[j].name] + s;
    assert segs[0] == t.children[j].name && segs[1..] == s;
  }

  /** Every call of the walk reports something that is in the tree. */
  lemma {:induction false} WalkSound(t: Tree)
    ensures forall k :: 0 <= k < |Walk(t)| ==> Reports(t, Walk(t)[k])
    decreases t, 1
  {
    var w := Walk(t);
    assert Has(t, [], t);
    if t.Folder? && t.listed {
      var rest := WalkFrom(t, 0);
      WalkFromSound(t, 0);
      assert w == [Visit([], t)] + rest;
      forall k | 0 <= k < |w| ensures Reports(t, w[k]) {
        if k > 0 {
          assert w[k] == rest[k - 1];
        }
      }
    } else if t.Folder? {
      assert w == [Visit([], t), Failed([])];
      assert Reports(t, w[1]);
    } else {
      assert w == [Visit([], t)];
    }
  }

  lemma {:induction false} WalkFromSound(t: Tree, i: nat)
    requires t.Folder? && t.listed && i <= |t.children|
    ensures forall k :: 0 <= k < |WalkFrom(t, i)| ==> Reports(t, WalkFrom(t, i)[k])
    decreases t, 0, |t.children| - i
  {
    var cs := t.children;
    if i < |cs| {
      var c := cs[i];
      var sub := Walk(c.tree);
      var A := Within(c.name, sub);
      var B := WalkFrom(t, i + 1);
      WalkSound(c.tree);
      WalkFromSound(t, i + 1);
      var w: seq<Call> := A + B;
      assert WalkFrom(t, i) == w;
      forall k | 0 <= k < |w| ensures Reports(t, w[k]) {
        if k < |A| {
          assert w[k] == A[k];
          assert Reports(c.tree, sub[k]);
          if sub[k].Visit? {
            HasChild(t, i, sub[k].segs, sub[k].node);
          } else {
            var n :| Has(c.tree, sub[k].segs, n) && n.Folder? && !n.listed;
            HasChild(t, i, sub[k].segs, n);
          }
        } else {
          assert w[k] == B[k - |A|];
        }
      }
    }
  }

  /** The walk of the children from the `i`-th on includes the walk of every later child. */
  lemma {:induction false} WalkFromContains(t: Tree, i: nat, j: nat)
    requires t.Folder? && t.listed && i <= j < |t.children|
    ensures forall c :: c in Within(t.children[j].name, Walk(t.children[j].tree)) ==> c in WalkFrom(t, i)
    decreases j - i
  {
    var cs := t.children;
    var A := Within(cs[i].name, Walk(cs[i].tree));
    var B := WalkFrom(t, i + 1);
    assert WalkFrom(t, i) == A + B;
    if i < j {
      WalkFromContains(t, i + 1, j);
      forall c | c in Within(cs[j].name, Walk(cs[j].tree)) ensures c in WalkFrom(t, i) {
        assert c in B;
      }
    } else {
      forall c | c in A ensures c in WalkFrom(t, i) {
        assert c in A + B;
      }
    }
  }

  /** An entry below the origin lies in one of the origin's children. */
  lemma HasStep(t: Tree, segs: seq<string>, n: Tree)
    requires Has(t, segs, n) && segs != []
    ensures t.Folder? && t.listed
    ensures exists j :: 0 <= j < |t.children| && t.children[j].name == segs[0] && Has(t.children[j].tree, segs[1..], n)
  {
  }

  /** Every entry of the tree is visited. */
  lemma {:induction false} WalkComplete(t: Tree, segs: seq<string>, n: Tree)
    requires Has(t, segs, n)
    ensures Visit(segs, n) in Walk(t)
    decreases |segs|
  {
    if segs == [] {
      WalkStart(t);
      assert Walk(t)[0] in Walk(t);
    } else {
      HasStep(t, segs, n);
      var cs := t.children;
      var j :| 0 <= j < |cs| && cs[j].name == segs[0] && Has(cs[j].tree, segs[1..], n);
      WalkComplete(cs[j].tree, segs[1..], n);
      InChildWalk(t, j, segs[1..], Visit(segs[1..], n));
      assert [cs[j].name] + segs[1..] == segs;
    }
  }

  /** A call of a child's walk, moved below the child, is a call of the parent's walk. */
  lemma InChildWalk(t: Tree, j: nat, s: seq<string>, c: Call)
    requires t.Folder? && t.listed && j < |t.children|
    requires c in Walk(t.children[j].tree) && c.segs == s
    ensures c.Visit? ==> Visit([t.children[j].name] + s, c.node) in Walk(t)
    ensures c.Failed? ==> Failed([t.children[j].name] + s) in Walk(t)
  {
    var sub := Walk(t.children[j].tree);
    var k :| 0 <= k < |sub| && sub[k] == c;
    WithinMember(t.children[j].name, sub, k);
    WalkFromContains(t, 0, j);
    WalkStart(t);
  }

  /** Every directory of the tree that cannot be read is reported to the callback. */
  lemma {:induction false} WalkReportsUnlisted(t: Tree, segs: seq<string>, n: Tree)
    requires Has(t, segs, n) && n.Folder? && !n.listed
    ensures Failed(segs) in Walk(t)
    decreases |segs|
  {
    if segs == [] {
      assert Walk(t) == [Visit([], t), Failed([])];
    } else {
      HasStep(t, segs, n);
      var cs := t.children;
      var j :| 0 <= j < |cs| && cs[j].name == segs[0] && Has(cs[j].tree, segs[1..], n);
      WalkReportsUnlisted(cs[j].tree, segs[1..], n);
      InChildWalk(t, j, segs[1..], Failed(segs[1..]));
      assert [cs[j].name] + segs[1..] == segs;
    }
  }

  /** The walk starts at the origin, and then walks a readable folder's children. */
  lemma WalkStart(t: Tree)
    ensures |Walk(t)| >= 1 && Walk(t)[0] == Visit([], t)
    ensures t.Folder? && t.listed ==> Walk(t) == [Visit([], t)] + WalkFrom(t, 0)
  {
  }

  lemma WithinMember(name: string, w: seq<Call>, k: nat)
    requires k < |w|
    ensures w[k].Visit? ==> Visit([name] + w[k].segs, w[k].node) in Within(name, w)
    ensures w[k].Failed? ==> Failed([name] + w[k].segs) in Within(name, w)
  {
    var r := Within(name, w);
    assert r[k] in r;
  }

  // ---------------------------------------------------------------------
  // Names and contents of the archive

  /**
   * The root name is Clean(root), or the base name of the cleaned source
   * directory when Clean(root) is "." (so also for an empty root); either
   * way it is a clean, non-empty path.
   */
  lemma RootNameShape(dir: string, root: string)
    ensures Paths.Clean(root) == "." ==> RootName(dir, root) == Paths.Base(Paths.Clean(dir))
    ensures Paths.Clean(root) != "." ==> RootName(dir, root) == Paths.Clean(root)
    ensures root == "" ==> RootName(dir, root) == Paths.Base(Paths.Clean(dir))
    ensures Paths.Clean(RootName(dir, root)) == RootName(dir, root) && RootName(dir, root) != ""
  {
    Paths.CleanShape(root);
    Paths.CleanIdempotent(root);
    Paths.BaseOfCleanIsClean(dir);
    Paths.CleanOfEmpty();
    Paths.CleanShape(RootName(dir, root));
  }

  /** The path of an entry found in a tree with valid listings is a list of names. */
  lemma {:induction false} HasPlain(t: Tree, segs: seq<string>, n: Tree)
    requires ValidTree(t) && Has(t, segs, n)
    ensures Paths.AllPlain(segs)
    decreases |segs|
  {
    if segs != [] {
      var cs := t.children;
      var j :| 0 <= j < |cs| && cs[j].name == segs[0] && Has(cs[j].tree, segs[1..], n);
      HasPlain(cs[j].tree, segs[1..], n);
      assert forall i :: 1 <= i < |segs| ==> segs[i] == segs[1..][i - 1];
    }
  }

  /** The text of the header name for a clean root name and a path made of names. */
  function NameText(rootName: string, rel: string): string
  {
    if rootName == "." then rel else if rootName == "/" then "/" + rel else rootName + "/" + rel
  }

  /**
   * A header name is the root name, a separator and the relative path ("."
   * contributes nothing and "/" no second separator); it never ends in "/",
   * so a directory's name always gets one appended, and it cleans to the
   * root name's parts followed by the path.
   */
  lemma HeaderNameShape(rootName: string, segs: seq<string>)
    requires Paths.Clean(rootName) == rootName
    requires |segs| >= 1 && Paths.AllPlain(segs)
    ensures var name := HeaderName(rootName, segs);
            && name == NameText(rootName, Strings.Join(segs, "/"))
            && name != "" && name[|name| - 1] != '/'
            && DirName(name) == name + "/"
            && Paths.Clean(name) == name
            && Paths.IsRooted(name) == Paths.IsRooted(rootName)
            && Paths.CleanParts(name) == Paths.CleanParts(rootName) + segs
  {
    var rel := Strings.Join(segs, "/");
    Paths.JoinNames(rootName, segs);
    var name := HeaderName(rootName, segs);
    Strings.JoinTail(segs, "/");
    var l := segs[|segs| - 1];
    assert Paths.Plain(l);
    assert rel[|rel| - 1] == l[|l| - 1];
    assert l[|l| - 1] in l;
    assert name[|name| - 1] == rel[|rel| - 1];
    Paths.CleanShape(rootName + "/" + rel);
    Paths.CleanIdempotent(rootName + "/" + rel);
  }

  /**
   * The member for an entry is named by HeaderName, with "/" appended for
   * a directory; only a directory's name ends in "/".
   */
  lemma MemberName(rootName: string, segs: seq<string>, n: Tree)
    requires Paths.Clean(rootName) == rootName
    requires |segs| >= 1 && Paths.AllPlain(segs)
    requires !(n.Regular? && n.content.None?)
    ensures var e := Member(rootName, segs, n); var text := NameText(rootName, Strings.Join(segs, "/"));
            && (n.Folder? <==> e.Dir?)
            && (n.Regular? <==> e.Reg?)
            && e.name == (if n.Folder? then text + "/" else text)
            && (e.name[|e.name| - 1] == '/' <==> n.Folder?)
            && (e.Reg? ==> e.data == n.content.value && e.mode == n.mode)
  {
    HeaderNameShape(rootName, segs);
    var text := NameText(rootName, Strings.Join(segs, "/"));
    assert HeaderName(rootName, segs) == text;
    match n
    case Folder(mode, _, _) =>
      assert Member(rootName, segs, n) == Tar.Dir(text + "/", mode);
    case Regular(mode, content) =>
      assert Member(rootName, segs, n) == Tar.Reg(text, mode, content.value);
    case Special(mode, _) =>
      assert Member(rootName, segs, n) == Tar.Other(text, mode);
  }

  /** The walk succeeds exactly when every callback does. */
  lemma {:induction false} PackedSucceeds(rootName: string, calls: seq<Call>)
    ensures Packed(rootName, calls).Success? <==>
            forall k :: 0 <= k < |calls| ==> Emit(rootName, calls[k]).Success?
  {
    if calls != [] {
      var init := calls[..|calls| - 1];
      var last := calls[|calls| - 1];
      PackedSucceeds(rootName, init);
      var ok := Packed(rootName, init).Success? && Emit(rootName, last).Success?;
      assert Packed(rootName, calls).Success? <==> ok;
      if ok {
        forall k | 0 <= k < |calls| ensures Emit(rootName, calls[k]).Success? {
          if k < |init| {
            assert calls[k] == init[k];
          }
        }
      } else if Packed(rootName, init).Failure? {
        var k :| 0 <= k < |init| && !Emit(rootName, init[k]).Success?;
        assert calls[k] == init[k];
      }
    }
  }

  /** A failed walk reports the error of the first callback that failed. */
  lemma {:induction false} PackedFirstError(rootName: string, calls: seq<Call>)
    requires Packed(rootName, calls).Failure?
    ensures exists k :: 0 <= k < |calls| && Emit(rootName, calls[k]) == Failure(Packed(rootName, calls).error) &&
              forall j :: 0 <= j < k ==> Emit(rootName, calls[j]).Success?
  {
    var init := calls[..|calls| - 1];
    assert forall k :: 0 <= k < |init| ==> init[k] == calls[k];
    if Packed(rootName, init).Failure? {
      PackedFirstError(rootName, init);
    } else {
      PackedSucceeds(rootName, init);
    }
  }

  /**
   * When the walk succeeds, the members are those of the callbacks after
   * the origin's, one each and in the same order.
   */
  lemma {:induction false} PackedAligned(rootName: string, calls: seq<Call>)
    requires Packed(rootName, calls).Success?
    requires |calls| >= 1 && calls[0].segs == []
    requires forall k :: 1 <= k < |calls| ==> calls[k].segs != []
    ensures |Packed(rootName, calls).value| == |calls| - 1
    ensures forall k :: 1 <= k < |calls| ==>
              && calls[k].Visit?
              && !(calls[k].node.Regular? && calls[k].node.content.None?)
              && Packed(rootName, calls).value[k - 1] == Member(rootName, calls[k].segs, calls[k].node)
  {
    var n := |calls|;
    var init := calls[..n - 1];
    if n > 1 {
      assert forall k :: 0 <= k < |init| ==> init[k] == calls[k];
      PackedAligned(rootName, init);
      var prev := Packed(rootName, init).value;
      var last := calls[n - 1];
      assert last.segs != [];
      var e := Emit(rootName, last);
      assert e.Success?;
      assert last.Visit? && e.value == [Member(rootName, last.segs, last.node)];
      var es := Packed(rootName, calls).value;
      assert es == prev + e.value;
      forall k | 1 <= k < n
        ensures && calls[k].Visit?
                && !(calls[k].node.Regular? && calls[k].node.content.None?)
                && es[k - 1] == Member(rootName, calls[k].segs, calls[k].node)
      {
        if k < n - 1 {
          assert es[k - 1] == prev[k - 1] && init[k] == calls[k];
        }
      }
    } else {
      assert Packed(rootName, init) == Success([]);
    }
  }

  /** The walk of a tree fails exactly when the tree holds an entry the callback stops at. */
  lemma PackFailsIff(rootName: string, t: Tree)
    ensures Packed(rootName, Walk(t)).Failure? <==> exists segs, n :: Has(t, segs, n) && Faulty(segs, n)
  {
    if Packed(rootName, Walk(t)).Failure? {
      PackFailsAtFault(rootName, t);
    }
    if exists segs, n :: Has(t, segs, n) && Faulty(segs, n) {
      var segs, n :| Has(t, segs, n) && Faulty(segs, n);
      FaultFailsPack(rootName, t, segs, n);
    }
  }

  /** A failed walk met an entry the callback stops at. */
  lemma PackFailsAtFault(rootName: string, t: Tree)
    requires Packed(rootName, Walk(t)).Failure?
    ensures exists segs, n :: Has(t, segs, n) && Faulty(segs, n)
  {
    var w := Walk(t);
    PackedSucceeds(rootName, w);
    WalkSound(t);
    var k :| 0 <= k < |w| && Emit(rootName, w[k]).Failure?;
    assert Reports(t, w[k]);
    if w[k].Failed? {
      var n :| Has(t, w[k].segs, n) && n.Folder? && !n.listed;
      assert Faulty(w[k].segs, n);
    } else {
      assert Faulty(w[k].segs, w[k].node);
    }
  }

  /** An entry the callback stops at makes the walk fail. */
  lemma FaultFailsPack(rootName: string, t: Tree, segs: seq<string>, n: Tree)
    requires Has(t, segs, n) && Faulty(segs, n)
    ensures Packed(rootName, Walk(t)).Failure?
  {
    var w := Walk(t);
    PackedSucceeds(rootName, w);
    if n.Folder? && !n.listed {
      WalkReportsUnlisted(t, segs, n);
      var k :| 0 <= k < |w| && w[k] == Failed(segs);
      assert Emit(rootName, w[k]).Failure?;
    } else {
      WalkComplete(t, segs, n);
      var k :| 0 <= k < |w| && w[k] == Visit(segs, n);
      assert Emit(rootName, w[k]).Failure?;
    }
  }

  /** After the origin's visit, every call of the walk is below the origin. */
  lemma WalkBelowOrigin(t: Tree)
    ensures |Walk(t)| >= 1 && Walk(t)[0] == Visit([], t)
    ensures forall k :: 1 <= k < |Walk(t)| ==> Walk(t)[k].segs != [] || Walk(t)[k] == Failed([])
  {
    var w := Walk(t);
    if t.Folder? && t.listed {
      var r := WalkFrom(t, 0);
      assert w == [Visit([], t)] + r;
      WalkFromBelow(t, 0);
      forall k | 1 <= k < |w| ensures w[k].segs != [] {
        assert w[k] == r[k - 1];
      }
    } else if t.Folder? {
      assert w == [Visit([], t), Failed([])];
    } else {
      assert w == [Visit([], t)];
    }
  }

  /**
   * A successful walk writes one member for every entry below the origin,
   * and nothing else: soundness and completeness of the archive against the
   * tree.
   */
  lemma PackedTree(rootName: string, t: Tree)
    requires Packed(rootName, Walk(t)).Success?
    ensures var es := Packed(rootName, Walk(t)).value;
            && (forall segs, n :: Has(t, segs, n) && segs != [] ==>
                  !Faulty(segs, n) && Member(rootName, segs, n) in es)
            && (forall k :: 0 <= k < |es| ==>
                  exists segs, n :: Has(t, segs, n) && segs != [] && !Faulty(segs, n) && es[k] == Member(rootName, segs, n))
  {
    var w := Walk(t);
    var es := Packed(rootName, w).value;
    PackFailsIff(rootName, t);
    PackedSucceeds(rootName, w);
    WalkBelowOrigin(t);
    forall k | 1 <= k < |w| ensures w[k].segs != [] {
      assert Emit(rootName, w[k]).Success?;
    }
    PackedAligned(rootName, w);
    WalkSound(t);
    forall segs, n | Has(t, segs, n) && segs != [] ensures !Faulty(segs, n) && Member(rootName, segs, n) in es {
      WalkComplete(t, segs, n);
      var k :| 0 <= k < |w| && w[k] == Visit(segs, n);
      assert k != 0;
      assert es[k - 1] == Member(rootName, segs, n);
    }
    forall k | 0 <= k < |es|
      ensures exists segs, n :: Has(t, segs, n) && segs != [] && !Faulty(segs, n) && es[k] == Member(rootName, segs, n)
    {
      assert Reports(t, w[k + 1]);
      assert Has(t, w[k + 1].segs, w[k + 1].node);
    }
  }

  /** An origin that cannot be Lstat'ed fails the walk at once. */
  lemma MissingOrigin(rootName: string)
    ensures Packed(rootName, WalkOrigin(None)) == Failure(WalkFailed([]))
  {
    assert WalkOrigin(None)[..0] == [];
  }

  /** Every entry below the origin sits in a directory that was listed. */
  lemma {:induction false} HasParent(t: Tree, segs: seq<string>, n: Tree)
    requires Has(t, segs, n) && segs != []
    ensures exists p :: Has(t, segs[..|segs| - 1], p) && p.Folder? && p.listed
    decreases |segs|
  {
    var cs := t.children;
    var j :| 0 <= j < |cs| && cs[j].name == segs[0] && Has(cs[j].tree, segs[1..], n);
    if |segs| == 1 {
      assert Has(t, segs[..0], t);
    } else {
      HasParent(cs[j].tree, segs[1..], n);
      var p :| Has(cs[j].tree, segs[1..][..|segs| - 2], p) && p.Folder? && p.listed;
      assert segs[..|segs| - 1][1..] == segs[1..][..|segs| - 2];
      assert Has(t, segs[..|segs| - 1], p);
    }
  }

  /**
   * WalkDir visits a directory before everything in it, so the archive
   * holds a directory's header before the members below it.
   */
  lemma DirectoryFirst(t: Tree, segs: seq<string>, n: Tree)
    requires ValidTree(t) && Has(t, segs, n) && segs != []
    ensures exists i, j :: 0 <= i < j < |Walk(t)| &&
              Walk(t)[j] == Visit(segs, n) &&
              Walk(t)[i].Visit? && Walk(t)[i].segs == segs[..|segs| - 1] && Walk(t)[i].node.Folder?
  {
    var w := Walk(t);
    var up := segs[..|segs| - 1];
    HasParent(t, segs, n);
    var p :| Has(t, up, p) && p.Folder? && p.listed;
    WalkComplete(t, segs, n);
    WalkComplete(t, up, p);
    var j :| 0 <= j < |w| && w[j] == Visit(segs, n);
    var i :| 0 <= i < |w| && w[i] == Visit(up, p);
    WalkOrdered(t);
    SegLessPrefix(up, segs);
    SegLessIrreflexive(segs);
    VisitOrder(w, i, j);
  }

  /** In a run in path order, a visit of a smaller path comes first. */
  lemma VisitOrder(w: seq<Call>, i: nat, j: nat)
    requires InPathOrder(w) && i < |w| && j < |w| && w[i].Visit? && w[j].Visit?
    requires SegLess(w[i].segs, w[j].segs) && !SegLess(w[j].segs, w[i].segs)
    ensures i < j
  {
  }
}
