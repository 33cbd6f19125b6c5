/**
 * The part of the operating system's file system that the core touches,
 * as seen through Go's os package: a finite map from resolved paths to
 * directories and regular files. The root, the working directory and the
 * directories above it are always present and are not in the map. Paths
 * where the system refuses to create or open an entry are a fixed set, and
 * so are paths whose Stat is refused.
 */
module Fs {
  import opened Results
  import Paths

  type byte = x: int | 0 <= x < 256

  /**
   * A path after filepath.Clean: whether it starts at the root (otherwise
   * at the working directory) and its parts, of which only a leading run can
   * be "..".
   */
  datatype Path = Path(rooted: bool, parts: seq<string>)

  /** The path the system resolves a non-empty path string to. */
  function Resolve(s: string): Path
  {
    Path(Paths.IsRooted(s), Paths.CleanParts(s))
  }

  /** Modes are the FileMode value handed to the call that made the entry. */
  datatype Node = Dir(mode: nat) | File(mode: nat, data: seq<byte>)

  /** The errno values the model can produce. */
  datatype FsError = NotExist | NotDir | IsDir | Exists | Denied | NotEmpty

  /** The map after an operation, and the error it reported, if any. */
  datatype Step = Step(nodes: map<Path, Node>, err: Option<FsError>)

  const ModeTemp: nat := 0x180  // 0o600, os.CreateTemp
  const ModeDir: nat := 0x1ED   // 0o755
  const ModeManifest: nat := 0x1A4  // 0o644

  /** os.FileMode(m) for an int64 tar header mode: truncation to uint32. */
  function FileMode(m: int): (r: nat)
    ensures r < 0x1_0000_0000
    ensures 0 <= m < 0x1_0000_0000 ==> r == m
    ensures (r - m) % 0x1_0000_0000 == 0
  {
    m % 0x1_0000_0000
  }

  function Prefix(p: Path, k: nat): Path
    requires k <= |p.parts|
  {
    Path(p.rooted, p.parts[..k])
  }

  function Parent(p: Path): Path
    requires p.parts != []
  {
    Prefix(p, |p.parts| - 1)
  }

  /** `a` is `p` or one of its ancestors. */
  predicate Ancestor(a: Path, p: Path)
  {
    a.rooted == p.rooted && a.parts <= p.parts
  }

  /** The root, the working directory, or a directory above the latter. */
  predicate Implicit(p: Path)
  {
    forall i :: 0 <= i < |p.parts| ==> p.parts[i] == ".."
  }

  predicate Present(nodes: map<Path, Node>, p: Path)
  {
    Implicit(p) || p in nodes
  }

  predicate IsDirectory(nodes: map<Path, Node>, p: Path)
  {
    Implicit(p) || (p in nodes && nodes[p].Dir?)
  }

  predicate IsFile(nodes: map<Path, Node>, p: Path)
  {
    p in nodes && nodes[p].File?
  }

  /** Every entry hangs below directories: what a real file system keeps. */
  predicate Tidy(nodes: map<Path, Node>)
  {
    forall q, k :: q in nodes && 0 <= k < |q.parts| ==> IsDirectory(nodes, Prefix(q, k))
  }

  /** The error of a call on a missing `p` whose parent is not a directory. */
  function ParentError(nodes: map<Path, Node>, p: Path): FsError
    requires p.parts != []
  {
    if Present(nodes, Parent(p)) then NotDir else NotExist
  }

  // ---------------------------------------------------------------------
  // The system calls, as functions of the state before them

  /** os.Stat, reduced to its error. */
  function StatErr(nodes: map<Path, Node>, hidden: set<Path>, p: Path): Option<FsError>
  {
    if p in hidden then Some(Denied)
    else if Present(nodes, p) then None
    else if !IsDirectory(nodes, Parent(p)) then Some(ParentError(nodes, p))
    else Some(NotExist)
  }

  /** os.Mkdir. */
  function MkdirOn(nodes: map<Path, Node>, denied: set<Path>, p: Path, perm: nat): Step
  {
    if Present(nodes, p) then Step(nodes, Some(Exists))
    else if !IsDirectory(nodes, Parent(p)) then Step(nodes, Some(ParentError(nodes, p)))
    else if p in denied then Step(nodes, Some(Denied))
    else Step(nodes[p := Dir(perm)], None)
  }

  /**
   * os.MkdirAll: nothing to do for a directory, ENOTDIR for a file, and
   * otherwise the parent first, then Mkdir of the path itself.
   */
  function MkdirAllOn(nodes: map<Path, Node>, denied: set<Path>, p: Path, perm: nat): Step
    decreases |p.parts|
  {
    if Present(nodes, p) then
      if IsDirectory(nodes, p) then Step(nodes, None) else Step(nodes, Some(NotDir))
    else
      var s := MkdirAllOn(nodes, denied, Parent(p), perm);
      if s.err.Some? then s
      else if p in denied then Step(s.nodes, Some(Denied))
      else Step(s.nodes[p := Dir(perm)], None)
  }

  /**
   * os.OpenFile with O_CREATE|O_WRONLY|O_TRUNC: an existing file is emptied
   * and keeps its mode, a new one gets `perm`.
   */
  function OpenTruncOn(nodes: map<Path, Node>, denied: set<Path>, p: Path, perm: nat): Step
  {
    if IsDirectory(nodes, p) then Step(nodes, Some(IsDir))
    else if !IsDirectory(nodes, Parent(p)) then Step(nodes, Some(ParentError(nodes, p)))
    else if p in denied then Step(nodes, Some(Denied))
    else if p in nodes then Step(nodes[p := File(nodes[p].mode, [])], None)
    else Step(nodes[p := File(perm, [])], None)
  }

  /** Writing to an open file appends at its offset. */
  function Append(nodes: map<Path, Node>, p: Path, data: seq<byte>): map<Path, Node>
    requires IsFile(nodes, p)
  {
    nodes[p := File(nodes[p].mode, nodes[p].data + data)]
  }

  /** os.CreateTemp's open: O_RDWR|O_CREATE|O_EXCL with mode 0600. */
  function CreateExclOn(nodes: map<Path, Node>, denied: set<Path>, p: Path): Step
  {
    if Present(nodes, p) then Step(nodes, Some(Exists))
    else if !IsDirectory(nodes, Parent(p)) then Step(nodes, Some(ParentError(nodes, p)))
    else if p in denied then Step(nodes, Some(Denied))
    else Step(nodes[p := File(ModeTemp, [])], None)
  }

  /** `q` lies strictly below `p`. */
  predicate Below(q: Path, p: Path)
  {
    q.rooted == p.rooted && |p.parts| < |q.parts| && q.parts[..|p.parts|] == p.parts
  }

  /** os.Remove: a file, or a directory with nothing below it. */
  function RemoveOn(nodes: map<Path, Node>, p: Path): Step
  {
    if p !in nodes then Step(nodes, Some(NotExist))
    else if nodes[p].Dir? && exists q :: q in nodes && Below(q, p) then Step(nodes, Some(NotEmpty))
    else Step(nodes - {p}, None)
  }

  // ---------------------------------------------------------------------
  // The file system as the program sees it

  class FileSystem {
    var nodes: map<Path, Node>
    const denied: set<Path>
    const hidden: set<Path>

    constructor (nodes: map<Path, Node>, denied: set<Path>, hidden: set<Path>)
      ensures this.nodes == nodes && this.denied == denied && this.hidden == hidden
    {
      this.nodes := nodes;
      this.denied := denied;
      this.hidden := hidden;
    }

    method Stat(p: Path) returns (err: Option<FsError>)
      ensures err == StatErr(nodes, hidden, p)
    {
      err := StatErr(nodes, hidden, p);
    }

    method Mkdir(p: Path, perm: nat) returns (err: Option<FsError>)
      modifies this
      ensures Step(nodes, err) == MkdirOn(old(nodes), denied, p, perm)
    {
      var s := MkdirOn(nodes, denied, p, perm);
      nodes, err := s.nodes, s.err;
    }

    /** os.MkdirAll, recursing on the parent as the library does. */
    method MkdirAll(p: Path, perm: nat) returns (err: Option<FsError>)
      modifies this
      ensures Step(nodes, err) == MkdirAllOn(old(nodes), denied, p, perm)
      decreases |p.parts|
    {
      if Present(nodes, p) {
        err := if IsDirectory(nodes, p) then None else Some(NotDir);
        return;
      }
      ghost var before := nodes;
      err := MkdirAll(Parent(p), perm);
      if err.Some? {
        return;
      }
      MkdirAllFrame(before, denied, Parent(p), perm);
      MkdirAllMakesPath(before, denied, Parent(p), perm);
      err := Mkdir(p, perm);
    }

    method OpenTrunc(p: Path, perm: nat) returns (err: Option<FsError>)
      modifies this
      ensures Step(nodes, err) == OpenTruncOn(old(nodes), denied, p, perm)
    {
      var s := OpenTruncOn(nodes, denied, p, perm);
      nodes, err := s.nodes, s.err;
    }

    method Write(p: Path, data: seq<byte>)
      requires IsFile(nodes, p)
      modifies this
      ensures nodes == Append(old(nodes), p, data)
    {
      nodes := Append(nodes, p, data);
    }

    method CreateExcl(p: Path) returns (err: Option<FsError>)
      modifies this
      ensures Step(nodes, err) == CreateExclOn(old(nodes), denied, p)
    {
      var s := CreateExclOn(nodes, denied, p);
      nodes, err := s.nodes, s.err;
    }

    method Remove(p: Path) returns (err: Option<FsError>)
      modifies this
      ensures Step(nodes, err) == RemoveOn(old(nodes), p)
    {
      var s := RemoveOn(nodes, p);
      nodes, err := s.nodes, s.err;
    }
  }

  // ---------------------------------------------------------------------
  // Properties of MkdirAll

  /** A successful MkdirAll leaves a directory at the path. */
  lemma MkdirAllMakesPath(nodes: map<Path, Node>, denied: set<Path>, p: Path, perm: nat)
    requires MkdirAllOn(nodes, denied, p, perm).err.None?
    ensures IsDirectory(MkdirAllOn(nodes, denied, p, perm).nodes, p)
  {
  }

  /** Repeating a successful MkdirAll changes nothing and succeeds. */
  lemma MkdirAllIdempotent(nodes: map<Path, Node>, denied: set<Path>, p: Path, perm: nat, perm2: nat)
    requires MkdirAllOn(nodes, denied, p, perm).err.None?
    ensures var m := MkdirAllOn(nodes, denied, p, perm).nodes;
            MkdirAllOn(m, denied, p, perm2) == Step(m, None)
  {
    MkdirAllMakesPath(nodes, denied, p, perm);
  }

  /** The ancestors of a directory in a tidy map are directories. */
  lemma DirectoryAncestors(nodes: map<Path, Node>, p: Path, k: nat)
    requires Tidy(nodes) && IsDirectory(nodes, p) && k <= |p.parts|
    ensures IsDirectory(nodes, Prefix(p, k))
  {
    if k == |p.parts| {
      assert Prefix(p, k) == p;
    } else if Implicit(p) {
      assert forall i :: 0 <= i < k ==> Prefix(p, k).parts[i] == p.parts[i];
    }
  }

  /** After a successful MkdirAll on a tidy map, the path and all its ancestors are directories. */
  lemma {:induction false} MkdirAllMakesDirs(nodes: map<Path, Node>, denied: set<Path>, p: Path, perm: nat)
    requires Tidy(nodes)
    requires MkdirAllOn(nodes, denied, p, perm).err.None?
    ensures forall k :: 0 <= k <= |p.parts| ==>
              IsDirectory(MkdirAllOn(nodes, denied, p, perm).nodes, Prefix(p, k))
    decreases |p.parts|
  {
    var r := MkdirAllOn(nodes, denied, p, perm);
    if Present(nodes, p) {
      forall k | 0 <= k <= |p.parts| ensures IsDirectory(nodes, Prefix(p, k)) {
        DirectoryAncestors(nodes, p, k);
      }
    } else {
      var q := Parent(p);
      MkdirAllMakesDirs(nodes, denied, q, perm);
      forall k | 0 <= k <= |p.parts| ensures IsDirectory(r.nodes, Prefix(p, k)) {
        if k == |p.parts| {
          assert Prefix(p, k) == p;
        } else {
          assert Prefix(p, k) == Prefix(q, k);
        }
      }
    }
  }

  /**
   * MkdirAll never alters an entry that was there, and every entry it adds
   * is a directory with the requested mode at the path or one of its
   * ancestors, at a place the system lets it create (never the root or the
   * working directory).
   */
  lemma {:induction false} MkdirAllFrame(nodes: map<Path, Node>, denied: set<Path>, p: Path, perm: nat)
    ensures var r := MkdirAllOn(nodes, denied, p, perm).nodes;
            && (forall q :: q in nodes ==> q in r && r[q] == nodes[q])
            && (forall q :: q in r && q !in nodes ==> r[q] == Dir(perm) && Ancestor(q, p) && q !in denied && !Implicit(q))
    decreases |p.parts|
  {
    if !Present(nodes, p) {
      MkdirAllFrame(nodes, denied, Parent(p), perm);
    }
  }

  /** The paths MkdirAll can bring about: each ancestor is a directory or can be made one. */
  predicate Creatable(nodes: map<Path, Node>, denied: set<Path>, p: Path)
  {
    forall k :: 0 <= k <= |p.parts| ==>
      IsDirectory(nodes, Prefix(p, k)) || (!Present(nodes, Prefix(p, k)) && Prefix(p, k) !in denied)
  }

  /** On a tidy map MkdirAll succeeds exactly when every ancestor is a directory or can be made one. */
  lemma {:induction false} MkdirAllSucceeds(nodes: map<Path, Node>, denied: set<Path>, p: Path, perm: nat)
    requires Tidy(nodes)
    ensures MkdirAllOn(nodes, denied, p, perm).err.None? <==> Creatable(nodes, denied, p)
    decreases |p.parts|
  {
    var n := |p.parts|;
    assert Prefix(p, n) == p;
    if Present(nodes, p) {
      if IsDirectory(nodes, p) {
        forall k | 0 <= k <= n ensures IsDirectory(nodes, Prefix(p, k)) {
          DirectoryAncestors(nodes, p, k);
        }
      }
    } else {
      var q := Parent(p);
      MkdirAllSucceeds(nodes, denied, q, perm);
      assert forall k :: 0 <= k < n ==> Prefix(p, k) == Prefix(q, k);
      if Creatable(nodes, denied, p) {
        assert Creatable(nodes, denied, q);
      }
    }
  }

  /** Adding or replacing one entry below a directory keeps a map tidy, unless a directory becomes a file. */
  lemma TidyUpdate(nodes: map<Path, Node>, p: Path, n: Node)
    requires Tidy(nodes) && p.parts != [] && IsDirectory(nodes, Parent(p))
    requires n.File? ==> !IsDirectory(nodes, p)
    ensures Tidy(nodes[p := n])
  {
    var m := nodes[p := n];
    forall q, k | q in m && 0 <= k < |q.parts| ensures IsDirectory(m, Prefix(q, k)) {
      if q == p {
        DirectoryAncestors(nodes, Parent(p), k);
        assert Prefix(Parent(p), k) == Prefix(p, k);
      } else {
        assert IsDirectory(nodes, Prefix(q, k));
        if Prefix(q, k) == p {
          assert n.Dir? || !IsDirectory(nodes, p);
        }
      }
    }
  }

  /** MkdirAll keeps a map tidy. */
  lemma {:induction false} MkdirAllTidy(nodes: map<Path, Node>, denied: set<Path>, p: Path, perm: nat)
    requires Tidy(nodes)
    ensures Tidy(MkdirAllOn(nodes, denied, p, perm).nodes)
    decreases |p.parts|
  {
    if !Present(nodes, p) {
      var q := Parent(p);
      var s := MkdirAllOn(nodes, denied, q, perm);
      MkdirAllTidy(nodes, denied, q, perm);
      if s.err.None? && p !in denied {
        MkdirAllMakesPath(nodes, denied, q, perm);
        TidyUpdate(s.nodes, p, Dir(perm));
      }
    }
  }

  /** Opening for writing keeps a map tidy. */
  lemma OpenTruncTidy(nodes: map<Path, Node>, denied: set<Path>, p: Path, perm: nat)
    requires Tidy(nodes)
    ensures Tidy(OpenTruncOn(nodes, denied, p, perm).nodes)
  {
    var s := OpenTruncOn(nodes, denied, p, perm);
    if s.err.None? {
      if p in nodes {
        TidyUpdate(nodes, p, File(nodes[p].mode, []));
      } else {
        TidyUpdate(nodes, p, File(perm, []));
      }
    }
  }

  /**
   * Opening with O_TRUNC leaves an empty file at the path: an existing file
   * keeps its mode, a new one gets `perm`. Everything else is unchanged, and
   * the call fails only for a directory, a missing parent or a refused path.
   */
  lemma OpenTruncResult(nodes: map<Path, Node>, denied: set<Path>, p: Path, perm: nat)
    ensures var s := OpenTruncOn(nodes, denied, p, perm);
            && (s.err.None? <==> !IsDirectory(nodes, p) && IsDirectory(nodes, Parent(p)) && p !in denied)
            && (s.err.None? ==> s.nodes == nodes[p := File(if p in nodes then nodes[p].mode else perm, [])])
            && (s.err.Some? ==> s.nodes == nodes)
  {
  }

  /** Writing to a file keeps the map tidy. */
  lemma AppendTidy(nodes: map<Path, Node>, p: Path, data: seq<byte>)
    requires Tidy(nodes) && IsFile(nodes, p)
    ensures Tidy(Append(nodes, p, data))
  {
    var m := Append(nodes, p, data);
    forall q, k | q in m && 0 <= k < |q.parts| ensures IsDirectory(m, Prefix(q, k)) {
      assert IsDirectory(nodes, Prefix(q, k));
    }
  }
}
