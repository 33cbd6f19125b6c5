/**
 * internal/repository/client.go: fetching a package archive over HTTP,
 * spooling it to a temporary file and unpacking its members under a
 * destination directory.
 */
module Client {
  import opened Results
  import Strings
  import Paths
  import Fs
  import Tar

  /** What the HTTP exchange for the download URL produced. */
  datatype Exchange =
    | Malformed                 // http.NewRequestWithContext refused the URL
    | Unreachable               // http.Client.Do failed (network, timeout)
    | Response(status: int, body: seq<Fs.byte>, complete: bool)
                                // the bytes received; complete is false when
                                // reading the body failed after them

  /** The errors Download wraps, one per fmt.Errorf in its body. */
  datatype DownloadError =
    | CreateRequest
    | DoRequest
    | Status(code: int, excerpt: seq<Fs.byte>)
    | CreateDest(cause: Fs.FsError)
    | CreateTemp(cause: Fs.FsError)
    | SaveArchive
    | OpenGzip
    | ReadEntry
    | CreateDir(path: string, cause: Fs.FsError)
    | CreateParent(path: string, cause: Fs.FsError)
    | CreateFile(path: string, cause: Fs.FsError)
    | CopyFile(path: string)

  /** The file system after a step of the download, and its error if any. */
  datatype Outcome = Outcome(nodes: map<Fs.Path, Fs.Node>, err: Option<DownloadError>)

  /** The refusal body is read through a 4 KiB LimitReader. */
  const ExcerptLimit: nat := 4096

  /** The URL of a package's archive: Sprintf("%s/%s", base, Sprintf("packages/%s/download", name)). */
  function DownloadURL(baseURL: string, packageName: string): (url: string)
    ensures url == baseURL + "/packages/" + packageName + "/download"
  {
    Strings.FormatOne("packages/", "/download", packageName);
    URLFormats();
    var path := Strings.Format("packages/%s/download", [packageName]);
    Strings.FormatTwo("", "/", "", baseURL, path);
    Strings.Format("%s/%s", [baseURL, path])
  }

  /** The two format strings of DownloadURL, split at their verbs. */
  lemma URLFormats()
    ensures "packages/" + "%s" + "/download" == "packages/%s/download"
    ensures "" + "%s" + "/" + "%s" + "" == "%s/%s"
  {
  }

  /** Different packages of one server have different URLs. */
  lemma DownloadURLInjective(baseURL: string, a: string, b: string)
    requires DownloadURL(baseURL, a) == DownloadURL(baseURL, b)
    ensures a == b
  {
    var u := DownloadURL(baseURL, a);
    var k := |baseURL| + |"/packages/"|;
    assert u[k..|u| - |"/download"|] == a;
    assert u[k..|u| - |"/download"|] == b;
  }

  /** The first bytes of a refused response's body, at most 4 KiB of them. */
  function Excerpt(body: seq<Fs.byte>): (x: seq<Fs.byte>)
    ensures x <= body
    ensures |x| == if |body| < ExcerptLimit then |body| else ExcerptLimit
  {
    if |body| <= ExcerptLimit then body else body[..ExcerptLimit]
  }

  /** Only a 2xx status lets the download go on. */
  predicate Accepted(status: int)
  {
    200 <= status < 300
  }

  /** filepath.Join(dest, filepath.Clean(name)) for a member called `name`. */
  function TargetPath(dest: string, name: string): string
  {
    Paths.Join(dest, Paths.Clean(name))
  }

  // ---------------------------------------------------------------------
  // The download, as a function of the state before it

  /**
   * A regular member: MkdirAll of the target's directory with 0755, then
   * OpenFile with O_TRUNC and the header's mode, then the payload copied
   * in; `complete` is false when the payload ended early.
   */
  function PlaceFileOn(nodes: map<Fs.Path, Fs.Node>, denied: set<Fs.Path>, target: string, mode: int,
                       data: seq<Fs.byte>, complete: bool): Outcome
  {
    var parent := Paths.Dir(target);
    PlaceAt(nodes, denied, parent, target, Fs.Resolve(parent), Fs.Resolve(target), mode, data, complete)
  }

  /** PlaceFileOn once the directory `parent` and the `target` are resolved to `p` and `t`. */
  function PlaceAt(nodes: map<Fs.Path, Fs.Node>, denied: set<Fs.Path>, parent: string, target: string,
                   p: Fs.Path, t: Fs.Path, mode: int, data: seq<Fs.byte>, complete: bool): Outcome
  {
    var m := Fs.MkdirAllOn(nodes, denied, p, Fs.ModeDir);
    if m.err.Some? then Outcome(m.nodes, Some(CreateParent(parent, m.err.value)))
    else
      var o := Fs.OpenTruncOn(m.nodes, denied, t, Fs.FileMode(mode));
      if o.err.Some? then Outcome(o.nodes, Some(CreateFile(target, o.err.value)))
      else Outcome(Fs.Append(o.nodes, t, data), if complete then None else Some(CopyFile(target)))
  }

  /** One member: a directory, a regular file, or anything else, which is skipped. */
  function ExtractEntryOn(nodes: map<Fs.Path, Fs.Node>, denied: set<Fs.Path>, dest: string, e: Tar.Entry): Outcome
  {
    var target := TargetPath(dest, e.name);
    match e
    case Dir(_, mode) =>
      var m := Fs.MkdirAllOn(nodes, denied, Fs.Resolve(target), Fs.FileMode(mode));
      Outcome(m.nodes, if m.err.Some? then Some(CreateDir(target, m.err.value)) else None)
    case Reg(_, mode, data) => PlaceFileOn(nodes, denied, target, mode, data, true)
    case Other(_, _) => Outcome(nodes, None)
  }

  /** The complete members in order; the first error ends the loop. */
  function ExtractAll(nodes: map<Fs.Path, Fs.Node>, denied: set<Fs.Path>, dest: string, es: seq<Tar.Entry>): Outcome
  {
    if es == [] then Outcome(nodes, None)
    else
      var r := ExtractAll(nodes, denied, dest, es[..|es| - 1]);
      if r.err.Some? then r else ExtractEntryOn(r.nodes, denied, dest, es[|es| - 1])
  }

  /** How the loop ends after the complete members. */
  function ExtractTailOn(nodes: map<Fs.Path, Fs.Node>, denied: set<Fs.Path>, dest: string, tail: Tar.Tail): Outcome
  {
    match tail
    case EndOfArchive => Outcome(nodes, None)
    case BadHeader => Outcome(nodes, Some(ReadEntry))
    case ShortPayload(name, mode, partial) => PlaceFileOn(nodes, denied, TargetPath(dest, name), mode, partial, false)
  }

  /** What happens once the body is in the temporary file, up to its removal. */
  function UnpackOn(nodes: map<Fs.Path, Fs.Node>, denied: set<Fs.Path>, dest: string, complete: bool,
                    stream: Option<Tar.Stream>): Outcome
  {
    if !complete then Outcome(nodes, Some(SaveArchive))
    else if stream.None? then Outcome(nodes, Some(OpenGzip))
    else
      var r := ExtractAll(nodes, denied, dest, stream.value.entries);
      if r.err.Some? then r else ExtractTailOn(r.nodes, denied, dest, stream.value.tail)
  }

  /**
   * Download after the exchange: the status gate, MkdirAll of the
   * destination (os.MkdirAll("") fails with ENOENT), the temporary file at
   * `spool`, the body written into it, the unpacking, and the deferred
   * removal of the temporary file, whose error is ignored.
   */
  function DownloadOn(nodes: map<Fs.Path, Fs.Node>, denied: set<Fs.Path>, dest: string, reply: Exchange,
                      spool: Fs.Path, decode: seq<Fs.byte> -> Option<Tar.Stream>): Outcome
  {
    match reply
    case Malformed => Outcome(nodes, Some(CreateRequest))
    case Unreachable => Outcome(nodes, Some(DoRequest))
    case Response(status, body, complete) =>
      if !Accepted(status) then Outcome(nodes, Some(Status(status, Excerpt(body))))
      else if dest == "" then Outcome(nodes, Some(CreateDest(Fs.NotExist)))
      else
        var m := Fs.MkdirAllOn(nodes, denied, Fs.Resolve(dest), Fs.ModeDir);
        if m.err.Some? then Outcome(m.nodes, Some(CreateDest(m.err.value)))
        else
          var c := Fs.CreateExclOn(m.nodes, denied, spool);
          if c.err.Some? then Outcome(c.nodes, Some(CreateTemp(c.err.value)))
          else
            var r := UnpackOn(Fs.Append(c.nodes, spool, body), denied, dest, complete, decode(body));
            Outcome(Fs.RemoveOn(r.nodes, spool).nodes, r.err)
  }

  // ---------------------------------------------------------------------
  // The client

  class Client {
    const baseURL: string

    /** repository.New; the 30-second timeout is part of what Unreachable stands for. */
    constructor (baseURL: string)
      ensures this.baseURL == baseURL
    {
      this.baseURL := baseURL;
    }

    /**
     * Client.Download for `packageName` into `dest`. `server` answers the
     * GET of a URL, `spool` is the name CreateTemp picks in the temporary
     * directory, and `decode` is what gzip.NewReader plus tar.Reader make
     * of the spooled bytes (None when the gzip header is unreadable).
     */
    method Download(fs: Fs.FileSystem, packageName: string, dest: string, server: string -> Exchange,
                    spool: Fs.Path, decode: seq<Fs.byte> -> Option<Tar.Stream>)
      returns (err: Option<DownloadError>)
      modifies fs
      ensures Outcome(fs.nodes, err) ==
              DownloadOn(old(fs.nodes), fs.denied, dest, server(DownloadURL(baseURL, packageName)), spool, decode)
    {
      var url := DownloadURL(baseURL, packageName);
      var reply := server(url);
      if reply.Malformed? {
        return Some(CreateRequest);
      }
      if reply.Unreachable? {
        return Some(DoRequest);
      }
      if !Accepted(reply.status) {
        return Some(Status(reply.status, Excerpt(reply.body)));
      }
      if dest == "" {
        return Some(CreateDest(Fs.NotExist));
      }
      var e := fs.MkdirAll(Fs.Resolve(dest), Fs.ModeDir);
      if e.Some? {
        return Some(CreateDest(e.value));
      }
      e := fs.CreateExcl(spool);
      if e.Some? {
        return Some(CreateTemp(e.value));
      }
      fs.Write(spool, reply.body);
      err := Unpack(fs, dest, reply.complete, decode(reply.body));
      var ignored := fs.Remove(spool);
    }
  }

  /** The tail of Download from the copy of the body to the end of the loop. */
  method Unpack(fs: Fs.FileSystem, dest: string, complete: bool, stream: Option<Tar.Stream>)
    returns (err: Option<DownloadError>)
    modifies fs
    ensures Outcome(fs.nodes, err) == UnpackOn(old(fs.nodes), fs.denied, dest, complete, stream)
  {
    if !complete {
      return Some(SaveArchive);
    }
    if stream.None? {
      return Some(OpenGzip);
    }
    err := ExtractEntries(fs, dest, stream.value.entries);
    if err.None? {
      err := ExtractTail(fs, dest, stream.value.tail);
    }
  }

  /** The loop over the complete members. */
  method ExtractEntries(fs: Fs.FileSystem, dest: string, entries: seq<Tar.Entry>) returns (err: Option<DownloadError>)
    modifies fs
    ensures Outcome(fs.nodes, err) == ExtractAll(old(fs.nodes), fs.denied, dest, entries)
  {
    ghost var start := fs.nodes;
    for i := 0 to |entries|
      invariant ExtractAll(start, fs.denied, dest, entries[..i]) == Outcome(fs.nodes, None)
    {
      assert entries[..i + 1][..i] == entries[..i];
      err := ExtractEntry(fs, dest, entries[i]);
      if err.Some? {
        ExtractAllStops(start, fs.denied, dest, entries, i + 1);
        return;
      }
    }
    assert entries[..|entries|] == entries;
    err := None;
  }

  /** The body of the loop for one member. */
  method ExtractEntry(fs: Fs.FileSystem, dest: string, e: Tar.Entry) returns (err: Option<DownloadError>)
    modifies fs
    ensures Outcome(fs.nodes, err) == ExtractEntryOn(old(fs.nodes), fs.denied, dest, e)
  {
    var target := TargetPath(dest, e.name);
    match e
    case Dir(_, mode) =>
      var x := fs.MkdirAll(Fs.Resolve(target), Fs.FileMode(mode));
      err := if x.Some? then Some(CreateDir(target, x.value)) else None;
    case Reg(_, mode, data) =>
      err := PlaceFile(fs, target, mode, data, true);
    case Other(_, _) =>
      err := None;
  }

  /** What tar.Reader.Next reports after the complete members. */
  method ExtractTail(fs: Fs.FileSystem, dest: string, tail: Tar.Tail) returns (err: Option<DownloadError>)
    modifies fs
    ensures Outcome(fs.nodes, err) == ExtractTailOn(old(fs.nodes), fs.denied, dest, tail)
  {
    match tail
    case EndOfArchive =>
      err := None;
    case BadHeader =>
      err := Some(ReadEntry);
    case ShortPayload(name, mode, partial) =>
      err := PlaceFile(fs, TargetPath(dest, name), mode, partial, false);
  }

  /** The TypeReg case: parent directory, open with truncation, copy. */
  method PlaceFile(fs: Fs.FileSystem, target: string, mode: int, data: seq<Fs.byte>, complete: bool)
    returns (err: Option<DownloadError>)
    modifies fs
    ensures Outcome(fs.nodes, err) == PlaceFileOn(old(fs.nodes), fs.denied, target, mode, data, complete)
  {
    var parent := Paths.Dir(target);
    var x := fs.MkdirAll(Fs.Resolve(parent), Fs.ModeDir);
    if x.Some? {
      return Some(CreateParent(parent, x.value));
    }
    x := fs.OpenTrunc(Fs.Resolve(target), Fs.FileMode(mode));
    if x.Some? {
      return Some(CreateFile(target, x.value));
    }
    fs.Write(Fs.Resolve(target), data);
    err := if complete then None else Some(CopyFile(target));
  }

  /** Once a member fails, the loop's outcome is that failure. */
  lemma {:induction false} ExtractAllStops(nodes: map<Fs.Path, Fs.Node>, denied: set<Fs.Path>, dest: string,
                                           es: seq<Tar.Entry>, k: nat)
    requires k <= |es| && ExtractAll(nodes, denied, dest, es[..k]).err.Some?
    ensures ExtractAll(nodes, denied, dest, es) == ExtractAll(nodes, denied, dest, es[..k])
    decreases |es| - k
  {
    if k < |es| {
      assert es[..k + 1][..k] == es[..k];
      ExtractAllStops(nodes, denied, dest, es, k + 1);
    } else {
      assert es[..k] == es;
    }
  }

  // ---------------------------------------------------------------------
  // The status gate and the temporary file

  /** The file system changes only after a 2xx response, for a non-empty destination. */
  lemma GateFirst(nodes: map<Fs.Path, Fs.Node>, denied: set<Fs.Path>, dest: string, reply: Exchange,
                  spool: Fs.Path, decode: seq<Fs.byte> -> Option<Tar.Stream>)
    ensures var r := DownloadOn(nodes, denied, dest, reply, spool, decode);
            && (r.nodes != nodes ==> reply.Response? && Accepted(reply.status) && dest != "")
            && (r.err.None? ==> reply.Response? && Accepted(reply.status) && reply.complete)
            && (reply.Response? && !Accepted(reply.status) ==>
                  r.err == Some(Status(reply.status, Excerpt(reply.body))) && r.err.value.excerpt <= reply.body)
  {
  }

  /** An error raised before CreateTemp succeeded; the temporary file does not exist then. */
  predicate Early(err: DownloadError)
  {
    err.CreateRequest? || err.DoRequest? || err.Status? || err.CreateDest? || err.CreateTemp?
  }

  /** Placing a file leaves a file that was there a file. */
  lemma PlaceFileKeepsFile(nodes: map<Fs.Path, Fs.Node>, denied: set<Fs.Path>, target: string, mode: int,
                           data: seq<Fs.byte>, complete: bool, p: Fs.Path)
    requires Fs.IsFile(nodes, p)
    ensures Fs.IsFile(PlaceFileOn(nodes, denied, target, mode, data, complete).nodes, p)
  {
    var parent := Paths.Dir(target);
    PlaceAtKeepsFile(nodes, denied, parent, target, Fs.Resolve(parent), Fs.Resolve(target), mode, data, complete, p);
  }

  lemma PlaceAtKeepsFile(nodes: map<Fs.Path, Fs.Node>, denied: set<Fs.Path>, parent: string, target: string,
                         d: Fs.Path, t: Fs.Path, mode: int, data: seq<Fs.byte>, complete: bool, p: Fs.Path)
    requires Fs.IsFile(nodes, p)
    ensures Fs.IsFile(PlaceAt(nodes, denied, parent, target, d, t, mode, data, complete).nodes, p)
  {
    Fs.MkdirAllFrame(nodes, denied, d, Fs.ModeDir);
  }

  lemma EntryKeepsFile(nodes: map<Fs.Path, Fs.Node>, denied: set<Fs.Path>, dest: string, e: Tar.Entry, p: Fs.Path)
    requires Fs.IsFile(nodes, p)
    ensures Fs.IsFile(ExtractEntryOn(nodes, denied, dest, e).nodes, p)
  {
    var target := TargetPath(dest, e.name);
    match e
    case Dir(_, mode) => Fs.MkdirAllFrame(nodes, denied, Fs.Resolve(target), Fs.FileMode(mode));
    case Reg(_, mode, data) => PlaceFileKeepsFile(nodes, denied, target, mode, data, true, p);
    case Other(_, _) =>
  }

  lemma {:induction false} ExtractAllKeepsFile(nodes: map<Fs.Path, Fs.Node>, denied: set<Fs.Path>, dest: string,
                                               es: seq<Tar.Entry>, p: Fs.Path)
    requires Fs.IsFile(nodes, p)
    ensures Fs.IsFile(ExtractAll(nodes, denied, dest, es).nodes, p)
  {
    if es != [] {
      var init := es[..|es| - 1];
      ExtractAllKeepsFile(nodes, denied, dest, init, p);
      EntryKeepsFile(ExtractAll(nodes, denied, dest, init).nodes, denied, dest, es[|es| - 1], p);
    }
  }

  /** Unpacking never turns the temporary file into anything but a file. */
  lemma UnpackKeepsFile(nodes: map<Fs.Path, Fs.Node>, denied: set<Fs.Path>, dest: string, complete: bool,
                        stream: Option<Tar.Stream>, p: Fs.Path)
    requires Fs.IsFile(nodes, p)
    ensures Fs.IsFile(UnpackOn(nodes, denied, dest, complete, stream).nodes, p)
  {
    if complete && stream.Some? {
      var s := stream.value;
      ExtractAllKeepsFile(nodes, denied, dest, s.entries, p);
      var r := ExtractAll(nodes, denied, dest, s.entries);
      if r.err.None? && s.tail.ShortPayload? {
        PlaceFileKeepsFile(r.nodes, denied, TargetPath(dest, s.tail.name), s.tail.mode, s.tail.partial, false, p);
      }
    }
  }

  /**
   * The deferred removal: once CreateTemp has succeeded the temporary file is
   * gone at the end, whatever happened in between; and a temporary path that
   * did not exist before and is not on the way to the destination does not
   * exist afterwards either.
   */
  lemma SpoolRemoved(nodes: map<Fs.Path, Fs.Node>, denied: set<Fs.Path>, dest: string, reply: Exchange,
                     spool: Fs.Path, decode: seq<Fs.byte> -> Option<Tar.Stream>)
    ensures var r := DownloadOn(nodes, denied, dest, reply, spool, decode);
            && (r.err.None? || !Early(r.err.value) ==> spool !in r.nodes)
            && (spool !in nodes && (dest != "" ==> !Fs.Ancestor(spool, Fs.Resolve(dest))) ==> spool !in r.nodes)
  {
    if reply.Response? && Accepted(reply.status) && dest != "" {
      var m := Fs.MkdirAllOn(nodes, denied, Fs.Resolve(dest), Fs.ModeDir);
      Fs.MkdirAllFrame(nodes, denied, Fs.Resolve(dest), Fs.ModeDir);
      if m.err.None? {
        var c := Fs.CreateExclOn(m.nodes, denied, spool);
        if c.err.None? {
          var held := Fs.Append(c.nodes, spool, reply.body);
          UnpackKeepsFile(held, denied, dest, reply.complete, decode(reply.body), spool);
        }
      }
    }
  }

  // ---------------------------------------------------------------------
  // What one member does

  /** The directory PlaceFile prepares is the target's parent, or the target itself for "/" and ".". */
  lemma DirResolves(target: string)
    requires Paths.Clean(target) == target
    ensures var t := Fs.Resolve(target); var d := Fs.Resolve(Paths.Dir(target));
            && Fs.Ancestor(d, t)
            && (t.parts != [] ==> d == Fs.Parent(t))
            && (t.parts == [] ==> d == t)
  {
    if Paths.CleanParts(target) != [] {
      Paths.DirOfClean(target);
    } else {
      Paths.DirOfCleanEmpty(target);
    }
  }

  lemma PlaceFileTidy(nodes: map<Fs.Path, Fs.Node>, denied: set<Fs.Path>, target: string, mode: int,
                      data: seq<Fs.byte>, complete: bool)
    requires Fs.Tidy(nodes)
    ensures Fs.Tidy(PlaceFileOn(nodes, denied, target, mode, data, complete).nodes)
  {
    var parent := Paths.Dir(target);
    PlaceAtTidy(nodes, denied, parent, target, Fs.Resolve(parent), Fs.Resolve(target), mode, data, complete);
  }

  lemma PlaceAtTidy(nodes: map<Fs.Path, Fs.Node>, denied: set<Fs.Path>, parent: string, target: string,
                    p: Fs.Path, t: Fs.Path, mode: int, data: seq<Fs.byte>, complete: bool)
    requires Fs.Tidy(nodes)
    ensures Fs.Tidy(PlaceAt(nodes, denied, parent, target, p, t, mode, data, complete).nodes)
  {
    var m := Fs.MkdirAllOn(nodes, denied, p, Fs.ModeDir);
    Fs.MkdirAllTidy(nodes, denied, p, Fs.ModeDir);
    Fs.OpenTruncTidy(m.nodes, denied, t, Fs.FileMode(mode));
    var o := Fs.OpenTruncOn(m.nodes, denied, t, Fs.FileMode(mode));
    if m.err.None? && o.err.None? {
      Fs.AppendTidy(o.nodes, t, data);
    }
  }

  /** Every member keeps the file system a tree. */
  lemma EntryTidy(nodes: map<Fs.Path, Fs.Node>, denied: set<Fs.Path>, dest: string, e: Tar.Entry)
    requires Fs.Tidy(nodes)
    ensures Fs.Tidy(ExtractEntryOn(nodes, denied, dest, e).nodes)
  {
    var target := TargetPath(dest, e.name);
    match e
    case Dir(_, mode) => Fs.MkdirAllTidy(nodes, denied, Fs.Resolve(target), Fs.FileMode(mode));
    case Reg(_, mode, data) => PlaceFileTidy(nodes, denied, target, mode, data, true);
    case Other(_, _) =>
  }

  /**
   * A regular member is written when its directory can be made, the target
   * is not a directory and the system lets it be opened; the target then
   * holds exactly the payload, with the mode of the file it replaced or else
   * the header's, inside a directory.
   */
  /** PlaceFile got as far as opening the target. */
  predicate Opened(r: Outcome, target: string)
  {
    r.err.None? || r.err == Some(CopyFile(target))
  }

  lemma PlaceFileResult(nodes: map<Fs.Path, Fs.Node>, denied: set<Fs.Path>, target: string, mode: int,
                        data: seq<Fs.byte>, complete: bool)
    requires Fs.Tidy(nodes)
    requires Paths.Clean(target) == target && Fs.Resolve(target).parts != []
    ensures var t := Fs.Resolve(target);
            var r := PlaceFileOn(nodes, denied, target, mode, data, complete);
            && (Opened(r, target) <==> Fs.Creatable(nodes, denied, Fs.Parent(t)) && !Fs.IsDirectory(nodes, t) && t !in denied)
            && (Opened(r, target) ==> t in r.nodes && r.nodes[t] == Fs.File(if t in nodes then nodes[t].mode else Fs.FileMode(mode), data))
            && (Opened(r, target) ==> Fs.IsDirectory(r.nodes, Fs.Parent(t)))
            && (!Opened(r, target) ==> r.nodes == Fs.MkdirAllOn(nodes, denied, Fs.Parent(t), Fs.ModeDir).nodes)
  {
    DirResolves(target);
    PlaceAtResult(nodes, denied, Paths.Dir(target), target, Fs.Resolve(target), mode, data, complete);
  }

  lemma PlaceAtResult(nodes: map<Fs.Path, Fs.Node>, denied: set<Fs.Path>, parent: string, target: string,
                      t: Fs.Path, mode: int, data: seq<Fs.byte>, complete: bool)
    requires Fs.Tidy(nodes) && t.parts != []
    ensures var r := PlaceAt(nodes, denied, parent, target, Fs.Parent(t), t, mode, data, complete);
            && (Opened(r, target) <==> Fs.Creatable(nodes, denied, Fs.Parent(t)) && !Fs.IsDirectory(nodes, t) && t !in denied)
            && (Opened(r, target) ==> t in r.nodes && r.nodes[t] == Fs.File(if t in nodes then nodes[t].mode else Fs.FileMode(mode), data))
            && (Opened(r, target) ==> Fs.IsDirectory(r.nodes, Fs.Parent(t)))
            && (!Opened(r, target) ==> r.nodes == Fs.MkdirAllOn(nodes, denied, Fs.Parent(t), Fs.ModeDir).nodes)
  {
    var p := Fs.Parent(t);
    var m := Fs.MkdirAllOn(nodes, denied, p, Fs.ModeDir);
    Fs.MkdirAllSucceeds(nodes, denied, p, Fs.ModeDir);
    Fs.MkdirAllFrame(nodes, denied, p, Fs.ModeDir);
    assert !Fs.Ancestor(t, p);
    assert t in m.nodes <==> t in nodes;
    assert t in nodes ==> m.nodes[t] == nodes[t];
    assert Fs.IsDirectory(m.nodes, t) == Fs.IsDirectory(nodes, t);
    if m.err.None? {
      Fs.MkdirAllMakesPath(nodes, denied, p, Fs.ModeDir);
      Fs.OpenTruncResult(m.nodes, denied, t, Fs.FileMode(mode));
    }
  }

  /**
   * A directory member succeeds exactly when MkdirAll can make its target;
   * then the target and every directory above it exist, and the same
   * member again, with any mode, changes nothing.
   */
  lemma DirectoryPlaced(nodes: map<Fs.Path, Fs.Node>, denied: set<Fs.Path>, dest: string, name: string,
                        mode: int, mode2: int)
    requires Fs.Tidy(nodes)
    ensures var t := Fs.Resolve(TargetPath(dest, name));
            var r := ExtractEntryOn(nodes, denied, dest, Tar.Dir(name, mode));
            && (r.err.None? <==> Fs.Creatable(nodes, denied, t))
            && (r.err.None? ==> forall k :: 0 <= k <= |t.parts| ==> Fs.IsDirectory(r.nodes, Fs.Prefix(t, k)))
            && (r.err.None? ==> ExtractEntryOn(r.nodes, denied, dest, Tar.Dir(name, mode2)) == Outcome(r.nodes, None))
  {
    var t := Fs.Resolve(TargetPath(dest, name));
    Fs.MkdirAllSucceeds(nodes, denied, t, Fs.FileMode(mode));
    if Fs.MkdirAllOn(nodes, denied, t, Fs.FileMode(mode)).err.None? {
      Fs.MkdirAllMakesDirs(nodes, denied, t, Fs.FileMode(mode));
      Fs.MkdirAllIdempotent(nodes, denied, t, Fs.FileMode(mode), Fs.FileMode(mode2));
    }
  }

  // ---------------------------------------------------------------------
  // The loop over the members

  lemma {:induction false} ExtractAllTidy(nodes: map<Fs.Path, Fs.Node>, denied: set<Fs.Path>, dest: string,
                                          es: seq<Tar.Entry>)
    requires Fs.Tidy(nodes)
    ensures Fs.Tidy(ExtractAll(nodes, denied, dest, es).nodes)
  {
    if es != [] {
      ExtractAllTidy(nodes, denied, dest, es[..|es| - 1]);
      EntryTidy(ExtractAll(nodes, denied, dest, es[..|es| - 1]).nodes, denied, dest, es[|es| - 1]);
    }
  }

  /**
   * The loop stops at the first member that fails: the members before it
   * all succeeded and the outcome is what that member made of the state
   * they left.
   */
  lemma {:induction false} ExtractAllFirstFailure(nodes: map<Fs.Path, Fs.Node>, denied: set<Fs.Path>, dest: string,
                                                  es: seq<Tar.Entry>)
    requires ExtractAll(nodes, denied, dest, es).err.Some?
    ensures exists k :: 0 <= k < |es| && ExtractAll(nodes, denied, dest, es[..k]).err.None? &&
                        ExtractAll(nodes, denied, dest, es[..k + 1]) == ExtractAll(nodes, denied, dest, es)
  {
    var n := |es| - 1;
    var init := es[..n];
    var r0 := ExtractAll(nodes, denied, dest, init);
    if r0.err.Some? {
      ExtractAllFirstFailure(nodes, denied, dest, init);
      var k :| 0 <= k < |init| && ExtractAll(nodes, denied, dest, init[..k]).err.None? &&
               ExtractAll(nodes, denied, dest, init[..k + 1]) == r0;
      PrefixOfPrefix(es, n);
      assert init[..k] == es[..k] && init[..k + 1] == es[..k + 1];
    } else {
      assert es[..n + 1] == es;
    }
  }

  /** When the loop does not stop, every prefix of it succeeded as well. */
  lemma ExtractAllPrefixes(nodes: map<Fs.Path, Fs.Node>, denied: set<Fs.Path>, dest: string,
                           es: seq<Tar.Entry>, k: nat)
    requires ExtractAll(nodes, denied, dest, es).err.None? && k <= |es|
    ensures ExtractAll(nodes, denied, dest, es[..k]).err.None?
  {
    if ExtractAll(nodes, denied, dest, es[..k]).err.Some? {
      ExtractAllStops(nodes, denied, dest, es, k);
    }
  }

  lemma PrefixOfPrefix(es: seq<Tar.Entry>, n: nat)
    requires n <= |es|
    ensures forall k :: 0 <= k <= n ==> es[..n][..k] == es[..k]
  {
  }

  // ---------------------------------------------------------------------
  // Where the members land

  /**
   * For a name whose cleaned form does not begin with "..", the target is
   * the destination followed by the cleaned name's parts: it lies at or
   * below the destination.
   */
  lemma TargetUnderDest(dest: string, name: string)
    requires dest != "" && !Paths.ClimbsOut(name)
    ensures var t := Fs.Resolve(TargetPath(dest, name));
            && Paths.Clean(TargetPath(dest, name)) == TargetPath(dest, name)
            && t == Fs.Path(Paths.IsRooted(dest), Paths.CleanParts(dest) + Paths.CleanParts(name))
            && Fs.Ancestor(Fs.Resolve(dest), t)
            && Paths.AllPlain(Paths.CleanParts(name))
  {
    Paths.JoinStaysUnder(dest, name);
    Paths.CleanIdempotent(dest + "/" + Paths.Clean(name));
  }

  /**
   * Cleaning the name does not keep a member inside the destination: a
   * member called "../etc" is placed at /etc when unpacking into /srv.
   */
  lemma TargetEscapes()
    ensures Paths.ClimbsOut("../etc")
    ensures Fs.Resolve(TargetPath("/srv", "../etc")) == Fs.Path(true, ["etc"])
    ensures !Fs.Ancestor(Fs.Resolve("/srv"), Fs.Resolve(TargetPath("/srv", "../etc")))
  {
    DotDotEtc();
    Srv();
    Paths.JoinParts("/srv", "../etc");
    assert Paths.Fold(true, ["srv"], ["..", "etc"]) == ["etc"];
  }

  /** The member name of the escape example, read as a path. */
  lemma DotDotEtc()
    ensures Paths.Parts("../etc") == ["..", "etc"] && Paths.CleanParts("../etc") == ["..", "etc"]
    ensures Paths.Clean("../etc") == "../etc" && !Paths.IsRooted("../etc")
  {
    var name := "../etc";
    assert Strings.Join(["..", "etc"], "/") == name;
    Paths.PiecesOfJoin(["..", "etc"]);
    Paths.KeepValid(["..", "etc"]);
    assert Paths.Parts(name) == ["..", "etc"];
  }

  /** The destination of the escape example, read as a path. */
  lemma Srv()
    ensures Paths.CleanParts("/srv") == ["srv"] && Paths.IsRooted("/srv")
  {
    var dest := "/srv";
    assert Strings.Join(["", "srv"], "/") == dest;
    Paths.PiecesOfJoin(["", "srv"]);
    assert Paths.Keep(["", "srv"]) == ["srv"];
  }

  /**
   * A member whose name does not climb out, unpacked into an existing
   * destination directory of a tidy file system, alters or adds entries
   * only strictly below the destination, and removes none.
   */
  lemma EntryConfined(nodes: map<Fs.Path, Fs.Node>, denied: set<Fs.Path>, dest: string, e: Tar.Entry)
    requires Fs.Tidy(nodes) && dest != "" && Fs.IsDirectory(nodes, Fs.Resolve(dest)) && !Paths.ClimbsOut(e.name)
    ensures var r := ExtractEntryOn(nodes, denied, dest, e);
            && (forall q :: q in nodes ==> q in r.nodes)
            && (forall q :: q in r.nodes && (q !in nodes || r.nodes[q] != nodes[q]) ==> Fs.Below(q, Fs.Resolve(dest)))
  {
    var target := TargetPath(dest, e.name);
    TargetUnderDest(dest, e.name);
    var d := Fs.Resolve(dest);
    var t := Fs.Resolve(target);
    match e
    case Dir(_, mode) =>
      MkdirAllConfined(nodes, denied, d, t, Fs.FileMode(mode));
    case Reg(_, mode, data) =>
      DirResolves(target);
      PlaceAtConfined(nodes, denied, Paths.Dir(target), target, d, Fs.Resolve(Paths.Dir(target)), t, mode, data, true);
    case Other(_, _) =>
  }

  /** MkdirAll of a path at or below an existing directory adds entries only below it. */
  lemma MkdirAllConfined(nodes: map<Fs.Path, Fs.Node>, denied: set<Fs.Path>, d: Fs.Path, p: Fs.Path, perm: nat)
    requires Fs.Tidy(nodes) && Fs.IsDirectory(nodes, d) && Fs.Ancestor(d, p)
    ensures var r := Fs.MkdirAllOn(nodes, denied, p, perm).nodes;
            && (forall q :: q in nodes ==> q in r && r[q] == nodes[q])
            && (forall q :: q in r && q !in nodes ==> Fs.Below(q, d))
  {
    Fs.MkdirAllFrame(nodes, denied, p, perm);
    var r := Fs.MkdirAllOn(nodes, denied, p, perm).nodes;
    forall q | q in r && q !in nodes ensures Fs.Below(q, d) {
      assert Fs.Ancestor(q, p);
      if |q.parts| <= |d.parts| {
        assert q.parts == d.parts[..|q.parts|];
        assert q == Fs.Prefix(d, |q.parts|);
        Fs.DirectoryAncestors(nodes, d, |q.parts|);
        assert false;
      }
    }
  }

  lemma PlaceAtConfined(nodes: map<Fs.Path, Fs.Node>, denied: set<Fs.Path>, parent: string, target: string,
                        d: Fs.Path, p: Fs.Path, t: Fs.Path, mode: int, data: seq<Fs.byte>, complete: bool)
    requires Fs.Tidy(nodes) && Fs.IsDirectory(nodes, d) && Fs.Ancestor(d, t)
    requires Fs.Ancestor(p, t) && (t.parts != [] ==> p == Fs.Parent(t)) && (t.parts == [] ==> p == t)
    ensures var r := PlaceAt(nodes, denied, parent, target, p, t, mode, data, complete);
            && (forall q :: q in nodes ==> q in r.nodes)
            && (forall q :: q in r.nodes && (q !in nodes || r.nodes[q] != nodes[q]) ==> Fs.Below(q, d))
  {
    var m := Fs.MkdirAllOn(nodes, denied, p, Fs.ModeDir);
    if t == d {
      if t.parts != [] {
        Fs.DirectoryAncestors(nodes, d, |d.parts| - 1);
      }
      assert m == Fs.Step(nodes, None);
    } else {
      assert Fs.Below(t, d);
      assert Fs.Ancestor(d, p);
      MkdirAllConfined(nodes, denied, d, p, Fs.ModeDir);
    }
  }

  /** A directory stays a directory whatever a member does. */
  lemma EntryKeepsDirectory(nodes: map<Fs.Path, Fs.Node>, denied: set<Fs.Path>, dest: string, e: Tar.Entry, p: Fs.Path)
    requires Fs.IsDirectory(nodes, p)
    ensures Fs.IsDirectory(ExtractEntryOn(nodes, denied, dest, e).nodes, p)
  {
    var target := TargetPath(dest, e.name);
    match e
    case Dir(_, mode) => Fs.MkdirAllFrame(nodes, denied, Fs.Resolve(target), Fs.FileMode(mode));
    case Reg(_, mode, data) =>
      var parent := Paths.Dir(target);
      PlaceAtKeepsDirectory(nodes, denied, parent, target, Fs.Resolve(parent), Fs.Resolve(target), mode, data, true, p);
    case Other(_, _) =>
  }

  lemma PlaceAtKeepsDirectory(nodes: map<Fs.Path, Fs.Node>, denied: set<Fs.Path>, parent: string, target: string,
                              d: Fs.Path, t: Fs.Path, mode: int, data: seq<Fs.byte>, complete: bool, p: Fs.Path)
    requires Fs.IsDirectory(nodes, p)
    ensures Fs.IsDirectory(PlaceAt(nodes, denied, parent, target, d, t, mode, data, complete).nodes, p)
  {
    Fs.MkdirAllFrame(nodes, denied, d, Fs.ModeDir);
  }

  lemma {:induction false} ExtractAllKeepsDirectory(nodes: map<Fs.Path, Fs.Node>, denied: set<Fs.Path>, dest: string,
                                                    es: seq<Tar.Entry>, p: Fs.Path)
    requires Fs.IsDirectory(nodes, p)
    ensures Fs.IsDirectory(ExtractAll(nodes, denied, dest, es).nodes, p)
  {
    if es != [] {
      ExtractAllKeepsDirectory(nodes, denied, dest, es[..|es| - 1], p);
      EntryKeepsDirectory(ExtractAll(nodes, denied, dest, es[..|es| - 1]).nodes, denied, dest, es[|es| - 1], p);
    }
  }

  /** Every member name of the stream, the one cut short included, stays inside the destination. */
  predicate Confined(s: Tar.Stream)
  {
    && (forall i :: 0 <= i < |s.entries| ==> !Paths.ClimbsOut(s.entries[i].name))
    && (s.tail.ShortPayload? ==> !Paths.ClimbsOut(s.tail.name))
  }

  /** The change from `a` to `b` removes nothing and touches only paths strictly below `d`. */
  predicate ChangedBelow(a: map<Fs.Path, Fs.Node>, b: map<Fs.Path, Fs.Node>, d: Fs.Path)
  {
    && (forall q :: q in a ==> q in b)
    && (forall q :: q in b && (q !in a || b[q] != a[q]) ==> Fs.Below(q, d))
  }

  lemma {:induction false} ExtractAllConfined(nodes: map<Fs.Path, Fs.Node>, denied: set<Fs.Path>, dest: string,
                                              es: seq<Tar.Entry>)
    requires Fs.Tidy(nodes) && dest != "" && Fs.IsDirectory(nodes, Fs.Resolve(dest))
    requires forall i :: 0 <= i < |es| ==> !Paths.ClimbsOut(es[i].name)
    ensures ChangedBelow(nodes, ExtractAll(nodes, denied, dest, es).nodes, Fs.Resolve(dest))
  {
    if es != [] {
      var init := es[..|es| - 1];
      ExtractAllConfined(nodes, denied, dest, init);
      var r0 := ExtractAll(nodes, denied, dest, init).nodes;
      ExtractAllTidy(nodes, denied, dest, init);
      ExtractAllKeepsDirectory(nodes, denied, dest, init, Fs.Resolve(dest));
      EntryConfined(r0, denied, dest, es[|es| - 1]);
    }
  }

  /** Unpacking a stream of confined names changes the file system only below the destination. */
  lemma UnpackConfined(nodes: map<Fs.Path, Fs.Node>, denied: set<Fs.Path>, dest: string, complete: bool,
                       stream: Option<Tar.Stream>)
    requires Fs.Tidy(nodes) && dest != "" && Fs.IsDirectory(nodes, Fs.Resolve(dest))
    requires stream.Some? ==> Confined(stream.value)
    ensures ChangedBelow(nodes, UnpackOn(nodes, denied, dest, complete, stream).nodes, Fs.Resolve(dest))
  {
    if complete && stream.Some? {
      var s := stream.value;
      ExtractAllConfined(nodes, denied, dest, s.entries);
      var r := ExtractAll(nodes, denied, dest, s.entries);
      if r.err.None? && s.tail.ShortPayload? {
        ExtractAllTidy(nodes, denied, dest, s.entries);
        ExtractAllKeepsDirectory(nodes, denied, dest, s.entries, Fs.Resolve(dest));
        var target := TargetPath(dest, s.tail.name);
        TargetUnderDest(dest, s.tail.name);
        DirResolves(target);
        PlaceAtConfined(r.nodes, denied, Paths.Dir(target), target, Fs.Resolve(dest), Fs.Resolve(Paths.Dir(target)),
                        Fs.Resolve(target), s.tail.mode, s.tail.partial, false);
      }
    }
  }

  /** CreateTemp keeps the file system a tree. */
  lemma CreateExclTidy(nodes: map<Fs.Path, Fs.Node>, denied: set<Fs.Path>, p: Fs.Path)
    requires Fs.Tidy(nodes)
    ensures Fs.Tidy(Fs.CreateExclOn(nodes, denied, p).nodes)
  {
    if Fs.CreateExclOn(nodes, denied, p).err.None? {
      Fs.TidyUpdate(nodes, p, Fs.File(Fs.ModeTemp, []));
    }
  }

  /**
   * A download whose archive names stay inside the destination leaves every
   * entry that was there and alters or adds only the destination, the
   * directories above it that MkdirAll made, and entries below it; the
   * temporary file is gone again.
   */
  lemma DownloadConfined(nodes: map<Fs.Path, Fs.Node>, denied: set<Fs.Path>, dest: string, reply: Exchange,
                         spool: Fs.Path, decode: seq<Fs.byte> -> Option<Tar.Stream>)
    requires Fs.Tidy(nodes)
    requires reply.Response? && decode(reply.body).Some? ==> Confined(decode(reply.body).value)
    ensures var r := DownloadOn(nodes, denied, dest, reply, spool, decode).nodes;
            && (forall q :: q in nodes ==> q in r)
            && (forall q :: q in r && (q !in nodes || r[q] != nodes[q]) ==>
                  Fs.Ancestor(q, Fs.Resolve(dest)) || Fs.Below(q, Fs.Resolve(dest)))
  {
    if reply.Response? && Accepted(reply.status) && dest != "" {
      var d := Fs.Resolve(dest);
      var m := Fs.MkdirAllOn(nodes, denied, d, Fs.ModeDir);
      Fs.MkdirAllFrame(nodes, denied, d, Fs.ModeDir);
      if m.err.None? {
        var c := Fs.CreateExclOn(m.nodes, denied, spool);
        if c.err.None? {
          Fs.MkdirAllTidy(nodes, denied, d, Fs.ModeDir);
          Fs.MkdirAllMakesPath(nodes, denied, d, Fs.ModeDir);
          CreateExclTidy(m.nodes, denied, spool);
          var held := Fs.Append(c.nodes, spool, reply.body);
          Fs.AppendTidy(c.nodes, spool, reply.body);
          UnpackConfined(held, denied, dest, reply.complete, decode(reply.body));
          UnpackKeepsFile(held, denied, dest, reply.complete, decode(reply.body), spool);
        }
      }
    }
  }
}
