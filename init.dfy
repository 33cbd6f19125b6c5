/**
 * cmd/init.go: writing a fresh package.yml in the working directory, with
 * the directory's base name as the package name and the current user as
 * the author.
 */
module Init {
  import opened Results
  import Strings
  import Paths
  import Fs

  const ManifestName: string := "package.yml"

  /** package.yml relative to the working directory. */
  const ManifestPath: Fs.Path := Fs.Path(false, [ManifestName])

  /** The manifest template; its two verbs take the package name and the author. */
  const TemplateHead: string := "name: \""
  const TemplateMiddle: string := "\"\nversion: \"0.0.0\"\ndescription: \"\"\nauthor: \""
  const TemplateTail: string := "\"\n"
  const Template: string := TemplateHead + "%s" + TemplateMiddle + "%s" + TemplateTail

  /** The error getUsername reports when every source is empty. */
  const NoUsername: string := "failed to get username"

  // ---------------------------------------------------------------------
  // getUsername

  /** The candidates getUsername tries, in order; a failed os/user lookup counts as empty. */
  function UserCandidates(osUser: Option<string>, user: string, username: string): seq<string>
  {
    [if osUser.Some? then osUser.value else "", user, username]
  }

  /**
   * getUsername: the name os/user reports, else $USER, else $USERNAME, the
   * first that is not empty; an error when all three are.
   */
  function GetUsername(osUser: Option<string>, user: string, username: string): (r: Result<string, string>)
    ensures var cs := UserCandidates(osUser, user, username);
            && (r.Success? <==> exists i :: 0 <= i < 3 && cs[i] != "")
            && (r.Success? ==> exists i :: 0 <= i < 3 && cs[i] == r.value && r.value != "" &&
                                 forall j :: 0 <= j < i ==> cs[j] == "")
            && (r.Failure? ==> r.error == NoUsername)
  {
    var cs := UserCandidates(osUser, user, username);
    if osUser.Some? && osUser.value != "" then
      assert cs[0] == osUser.value;
      Success(osUser.value)
    else if user != "" then
      assert cs[0] == "" && cs[1] == user;
      Success(user)
    else if username != "" then
      assert cs[0] == "" && cs[1] == "" && cs[2] == username;
      Success(username)
    else
      assert cs == ["", "", ""];
      Failure(NoUsername)
  }

  /** The author initPackage writes: the username, or "" when getUsername fails. */
  function Author(osUser: Option<string>, user: string, username: string): string
  {
    var u := GetUsername(osUser, user, username);
    if u.Success? then u.value else ""
  }

  // ---------------------------------------------------------------------
  // Quote escaping

  /** The number of double quotes in `s`. */
  function Quotes(s: string): nat
  {
    if s == [] then 0 else (if s[0] == '"' then 1 else 0) + Quotes(s[1..])
  }

  /** strings.ReplaceAll(s, `"`, `\"`). */
  function Escape(s: string): (r: string)
    ensures |r| == |s| + Quotes(s)
    ensures s != [] && s[0] == '"' ==> |r| >= 2 && r[0] == '\\' && r[1] == '"'
    ensures s != [] && s[0] != '"' ==> r[0] == s[0]
  {
    if s == [] then []
    else (if s[0] == '"' then "\\\"" else [s[0]]) + Escape(s[1..])
  }

  /** Read `\"` back as `"`; every other character stands for itself. */
  function Unescape(r: string): string
  {
    if r == [] then []
    else if |r| >= 2 && r[0] == '\\' && r[1] == '"' then "\"" + Unescape(r[2..])
    else [r[0]] + Unescape(r[1..])
  }

  /** Escaping loses nothing: reading the escapes back gives the original. */
  lemma {:induction false} UnescapeEscape(s: string)
    ensures Unescape(Escape(s)) == s
  {
    if s != [] {
      var rest := Escape(s[1..]);
      UnescapeEscape(s[1..]);
      if s[0] == '"' {
        assert Escape(s) == "\\\"" + rest;
        assert (("\\\"" + rest)[2..]) == rest;
      } else {
        assert Escape(s) == [s[0]] + rest;
        assert ([s[0]] + rest)[1..] == rest;
        if s[0] == '\\' && rest != [] {
          assert rest[0] != '"';
        }
      }
      assert [s[0]] + s[1..] == s;
    }
  }

  /** Different names escape differently. */
  lemma EscapeInjective(a: string, b: string)
    requires Escape(a) == Escape(b)
    ensures a == b
  {
    UnescapeEscape(a);
    UnescapeEscape(b);
  }

  /** A name without double quotes is written as it is. */
  lemma {:induction false} EscapeWithoutQuotes(s: string)
    requires '"' !in s
    ensures Escape(s) == s
  {
    if s != [] {
      assert s[0] != '"' && '"' !in s[1..];
      EscapeWithoutQuotes(s[1..]);
      assert [s[0]] + s[1..] == s;
    }
  }

  /** Every double quote of an escaped string directly follows a backslash. */
  lemma {:induction false} EscapedQuotesFollowBackslash(s: string)
    ensures forall i :: 0 <= i < |Escape(s)| && Escape(s)[i] == '"' ==> i > 0 && Escape(s)[i - 1] == '\\'
  {
    if s != [] {
      EscapedQuotesFollowBackslash(s[1..]);
      var rest := Escape(s[1..]);
      var head: string := if s[0] == '"' then "\\\"" else [s[0]];
      var r := head + rest;
      assert Escape(s) == r;
      forall i | 0 <= i < |r| && r[i] == '"' ensures i > 0 && r[i - 1] == '\\' {
        if i >= |head| {
          var j := i - |head|;
          assert rest[j] == '"';
          assert r[i - 1] == rest[j - 1];
        } else if s[0] == '"' {
          assert head == "\\\"" && i == 1;
        }
      }
    }
  }

  // ---------------------------------------------------------------------
  // The manifest text

  /**
   * Sprintf(manifestTemplate, escapedPkg, escapedUser): the four lines with
   * the escaped name and author in the first and last.
   */
  function ManifestContent(name: string, author: string): (content: string)
    ensures content == TemplateHead + Escape(name) + TemplateMiddle + Escape(author) + TemplateTail
  {
    Strings.FormatTwo(TemplateHead, TemplateMiddle, TemplateTail, Escape(name), Escape(author));
    Strings.Format(Template, [Escape(name), Escape(author)])
  }

  /** The manifest starts with the package name line; a name without quotes appears verbatim. */
  lemma ContentNamesPackage(name: string, author: string)
    requires '"' !in name
    ensures var line := TemplateHead + name + "\"";
            ManifestContent(name, author)[..|line|] == line
  {
    EscapeWithoutQuotes(name);
    MiddleOpens();
    var a := TemplateHead + name;
    var b := TemplateMiddle + Escape(author) + TemplateTail;
    assert ManifestContent(name, author) == a + b;
    assert (a + b)[..|a| + 1] == a + [b[0]];
  }

  /** The text after the name opens with the name's closing quote. */
  lemma MiddleOpens()
    ensures TemplateMiddle[0] == '"'
  {
  }

  /** The name and the author can be read back from the manifest text. */
  lemma ContentRoundTrip(name: string, author: string)
    ensures var content := ManifestContent(name, author);
            var n := |Escape(name)|;
            var m := |Escape(author)|;
            var k := |content| - |TemplateTail| - m;
            && Unescape(content[|TemplateHead|..|TemplateHead| + n]) == name
            && Unescape(content[k..k + m]) == author
  {
    NameReadBack(TemplateHead, name, TemplateMiddle, author, TemplateTail, ManifestContent(name, author));
    AuthorReadBack(TemplateHead, name, TemplateMiddle, author, TemplateTail, ManifestContent(name, author));
  }

  /** The first escaped field of a text laid out like the manifest reads back to the original. */
  lemma NameReadBack(h: string, a: string, mid: string, b: string, tl: string, c: string)
    requires c == h + Escape(a) + mid + Escape(b) + tl
    ensures Unescape(c[|h|..|h| + |Escape(a)|]) == a
  {
    RegroupTail(h, Escape(a), mid, Escape(b), tl);
    FieldReadBack(h, a, mid + Escape(b) + tl, c);
  }

  /** An escaped field between two known parts of a text reads back to the original. */
  lemma FieldReadBack(front: string, a: string, back: string, c: string)
    requires c == front + Escape(a) + back
    ensures Unescape(c[|front|..|front| + |Escape(a)|]) == a
  {
    assert c[|front|..|front| + |Escape(a)|] == Escape(a);
    UnescapeEscape(a);
  }

  /** Five concatenated strings, the last three grouped. */
  lemma RegroupTail(h: string, x: string, mid: string, y: string, tl: string)
    ensures h + x + mid + y + tl == h + x + (mid + y + tl)
  {
  }

  /** The second escaped field of a text laid out like the manifest reads back to the original. */
  lemma AuthorReadBack(h: string, a: string, mid: string, b: string, tl: string, c: string)
    requires c == h + Escape(a) + mid + Escape(b) + tl
    ensures Unescape(c[|c| - |tl| - |Escape(b)|..|c| - |tl|]) == b
  {
    var y := Escape(b);
    assert c == (h + Escape(a) + mid) + y + tl;
    assert c[|c| - |tl| - |y|..|c| - |tl|] == y;
    UnescapeEscape(b);
  }

  /** []byte(s): the UTF-8 encoding of one character. */
  function EncodeChar(c: char): (bs: seq<Fs.byte>)
    ensures 1 <= |bs| <= 4
    ensures c as int < 0x80 ==> bs == [c as int]
  {
    var n := c as int;
    if n < 0x80 then [n]
    else if n < 0x800 then [0xC0 + n / 0x40, 0x80 + n % 0x40]
    else if n < 0x1_0000 then [0xE0 + n / 0x1000, 0x80 + (n / 0x40) % 0x40, 0x80 + n % 0x40]
    else [0xF0 + n / 0x4_0000, 0x80 + (n / 0x1000) % 0x40, 0x80 + (n / 0x40) % 0x40, 0x80 + n % 0x40]
  }

  /** []byte(s) for a string: the UTF-8 encodings of its characters, in order. */
  function Encode(s: string): (bs: seq<Fs.byte>)
    ensures |bs| >= |s|
  {
    if s == [] then [] else EncodeChar(s[0]) + Encode(s[1..])
  }

  /** ASCII text is written one byte per character. */
  lemma {:induction false} EncodeAscii(s: string)
    requires forall i :: 0 <= i < |s| ==> s[i] as int < 0x80
    ensures |Encode(s)| == |s|
    ensures forall i :: 0 <= i < |s| ==> Encode(s)[i] == s[i] as int
  {
    if s != [] {
      EncodeAscii(s[1..]);
      assert Encode(s) == [s[0] as int] + Encode(s[1..]);
    }
  }

  // ---------------------------------------------------------------------
  // initPackage

  /** The errors initPackage returns. */
  datatype InitError =
    | AlreadyExists                  // ErrManifestAlreadyExists
    | CheckFailed(cause: Fs.FsError) // "error checking package.yml: …"
    | NoCwd                          // "failed to get cwd: …"
    | WriteFailed(cause: Fs.FsError) // "failed to write package.yml: …"

  datatype InitOutcome = InitOutcome(nodes: map<Fs.Path, Fs.Node>, err: Option<InitError>)

  /**
   * initPackage: Stat of package.yml, Getwd (None when it fails), the
   * username sources, then os.WriteFile with mode 0644, which opens with
   * O_TRUNC and writes the encoded text.
   */
  function InitOn(nodes: map<Fs.Path, Fs.Node>, denied: set<Fs.Path>, hidden: set<Fs.Path>, cwd: Option<string>,
                  osUser: Option<string>, user: string, username: string): InitOutcome
  {
    var st := Fs.StatErr(nodes, hidden, ManifestPath);
    if st.None? then InitOutcome(nodes, Some(AlreadyExists))
    else if st != Some(Fs.NotExist) then InitOutcome(nodes, Some(CheckFailed(st.value)))
    else if cwd.None? then InitOutcome(nodes, Some(NoCwd))
    else
      var content := ManifestContent(Paths.Base(cwd.value), Author(osUser, user, username));
      var o := Fs.OpenTruncOn(nodes, denied, ManifestPath, Fs.ModeManifest);
      if o.err.Some? then InitOutcome(o.nodes, Some(WriteFailed(o.err.value)))
      else InitOutcome(Fs.Append(o.nodes, ManifestPath, Encode(content)), None)
  }

  /** initPackage in place on the file system. */
  method InitPackage(fs: Fs.FileSystem, cwd: Option<string>, osUser: Option<string>, user: string, username: string)
    returns (err: Option<InitError>)
    modifies fs
    ensures InitOutcome(fs.nodes, err) == InitOn(old(fs.nodes), fs.denied, fs.hidden, cwd, osUser, user, username)
  {
    var st := fs.Stat(ManifestPath);
    if st.None? {
      return Some(AlreadyExists);
    }
    if st != Some(Fs.NotExist) {
      return Some(CheckFailed(st.value));
    }
    if cwd.None? {
      return Some(NoCwd);
    }
    var pkgName := Paths.Base(cwd.value);
    var author := Author(osUser, user, username);
    var content := ManifestContent(pkgName, author);
    var o := fs.OpenTrunc(ManifestPath, Fs.ModeManifest);
    if o.Some? {
      return Some(WriteFailed(o.value));
    }
    fs.Write(ManifestPath, Encode(content));
    err := None;
  }

  /** package.yml is an entry of the working directory, which always exists. */
  lemma ManifestPathShape(nodes: map<Fs.Path, Fs.Node>)
    ensures !Fs.Implicit(ManifestPath)
    ensures Fs.Parent(ManifestPath) == Fs.Path(false, [])
    ensures Fs.IsDirectory(nodes, Fs.Parent(ManifestPath))
  {
    assert ManifestPath.parts[0] == ManifestName;
    assert ManifestName != "..";
  }

  /** The path written is package.yml resolved against the working directory. */
  lemma ManifestPathResolves()
    ensures Fs.Resolve(ManifestName) == ManifestPath
  {
    Paths.CleanOfPart(ManifestName);
    assert '/' !in ManifestName;
    Paths.PiecesWithoutSeparator(ManifestName);
    Paths.KeepValid([ManifestName]);
    assert Paths.Parts(ManifestName) == [ManifestName];
    assert Paths.Fold(false, [], [ManifestName]) == [ManifestName];
  }

  /**
   * initPackage writes nothing unless it succeeds; an existing manifest
   * gives ErrManifestAlreadyExists, and a Stat refused for another reason
   * is reported with that reason.
   */
  lemma InitRefuses(nodes: map<Fs.Path, Fs.Node>, denied: set<Fs.Path>, hidden: set<Fs.Path>, cwd: Option<string>,
                    osUser: Option<string>, user: string, username: string)
    ensures var r := InitOn(nodes, denied, hidden, cwd, osUser, user, username);
            && (r.err.Some? ==> r.nodes == nodes)
            && (ManifestPath in nodes && ManifestPath !in hidden ==> r.err == Some(AlreadyExists))
            && (ManifestPath in hidden ==> r.err == Some(CheckFailed(Fs.Denied)))
  {
    ManifestPathShape(nodes);
    Fs.OpenTruncResult(nodes, denied, ManifestPath, Fs.ModeManifest);
  }

  /**
   * initPackage succeeds exactly when package.yml is absent, visible to
   * Stat and creatable, and the working directory is known.
   */
  lemma InitWrites(nodes: map<Fs.Path, Fs.Node>, denied: set<Fs.Path>, hidden: set<Fs.Path>, cwd: Option<string>,
                   osUser: Option<string>, user: string, username: string)
    ensures var r := InitOn(nodes, denied, hidden, cwd, osUser, user, username);
            r.err.None? <==> ManifestPath !in nodes && ManifestPath !in hidden && ManifestPath !in denied && cwd.Some?
  {
    ManifestPathShape(nodes);
    Fs.OpenTruncResult(nodes, denied, ManifestPath, Fs.ModeManifest);
  }

  /**
   * On success the manifest, mode 0644, holds the template filled with the
   * escaped base name of the working directory and the escaped author, and
   * nothing else changed.
   */
  lemma InitContent(nodes: map<Fs.Path, Fs.Node>, denied: set<Fs.Path>, hidden: set<Fs.Path>, cwd: Option<string>,
                    osUser: Option<string>, user: string, username: string)
    requires InitOn(nodes, denied, hidden, cwd, osUser, user, username).err.None?
    ensures cwd.Some?
    ensures InitOn(nodes, denied, hidden, cwd, osUser, user, username).nodes ==
            nodes[ManifestPath := Fs.File(Fs.ModeManifest, Encode(ManifestContent(Paths.Base(cwd.value), Author(osUser, user, username))))]
  {
    InitWrites(nodes, denied, hidden, cwd, osUser, user, username);
    Fs.OpenTruncResult(nodes, denied, ManifestPath, Fs.ModeManifest);
    var data := Encode(ManifestContent(Paths.Base(cwd.value), Author(osUser, user, username)));
    assert [] + data == data;
  }
}
