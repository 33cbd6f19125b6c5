/**
 * Lexical path manipulation as Go's path/filepath package does it on a
 * system whose separator is '/': Clean, Join, Base and Dir. A path is read
 * as a rootedness flag and a list of parts; Clean rewrites that list
 * (dropping empty parts and ".", cancelling "name/.."), and every other
 * operation is expressed through it. filepath.ToSlash is the identity here.
 */
module Paths {
  import Strings

  /** strings.Split(s, "/"): the pieces between separators, empty ones included. */
  function Pieces(s: string): (r: seq<string>)
    ensures |r| >= 1
    ensures forall i :: 0 <= i < |r| ==> '/' !in r[i]
    ensures Strings.Join(r, "/") == s
  {
    if s == [] then [""]
    else
      var rest := Pieces(s[1..]);
      if s[0] == '/' then
        assert ([""] + rest)[1..] == rest;
        [""] + rest
      else
        var r := [[s[0]] + rest[0]] + rest[1..];
        assert |rest| > 1 ==> r[1..] == rest[1..];
        r
  }

  lemma {:induction false} PiecesWithoutSeparator(s: string)
    requires '/' !in s
    ensures Pieces(s) == [s]
  {
    if s != [] {
      PiecesWithoutSeparator(s[1..]);
      assert [s[0]] + s[1..] == s;
    }
  }

  /** Splitting at a separator splits the pieces. */
  lemma {:induction false} PiecesConcat(a: string, b: string)
    ensures Pieces(a + "/" + b) == Pieces(a) + Pieces(b)
  {
    var s := a + "/" + b;
    if a == [] {
      assert s == "/" + b && s[1..] == b;
    } else {
      assert s[0] == a[0] && s[1..] == a[1..] + "/" + b;
      PiecesConcat(a[1..], b);
    }
  }

  /** Splitting undoes joining with the separator. */
  lemma {:induction false} PiecesOfJoin(ps: seq<string>)
    requires |ps| >= 1
    requires forall i :: 0 <= i < |ps| ==> '/' !in ps[i]
    ensures Pieces(Strings.Join(ps, "/")) == ps
  {
    if |ps| == 1 {
      PiecesWithoutSeparator(ps[0]);
    } else {
      PiecesWithoutSeparator(ps[0]);
      PiecesOfJoin(ps[1..]);
      PiecesConcat(ps[0], Strings.Join(ps[1..], "/"));
      assert [ps[0]] + ps[1..] == ps;
    }
  }

  /** A part that can appear in a cleaned path: "" and "." never do. */
  predicate ValidPart(p: string)
  {
    p != "" && p != "." && '/' !in p
  }

  /** A part that names an entry, i.e. moves down the tree. */
  predicate Plain(p: string)
  {
    ValidPart(p) && p != ".."
  }

  predicate AllValid(ps: seq<string>)
  {
    forall i :: 0 <= i < |ps| ==> ValidPart(ps[i])
  }

  predicate AllPlain(ps: seq<string>)
  {
    forall i :: 0 <= i < |ps| ==> Plain(ps[i])
  }

  /** The pieces that name something: empty pieces and "." are dropped. */
  function Keep(ps: seq<string>): (r: seq<string>)
    ensures (forall i :: 0 <= i < |ps| ==> '/' !in ps[i]) ==> AllValid(r)
  {
    if ps == [] then []
    else (if ps[0] == "" || ps[0] == "." then [] else [ps[0]]) + Keep(ps[1..])
  }

  lemma {:induction false} KeepConcat(a: seq<string>, b: seq<string>)
    ensures Keep(a + b) == Keep(a) + Keep(b)
  {
    if a != [] {
      assert (a + b)[0] == a[0] && (a + b)[1..] == a[1..] + b;
      KeepConcat(a[1..], b);
    } else {
      assert a + b == b;
    }
  }

  lemma {:induction false} KeepValid(ps: seq<string>)
    requires AllValid(ps)
    ensures Keep(ps) == ps
  {
    if ps != [] {
      KeepValid(ps[1..]);
      assert [ps[0]] + ps[1..] == ps;
    }
  }

  /** The named parts of a path, before ".." is resolved. */
  function Parts(s: string): (r: seq<string>)
    ensures AllValid(r)
  {
    Keep(Pieces(s))
  }

  predicate IsRooted(s: string)
  {
    |s| > 0 && s[0] == '/'
  }

  /**
   * The shape of a cleaned part list: valid parts, ".." only as a leading
   * run, and no ".." at all under the root.
   */
  predicate Canonical(rooted: bool, ps: seq<string>)
  {
    && AllValid(ps)
    && (forall i, j :: 0 <= i < j < |ps| && ps[j] == ".." ==> ps[i] == "..")
    && (rooted ==> forall i :: 0 <= i < |ps| ==> ps[i] != "..")
  }

  /**
   * One step of Clean: a name is pushed; ".." cancels the last name, is
   * dropped right after the root, and is kept at the head of a relative path.
   */
  function Push(rooted: bool, stack: seq<string>, part: string): seq<string>
  {
    if part != ".." then stack + [part]
    else if |stack| > 0 && stack[|stack| - 1] != ".." then stack[..|stack| - 1]
    else if rooted then stack
    else stack + [".."]
  }

  function Fold(rooted: bool, stack: seq<string>, parts: seq<string>): seq<string>
    decreases |parts|
  {
    if parts == [] then stack
    else Fold(rooted, Push(rooted, stack, parts[0]), parts[1..])
  }

  /** The parts of Clean(s). */
  function CleanParts(s: string): seq<string>
  {
    Fold(IsRooted(s), [], Parts(s))
  }

  /** The text of a part list; the empty relative path is ".". */
  function Render(rooted: bool, ps: seq<string>): string
  {
    if rooted then "/" + Strings.Join(ps, "/")
    else if ps == [] then "."
    else Strings.Join(ps, "/")
  }

  /** filepath.Clean. */
  function Clean(s: string): string
  {
    Render(IsRooted(s), CleanParts(s))
  }

  /** filepath.Join with two elements. */
  function Join(a: string, b: string): string
  {
    if a != "" then Clean(a + "/" + b)
    else if b != "" then Clean(b)
    else ""
  }

  /** Strip trailing separators. */
  function TrimTrailing(s: string): (r: string)
    ensures |r| <= |s| && r == s[..|r|]
    ensures |r| > 0 ==> r[|r| - 1] != '/'
  {
    if |s| > 0 && s[|s| - 1] == '/' then TrimTrailing(s[..|s| - 1]) else s
  }

  /** filepath.Base: the last element, "/" for a root, "." for "". */
  function Base(s: string): string
  {
    if s == "" then "."
    else
      var ps := Pieces(TrimTrailing(s));
      var b := ps[|ps| - 1];
      if b == "" then "/" else b
  }

  /** filepath.Dir: Clean of everything up to the last separator. */
  function Dir(s: string): string
  {
    var ps := Pieces(s);
    if |ps| == 1 then "." else Clean(Strings.Join(ps[..|ps| - 1], "/") + "/")
  }

  /** The cleaned path begins with "..": it climbs above where it is joined. */
  predicate ClimbsOut(s: string)
  {
    var ps := CleanParts(s);
    |ps| > 0 && ps[0] == ".."
  }

  // ---------------------------------------------------------------------
  // Clean

  lemma PushCanonical(rooted: bool, stack: seq<string>, part: string)
    requires Canonical(rooted, stack) && ValidPart(part)
    ensures Canonical(rooted, Push(rooted, stack, part))
  {
    var r := Push(rooted, stack, part);
    if part != ".." {
      assert r == stack + [part];
      assert forall i :: 0 <= i < |stack| ==> r[i] == stack[i];
    }
  }

  lemma {:induction false} FoldCanonical(rooted: bool, stack: seq<string>, parts: seq<string>)
    requires Canonical(rooted, stack) && AllValid(parts)
    ensures Canonical(rooted, Fold(rooted, stack, parts))
    decreases |parts|
  {
    if parts != [] {
      PushCanonical(rooted, stack, parts[0]);
      FoldCanonical(rooted, Push(rooted, stack, parts[0]), parts[1..]);
    }
  }

  lemma CleanPartsCanonical(s: string)
    ensures Canonical(IsRooted(s), CleanParts(s))
  {
    FoldCanonical(IsRooted(s), [], Parts(s));
  }

  /** Folding a concatenation folds its halves in turn. */
  lemma {:induction false} FoldConcat(rooted: bool, stack: seq<string>, a: seq<string>, b: seq<string>)
    ensures Fold(rooted, stack, a + b) == Fold(rooted, Fold(rooted, stack, a), b)
    decreases |a|
  {
    if a == [] {
      assert a + b == b;
    } else {
      assert (a + b)[0] == a[0] && (a + b)[1..] == a[1..] + b;
      FoldConcat(rooted, Push(rooted, stack, a[0]), a[1..], b);
    }
  }

  /** Names are appended unchanged. */
  lemma {:induction false} FoldPlain(rooted: bool, stack: seq<string>, b: seq<string>)
    requires AllPlain(b)
    ensures Fold(rooted, stack, b) == stack + b
    decreases |b|
  {
    if b != [] {
      FoldPlain(rooted, stack + [b[0]], b[1..]);
      assert stack + [b[0]] + b[1..] == stack + b;
    }
  }

  /** A part list already in canonical shape is left as it is. */
  lemma {:induction false} FoldIdentity(rooted: bool, stack: seq<string>, rest: seq<string>)
    requires Canonical(rooted, stack + rest)
    ensures Fold(rooted, stack, rest) == stack + rest
    decreases |rest|
  {
    if rest != [] {
      var all := stack + rest;
      assert all[|stack|] == rest[0];
      if rest[0] == ".." {
        assert !rooted;
        assert forall i :: 0 <= i < |stack| ==> all[i] == stack[i];
        assert |stack| > 0 ==> stack[|stack| - 1] == "..";
      }
      assert Push(rooted, stack, rest[0]) == stack + [rest[0]];
      assert stack + [rest[0]] + rest[1..] == all;
      FoldIdentity(rooted, stack + [rest[0]], rest[1..]);
    }
  }

  lemma CanonicalPrefix(rooted: bool, ps: seq<string>, k: nat)
    requires Canonical(rooted, ps) && k <= |ps|
    ensures Canonical(rooted, ps[..k])
  {
  }

  lemma CanonicalAppendPlain(rooted: bool, ps: seq<string>, b: seq<string>)
    requires Canonical(rooted, ps) && AllPlain(b)
    ensures Canonical(rooted, ps + b)
  {
    var all := ps + b;
    assert forall i :: 0 <= i < |ps| ==> all[i] == ps[i];
    assert forall i :: |ps| <= i < |all| ==> all[i] == b[i - |ps|];
  }

  /** A canonical list without a leading ".." holds names only. */
  lemma CanonicalNoClimbIsPlain(rooted: bool, ps: seq<string>)
    requires Canonical(rooted, ps)
    requires !(|ps| > 0 && ps[0] == "..")
    ensures AllPlain(ps)
  {
  }

  lemma {:induction false} JoinValidShape(ps: seq<string>)
    requires |ps| >= 1 && AllValid(ps)
    ensures var j := Strings.Join(ps, "/"); j != "" && j != "." && j[0] != '/'
  {
    Strings.JoinHead(ps, "/");
    var j := Strings.Join(ps, "/");
    assert j[0] == ps[0][0];
    if |ps[0]| == 1 {
      assert ps[0] == [ps[0][0]];
    }
  }

  /** Reading a rendered list gives the list back. */
  lemma RenderParts(rooted: bool, ps: seq<string>)
    requires AllValid(ps)
    ensures Parts(Render(rooted, ps)) == ps
    ensures IsRooted(Render(rooted, ps)) == rooted
    ensures Render(rooted, ps) != ""
  {
    var j := Strings.Join(ps, "/");
    if rooted {
      var s := "/" + j;
      assert s[0] == '/' && s[1..] == j;
      if ps == [] {
        assert Pieces(s) == [""] + Pieces("");
        assert Keep([""]) == [];
        assert Keep(["", ""]) == [];
      } else {
        PiecesOfJoin(ps);
        KeepConcat([""], ps);
        KeepValid(ps);
      }
    } else if ps == [] {
      PiecesWithoutSeparator(".");
    } else {
      PiecesOfJoin(ps);
      KeepValid(ps);
      JoinValidShape(ps);
    }
  }

  /** Clean(s) has the rootedness and the parts that Clean computed. */
  lemma CleanShape(s: string)
    ensures IsRooted(Clean(s)) == IsRooted(s)
    ensures Parts(Clean(s)) == CleanParts(s)
    ensures CleanParts(Clean(s)) == CleanParts(s)
    ensures Clean(s) != ""
  {
    var ps := CleanParts(s);
    CleanPartsCanonical(s);
    RenderParts(IsRooted(s), ps);
    FoldIdentity(IsRooted(s), [], ps);
    assert [] + ps == ps;
  }

  /** Clean is idempotent. */
  lemma CleanIdempotent(s: string)
    ensures Clean(Clean(s)) == Clean(s)
  {
    CleanShape(s);
  }

  /** A trailing separator changes nothing. */
  lemma TrailingSeparator(s: string)
    requires s != ""
    ensures Parts(s + "/") == Parts(s) && IsRooted(s + "/") == IsRooted(s)
    ensures Clean(s + "/") == Clean(s)
  {
    assert s + "/" + "" == s + "/";
    PiecesConcat(s, "");
    KeepConcat(Pieces(s), [""]);
    assert Keep([""]) == [];
    assert Keep(Pieces(s)) + [] == Keep(Pieces(s));
  }

  /** The parts of "a/b" are those of a followed by those of b. */
  lemma PartsJoin(a: string, b: string)
    requires a != ""
    ensures Parts(a + "/" + b) == Parts(a) + Parts(b)
    ensures IsRooted(a + "/" + b) == IsRooted(a)
  {
    PiecesConcat(a, b);
    KeepConcat(Pieces(a), Pieces(b));
  }

  // ---------------------------------------------------------------------
  // Join

  /** Joining onto a non-empty path continues Clean from that path's parts. */
  lemma JoinParts(a: string, b: string)
    requires a != ""
    ensures IsRooted(Join(a, b)) == IsRooted(a)
    ensures CleanParts(Join(a, b)) == Fold(IsRooted(a), CleanParts(a), Parts(b))
  {
    PartsJoin(a, b);
    CleanShape(a + "/" + b);
    FoldConcat(IsRooted(a), [], Parts(a), Parts(b));
  }

  /**
   * Join(dest, Clean(name)) lands inside dest, at dest's cleaned parts
   * followed by the cleaned name's parts, unless the cleaned name begins
   * with "..". A rooted name is re-rooted under dest.
   */
  lemma JoinStaysUnder(dest: string, name: string)
    requires dest != ""
    requires !ClimbsOut(name)
    ensures IsRooted(Join(dest, Clean(name))) == IsRooted(dest)
    ensures CleanParts(Join(dest, Clean(name))) == CleanParts(dest) + CleanParts(name)
    ensures AllPlain(CleanParts(name))
  {
    var c := Clean(name);
    CleanShape(name);
    JoinParts(dest, c);
    CleanPartsCanonical(name);
    CanonicalNoClimbIsPlain(IsRooted(name), CleanParts(name));
    FoldPlain(IsRooted(dest), CleanParts(dest), CleanParts(name));
  }

  /** Rendering a list extended by names appends them after one separator. */
  lemma RenderAppend(rooted: bool, a: seq<string>, segs: seq<string>)
    requires AllValid(a) && |segs| >= 1
    ensures var p := Render(rooted, a); var rel := Strings.Join(segs, "/");
            Render(rooted, a + segs) ==
              if p == "." then rel else if p == "/" then "/" + rel else p + "/" + rel
  {
    if a == [] {
      assert a + segs == segs;
    } else {
      var ja := Strings.Join(a, "/");
      var rel := Strings.Join(segs, "/");
      Strings.JoinConcat(a, segs, "/");
      JoinValidShape(a);
      assert Render(rooted, a) == if rooted then "/" + ja else ja;
      assert Render(rooted, a + segs) == if rooted then "/" + (ja + "/" + rel) else ja + "/" + rel;
      PrefixedJoin(ja, rel);
    }
  }

  /** A non-empty relative join, with or without a leading "/", is neither "." nor "/". */
  lemma PrefixedJoin(ja: string, rel: string)
    requires ja != "" && ja != "." && ja[0] != '/'
    ensures "/" + ja != "." && "/" + ja != "/" && ja != "/"
    ensures "/" + (ja + "/" + rel) == "/" + ja + "/" + rel
  {
    assert |"/" + ja| >= 2;
  }

  /** The parts of root + "/" + rel for a relative path made of names only. */
  lemma JoinNamesParts(root: string, segs: seq<string>)
    requires root != ""
    requires |segs| >= 1 && AllPlain(segs)
    ensures IsRooted(root + "/" + Strings.Join(segs, "/")) == IsRooted(root)
    ensures CleanParts(root + "/" + Strings.Join(segs, "/")) == CleanParts(root) + segs
  {
    var rel := Strings.Join(segs, "/");
    PartsJoin(root, rel);
    PiecesOfJoin(segs);
    KeepValid(segs);
    FoldConcat(IsRooted(root), [], Parts(root), segs);
    FoldPlain(IsRooted(root), CleanParts(root), segs);
  }

  /** Join of a clean name and a relative path made of names only. */
  lemma JoinNames(root: string, segs: seq<string>)
    requires Clean(root) == root
    requires |segs| >= 1 && AllPlain(segs)
    ensures var rel := Strings.Join(segs, "/");
            Join(root, rel) ==
              if root == "." then rel
              else if root == "/" then "/" + rel
              else root + "/" + rel
    ensures IsRooted(Join(root, Strings.Join(segs, "/"))) == IsRooted(root)
    ensures CleanParts(Join(root, Strings.Join(segs, "/"))) == CleanParts(root) + segs
  {
    var rel := Strings.Join(segs, "/");
    var r := IsRooted(root);
    var a := CleanParts(root);
    CleanShape(root);
    var x := root + "/" + rel;
    JoinNamesParts(root, segs);
    var j := Join(root, rel);
    assert j == Clean(x);
    assert j == Render(r, a + segs);
    assert root == Render(r, a);
    RenderAppend(r, a, segs);
    CleanShape(x);
  }

  // ---------------------------------------------------------------------
  // Base and Dir

  lemma BaseOfRoot()
    ensures Base("/") == "/"
  {
    assert TrimTrailing("/") == TrimTrailing("");
    assert Pieces("") == [""];
  }

  lemma BaseOfDot()
    ensures Base(".") == "."
  {
    PiecesWithoutSeparator(".");
    assert TrimTrailing(".") == ".";
  }

  lemma TrimWithoutTrailing(c: string)
    requires |c| > 0 && c[|c| - 1] != '/'
    ensures TrimTrailing(c) == c
  {
  }

  /** Base of a rendered list of parts is its last part. */
  lemma BaseOfRender(r: bool, ps: seq<string>)
    requires |ps| > 0 && AllValid(ps)
    ensures Base(Render(r, ps)) == ps[|ps| - 1]
  {
    var c := Render(r, ps);
    var j := Strings.Join(ps, "/");
    Strings.JoinTail(ps, "/");
    var l := ps[|ps| - 1];
    assert ValidPart(l);
    assert j[|j| - 1] == l[|l| - 1];
    assert l[|l| - 1] in l;
    PiecesOfJoin(ps);
    if r {
      assert c == "/" + j;
      assert c[|c| - 1] == j[|j| - 1];
      TrimWithoutTrailing(c);
      assert c[0] == '/' && c[1..] == j;
      assert Pieces(c) == [""] + ps;
    } else {
      assert c == j;
      TrimWithoutTrailing(c);
    }
  }

  /** Base of a cleaned path with parts is its last part. */
  lemma BaseOfCleanParts(s: string)
    requires CleanParts(s) != []
    ensures Base(Clean(s)) == CleanParts(s)[|CleanParts(s)| - 1]
  {
    CleanPartsCanonical(s);
    BaseOfRender(IsRooted(s), CleanParts(s));
  }

  /** Base of a path that cleans to the root is "/". */
  lemma BaseOfCleanRoot(s: string)
    requires CleanParts(s) == [] && IsRooted(s)
    ensures Base(Clean(s)) == "/"
  {
    assert Clean(s) == "/";
    BaseOfRoot();
  }

  /** Base of a path that cleans to "." is ".". */
  lemma BaseOfCleanDot(s: string)
    requires CleanParts(s) == [] && !IsRooted(s)
    ensures Base(Clean(s)) == "."
  {
    assert Clean(s) == ".";
    BaseOfDot();
  }

  lemma CleanOfRoot()
    ensures Clean("/") == "/" && CleanParts("/") == [] && IsRooted("/")
  {
    assert "/"[0] == '/' && "/"[1..] == "";
    assert Pieces("/") == [""] + Pieces("");
    assert Keep(["", ""]) == [];
    assert Parts("/") == [];
    assert CleanParts("/") == [];
    assert Clean("/") == "/" + "";
  }

  /** Clean of the empty path is ".". */
  lemma CleanOfEmpty()
    ensures Clean("") == "."
  {
    assert Pieces("") == [""];
    assert Keep([""]) == [] + Keep([]);
    assert Parts("") == [];
  }

  lemma CleanOfDot()
    ensures Clean(".") == "." && CleanParts(".") == [] && !IsRooted(".")
  {
    PiecesWithoutSeparator(".");
    assert Parts(".") == [];
  }

  /** A single valid part is clean. */
  lemma CleanOfPart(b: string)
    requires ValidPart(b)
    ensures Clean(b) == b
  {
    PiecesWithoutSeparator(b);
    assert Keep([b]) == [b] + Keep([]);
    assert Parts(b) == [b];
    assert Canonical(false, [b]);
    FoldIdentity(false, [], [b]);
    assert [] + [b] == [b];
    assert !IsRooted(b);
    assert Clean(b) == Render(false, [b]);
  }

  /** Base of a cleaned path is itself clean: a single part, "/" or ".". */
  lemma BaseOfCleanIsClean(s: string)
    ensures Clean(Base(Clean(s))) == Base(Clean(s))
  {
    var ps := CleanParts(s);
    if ps == [] {
      if IsRooted(s) {
        BaseOfCleanRoot(s);
        CleanOfRoot();
      } else {
        BaseOfCleanDot(s);
        CleanOfDot();
      }
    } else {
      BaseOfCleanParts(s);
      CleanPartsCanonical(s);
      CleanOfPart(ps[|ps| - 1]);
    }
  }

  /** Dir of a cleaned path with parts drops the last part. */
  lemma DirOfClean(s: string)
    requires CleanParts(s) != []
    ensures IsRooted(Dir(Clean(s))) == IsRooted(s)
    ensures CleanParts(Dir(Clean(s))) == CleanParts(s)[..|CleanParts(s)| - 1]
  {
    CleanPartsCanonical(s);
    if IsRooted(s) {
      DirOfRooted(CleanParts(s));
    } else {
      DirOfRelative(CleanParts(s));
    }
  }

  /** A rendered list of parts followed by "/" cleans back to that list. */
  lemma CleanOfRenderSlash(r: bool, x: seq<string>)
    requires Canonical(r, x) && x != []
    ensures IsRooted(Clean(Render(r, x) + "/")) == r
    ensures CleanParts(Clean(Render(r, x) + "/")) == x
  {
    var d := Render(r, x) + "/";
    RenderParts(r, x);
    TrailingSeparator(Render(r, x));
    FoldIdentity(r, [], x);
    assert [] + x == x;
    assert CleanParts(d) == x;
    CleanShape(d);
  }

  /** Dir of a rooted rendered list drops its last part. */
  lemma DirOfRooted(ps: seq<string>)
    requires Canonical(true, ps) && ps != []
    ensures IsRooted(Dir(Render(true, ps))) && CleanParts(Dir(Render(true, ps))) == ps[..|ps| - 1]
  {
    var c := Render(true, ps);
    var x := ps[..|ps| - 1];
    CanonicalPrefix(true, ps, |ps| - 1);
    var j := Strings.Join(ps, "/");
    PiecesOfJoin(ps);
    assert c[0] == '/' && c[1..] == j;
    var pieces := [""] + ps;
    assert Pieces(c) == pieces;
    assert pieces[..|pieces| - 1] == [""] + x;
    if x == [] {
      assert Strings.Join([""] + x, "/") + "/" == "/";
      CleanOfRoot();
    } else {
      assert ([""] + x)[1..] == x;
      assert Strings.Join([""] + x, "/") + "/" == Render(true, x) + "/";
      CleanOfRenderSlash(true, x);
    }
  }

  /** Dir of a relative rendered list drops its last part. */
  lemma DirOfRelative(ps: seq<string>)
    requires Canonical(false, ps) && ps != []
    ensures !IsRooted(Dir(Render(false, ps))) && CleanParts(Dir(Render(false, ps))) == ps[..|ps| - 1]
  {
    var c := Render(false, ps);
    var x := ps[..|ps| - 1];
    assert c == Strings.Join(ps, "/");
    PiecesOfJoin(ps);
    assert Pieces(c) == ps;
    if |ps| == 1 {
      assert Dir(c) == ".";
      CleanOfDot();
    } else {
      CanonicalPrefix(false, ps, |ps| - 1);
      assert Dir(c) == Clean(Strings.Join(x, "/") + "/");
      assert Strings.Join(x, "/") == Render(false, x);
      CleanOfRenderSlash(false, x);
    }
  }

  /** Dir of "/" is "/" and Dir of "." is ".". */
  lemma DirOfCleanEmpty(s: string)
    requires CleanParts(s) == []
    ensures IsRooted(Dir(Clean(s))) == IsRooted(s)
    ensures CleanParts(Dir(Clean(s))) == []
  {
    if IsRooted(s) {
      assert Clean(s) == "/" + "";
      assert "/"[0] == '/' && "/"[1..] == "";
      assert Pieces("/") == [""] + Pieces("");
      assert Strings.Join([""], "/") == "";
      assert Dir("/") == Clean("/");
      CleanOfRoot();
      assert Keep(["", ""]) == [];
    } else {
      assert Clean(s) == ".";
      PiecesWithoutSeparator(".");
      assert Dir(".") == ".";
      assert Parts(".") == [];
    }
  }
}
