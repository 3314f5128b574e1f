/** What the handler promises, and where it falls short, stated over the functions
    of `Protocol`. */
module DavProperties {
  import opened PhpStrings
  import opened UrlCoding
  import opened Config
  import opened FsTree
  import opened Posix
  import opened TreeOps
  import opened Listing
  import opened Protocol

  // ---------------------------------------------------------------------------
  // Path resolution
  // ---------------------------------------------------------------------------

  /** The strip changes a path exactly when it holds `../` or `..\`. */
  lemma SanitizeUnchanged(p: Str)
    ensures Sanitize(p) == p <==> !Contains(p, DotDotSlash) && !Contains(p, DotDotBackslash)
  {
    var a := ReplaceAll(p, DotDotSlash, []);
    if Contains(p, DotDotSlash) {
      ReplaceAllRemoves(p, DotDotSlash);
    } else if Contains(p, DotDotBackslash) {
      ReplaceAllRemoves(a, DotDotBackslash);
    }
  }

  /** The first replacement turns "/....//name" into "/../name". */
  lemma FirstPassJoins(name: Str)
    requires '/' !in name
    ensures ReplaceAll(DoubledDots + name, DotDotSlash, []) == SlashDotDotSlash + name
  {
    var tail := Slash + name;
    assert !Contains(tail, DotDotSlash) by {
      NotContainsWithout(name, DotDotSlash, '/');
      assert tail[1..] == name;
    }
    StripChain(tail);
    DotsRegroup(name);
  }

  /** "/....//" and "/../" before a name, regrouped around "/..". */
  lemma DotsRegroup(name: Str)
    ensures DoubledDots + name == SlashDotDot + (DotDotSlash + (Slash + name))
    ensures SlashDotDotSlash + name == SlashDotDot + (Slash + name)
  {
    assert DoubledDots == SlashDotDot + DotDotSlash + Slash;
    assert SlashDotDotSlash == SlashDotDot + Slash;
  }

  /** The strip is a single pass: deleting the inner `../` of `....//` joins the
      remaining dots and slash into a new `../`. */
  lemma SanitizeReintroduces(name: Str)
    requires '/' !in name && '\\' !in name
    ensures Sanitize(DoubledDots + name) == SlashDotDotSlash + name
    ensures Contains(Sanitize(DoubledDots + name), DotDotSlash)
  {
    FirstPassJoins(name);
    var a := SlashDotDotSlash + name;
    NotContainsWithout(a, DotDotBackslash, '\\');
    assert a[1..][..3] == DotDotSlash;
    assert Contains(a[1..], DotDotSlash);
  }

  /** When nothing follows the script's directory and name, the request path is the
      storage root "/" and the filesystem path is STORAGE_PATH followed by a slash. */
  lemma ParsePathDefaultsToRoot(cfg: Config, uri: Str, scriptName: Str)
    requires Falsy(RelPath(RawUrlDecode(BeforeQuery(uri)), ScriptDir(scriptName), Slash + Basename(scriptName)))
    ensures ParsePath(cfg, uri, scriptName).reqPath == Slash
    ensures ParsePath(cfg, uri, scriptName).fsPath == StoragePath(cfg) + Slash
  {
    NotContainsWithout(Slash, DotDotSlash, '.');
    NotContainsWithout(Slash, DotDotBackslash, '.');
  }

  /** Whatever the request, the filesystem path is STORAGE_PATH followed by the
      stripped request path, and no longer than the two together. The request path
      need not start with a slash (see ScriptNameNoBoundary), and `..` survives the
      strip when no slash follows it (see DeleteRootDir), so this is not a
      confinement to STORAGE_PATH. */
  lemma FsPathUnderStorage(cfg: Config, uri: Str, scriptName: Str)
    ensures StartsWith(ParsePath(cfg, uri, scriptName).fsPath, StoragePath(cfg))
    ensures |ParsePath(cfg, uri, scriptName).fsPath| <= |StoragePath(cfg)| + |ParsePath(cfg, uri, scriptName).reqPath|
  {
  }

  /** The script's name is cut off the URI without checking that a path segment ends
      there: with the script at the web root, "/index.phpfoo" gives the request path
      "foo", and the filesystem path STORAGE_PATH followed directly by "foo" names
      the entry "storagefoo" of ROOT_DIR, beside STORAGE_PATH. */
  lemma ScriptNameNoBoundary(cfg: Config, uri: Str, scriptName: Str, name: Str)
    requires cfg.Valid() && ScriptDir(scriptName) == []
    requires uri == Slash + Basename(scriptName) + name
    requires '?' !in uri && '%' !in uri && '\\' !in name && ValidName(name) && !Falsy(name)
    ensures ParsePath(cfg, uri, scriptName).reqPath == name
    ensures ParsePath(cfg, uri, scriptName).fsPath == StoragePath(cfg) + name
    ensures Place(cfg, ParsePath(cfg, uri, scriptName).fsPath) == Some(Loc([StorageName + name], false))
  {
    var r := cfg.rootDir;
    var sb := Slash + Basename(scriptName);
    assert StartsWith(uri, []);
    assert StartsWith(uri, sb) && uri[|sb|..] == name;
    NotContainsWithout(name, DotDotSlash, '/');
    NotContainsWithout(name, DotDotBackslash, '\\');
    SanitizeUnchanged(name);
    LocateRoot(r);
    LocateChild(r, r, StorageName + name);
    assert [] + [StorageName + name] == [StorageName + name];
    assert StoragePath(cfg) + name == r + Slash + (StorageName + name);
  }

  /** The encoded form of "/..". */
  lemma DecodeDots()
    ensures RawUrlDecode("/%2e%2e") == SlashDotDot
  {
    var e: Str := "/%2e%2e";
    assert RawUrlDecode(e[4..]) == ['.'] + RawUrlDecode([]);
    assert RawUrlDecode(e[1..]) == ['.'] + RawUrlDecode(e[4..]);
  }

  /** No slash follows the `..` of "/..", so the strip leaves it. */
  lemma SlashDotDotKept()
    ensures Sanitize(SlashDotDot) == SlashDotDot
  {
    assert !Contains(SlashDotDot[3..], DotDotSlash);
    assert !Contains(SlashDotDot[2..], DotDotSlash);
    assert !Contains(SlashDotDot[1..], DotDotSlash);
    assert SlashDotDot[0] != DotDotSlash[0];
    assert !Contains(SlashDotDot, DotDotSlash);
    NotContainsWithout(SlashDotDot, DotDotBackslash, '\\');
    SanitizeUnchanged(SlashDotDot);
  }

  /** With the script at the web root, both the URI "/.." and its encoded form
      "/%2e%2e" give the filesystem path STORAGE_PATH followed by "/..". */
  lemma ParentUri(cfg: Config, uri: Str, scriptName: Str)
    requires ScriptDir(scriptName) == [] && !StartsWith(SlashDotDot, Slash + Basename(scriptName))
    requires uri == SlashDotDot || uri == "/%2e%2e"
    ensures ParsePath(cfg, uri, scriptName).fsPath == StoragePath(cfg) + SlashDotDot
  {
    if uri != SlashDotDot {
      DecodeDots();
    }
    assert RawUrlDecode(BeforeQuery(uri)) == SlashDotDot;
    assert StartsWith(SlashDotDot, []);
    SlashDotDotKept();
  }

  /** DELETE of STORAGE_PATH followed by "/.." passes the guard, which compares
      strings, and runs `rm` on ROOT_DIR, the directory of the script: every entry
      there with a visible name goes, the storage directory entirely when nothing
      hidden lies in it; hidden names, the script itself among them, stay. */
  lemma DeleteRootDir(cfg: Config, w: Node, p: Paths)
    requires cfg.Valid() && w.Dir? && p.fsPath == StoragePath(cfg) + SlashDotDot
    ensures HandleDelete(cfg, w, p) == Served(Status(204), Dir(RmRest(w, cfg.scriptFile)))
    ensures forall k :: k in w.children && IsHidden(k, cfg.scriptFile) ==> k in RmRest(w, cfg.scriptFile)
    ensures StorageName in w.children && !IsHidden(StorageName, cfg.scriptFile) ==>
      (StorageName !in RmRest(w, cfg.scriptFile) <==> NoHiddenBelow(w.children[StorageName], cfg.scriptFile))
  {
    PlaceStorageParent(cfg);
    assert |p.fsPath| != |StoragePath(cfg)|;
    if StorageName in w.children {
      RmRemovesAll(w.children[StorageName], cfg.scriptFile);
    }
  }

  /** STORAGE_PATH followed by `/..` lands on ROOT_DIR, the directory of the script,
      demanding a directory there. */
  lemma PlaceStorageParent(cfg: Config)
    requires cfg.Valid()
    ensures Place(cfg, StoragePath(cfg) + SlashDotDot) == Some(Loc([], true))
  {
    var r := cfg.rootDir;
    var sp := StoragePath(cfg);
    PlaceStorage(cfg);
    LocateStep(r, sp, DotDot);
    assert Walk([StorageName], [DotDot]) == Walk([], []);
    assert sp + Slash + DotDot == sp + SlashDotDot;
  }

  /** `..` after the strip leads out of STORAGE_PATH into ROOT_DIR, the directory of
      the script itself. */
  lemma EscapeLandsBesideStorage(cfg: Config, name: Str)
    requires cfg.Valid() && ValidName(name)
    ensures Place(cfg, StoragePath(cfg) + SlashDotDotSlash + name) == Some(Loc([name], false))
  {
    var sp := StoragePath(cfg);
    PlaceStorageParent(cfg);
    LocateChild(cfg.rootDir, sp + SlashDotDot, name);
    assert [] + [name] == [name];
    assert sp + SlashDotDot + Slash + name == sp + SlashDotDotSlash + name;
  }

  /** STORAGE_PATH lands on the storage directory, and STORAGE_PATH with a slash
      on the same directory, demanding one. */
  lemma PlaceStorage(cfg: Config)
    requires cfg.Valid()
    ensures Place(cfg, StoragePath(cfg)) == Some(Loc([StorageName], false))
    ensures Place(cfg, StoragePath(cfg) + Slash) == Some(Loc([StorageName], true))
  {
    var r := cfg.rootDir;
    LocateRoot(r);
    LocateChild(r, r, StorageName);
    assert [] + [StorageName] == [StorageName];
    assert StoragePath(cfg)[|r|..] != [];
    LocateTrailingSlash(r, StoragePath(cfg));
  }

  /** A listing's child path lands on the child of wherever the directory path lands,
      whether or not that path ends with a slash. */
  lemma PlaceChild(cfg: Config, s: Str, name: Str)
    requires cfg.Valid() && Place(cfg, s).Some? && ValidName(name)
    ensures Place(cfg, ChildPath(s, name)) == Some(Loc(Place(cfg, s).value.path + [name], false))
  {
    var r := cfg.rootDir;
    if s != [] && s[|s| - 1] == '/' {
      assert |s| > |r|;
      var x := s[..|s| - 1];
      assert s == x + Slash;
      assert x[..|r|] == s[..|r|];
      if |x| > |r| {
        assert x[|r|] == s[|r|];
      }
      LocateSlashed(r, x);
      LocateChild(r, x, name);
      assert ChildPath(s, name) == x + Slash + name;
    } else {
      LocateChild(r, s, name);
    }
  }

  // ---------------------------------------------------------------------------
  // GET, HEAD, PUT
  // ---------------------------------------------------------------------------

  /** GET of a file under a hidden name answers 404, as if it did not exist. */
  lemma GetHiddenFileNotFound(cfg: Config, w: Node, p: Paths)
    requires Place(cfg, p.fsPath).Some? && Lookup(w, Place(cfg, p.fsPath).value).Some?
    requires Lookup(w, Place(cfg, p.fsPath).value).value.File?
    requires IsHidden(Basename(p.fsPath), cfg.scriptFile)
    ensures HandleGet(cfg, w, p) == Status(404)
  {
  }

  /** GET of any other file sends its bytes, its content type, and a Content-Length
      that PHP's integer cast reads back as the file's size. */
  lemma GetServesFile(cfg: Config, w: Node, p: Paths, data: Str)
    requires Place(cfg, p.fsPath).Some? && Lookup(w, Place(cfg, p.fsPath).value) == Some(File(data))
    requires !IsHidden(Basename(p.fsPath), cfg.scriptFile) && |data| <= IntMax
    ensures var r := HandleGet(cfg, w, p);
      r.Response? && r.status == 200 && r.body == Bytes(data) && |r.headers| == 2
      && r.headers[0] == ("Content-Type", Mime.Mime(p.fsPath))
      && r.headers[1].0 == "Content-Length" && IntCast(r.headers[1].1) == |data|
  {
    IntCastOfDecimal(|data|);
  }

  /** HEAD answers 200 for every existing path, hidden names included, where GET
      answers 404. */
  lemma HeadSeesHidden(cfg: Config, w: Node, p: Paths)
    requires Place(cfg, p.fsPath).Some? && Lookup(w, Place(cfg, p.fsPath).value).Some?
    requires Lookup(w, Place(cfg, p.fsPath).value).value.File?
    requires IsHidden(Basename(p.fsPath), cfg.scriptFile)
    ensures HandleHead(cfg, w, p) == Status(200) && HandleGet(cfg, w, p) == Status(404)
  {
  }

  /** PUT to a hidden name answers 403 and writes nothing. */
  lemma PutHiddenForbidden(cfg: Config, w: Node, p: Paths, body: Str)
    requires w.Dir? && IsHidden(Basename(p.fsPath), cfg.scriptFile)
    ensures HandlePut(cfg, w, p, body) == Served(Status(403), w)
  {
  }

  /** A PUT that answers 201 leaves the body as the file at the path; every entry
      that is neither that file, nor a directory created on the way to it, nor one
      of their ancestors, is as it was. */
  lemma PutStoresBody(cfg: Config, w: Node, p: Paths, body: Str)
    requires w.Dir? && HandlePut(cfg, w, p, body).resp == Status(201)
    ensures Place(cfg, p.fsPath).Some? && Place(cfg, Dirname(p.fsPath)).Some?
    ensures Lookup(HandlePut(cfg, w, p, body).root, Place(cfg, p.fsPath).value) == Some(File(body))
    ensures forall q ::
      !IsPrefix(q, Place(cfg, Dirname(p.fsPath)).value.path) && !IsPrefix(q, Place(cfg, p.fsPath).value.path) ==>
        Get(HandlePut(cfg, w, p, body).root, q) == Get(w, q)
  {
    var l := Place(cfg, p.fsPath).value;
    var dl := Place(cfg, Dirname(p.fsPath)).value;
    var w1 := if IsDir(w, dl) then w else MkdirRecursive(w, dl).root;
    GetUpdateAt(w1, l.path, Some(File(body)), l.path);
    assert l.path[|l.path|..] == [];
    forall q | !IsPrefix(q, dl.path) && !IsPrefix(q, l.path)
      ensures Get(HandlePut(cfg, w, p, body).root, q) == Get(w, q)
    {
      WriteFileFrame(w1, l, body, q);
      MkdirRecursiveFrame(w, dl, q);
    }
  }

  /** No file stands at `d` or at any prefix of it. */
  ghost predicate NoFileOnWay(w: Node, d: Path) {
    forall i :: 0 <= i <= |d| ==> !(Get(w, d[..i]).Some? && Get(w, d[..i]).value.File?)
  }

  /** The two steps of PUT: the directory is made when it is not one, then the file
      is written. The write succeeds exactly when no file stands on the way to the
      directory and no directory at the name. */
  lemma WriteAfterMkdirs(w: Node, dl: Loc, body: Str, name: Str)
    requires w.Dir?
    ensures var w1 := if IsDir(w, dl) then w else MkdirRecursive(w, dl).root;
      WriteFile(w1, Loc(dl.path + [name], false), body).ok <==>
        NoFileOnWay(w, dl.path) && !(Get(w, dl.path + [name]).Some? && Get(w, dl.path + [name]).value.Dir?)
  {
    var d := dl.path;
    var q := d + [name];
    assert q[..|q| - 1] == d;
    assert d[..|d|] == d;
    MakeDirsFails(w, d);
    if Get(w, d).Some? && Get(w, d).value.Dir? {
      forall i | 0 <= i < |d|
        ensures Get(w, d[..i]).Some? && Get(w, d[..i]).value.Dir?
      {
        assert d == d[..i] + d[i..];
        GetAncestor(w, d[..i], d[i..]);
      }
    } else if Get(w, d).None? && MakeDirs(w, d).Some? {
      var w1 := MakeDirs(w, d).value;
      MakeDirsEmpty(w, d);
      GetSnoc(w1, d, name);
      GetBelowNonDir(w, d, name);
    }
  }

  /** Where the path names the entry `name` of the directory its dirname names, PUT
      to a visible name answers 201 exactly when no file stands on the way to that
      directory and no directory stands at the name itself; otherwise 500. */
  lemma PutSucceeds(cfg: Config, w: Node, p: Paths, body: Str, d: Path, name: Str)
    requires w.Dir? && !IsHidden(Basename(p.fsPath), cfg.scriptFile)
    requires Place(cfg, Dirname(p.fsPath)).Some? && Place(cfg, Dirname(p.fsPath)).value.path == d
    requires Place(cfg, p.fsPath) == Some(Loc(d + [name], false))
    ensures HandlePut(cfg, w, p, body).resp == Status(201) <==>
      NoFileOnWay(w, d) && !(Get(w, d + [name]).Some? && Get(w, d + [name]).value.Dir?)
    ensures HandlePut(cfg, w, p, body).resp != Status(201) ==> HandlePut(cfg, w, p, body).resp == Status(500)
  {
    WriteAfterMkdirs(w, Place(cfg, Dirname(p.fsPath)).value, body, name);
  }

  /** The base name of "STORAGE_PATH/../name" is the name, its directory part
      "STORAGE_PATH/..". */
  lemma EscapePathParts(cfg: Config, name: Str)
    requires ValidName(name)
    ensures Basename(StoragePath(cfg) + SlashDotDotSlash + name) == name
    ensures Dirname(StoragePath(cfg) + SlashDotDotSlash + name) == StoragePath(cfg) + SlashDotDot
  {
    var sp := StoragePath(cfg);
    BasenameOfChild(sp + SlashDotDotSlash, name);
    assert sp + SlashDotDotSlash + name == (sp + SlashDotDot) + Slash + name;
    DirnameOfChild(sp + SlashDotDot, name);
  }

  /** The strip lets a request path reach ROOT_DIR: PUT to "/....//" followed by a
      visible name writes that file next to the script, outside STORAGE_PATH. */
  lemma PutEscapesStorage(cfg: Config, w: Node, p: Paths, name: Str, body: Str)
    requires cfg.Valid() && w.Dir? && ValidName(name) && '\\' !in name
    requires !IsHidden(name, cfg.scriptFile)
    requires p.fsPath == StoragePath(cfg) + Sanitize(DoubledDots + name)
    requires Get(w, [name]).None? || Get(w, [name]).value.File?
    ensures HandlePut(cfg, w, p, body) == Served(Status(201), Update(w, [name], Some(File(body))))
  {
    var sp := StoragePath(cfg);
    SanitizeReintroduces(name);
    assert p.fsPath == sp + SlashDotDotSlash + name;
    var fs := p.fsPath;
    EscapePathParts(cfg, name);
    PlaceStorageParent(cfg);
    EscapeLandsBesideStorage(cfg, name);
    assert Place(cfg, Dirname(fs)) == Some(Loc([], true));
    assert Place(cfg, fs) == Some(Loc([name], false));
    assert IsDir(w, Loc([], true));
    assert [name][..0] == [];
    assert ParentIsDir(w, [name]);
  }

  // ---------------------------------------------------------------------------
  // PROPFIND
  // ---------------------------------------------------------------------------

  /** The Depth header `infinity` is read by the integer cast as 0; a missing one
      counts as 1. */
  lemma DepthValues()
    ensures Depth(Some("infinity")) == 0
    ensures Depth(None) == 1
  {
    IntCastNonNumeric("infinity");
  }

  /** PROPFIND of a file under a hidden name answers 207 with no entries at all. */
  lemma PropfindHiddenFile(cfg: Config, w: Node, p: Paths, depth: Option<Str>)
    requires Place(cfg, p.fsPath).Some? && Lookup(w, Place(cfg, p.fsPath).value).Some?
    requires Lookup(w, Place(cfg, p.fsPath).value).value.File?
    requires IsHidden(Basename(p.fsPath), cfg.scriptFile)
    ensures HandlePropfind(cfg, w, p, depth) == Response(207, [XmlType], MultiStatus([]))
  {
    var r := HandlePropfind(cfg, w, p, depth);
    assert |r.body.entries| == 0;
  }

  /** PROPFIND of a visible file answers one entry carrying the file's size, read
      back by the integer cast, and its content type. */
  lemma PropfindFile(cfg: Config, w: Node, p: Paths, depth: Option<Str>, data: Str)
    requires Place(cfg, p.fsPath).Some? && Lookup(w, Place(cfg, p.fsPath).value) == Some(File(data))
    requires !IsHidden(Basename(p.fsPath), cfg.scriptFile) && |data| <= IntMax
    ensures var r := HandlePropfind(cfg, w, p, depth);
      r.Response? && r.status == 207 && r.body.MultiStatus? && |r.body.entries| == 1
      && r.body.entries[0].kind.Resource?
      && IntCast(r.body.entries[0].kind.length) == |data|
      && r.body.entries[0].kind.contentType == Mime.Mime(p.fsPath)
  {
    IntCastOfDecimal(|data|);
  }

  /** PROPFIND of a directory with Depth 0, or `infinity`, lists the directory alone. */
  lemma PropfindDepthZero(cfg: Config, w: Node, p: Paths, depth: Option<Str>)
    requires Place(cfg, p.fsPath).Some? && Lookup(w, Place(cfg, p.fsPath).value).Some?
    requires Lookup(w, Place(cfg, p.fsPath).value).value.Dir?
    requires depth == Some("infinity") || (depth.Some? && IntCast(depth.value) == 0)
    ensures var r := HandlePropfind(cfg, w, p, depth);
      r.Response? && r.status == 207 && r.body.MultiStatus? && |r.body.entries| == 1
      && r.body.entries[0].kind == Collection
      && r.body.entries[0] == EntryFor(cfg, w, p.baseUri, p.fsPath)
  {
    DepthValues();
  }

  /** Leaving out the hidden names keeps a listing in order. */
  lemma {:induction false} VisibleSorted(names: seq<Str>, sf: Str)
    requires Sorted(names)
    ensures Sorted(Visible(names, sf))
    decreases |names|
  {
    if names != [] {
      var init := names[..|names| - 1];
      var last := names[|names| - 1];
      VisibleSorted(init, sf);
      var v := Visible(init, sf);
      forall x | x in v
        ensures Below(x, last)
      {
        var i :| 0 <= i < |init| && init[i] == x;
        assert names[i] == x;
      }
    }
  }

  /** The visible names of a directory's listing are its entries not hidden, in order. */
  lemma ListedVisible(ch: map<Str, Node>, sf: Str)
    ensures Sorted(Visible(Scandir(ch), sf))
    ensures forall k :: k in Visible(Scandir(ch), sf) <==> k in ch && !IsHidden(k, sf)
  {
    VisibleSorted(Scandir(ch), sf);
  }

  /** The base name of a listing's child path is the child's name. */
  lemma ChildPathBasename(dir: Str, name: Str)
    requires ValidName(name)
    ensures Basename(ChildPath(dir, name)) == name
  {
    if dir != [] && dir[|dir| - 1] == '/' {
      assert ChildPath(dir, name) == dir + name;
      BasenameOfChild(dir, name);
    } else {
      var d := dir + Slash;
      assert ChildPath(dir, name) == d + name;
      BasenameOfChild(d, name);
    }
  }

  /** The entry of a listed child: its name, and a collection exactly when the child
      is a directory. */
  lemma ChildEntry(cfg: Config, w: Node, baseUri: Str, s: Str, name: Str)
    requires cfg.Valid() && Place(cfg, s).Some? && ValidName(name)
    requires Get(w, Place(cfg, s).value.path).Some? && Get(w, Place(cfg, s).value.path).value.Dir?
    requires name in Get(w, Place(cfg, s).value.path).value.children
    ensures EntryFor(cfg, w, baseUri, ChildPath(s, name)).displayName == HtmlSpecialChars(name)
    ensures EntryFor(cfg, w, baseUri, ChildPath(s, name)).kind.Collection?
      <==> Get(w, Place(cfg, s).value.path).value.children[name].Dir?
  {
    var f := ChildPath(s, name);
    var q := Place(cfg, s).value.path;
    PlaceChild(cfg, s, name);
    GetChild(w, q, name);
    ChildPathBasename(s, name);
    assert Place(cfg, f) == Some(Loc(q + [name], false));
    assert Lookup(w, Loc(q + [name], false)) == Some(Get(w, q).value.children[name]);
  }

  /** The entries for a directory path followed by its child paths: the directory's
      own entry, then one entry per child, in order. */
  lemma DescribeChildren(cfg: Config, w: Node, baseUri: Str, s: Str, vis: seq<Str>)
    ensures var es := Describe(cfg, w, baseUri, [s] + ChildPaths(s, vis));
      |es| == 1 + |vis| && es[0] == EntryFor(cfg, w, baseUri, s)
      && forall i :: 0 <= i < |vis| ==> es[i + 1] == EntryFor(cfg, w, baseUri, ChildPath(s, vis[i]))
  {
    var cps := ChildPaths(s, vis);
    forall i | 0 <= i < |vis|
      ensures ([s] + cps)[i + 1] == ChildPath(s, vis[i])
    {
      ConsIndex(s, cps, i);
    }
  }

  lemma ConsIndex<T>(x: T, ys: seq<T>, i: nat)
    requires i < |ys|
    ensures ([x] + ys)[i + 1] == ys[i]
  {
  }

  /** The answer of PROPFIND on a directory at a depth other than 0: one entry for
      the directory, then one for each visible child path. */
  lemma PropfindDirShape(cfg: Config, w: Node, p: Paths, depth: Option<Str>)
    requires Place(cfg, p.fsPath).Some?
    requires Lookup(w, Place(cfg, p.fsPath).value).Some? && Lookup(w, Place(cfg, p.fsPath).value).value.Dir?
    requires Depth(depth) != 0
    ensures var ch := Lookup(w, Place(cfg, p.fsPath).value).value.children;
      var vis := Visible(Scandir(ch), cfg.scriptFile);
      HandlePropfind(cfg, w, p, depth)
        == Response(207, [XmlType], MultiStatus(Describe(cfg, w, p.baseUri, [p.fsPath] + ChildPaths(p.fsPath, vis))))
  {
  }

  /** PROPFIND of a directory with any other depth lists the directory first and
      then, in listing order, exactly its entries whose names are not hidden, each
      under its own name and as a collection exactly when it is a directory. */
  lemma PropfindListsChildren(cfg: Config, w: Node, p: Paths, depth: Option<Str>)
    requires cfg.Valid() && WellFormed(w) && Place(cfg, p.fsPath).Some?
    requires Lookup(w, Place(cfg, p.fsPath).value).Some? && Lookup(w, Place(cfg, p.fsPath).value).value.Dir?
    requires Depth(depth) != 0
    ensures var ch := Lookup(w, Place(cfg, p.fsPath).value).value.children;
      var vis := Visible(Scandir(ch), cfg.scriptFile);
      var r := HandlePropfind(cfg, w, p, depth);
      r.Response? && r.status == 207 && r.body.MultiStatus?
      && |r.body.entries| == 1 + |vis| && Sorted(vis)
      && r.body.entries[0].kind == Collection
      && r.body.entries[0].displayName == HtmlSpecialChars(Basename(p.fsPath))
      && (forall k :: k in vis <==> k in ch && !IsHidden(k, cfg.scriptFile))
      && (forall i :: 0 <= i < |vis| ==>
            r.body.entries[i + 1].displayName == HtmlSpecialChars(vis[i])
            && (r.body.entries[i + 1].kind.Collection? <==> ch[vis[i]].Dir?))
  {
    var l := Place(cfg, p.fsPath).value;
    var ch := Lookup(w, l).value.children;
    var sf := cfg.scriptFile;
    var vis := Visible(Scandir(ch), sf);
    var es := Describe(cfg, w, p.baseUri, [p.fsPath] + ChildPaths(p.fsPath, vis));
    PropfindDirShape(cfg, w, p, depth);
    DescribeChildren(cfg, w, p.baseUri, p.fsPath, vis);
    GetWellFormed(w, l.path);
    ListedVisible(ch, sf);
    forall i | 0 <= i < |vis|
      ensures es[i + 1].displayName == HtmlSpecialChars(vis[i])
      ensures es[i + 1].kind.Collection? <==> ch[vis[i]].Dir?
    {
      assert vis[i] in vis;
      ChildEntry(cfg, w, p.baseUri, p.fsPath, vis[i]);
    }
  }


  // ---------------------------------------------------------------------------
  // DELETE and MKCOL
  // ---------------------------------------------------------------------------

  /** DELETE answers 404 for a missing path and 403 for STORAGE_PATH itself, and
      changes nothing in either case. */
  lemma DeleteRefused(cfg: Config, w: Node, p: Paths)
    requires w.Dir? && Place(cfg, p.fsPath).Some?
    requires !Exists(w, Place(cfg, p.fsPath).value) || p.fsPath == StoragePath(cfg)
    ensures HandleDelete(cfg, w, p).root == w
    ensures HandleDelete(cfg, w, p).resp == Status(if Exists(w, Place(cfg, p.fsPath).value) then 403 else 404)
  {
  }

  /** Any other DELETE of an entry below ROOT_DIR answers 204 and puts there what
      recursive removal leaves: nothing at all exactly when no hidden name lies
      below the entry. */
  lemma DeleteRemoves(cfg: Config, w: Node, p: Paths)
    requires w.Dir? && Place(cfg, p.fsPath).Some? && Exists(w, Place(cfg, p.fsPath).value)
    requires p.fsPath != StoragePath(cfg) && Place(cfg, p.fsPath).value.path != []
    ensures var l := Place(cfg, p.fsPath).value;
      var x := Lookup(w, l).value;
      ParentIsDir(w, l.path)
      && HandleDelete(cfg, w, p) == Served(Status(204), Update(w, l.path, RmNode(x, cfg.scriptFile)))
      && (Get(HandleDelete(cfg, w, p).root, l.path).None? <==> NoHiddenBelow(x, cfg.scriptFile))
  {
    var l := Place(cfg, p.fsPath).value;
    var x := Lookup(w, l).value;
    RmAtEntry(w, l, cfg.scriptFile);
    RmRemovesAll(x, cfg.scriptFile);
    GetUpdateAt(w, l.path, RmNode(x, cfg.scriptFile), l.path);
    assert l.path[|l.path|..] == [];
  }

  /** The guard against deleting the storage root compares strings: the request
      path "/" (a request naming the script and nothing after it) gives STORAGE_PATH
      with a trailing slash, which passes the guard, and DELETE then removes the
      storage directory itself, entirely when nothing hidden lies in it. */
  lemma DeleteStorageRoot(cfg: Config, w: Node, uri: Str, scriptName: Str)
    requires cfg.Valid() && w.Dir?
    requires Get(w, [StorageName]).Some? && Get(w, [StorageName]).value.Dir?
    requires Falsy(RelPath(RawUrlDecode(BeforeQuery(uri)), ScriptDir(scriptName), Slash + Basename(scriptName)))
    ensures var p := ParsePath(cfg, uri, scriptName);
      var x := Get(w, [StorageName]).value;
      p.fsPath != StoragePath(cfg) && ParentIsDir(w, [StorageName])
      && HandleDelete(cfg, w, p) == Served(Status(204), Update(w, [StorageName], RmNode(x, cfg.scriptFile)))
      && (Get(HandleDelete(cfg, w, p).root, [StorageName]).None? <==> NoHiddenBelow(x, cfg.scriptFile))
  {
    var p := ParsePath(cfg, uri, scriptName);
    ParsePathDefaultsToRoot(cfg, uri, scriptName);
    PlaceStorage(cfg);
    assert |p.fsPath| != |StoragePath(cfg)|;
    DeleteRemoves(cfg, w, p);
  }

  /** MKCOL of an existing path answers 405 and changes nothing. */
  lemma MkcolExisting(cfg: Config, w: Node, p: Paths)
    requires Place(cfg, p.fsPath).Some? && Exists(w, Place(cfg, p.fsPath).value)
    ensures HandleMkcol(cfg, w, p) == Served(Status(405), w)
  {
  }

  /** MKCOL of a missing path answers 409, changing nothing, exactly when a file
      stands somewhere on the way; otherwise it answers 201, an empty directory is
      there, and every entry other than it and its ancestors is as it was. */
  lemma MkcolOutcome(cfg: Config, w: Node, p: Paths)
    requires Place(cfg, p.fsPath).Some? && !Exists(w, Place(cfg, p.fsPath).value)
    ensures var q := Place(cfg, p.fsPath).value.path;
      var r := HandleMkcol(cfg, w, p);
      (r.resp == Status(409) <==> exists i :: 0 <= i <= |q| && Get(w, q[..i]).Some? && Get(w, q[..i]).value.File?)
      && (r.resp == Status(409) ==> r.root == w)
      && (r.resp != Status(409) ==> r.resp == Status(201) && Get(r.root, q) == Some(Dir(map[])))
    ensures forall q' :: !IsPrefix(q', Place(cfg, p.fsPath).value.path) ==> Get(HandleMkcol(cfg, w, p).root, q') == Get(w, q')
  {
    var l := Place(cfg, p.fsPath).value;
    var q := l.path;
    MakeDirsFails(w, q);
    if Get(w, q).Some? {
      assert q[..|q|] == q;
    }
    forall q' | !IsPrefix(q', q)
      ensures Get(HandleMkcol(cfg, w, p).root, q') == Get(w, q')
    {
      MkdirRecursiveFrame(w, l, q');
    }
  }

  // ---------------------------------------------------------------------------
  // COPY and MOVE
  // ---------------------------------------------------------------------------

  /** COPY and MOVE without a Destination header (or an empty one, or "0") answer 400
      and change nothing. */
  lemma CopyMoveNoDestination(cfg: Config, w: Node, p: Paths, req: Request, isMove: bool)
    requires w.Dir? && (req.destination.None? || Falsy(req.destination.value))
    ensures HandleCopyMove(cfg, w, p, req, isMove) == Served(Status(400), w)
  {
  }

  /** A destination under a hidden name is refused with 403 and nothing changes. */
  lemma CopyMoveHiddenTarget(cfg: Config, w: Node, p: Paths, req: Request, isMove: bool)
    requires w.Dir? && req.destination.Some? && !Falsy(req.destination.value)
    requires IsHidden(Basename(CopyTarget(cfg, p, req)), cfg.scriptFile)
    ensures HandleCopyMove(cfg, w, p, req, isMove) == Served(Status(403), w)
  {
  }

  /** An existing destination with `Overwrite: F` is refused with 412 and nothing changes. */
  lemma CopyMoveNoOverwrite(cfg: Config, w: Node, p: Paths, req: Request, isMove: bool)
    requires w.Dir? && req.destination.Some? && !Falsy(req.destination.value)
    requires !IsHidden(Basename(CopyTarget(cfg, p, req)), cfg.scriptFile)
    requires Place(cfg, CopyTarget(cfg, p, req)).Some? && Place(cfg, p.fsPath).Some?
    requires Exists(w, Place(cfg, CopyTarget(cfg, p, req)).value) && req.overwrite == Some(NoOverwrite)
    ensures HandleCopyMove(cfg, w, p, req, isMove) == Served(Status(412), w)
  {
  }

  /** The conditions under which COPY or MOVE goes ahead, naming where source and
      destination land. */
  predicate Proceeds(cfg: Config, p: Paths, req: Request, sl: Loc, tl: Loc) {
    req.destination.Some? && !Falsy(req.destination.value)
    && !IsHidden(Basename(CopyTarget(cfg, p, req)), cfg.scriptFile)
    && Place(cfg, CopyTarget(cfg, p, req)) == Some(tl) && Place(cfg, p.fsPath) == Some(sl)
  }

  /** `cp` onto a free name whose parent is a directory puts there the source without
      its hidden entries, and changes no entry neither above nor below the destination;
      the source survives unless it contains the destination. */
  lemma CopyFreeTree(w: Node, sl: Loc, tl: Loc, sf: Str)
    requires w.Dir? && Lookup(w, sl).Some? && !tl.dirOnly && Get(w, tl.path).None? && ParentIsDir(w, tl.path)
    ensures Get(CpAt(w, Lookup(w, sl), tl, sf), tl.path) == Some(Filtered(Lookup(w, sl).value, sf))
    ensures forall q :: !IsPrefix(q, tl.path) && !IsPrefix(tl.path, q) ==> Get(CpAt(w, Lookup(w, sl), tl, sf), q) == Get(w, q)
    ensures !IsPrefix(sl.path, tl.path) ==> Get(CpAt(w, Lookup(w, sl), tl, sf), sl.path) == Get(w, sl.path)
  {
    var x := Lookup(w, sl).value;
    assert tl == Loc(tl.path, false);
    CpAtFresh(w, x, tl.path, sf);
    forall q | !IsPrefix(q, tl.path) && !IsPrefix(tl.path, q)
      ensures Get(CpAt(w, Lookup(w, sl), tl, sf), q) == Get(w, q)
    {
      CpAtFrame(w, x, tl.path, sf, q);
    }
    if IsPrefix(tl.path, sl.path) {
      var r := sl.path[|tl.path|..];
      assert sl.path == tl.path + r;
      if r != [] {
        GetAncestor(w, tl.path, r);
      }
    }
  }

  /** COPY onto a free name whose parent is a directory answers 201 and puts there
      the source without its hidden entries. Every entry neither above nor below the
      destination is as it was, the source included unless it contains the destination. */
  lemma CopyOntoFree(cfg: Config, w: Node, p: Paths, req: Request, sl: Loc, tl: Loc)
    requires w.Dir? && Proceeds(cfg, p, req, sl, tl)
    requires Lookup(w, sl).Some? && !tl.dirOnly && Get(w, tl.path).None? && ParentIsDir(w, tl.path)
    ensures HandleCopyMove(cfg, w, p, req, false).resp == Status(201)
    ensures Get(HandleCopyMove(cfg, w, p, req, false).root, tl.path) == Some(Filtered(Lookup(w, sl).value, cfg.scriptFile))
    ensures forall q :: !IsPrefix(q, tl.path) && !IsPrefix(tl.path, q) ==> Get(HandleCopyMove(cfg, w, p, req, false).root, q) == Get(w, q)
    ensures !IsPrefix(sl.path, tl.path) ==> Get(HandleCopyMove(cfg, w, p, req, false).root, sl.path) == Get(w, sl.path)
  {
    assert HandleCopyMove(cfg, w, p, req, false) == Served(Status(201), CpAt(w, Lookup(w, sl), tl, cfg.scriptFile));
    CopyFreeTree(w, sl, tl, cfg.scriptFile);
  }

  /** After the destination was removed, a free name with a directory above it. */
  lemma RemovedLeavesFree(w: Node, q: Path, y: Node, sf: Str)
    requires w.Dir? && q != [] && Get(w, q) == Some(y) && NoHiddenBelow(y, sf)
    ensures ParentIsDir(w, q)
    ensures RmAt(w, Loc(q, false), sf) == Update(w, q, None)
    ensures ParentIsDir(Update(w, q, None), q) && Get(Update(w, q, None), q).None?
  {
    RmAtEntry(w, Loc(q, false), sf);
    RmRemovesAll(y, sf);
    GetUpdateAt(w, q, None, q);
    assert IsPrefix(q, q);
    GetUpdateAbove(w, q, None, q[..|q| - 1]);
  }

  /** COPY onto an existing entry that holds nothing hidden, apart from the source,
      removes it first and then puts there the source without its hidden entries. */
  lemma CopyReplaces(cfg: Config, w: Node, p: Paths, req: Request, sl: Loc, tl: Loc)
    requires w.Dir? && Proceeds(cfg, p, req, sl, tl) && req.overwrite != Some(NoOverwrite)
    requires Lookup(w, sl).Some? && !tl.dirOnly && tl.path != [] && Get(w, tl.path).Some?
    requires NoHiddenBelow(Get(w, tl.path).value, cfg.scriptFile)
    requires !IsPrefix(sl.path, tl.path) && !IsPrefix(tl.path, sl.path)
    ensures HandleCopyMove(cfg, w, p, req, false).resp == Status(201)
    ensures Get(HandleCopyMove(cfg, w, p, req, false).root, tl.path) == Some(Filtered(Lookup(w, sl).value, cfg.scriptFile))
    ensures Get(HandleCopyMove(cfg, w, p, req, false).root, sl.path) == Get(w, sl.path)
  {
    var sf := cfg.scriptFile;
    var over := if req.overwrite.Some? then req.overwrite.value else OverwriteDefault;
    assert HandleCopyMove(cfg, w, p, req, false) == CopyMoveAt(cfg, w, sl, tl, over, false);
    RemovedLeavesFree(w, tl.path, Get(w, tl.path).value, sf);
    var w1 := Update(w, tl.path, None);
    assert tl == Loc(tl.path, false);
    assert CopyMoveAt(cfg, w, sl, tl, over, false) == Served(Status(201), CpAt(w1, Lookup(w1, sl), tl, sf));
    GetUpdateApart(w, tl.path, None, sl.path);
    assert Lookup(w1, sl) == Lookup(w, sl);
    CpAtFresh(w1, Lookup(w, sl).value, tl.path, sf);
    CpAtFrame(w1, Lookup(w, sl).value, tl.path, sf, sl.path);
  }

  /** Neither COPY nor MOVE checks that the source exists: with a missing source the
      existing destination is removed all the same, and COPY still answers 201 while
      MOVE answers 500. */
  lemma CopyMoveMissingSource(cfg: Config, w: Node, p: Paths, req: Request, sl: Loc, tl: Loc, isMove: bool)
    requires w.Dir? && Proceeds(cfg, p, req, sl, tl) && req.overwrite != Some(NoOverwrite)
    requires Lookup(w, sl).None? && tl.path != [] && Exists(w, tl)
    requires !IsPrefix(sl.path, tl.path) && !IsPrefix(tl.path, sl.path)
    ensures var x := Lookup(w, tl).value;
      ParentIsDir(w, tl.path)
      && HandleCopyMove(cfg, w, p, req, isMove)
        == Served(Status(if isMove then 500 else 201), Update(w, tl.path, RmNode(x, cfg.scriptFile)))
  {
    var sf := cfg.scriptFile;
    var x := Lookup(w, tl).value;
    RmAtEntry(w, tl, sf);
    GetUpdateApart(w, tl.path, RmNode(x, sf), sl.path);
  }

  /** MOVE answers 201 exactly when `rename` succeeds; then the source's entry is at
      the destination and gone from where it was, and otherwise nothing changes. */
  lemma MoveOntoFree(cfg: Config, w: Node, p: Paths, req: Request, sl: Loc, tl: Loc)
    requires w.Dir? && Proceeds(cfg, p, req, sl, tl) && !Exists(w, tl) && sl.path != tl.path
    ensures var r := HandleCopyMove(cfg, w, p, req, true);
      (r.resp == Status(201) <==> Rename(w, sl, tl).ok)
      && (r.resp == Status(201) ==> Get(r.root, tl.path) == Lookup(w, sl) && Get(r.root, sl.path).None?)
      && (r.resp != Status(201) ==> r.resp == Status(500) && r.root == w)
  {
    if Rename(w, sl, tl).ok {
      RenameMoves(w, sl, tl);
    }
  }

  /** MOVE onto an existing entry that holds nothing hidden, apart from the source,
      with Overwrite not `F`: the destination is removed first, then `rename` puts
      the source's entry there and it is gone from where it was. */
  lemma MoveReplaces(cfg: Config, w: Node, p: Paths, req: Request, sl: Loc, tl: Loc)
    requires w.Dir? && Proceeds(cfg, p, req, sl, tl) && req.overwrite != Some(NoOverwrite)
    requires Lookup(w, sl).Some? && sl.path != [] && !tl.dirOnly && tl.path != [] && Get(w, tl.path).Some?
    requires NoHiddenBelow(Get(w, tl.path).value, cfg.scriptFile)
    requires !IsPrefix(sl.path, tl.path) && !IsPrefix(tl.path, sl.path)
    ensures HandleCopyMove(cfg, w, p, req, true).resp == Status(201)
    ensures Get(HandleCopyMove(cfg, w, p, req, true).root, tl.path) == Lookup(w, sl)
    ensures Get(HandleCopyMove(cfg, w, p, req, true).root, sl.path).None?
  {
    var sf := cfg.scriptFile;
    var over := if req.overwrite.Some? then req.overwrite.value else OverwriteDefault;
    assert HandleCopyMove(cfg, w, p, req, true) == CopyMoveAt(cfg, w, sl, tl, over, true);
    RemovedLeavesFree(w, tl.path, Get(w, tl.path).value, sf);
    var w1 := Update(w, tl.path, None);
    assert tl == Loc(tl.path, false);
    GetUpdateApart(w, tl.path, None, sl.path);
    assert Lookup(w1, sl) == Lookup(w, sl);
    assert Rename(w1, sl, tl).ok;
    RenameMoves(w1, sl, tl);
  }

  /** The Destination path is not stripped of `../`: when the script sits at the web
      root and is addressed without its name, the base URI is empty, every
      destination path counts as lying below it, and "/../name" names the entry
      `name` of ROOT_DIR, beside STORAGE_PATH. */
  lemma DestinationEscapes(cfg: Config, p: Paths, req: Request, name: Str)
    requires cfg.Valid() && ValidName(name) && p.baseUri == []
    requires RawUrlDecode(req.destinationPath) == SlashDotDotSlash + name
    ensures CopyTarget(cfg, p, req) == StoragePath(cfg) + SlashDotDotSlash + name
    ensures Basename(CopyTarget(cfg, p, req)) == name
    ensures Place(cfg, CopyTarget(cfg, p, req)) == Some(Loc([name], false))
  {
    assert StartsWith(SlashDotDotSlash + name, []);
    EscapePathParts(cfg, name);
    EscapeLandsBesideStorage(cfg, name);
  }

  /** A Destination taken from a PROPFIND href names the very path that href was
      built from, whenever the base URI holds no `%` and is not "/": decoding gives
      back the base URI followed by the path below STORAGE_PATH, and the base URI is
      cut off again. */
  lemma DestinationFromEntry(cfg: Config, w: Node, p: Paths, req: Request, f: Str)
    requires p.baseUri != Slash && '%' !in p.baseUri && StartsWith(f, StoragePath(cfg))
    requires req.destinationPath == EntryFor(cfg, w, p.baseUri, f).href
    ensures CopyTarget(cfg, p, req) == f
  {
    var b := p.baseUri;
    var h := req.destinationPath;
    assert h == b + h[|b|..];
    DecodePlainPrefix(b, h[|b|..]);
    var dp := RawUrlDecode(h);
    assert dp == b + f[|StoragePath(cfg)|..];
    assert StartsWith(dp, b) && dp[|b|..] == f[|StoragePath(cfg)|..];
    assert DestinationRel(dp, b, req.scriptName) == f[|StoragePath(cfg)|..];
    assert f == StoragePath(cfg) + f[|StoragePath(cfg)|..];
  }

  // ---------------------------------------------------------------------------
  // serve
  // ---------------------------------------------------------------------------

  /** A verb other than the eleven answers 405 and changes nothing. */
  lemma DispatchUnknown(cfg: Config, w: Node, p: Paths, req: Request)
    requires w.Dir? && req.verb !in Verbs
    ensures Serve(cfg, w, p, req) == Served(Status(405), w)
  {
  }

  /** GET, HEAD, PROPFIND, OPTIONS, LOCK and UNLOCK leave the tree as it was. */
  lemma DispatchReadOnly(cfg: Config, w: Node, p: Paths, req: Request)
    requires w.Dir? && req.verb in {"GET", "HEAD", "PROPFIND", "OPTIONS", "LOCK", "UNLOCK"}
    ensures Serve(cfg, w, p, req).root == w
  {
  }

  /** OPTIONS announces DAV classes 1 and 2, LOCK answers 200 with the token both in
      the Lock-Token header and in the body, and UNLOCK answers 204 whatever the token. */
  lemma DispatchFixedAnswers(cfg: Config, w: Node, p: Paths, req: Request)
    requires w.Dir?
    ensures req.verb == "OPTIONS" ==> (Serve(cfg, w, p, req).resp.Response?
      && Serve(cfg, w, p, req).resp.status == 200 && ("DAV", "1, 2") in Serve(cfg, w, p, req).resp.headers)
    ensures req.verb == "LOCK" ==> var r := Serve(cfg, w, p, req).resp;
      r.Response? && r.status == 200 && r.body.LockDiscovery?
      && ("Lock-Token", "<" + r.body.token + ">") in r.headers && StartsWith(r.body.token, "urn:uuid:")
    ensures req.verb == "UNLOCK" ==> Serve(cfg, w, p, req).resp == Status(204)
  {
  }
}
