/** The request handler as an object: the constructor parses the request's paths into
    fields, `Serve` dispatches on the verb, and each verb's method calls into the
    filesystem as the script does. Every method is proved to answer and to change the
    tree as the corresponding function of `Protocol` says. */
module Dav {
  import opened PhpStrings
  import opened UrlCoding
  import opened Config
  import opened FsTree
  import opened Posix
  import opened TreeOps
  import opened Listing
  import opened Protocol

  // ---------------------------------------------------------------------------
  // How far the loops of `rm` and `cp` have got
  // ---------------------------------------------------------------------------

  /** A directory's entries once `rm` has visited the names in `done`. */
  ghost function RmPartial(ch: map<Str, Node>, done: set<Str>, sf: Str): map<Str, Node> {
    map k | k in ch && (k !in done || IsHidden(k, sf) || RmNode(ch[k], sf).Some?) ::
      if k in done && !IsHidden(k, sf) then RmNode(ch[k], sf).value else ch[k]
  }

  lemma RmPartialStart(ch: map<Str, Node>, sf: Str)
    ensures RmPartial(ch, {}, sf) == ch
  {
  }

  lemma RmPartialEnd(ch: map<Str, Node>, done: set<Str>, sf: Str)
    requires ch.Keys <= done
    ensures RmPartial(ch, done, sf) == RmRest(Dir(ch), sf)
  {
  }

  /** Visiting a name that is not hidden replaces its entry by what removal leaves. */
  lemma RmPartialVisit(ch: map<Str, Node>, done: set<Str>, k: Str, sf: Str)
    requires k in ch && k !in done && !IsHidden(k, sf)
    ensures k in RmPartial(ch, done, sf) && RmPartial(ch, done, sf)[k] == ch[k]
    ensures Put(RmPartial(ch, done, sf), k, RmNode(ch[k], sf)) == RmPartial(ch, done + {k}, sf)
  {
  }

  /** Visiting a hidden name, or one without an entry, changes nothing. */
  lemma RmPartialSkip(ch: map<Str, Node>, done: set<Str>, k: Str, sf: Str)
    requires k !in ch || IsHidden(k, sf)
    ensures RmPartial(ch, done + {k}, sf) == RmPartial(ch, done, sf)
  {
  }

  /** One step of `rm`'s loop: removing the child `k` of the directory at `q`, part
      way through, moves the loop on by that name. */
  lemma RmVisit(w: Node, q: Path, ch: map<Str, Node>, done: set<Str>, k: Str, sf: Str)
    requires Get(w, q) == Some(Dir(ch)) && k in ch && k !in done && !IsHidden(k, sf)
    ensures var wi := Replace(w, q, Dir(RmPartial(ch, done, sf)));
      wi.Dir? && Lookup(wi, Loc(q + [k], false)) == Some(ch[k])
      && RmAt(wi, Loc(q + [k], false), sf) == Replace(w, q, Dir(RmPartial(ch, done + {k}, sf)))
  {
    var m := RmPartial(ch, done, sf);
    var wi := Replace(w, q, Dir(m));
    var l := Loc(q + [k], false);
    RmPartialVisit(ch, done, k, sf);
    GetReplaceAt(w, q, Dir(m), [k]);
    assert Get(wi, l.path) == Some(ch[k]);
    assert Lookup(wi, l) == Some(ch[k]);
    RmAtEntry(wi, l, sf);
    UpdateUnderReplace(w, q, m, k, RmNode(ch[k], sf));
  }

  /** A target directory's entries once `cp` has copied the names in `done` of `src`. */
  ghost function CopyPartial(src: Node, dch: map<Str, Node>, done: set<Str>, sf: Str): map<Str, Node>
    requires src.Dir?
  {
    map k | k in dch.Keys + (set j | j in src.children && j in done && !IsHidden(j, sf)) ::
      if k in src.children && k in done && !IsHidden(k, sf)
      then CopyOnto(src.children[k], if k in dch then Some(dch[k]) else None, sf)
      else dch[k]
  }

  lemma CopyPartialStart(src: Node, dch: map<Str, Node>, sf: Str)
    requires src.Dir?
    ensures CopyPartial(src, dch, {}, sf) == dch
  {
  }

  lemma CopyPartialEnd(src: Node, dch: map<Str, Node>, done: set<Str>, sf: Str)
    requires src.Dir? && src.children.Keys <= done
    ensures CopyPartial(src, dch, done, sf) == CopyEntries(src, dch, sf)
  {
  }

  /** Copying a name that is not hidden puts there what `CopyOnto` makes of the entry
      still there from before. */
  lemma CopyPartialVisit(src: Node, dch: map<Str, Node>, done: set<Str>, k: Str, sf: Str)
    requires src.Dir? && k in src.children && k !in done && !IsHidden(k, sf)
    ensures var m := CopyPartial(src, dch, done, sf);
      (k in m <==> k in dch) && (k in dch ==> m[k] == dch[k])
    ensures Put(CopyPartial(src, dch, done, sf), k,
      Some(CopyOnto(src.children[k], if k in dch then Some(dch[k]) else None, sf)))
      == CopyPartial(src, dch, done + {k}, sf)
  {
  }

  lemma CopyPartialSkip(src: Node, dch: map<Str, Node>, done: set<Str>, k: Str, sf: Str)
    requires src.Dir? && (k !in src.children || IsHidden(k, sf))
    ensures CopyPartial(src, dch, done + {k}, sf) == CopyPartial(src, dch, done, sf)
  {
  }

  /** The tree while `cp` copies into `q`: unchanged when `q` is not a directory. */
  ghost function CopyProgress(w: Node, q: Path, src: Node, done: set<Str>, sf: Str): Node
    requires src.Dir?
  {
    match Get(w, q)
    case Some(Dir(dch)) => Replace(w, q, Dir(CopyPartial(src, dch, done, sf)))
    case _ => w
  }

  /** Once every name of `src` was visited, the loop has done what `CopyInto` says. */
  lemma CopyProgressEnd(w: Node, q: Path, src: Node, done: set<Str>, sf: Str)
    requires src.Dir? && src.children.Keys <= done
    ensures CopyProgress(w, q, src, done, sf) == CopyInto(w, q, src, sf)
  {
    if Get(w, q).Some? && Get(w, q).value.Dir? {
      CopyPartialEnd(src, Get(w, q).value.children, done, sf);
    }
  }

  /** Before the loop has visited anything, the tree is as `mkdir` left it. */
  lemma CopyProgressStart(w: Node, q: Path, src: Node, sf: Str)
    requires src.Dir?
    ensures CopyProgress(w, q, src, {}, sf) == w
  {
    if Get(w, q).Some? && Get(w, q).value.Dir? {
      CopyPartialStart(src, Get(w, q).value.children, sf);
      ReplaceSame(w, q);
    }
  }

  /** One step of `cp`'s loop: copying the child `k` moves the loop on by that name. */
  lemma CpVisit(w: Node, q: Path, src: Node, done: set<Str>, k: Str, sf: Str)
    requires w.Dir? && src.Dir? && k in src.children && k !in done && !IsHidden(k, sf)
    ensures CopyProgress(w, q, src, done, sf).Dir?
    ensures CpAt(CopyProgress(w, q, src, done, sf), Some(src.children[k]), Loc(q + [k], false), sf)
      == CopyProgress(w, q, src, done + {k}, sf)
  {
    var x := src.children[k];
    match Get(w, q)
    case Some(Dir(dch)) =>
      var m := CopyPartial(src, dch, done, sf);
      var wi := Replace(w, q, Dir(m));
      CopyPartialVisit(src, dch, done, k, sf);
      GetReplaceAt(w, q, Dir(m), [k]);
      var o := Some(CopyOnto(x, if k in dch then Some(dch[k]) else None, sf));
      UpdateUnderReplace(w, q, m, k, o);
      CpAtEntry(wi, x, q + [k], sf);
    case _ =>
      CpAtBlocked(w, q, k, x, sf);
  }

  /** Skipping a hidden name leaves the loop where it was. */
  lemma CpSkip(w: Node, q: Path, src: Node, done: set<Str>, k: Str, sf: Str)
    requires src.Dir? && (k !in src.children || IsHidden(k, sf))
    ensures CopyProgress(w, q, src, done + {k}, sf) == CopyProgress(w, q, src, done, sf)
  {
    if Get(w, q).Some? && Get(w, q).value.Dir? {
      CopyPartialSkip(src, Get(w, q).value.children, done, k, sf);
    }
  }

  /** `cp` below something that is not a directory changes nothing. */
  lemma CpAtBlocked(w: Node, q: Path, k: Str, x: Node, sf: Str)
    requires w.Dir? && !(Get(w, q).Some? && Get(w, q).value.Dir?)
    ensures CpAt(w, Some(x), Loc(q + [k], false), sf) == w
  {
    GetBelowNonDir(w, q, k);
    assert (q + [k])[..|q + [k]| - 1] == q;
  }

  /** The names a sequence holds. */
  ghost function Elems(s: seq<Str>): set<Str> {
    set x | x in s
  }

  lemma ElemsStep(s: seq<Str>, i: nat)
    requires i < |s|
    ensures Elems(s[..i + 1]) == Elems(s[..i]) + {s[i]}
  {
    assert s[..i + 1] == s[..i] + [s[i]];
  }

  lemma ElemsAll(s: seq<Str>)
    ensures Elems(s[..|s|]) == Elems(s)
  {
    assert s[..|s|] == s;
  }

  /** A strictly ascending listing has no repetitions. */
  lemma SortedDistinct(names: seq<Str>, i: nat)
    requires Sorted(names) && i < |names|
    ensures names[i] !in names[..i]
  {
    if names[i] in names[..i] {
      var j :| 0 <= j < i && names[j] == names[i];
      assert Below(names[j], names[i]);
      BelowIrreflexive(names[i]);
    }
  }

  lemma ChildPathsSnoc(dir: Str, names: seq<Str>, x: Str)
    ensures ChildPaths(dir, names + [x]) == ChildPaths(dir, names) + [ChildPath(dir, x)]
  {
  }

  lemma VisibleStep(names: seq<Str>, i: nat, sf: Str)
    requires i < |names|
    ensures Visible(names[..i + 1], sf) == Visible(names[..i], sf) + (if IsHidden(names[i], sf) then [] else [names[i]])
  {
    assert names[..i + 1][..i] == names[..i];
  }

  lemma DescribeStep(cfg: Config, w: Node, baseUri: Str, files: seq<Str>, j: nat)
    requires j < |files|
    ensures Describe(cfg, w, baseUri, files[..j + 1]) == Describe(cfg, w, baseUri, files[..j]) + [EntryFor(cfg, w, baseUri, files[j])]
  {
    assert files[..j + 1][..j] == files[..j];
  }


  // ---------------------------------------------------------------------------
  // The handler
  // ---------------------------------------------------------------------------

  class DavHandler {
    const cfg: Config
    /** The filesystem the handler works on. */
    const fs: FileSystem
    var baseUri: Str
    var reqPath: Str
    var fsPath: Str
    /** The request URI and script name the paths were parsed from; both come
        from the same `$_SERVER` as the request that `Serve` answers. */
    ghost const uri: Str
    ghost const scriptName: Str

    ghost predicate Valid()
      reads this, fs
    {
      cfg.Valid() && fs.Valid()
    }

    /** The three paths the constructor parsed. */
    function Parsed(): Paths
      reads this
    {
      Paths(baseUri, reqPath, fsPath)
    }

    /** `__construct`: takes the hidden names from the installation and parses the
        request's paths. */
    constructor (cfg: Config, fs: FileSystem, uri: Str, scriptName: Str)
      requires cfg.Valid() && fs.Valid()
      ensures Valid() && this.cfg == cfg && this.fs == fs
      ensures this.uri == uri && this.scriptName == scriptName
      ensures Parsed() == ParsePath(cfg, uri, scriptName)
    {
      this.cfg := cfg;
      this.fs := fs;
      this.uri := uri;
      this.scriptName := scriptName;
      var p := ParsePath(cfg, uri, scriptName);
      baseUri, reqPath, fsPath := p.baseUri, p.reqPath, p.fsPath;
    }

    /** `rm($p)`: a directory loses each child whose name is not hidden, recursively
        and in listing order, and is then removed with `rmdir`; anything else is
        unlinked. The answer is whether the final `rmdir` or `unlink` succeeded. */
    method Rm(p: Str, ghost n: Node) returns (ok: bool)
      requires Valid() && Place(cfg, p).Some? && Lookup(fs.root, Place(cfg, p).value) == Some(n)
      modifies fs
      ensures Valid()
      ensures fs.root == RmAt(old(fs.root), Place(cfg, p).value, cfg.scriptFile)
      ensures ok <==> Place(cfg, p).value.path != [] && RmNode(n, cfg.scriptFile).None?
      decreases n, 2
    {
      var l := Place(cfg, p).value;
      var isDir := fs.IsDirectory(l);
      if isDir {
        ghost var w0 := fs.root;
        RmChildren(p, n);
        GetReplaceAt(w0, l.path, Dir(RmRest(n, cfg.scriptFile)), []);
        assert l.path + [] == l.path;
        ok := fs.RemoveDirectory(l);
      } else {
        ok := fs.RemoveFile(l);
      }
    }

    /** The loop of `rm` over a directory's listing: every child whose name is not
        hidden is removed, and the directory is left holding what `RmRest` says. */
    method RmChildren(p: Str, ghost n: Node)
      requires Valid() && Place(cfg, p).Some? && Lookup(fs.root, Place(cfg, p).value) == Some(n) && n.Dir?
      modifies fs
      ensures Valid()
      ensures Get(old(fs.root), Place(cfg, p).value.path).Some?
      ensures fs.root == Replace(old(fs.root), Place(cfg, p).value.path, Dir(RmRest(n, cfg.scriptFile)))
      decreases n, 1
    {
      var l := Place(cfg, p).value;
      var sf := cfg.scriptFile;
      var entry := fs.Stat(l);
      var ch := entry.value.children;
      var names := SortedNames(ch.Keys + SelfRefs);
      ghost var w0 := fs.root;
      GetWellFormed(w0, l.path);
      RmPartialStart(ch, sf);
      ReplaceSame(w0, l.path);
      assert Elems(names[..0]) == {};
      var i := 0;
      while i < |names|
        invariant 0 <= i <= |names| && Valid()
        invariant fs.root == Replace(w0, l.path, Dir(RmPartial(ch, Elems(names[..i]), sf)))
      {
        SortedDistinct(names, i);
        ElemsStep(names, i);
        RmEntry(p, l, w0, n, Elems(names[..i]), names[i]);
        i := i + 1;
      }
      ElemsAll(names);
      RmPartialEnd(ch, Elems(names[..i]), sf);
    }

    /** One turn of `rm`'s loop: a name that is not hidden is removed with `rm`,
        recursively; a hidden one (including `.` and `..`) is passed over. */
    method RmEntry(p: Str, l: Loc, ghost w0: Node, ghost n: Node, ghost done: set<Str>, name: Str)
      requires Valid() && Place(cfg, p) == Some(l) && n.Dir? && Get(w0, l.path) == Some(n) && WellFormed(n)
      requires name !in done && (!IsHidden(name, cfg.scriptFile) ==> name in n.children)
      requires fs.root == Replace(w0, l.path, Dir(RmPartial(n.children, done, cfg.scriptFile)))
      modifies fs
      ensures Valid()
      ensures fs.root == Replace(w0, l.path, Dir(RmPartial(n.children, done + {name}, cfg.scriptFile)))
      decreases n, 0
    {
      var sf := cfg.scriptFile;
      var ch := n.children;
      if !IsHidden(name, sf) {
        assert ValidName(name);
        LocateChild(cfg.rootDir, p, name);
        RmVisit(w0, l.path, ch, done, name, sf);
        var _ := Rm(p + Slash + name, ch[name]);
      } else {
        RmPartialSkip(ch, done, name, sf);
      }
    }
  
    /** `cp($s, $d)`, given what `$s` holds: a directory gets `mkdir($d)` and then
        each child whose name is not hidden is copied into `$d`, in listing order;
        a file is copied with `copy`; a missing source copies nothing. */
    method Cp(src: Option<Node>, d: Str)
      requires Valid() && Place(cfg, d).Some? && (src.Some? ==> WellFormed(src.value))
      modifies fs
      ensures Valid()
      ensures fs.root == CpAt(old(fs.root), src, Place(cfg, d).value, cfg.scriptFile)
      decreases if src.Some? then src.value else File([]), 1
    {
      var l := Place(cfg, d).value;
      if src.Some? && src.value.Dir? {
        if l.path != [] && !ParentIsDir(fs.root, l.path) {
          NoEntryWithoutParent(fs.root, l.path);
        }
        var _ := fs.MakeDirectory(l);
        CpChildren(src.value, d);
      } else if src.Some? {
        var _ := fs.Write(l, src.value.data);
      }
    }

    /** The loop of `cp` over the listing of a directory `x`. */
    method CpChildren(x: Node, d: Str)
      requires Valid() && Place(cfg, d).Some? && x.Dir? && WellFormed(x)
      modifies fs
      ensures Valid()
      ensures fs.root == CopyInto(old(fs.root), Place(cfg, d).value.path, x, cfg.scriptFile)
      decreases x, 0
    {
      var q := Place(cfg, d).value.path;
      var sf := cfg.scriptFile;
      var ch := x.children;
      var names := SortedNames(ch.Keys + SelfRefs);
      ghost var w1 := fs.root;
      assert forall k :: k in names && !IsHidden(k, sf) ==> k in ch && ValidName(k) && WellFormed(ch[k]);
      CopyProgressStart(w1, q, x, sf);
      assert Elems(names[..0]) == {};
      var i := 0;
      while i < |names|
        invariant 0 <= i <= |names| && Valid()
        invariant fs.root == CopyProgress(w1, q, x, Elems(names[..i]), sf)
      {
        var name := names[i];
        ghost var done := Elems(names[..i]);
        SortedDistinct(names, i);
        ElemsStep(names, i);
        ghost var next := CopyProgress(w1, q, x, done + {name}, sf);
        if !IsHidden(name, sf) {
          LocateChild(cfg.rootDir, d, name);
          assert Place(cfg, d + Slash + name) == Some(Loc(q + [name], false));
          CpVisit(w1, q, x, done, name, sf);
          Cp(Some(ch[name]), d + Slash + name);
          assert fs.root == next;
        } else {
          CpSkip(w1, q, x, done, name, sf);
          assert fs.root == next;
        }
        i := i + 1;
        assert Elems(names[..i]) == done + {name};
      }
      ElemsAll(names);
      CopyProgressEnd(w1, q, x, Elems(names[..i]), sf);
    }
  
    // -------------------------------------------------------------------------
    // The verbs
    // -------------------------------------------------------------------------

    /** `serve`: one method per verb, 405 for any other. */
    method Serve(req: Request) returns (resp: Response)
      requires Valid() && req.uri == uri && req.scriptName == scriptName
      modifies fs
      ensures Valid()
      ensures Served(resp, fs.root) == Protocol.Serve(cfg, old(fs.root), Parsed(), req)
    {
      match req.verb
      case "GET" => resp := DoGet();
      case "PUT" => resp := DoPut(req.body);
      case "PROPFIND" => resp := DoPropfind(req.depth);
      case "OPTIONS" => resp := DoOptions();
      case "DELETE" => resp := DoDelete();
      case "MKCOL" => resp := DoMkcol();
      case "COPY" => resp := DoCopyMove(req, false);
      case "MOVE" => resp := DoCopyMove(req, true);
      case "HEAD" => resp := DoHead();
      case "LOCK" => resp := DoLock(req.lockId);
      case "UNLOCK" => resp := DoUnlock();
      case _ => resp := Status(405);
    }

    method DoOptions() returns (resp: Response)
      ensures resp == HandleOptions()
    {
      resp := HandleOptions();
    }

    /** `doGet`: existence first, then the directory page, then the hidden-name
        check, then the file's bytes with their type and length. */
    method DoGet() returns (resp: Response)
      ensures resp == HandleGet(cfg, fs.root, Parsed())
    {
      var l := Place(cfg, fsPath);
      if l.None? {
        return OutsideRoot;
      }
      var ex := fs.FileExists(l.value);
      if !ex {
        return Status(404);
      }
      var isDir := fs.IsDirectory(l.value);
      if isDir {
        return Response(200, [], Browser);
      }
      if IsHidden(Basename(fsPath), cfg.scriptFile) {
        return Status(404);
      }
      var st := fs.Stat(l.value);
      var data := st.value.data;
      resp := Response(200, [(ContentType, Mime.Mime(fsPath)), (ContentLength, Decimal(|data|))], Bytes(data));
    }

    /** `doPut`: refuses a hidden name, creates the parent directory when missing,
        then writes the body. */
    method DoPut(body: Str) returns (resp: Response)
      requires Valid()
      modifies fs
      ensures Valid()
      ensures Served(resp, fs.root) == HandlePut(cfg, old(fs.root), Parsed(), body)
    {
      if IsHidden(Basename(fsPath), cfg.scriptFile) {
        return Status(403);
      }
      var dl := Place(cfg, Dirname(fsPath));
      var l := Place(cfg, fsPath);
      if dl.None? || l.None? {
        return OutsideRoot;
      }
      var isDir := fs.IsDirectory(dl.value);
      if !isDir {
        var _ := fs.MakeDirectories(dl.value);
      }
      var ok := fs.Write(l.value, body);
      resp := Status(if ok then 201 else 500);
    }

    /** One PROPFIND entry, with what `stat` finds at the path. */
    method EntryOf(f: Str) returns (e: Entry)
      ensures e == EntryFor(cfg, fs.root, baseUri, f)
    {
      var sp := StoragePath(cfg);
      var sub := if |f| >= |sp| then f[|sp|..] else [];
      var node: Option<Node> := None;
      var l := Place(cfg, f);
      if l.Some? {
        node := fs.Stat(l.value);
      }
      e := Entry(Href(baseUri, sub), HtmlSpecialChars(Basename(f)), KindOf(node, f));
    }

    /** `doPropfind`: collects the paths to describe (the directory and, unless the
        depth is 0, each child whose name is not hidden; or the file unless its name
        is hidden), then one entry per path. */
    method DoPropfind(depth: Option<Str>) returns (resp: Response)
      requires Valid()
      ensures resp == HandlePropfind(cfg, fs.root, Parsed(), depth)
    {
      var sf := cfg.scriptFile;
      var l := Place(cfg, fsPath);
      if l.None? {
        return OutsideRoot;
      }
      var ex := fs.FileExists(l.value);
      if !ex {
        return Status(404);
      }
      var files := PropfindPaths(l.value, Depth(depth));
      var entries: seq<Entry> := [];
      var j := 0;
      assert files[..0] == [];
      while j < |files|
        invariant 0 <= j <= |files|
        invariant entries == Describe(cfg, fs.root, baseUri, files[..j])
      {
        var e := EntryOf(files[j]);
        DescribeStep(cfg, fs.root, baseUri, files, j);
        entries := entries + [e];
        j := j + 1;
      }
      assert files[..j] == files;
      resp := Response(207, [XmlType], MultiStatus(entries));
    }

    /** The `$files` of `doPropfind` for an existing path: the directory and, unless
        the depth is 0, each child whose name is not hidden, in listing order; or the
        file unless its name is hidden. */
    method PropfindPaths(l: Loc, d: int) returns (files: seq<Str>)
      requires Valid() && Place(cfg, fsPath) == Some(l) && Lookup(fs.root, l).Some?
      ensures files == PropfindFiles(cfg, Lookup(fs.root, l).value, fsPath, d)
    {
      var sf := cfg.scriptFile;
      files := [];
      var isDir := fs.IsDirectory(l);
      if isDir {
        files := [fsPath];
        if d != 0 {
          var entry := fs.Stat(l);
          var ch := entry.value.children;
          var raw := SortedNames(ch.Keys + SelfRefs);
          ListedIsSortedNames(raw, ch.Keys + SelfRefs);
          var children := ChildrenOf(raw);
          files := files + children;
        }
      } else if !IsHidden(Basename(fsPath), sf) {
        files := [fsPath];
      }
    }

    /** The loop of `doPropfind` over a `scandir` listing: the path of each name
        that is not hidden, in order. */
    method ChildrenOf(raw: seq<Str>) returns (paths: seq<Str>)
      ensures paths == ChildPaths(fsPath, Visible(raw, cfg.scriptFile))
    {
      var sf := cfg.scriptFile;
      paths := [];
      assert raw[..0] == [];
      var i := 0;
      while i < |raw|
        invariant 0 <= i <= |raw|
        invariant paths == ChildPaths(fsPath, Visible(raw[..i], sf))
      {
        VisibleStep(raw, i, sf);
        if !IsHidden(raw[i], sf) {
          ChildPathsSnoc(fsPath, Visible(raw[..i], sf), raw[i]);
          paths := paths + [ChildPath(fsPath, raw[i])];
        }
        i := i + 1;
      }
      assert raw[..i] == raw;
    }

    /** `doDelete`: 404 for a missing path, 403 when the path string is STORAGE_PATH,
        else `rm` and 204. */
    method DoDelete() returns (resp: Response)
      requires Valid()
      modifies fs
      ensures Valid()
      ensures Served(resp, fs.root) == HandleDelete(cfg, old(fs.root), Parsed())
    {
      var l := Place(cfg, fsPath);
      if l.None? {
        return OutsideRoot;
      }
      var ex := fs.FileExists(l.value);
      if !ex {
        return Status(404);
      }
      if fsPath == StoragePath(cfg) {
        return Status(403);
      }
      var n := fs.Stat(l.value);
      var _ := Rm(fsPath, n.value);
      resp := Status(204);
    }

    /** `doMkcol`: 405 for an existing path, else recursive `mkdir`, 201 or 409. */
    method DoMkcol() returns (resp: Response)
      requires Valid()
      modifies fs
      ensures Valid()
      ensures Served(resp, fs.root) == HandleMkcol(cfg, old(fs.root), Parsed())
    {
      var l := Place(cfg, fsPath);
      if l.None? {
        return OutsideRoot;
      }
      var ex := fs.FileExists(l.value);
      if ex {
        return Status(405);
      }
      var ok := fs.MakeDirectories(l.value);
      resp := Status(if ok then 201 else 409);
    }

    /** `doCopyMove`: checks the Destination, the hidden name and Overwrite, removes
        an existing destination, then renames or copies. */
    method DoCopyMove(req: Request, isMove: bool) returns (resp: Response)
      requires Valid()
      modifies fs
      ensures Valid()
      ensures Served(resp, fs.root) == HandleCopyMove(cfg, old(fs.root), Parsed(), req, isMove)
    {
      var sf := cfg.scriptFile;
      var dest := if req.destination.Some? then req.destination.value else [];
      if Falsy(dest) {
        return Status(400);
      }
      var target := CopyTarget(cfg, Parsed(), req);
      if IsHidden(Basename(target), sf) {
        return Status(403);
      }
      var tl := Place(cfg, target);
      var sl := Place(cfg, fsPath);
      if tl.None? || sl.None? {
        return OutsideRoot;
      }
      var over := if req.overwrite.Some? then req.overwrite.value else OverwriteDefault;
      resp := CopyMoveTo(sl.value, tl.value, target, over, isMove);
    }

    /** The Overwrite check, the removal of an existing destination and the transfer. */
    method CopyMoveTo(sl: Loc, tl: Loc, target: Str, over: Str, isMove: bool) returns (resp: Response)
      requires Valid() && Place(cfg, target) == Some(tl)
      modifies fs
      ensures Valid()
      ensures Served(resp, fs.root) == CopyMoveAt(cfg, old(fs.root), sl, tl, over, isMove)
    {
      var ex := fs.FileExists(tl);
      if ex {
        if over == NoOverwrite {
          return Status(412);
        }
        var n := fs.Stat(tl);
        var _ := Rm(target, n.value);
      }
      resp := DoTransfer(sl, tl, target, isMove);
    }

    /** The rename or the copy once the destination is free. */
    method DoTransfer(sl: Loc, tl: Loc, target: Str, isMove: bool) returns (resp: Response)
      requires Valid() && Place(cfg, target) == Some(tl)
      modifies fs
      ensures Valid()
      ensures Served(resp, fs.root) == Transfer(cfg, old(fs.root), sl, tl, isMove)
    {
      if isMove {
        var ok := fs.Move(sl, tl);
        resp := Status(if ok then 201 else 500);
      } else {
        var src := fs.Stat(sl);
        if src.Some? {
          GetWellFormed(fs.root, sl.path);
        }
        Cp(src, target);
        resp := Status(201);
      }
    }

    /** `doHead`: 200 for an existing path, else 404. */
    method DoHead() returns (resp: Response)
      ensures resp == HandleHead(cfg, fs.root, Parsed())
    {
      var l := Place(cfg, fsPath);
      if l.None? {
        return OutsideRoot;
      }
      var ex := fs.FileExists(l.value);
      resp := Status(if ex then 200 else 404);
    }

    /** `doLock`: a token made from `uniqid()`, here `lockId`. */
    method DoLock(lockId: Str) returns (resp: Response)
      ensures resp == HandleLock(lockId)
    {
      resp := HandleLock(lockId);
    }

    method DoUnlock() returns (resp: Response)
      ensures resp == Status(204)
    {
      resp := Status(204);
    }
  }
}
