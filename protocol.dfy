/** The request handler's behaviour as functions of the request and of the tree under
    ROOT_DIR: path resolution, each verb's status and effect, and the dispatcher. */
module Protocol {
  import opened PhpStrings
  import opened UrlCoding
  import opened Config
  import opened Mime
  import opened FsTree
  import opened Posix
  import opened TreeOps
  import opened Listing

  /** What the handler reads from `$_SERVER` and the request body. `destinationPath`
      is the path component `parse_url` finds in the Destination header, and
      `lockId` what `uniqid()` returns. */
  datatype Request = Request(
    verb: Str, uri: Str, scriptName: Str,
    depth: Option<Str>, destination: Option<Str>, destinationPath: Str,
    overwrite: Option<Str>, body: Str, lockId: Str)

  type Header = (Str, Str)

  /** A PROPFIND `D:response`: its href, display name, and either the collection
      marker or the length and content type of a file. */
  datatype Kind = Collection | Resource(length: Str, contentType: Str)
  datatype Entry = Entry(href: Str, displayName: Str, kind: Kind)

  /** `Browser` is the HTML directory page, whose rendering is not modelled. */
  datatype Body = NoBody | Bytes(data: Str) | Browser | MultiStatus(entries: seq<Entry>) | LockDiscovery(token: Str)

  /** The status, headers and body sent; `OutsideRoot` stands for a request whose
      path resolves above ROOT_DIR, where the model's tree ends. */
  datatype Response = Response(status: int, headers: seq<Header>, body: Body) | OutsideRoot

  /** A response together with the tree it leaves behind. */
  datatype Served = Served(resp: Response, root: Node)

  function Status(code: int): Response {
    Response(code, [], NoBody)
  }

  const ContentType: Str := "Content-Type"
  const ContentLength: Str := "Content-Length"
  const XmlType: Header := (ContentType, "application/xml; charset=\"utf-8\"")

  // ---------------------------------------------------------------------------
  // parsePath
  // ---------------------------------------------------------------------------

  /** The three fields `parsePath` sets. */
  datatype Paths = Paths(baseUri: Str, reqPath: Str, fsPath: Str)

  /** `explode('?', $s)[0]`: everything before the first `?`. */
  function BeforeQuery(s: Str): (r: Str)
    ensures '?' !in r && StartsWith(s, r)
    ensures '?' !in s ==> r == s
    ensures |r| < |s| ==> s[|r|] == '?'
    decreases |s|
  {
    if s == [] || s[0] == '?' then [] else [s[0]] + BeforeQuery(s[1..])
  }

  /** The URL directory of the script: `dirname`, with a bare root made empty and
      backslashes turned into slashes. */
  function ScriptDir(scriptName: Str): Str {
    var d := Dirname(scriptName);
    if d == Slash || d == "\\" then [] else ReplaceAll(d, "\\", Slash)
  }

  /** The traversal strip: every `../`, then every `..\`, deleted in one pass each. */
  function Sanitize(p: Str): (r: Str)
    ensures |r| <= |p|
  {
    ReplaceAll(ReplaceAll(p, DotDotSlash, []), DotDotBackslash, [])
  }

  /** What follows the script's directory, and then the script's own name, in the URI. */
  function RelPath(u: Str, scriptDir: Str, scriptBase: Str): Str {
    var rel := if StartsWith(u, scriptDir) then u[|scriptDir|..] else Slash;
    if StartsWith(rel, scriptBase) then rel[|scriptBase|..] else rel
  }

  /** `parsePath`: the base URI for hrefs, the request path ("/" when nothing is
      left), and the filesystem path, which is STORAGE_PATH followed by the
      stripped request path. */
  function ParsePath(cfg: Config, uri: Str, scriptName: Str): (r: Paths)
    ensures r.reqPath != []
    ensures StartsWith(r.fsPath, StoragePath(cfg)) && r.fsPath[|StoragePath(cfg)|..] == Sanitize(r.reqPath)
  {
    var u := RawUrlDecode(BeforeQuery(uri));
    var scriptDir := ScriptDir(scriptName);
    var scriptBase := Slash + Basename(scriptName);
    var baseUri := scriptDir + (if StartsWith(u, scriptBase) then scriptBase else "");
    var rel := RelPath(u, scriptDir, scriptBase);
    var reqPath := if Falsy(rel) then Slash else rel;
    var fsPath := StoragePath(cfg) + Sanitize(reqPath);
    assert fsPath[|StoragePath(cfg)|..] == Sanitize(reqPath);
    Paths(baseUri, reqPath, fsPath)
  }

  // ---------------------------------------------------------------------------
  // The verbs
  // ---------------------------------------------------------------------------

  /** Where a path string lands under ROOT_DIR. */
  function Place(cfg: Config, s: Str): Option<Loc> {
    Locate(cfg.rootDir, s)
  }

  /** `doGet`: 404 for a missing path, the HTML browser for a directory, 404 for a
      file with a hidden name, otherwise the bytes with their type and length. */
  function HandleGet(cfg: Config, w: Node, p: Paths): (r: Response)
    ensures r.Response? ==> r.status == 200 || r.status == 404
    ensures Place(cfg, p.fsPath).Some? ==>
      (r == Status(404) <==>
         (Lookup(w, Place(cfg, p.fsPath).value).None? ||
          (Lookup(w, Place(cfg, p.fsPath).value).value.File? && IsHidden(Basename(p.fsPath), cfg.scriptFile))))
  {
    match Place(cfg, p.fsPath)
    case None => OutsideRoot
    case Some(l) =>
      match Lookup(w, l)
      case None => Status(404)
      case Some(Dir(_)) => Response(200, [], Browser)
      case Some(File(data)) =>
        if IsHidden(Basename(p.fsPath), cfg.scriptFile) then Status(404)
        else Response(200, [(ContentType, Mime.Mime(p.fsPath)), (ContentLength, Decimal(|data|))], Bytes(data))
  }

  /** `doPut`: 403 for a hidden name; otherwise the parent directory is created when
      missing and the body written, 201 when the file could be opened, else 500. */
  function HandlePut(cfg: Config, w: Node, p: Paths, body: Str): (r: Served)
    requires w.Dir?
    ensures r.resp == Status(403) <==> IsHidden(Basename(p.fsPath), cfg.scriptFile)
    ensures r.resp == Status(403) ==> r.root == w
    ensures r.resp.Response? ==> r.resp.status in {201, 403, 500}
  {
    if IsHidden(Basename(p.fsPath), cfg.scriptFile) then Served(Status(403), w)
    else match (Place(cfg, Dirname(p.fsPath)), Place(cfg, p.fsPath))
      case (Some(dl), Some(l)) =>
        var w1 := if IsDir(w, dl) then w else MkdirRecursive(w, dl).root;
        var o := WriteFile(w1, l, body);
        Served(Status(if o.ok then 201 else 500), o.root)
      case _ => Served(OutsideRoot, w)
  }

  /** The names of a `scandir` listing that are not hidden, in listing order. */
  function Visible(names: seq<Str>, sf: Str): (r: seq<Str>)
    ensures forall x :: x in r <==> x in names && !IsHidden(x, sf)
    decreases |names|
  {
    if names == [] then []
    else
      var last := names[|names| - 1];
      Visible(names[..|names| - 1], sf) + (if IsHidden(last, sf) then [] else [last])
  }

  /** `$this->fsPath . (substr($this->fsPath, -1) === '/' ? '' : '/') . $node` */
  function ChildPath(dir: Str, name: Str): Str {
    dir + (if dir != [] && dir[|dir| - 1] == '/' then [] else Slash) + name
  }

  /** The child path of each name, in order. */
  function ChildPaths(dir: Str, names: seq<Str>): (r: seq<Str>)
    ensures |r| == |names| && forall i :: 0 <= i < |names| ==> r[i] == ChildPath(dir, names[i])
  {
    seq(|names|, i requires 0 <= i < |names| => ChildPath(dir, names[i]))
  }

  /** The two entries `scandir` lists besides a directory's own. */
  const SelfRefs: set<Str> := {".", ".."}

  /** The scandir listing of a directory: its entries and the two self-references. */
  ghost function Scandir(ch: map<Str, Node>): seq<Str> {
    Listed(ch.Keys + SelfRefs)
  }

  /** The `$files` array of `doPropfind`. */
  ghost function PropfindFiles(cfg: Config, n: Node, fsPath: Str, depth: int): seq<Str> {
    match n
    case Dir(ch) =>
      [fsPath] + (if depth != 0 then ChildPaths(fsPath, Visible(Scandir(ch), cfg.scriptFile)) else [])
    case File(_) => if IsHidden(Basename(fsPath), cfg.scriptFile) then [] else [fsPath]
  }

  /** One `D:response` of PROPFIND. The href is the base URI and the encoded path
      below STORAGE_PATH; decoding what follows the base URI gives that path back.
      Only files carry a length and a content type. */
  function EntryFor(cfg: Config, w: Node, baseUri: Str, f: Str): (r: Entry)
    ensures StartsWith(r.href, baseUri)
    ensures |f| >= |StoragePath(cfg)| ==> RawUrlDecode(r.href[|baseUri|..]) == f[|StoragePath(cfg)|..]
    ensures r.displayName == HtmlSpecialChars(Basename(f))
    ensures r.kind.Collection? <==>
      Place(cfg, f).Some? && Lookup(w, Place(cfg, f).value).Some? && Lookup(w, Place(cfg, f).value).value.Dir?
  {
    var sp := StoragePath(cfg);
    var sub := if |f| >= |sp| then f[|sp|..] else [];
    var node := match Place(cfg, f) case None => None case Some(l) => Lookup(w, l);
    Entry(Href(baseUri, sub), HtmlSpecialChars(Basename(f)), KindOf(node, f))
  }

  /** One entry per path, in order. */
  function Describe(cfg: Config, w: Node, baseUri: Str, files: seq<Str>): (r: seq<Entry>)
    ensures |r| == |files| && forall i :: 0 <= i < |files| ==> r[i] == EntryFor(cfg, w, baseUri, files[i])
  {
    if files == [] then []
    else Describe(cfg, w, baseUri, files[..|files| - 1]) + [EntryFor(cfg, w, baseUri, files[|files| - 1])]
  }

  /** A directory is a collection; anything else gets the `%u` rendering of its size
      (0 when `stat` fails) and its content type. */
  function KindOf(node: Option<Node>, f: Str): (k: Kind)
    ensures k.Collection? <==> node.Some? && node.value.Dir?
  {
    match node
    case Some(Dir(_)) => Collection
    case Some(File(data)) => Resource(Decimal(|data|), Mime.Mime(f))
    case None => Resource("0", Mime.Mime(f))
  }

  /** The Depth header as `(int)` casts it, 1 when absent. */
  function Depth(h: Option<Str>): int {
    if h.Some? then IntCast(h.value) else 1
  }

  /** `doPropfind`: 404 for a missing path, else 207 with one entry per file of
      `PropfindFiles`. */
  ghost function HandlePropfind(cfg: Config, w: Node, p: Paths, depth: Option<Str>): (r: Response)
    ensures r.Response? ==> r.status in {207, 404}
    ensures Place(cfg, p.fsPath).Some? ==> (r == Status(404) <==> Lookup(w, Place(cfg, p.fsPath).value).None?)
  {
    match Place(cfg, p.fsPath)
    case None => OutsideRoot
    case Some(l) =>
      match Lookup(w, l)
      case None => Status(404)
      case Some(n) =>
        var files := PropfindFiles(cfg, n, p.fsPath, Depth(depth));
        Response(207, [XmlType], MultiStatus(Describe(cfg, w, p.baseUri, files)))
  }

  /** `doDelete`: 404 for a missing path, 403 when the path string is STORAGE_PATH
      itself, else recursive removal and 204. */
  function HandleDelete(cfg: Config, w: Node, p: Paths): (r: Served)
    requires w.Dir?
    ensures r.resp.Response? ==> r.resp.status in {204, 403, 404}
    ensures r.resp != Status(204) ==> r.root == w
  {
    match Place(cfg, p.fsPath)
    case None => Served(OutsideRoot, w)
    case Some(l) =>
      if !Exists(w, l) then Served(Status(404), w)
      else if p.fsPath == StoragePath(cfg) then Served(Status(403), w)
      else Served(Status(204), RmAt(w, l, cfg.scriptFile))
  }

  /** `doMkcol`: 405 when the path exists, else recursive `mkdir`, 201 or 409. */
  function HandleMkcol(cfg: Config, w: Node, p: Paths): (r: Served)
    ensures r.resp.Response? ==> r.resp.status in {201, 405, 409}
    ensures r.resp != Status(201) ==> r.root == w
  {
    match Place(cfg, p.fsPath)
    case None => Served(OutsideRoot, w)
    case Some(l) =>
      if Exists(w, l) then Served(Status(405), w)
      else
        var o := MkdirRecursive(w, l);
        Served(Status(if o.ok then 201 else 409), o.root)
  }

  /** The destination path below STORAGE_PATH: the base URI is cut off when the path
      starts with it (unless the base URI is "/"), otherwise "/SCRIPT_NAME" is. */
  function DestinationRel(dPath: Str, baseUri: Str, scriptName: Str): Str {
    if baseUri != Slash && StartsWith(dPath, baseUri) then dPath[|baseUri|..]
    else if baseUri == Slash && StartsWith(dPath, Slash) then dPath
    else
      var sn := Slash + Basename(scriptName);
      if StartsWith(dPath, sn) then dPath[|sn|..] else dPath
  }

  /** `$target`: STORAGE_PATH followed by the decoded destination path below it. */
  function CopyTarget(cfg: Config, p: Paths, req: Request): (r: Str)
    ensures StartsWith(r, StoragePath(cfg))
  {
    StoragePath(cfg) + DestinationRel(RawUrlDecode(req.destinationPath), p.baseUri, req.scriptName)
  }

  /** The Overwrite header's value when absent, and the value that forbids overwriting. */
  const OverwriteDefault: Str := "T"
  const NoOverwrite: Str := "F"

  /** `doCopyMove`: 400 without a Destination, 403 for a hidden destination name,
      412 when the destination exists and Overwrite is `F`; otherwise an existing
      destination is removed first, then MOVE renames (201 or 500) and COPY copies
      what the source holds at that moment (always 201). */
  function HandleCopyMove(cfg: Config, w: Node, p: Paths, req: Request, isMove: bool): (r: Served)
    requires w.Dir?
    ensures r.resp.Response? ==> r.resp.status in {201, 400, 403, 412, 500}
    ensures r.resp.Response? && r.resp.status in {400, 403, 412} ==> r.root == w
  {
    var dest := if req.destination.Some? then req.destination.value else [];
    if Falsy(dest) then Served(Status(400), w)
    else
      var target := CopyTarget(cfg, p, req);
      if IsHidden(Basename(target), cfg.scriptFile) then Served(Status(403), w)
      else match (Place(cfg, target), Place(cfg, p.fsPath))
        case (Some(tl), Some(sl)) =>
          var over := if req.overwrite.Some? then req.overwrite.value else OverwriteDefault;
          CopyMoveAt(cfg, w, sl, tl, over, isMove)
        case _ => Served(OutsideRoot, w)
  }

  /** `doCopyMove` once both paths are known: 412 when the destination exists and
      Overwrite is `F`; otherwise an existing destination is removed with `rm` and
      the source renamed or copied there. */
  function CopyMoveAt(cfg: Config, w: Node, sl: Loc, tl: Loc, over: Str, isMove: bool): Served
    requires w.Dir?
  {
    if Exists(w, tl) && over == NoOverwrite then Served(Status(412), w)
    else
      var w1 := if Exists(w, tl) then RmAt(w, tl, cfg.scriptFile) else w;
      Transfer(cfg, w1, sl, tl, isMove)
  }

  /** The last step of `doCopyMove`, once the destination is free: MOVE renames
      (201, or 500 when `rename` fails) and COPY copies what the source holds (201). */
  function Transfer(cfg: Config, w: Node, sl: Loc, tl: Loc, isMove: bool): Served
    requires w.Dir?
  {
    if isMove then
      var o := Rename(w, sl, tl);
      Served(Status(if o.ok then 201 else 500), o.root)
    else Served(Status(201), CpAt(w, Lookup(w, sl), tl, cfg.scriptFile))
  }

  /** `doHead`: 200 when the path exists, else 404 (no hidden-name check). */
  function HandleHead(cfg: Config, w: Node, p: Paths): (r: Response)
    ensures r.Response? ==> r.status in {200, 404}
    ensures Place(cfg, p.fsPath).Some? ==> (r == Status(200) <==> Exists(w, Place(cfg, p.fsPath).value))
  {
    match Place(cfg, p.fsPath)
    case None => OutsideRoot
    case Some(l) => Status(if Exists(w, l) then 200 else 404)
  }

  const AllowedVerbs: Str :=
    "OPTIONS, " + "GET, " + "HEAD, " + "DELETE, " + "PROPFIND, " + "PUT, " + "MKCOL, " + "COPY, " + "MOVE, " + "LOCK, " + "UNLOCK"

  /** `doOptions`: the DAV compliance classes and the allowed verbs. */
  function HandleOptions(): Response {
    Response(200, [("DAV", "1, 2"), ("Allow", AllowedVerbs), ("MS-Author-Via", "DAV")], NoBody)
  }

  /** `doLock`: a fresh lock token, announced in a header and in the body. */
  function HandleLock(lockId: Str): Response {
    var t := "urn:uuid:" + lockId;
    Response(200, [XmlType, ("Lock-Token", "<" + t + ">")], LockDiscovery(t))
  }

  /** The verbs `serve` dispatches; any other gets 405. */
  const Verbs: set<Str> := {"GET", "PUT", "PROPFIND", "OPTIONS", "DELETE", "MKCOL", "COPY", "MOVE", "HEAD", "LOCK", "UNLOCK"}

  /** A request as the script handles it: the constructor's `parsePath`, then `serve`. */
  /** `serve`: one handler per verb, 405 for any other. */
  ghost function Serve(cfg: Config, w: Node, p: Paths, req: Request): (r: Served)
    requires w.Dir?
    ensures r.resp.Response? ==> r.resp.status in {200, 201, 204, 207, 400, 403, 404, 405, 409, 412, 500}
  {
    match req.verb
    case "GET" => Served(HandleGet(cfg, w, p), w)
    case "PUT" => HandlePut(cfg, w, p, req.body)
    case "PROPFIND" => Served(HandlePropfind(cfg, w, p, req.depth), w)
    case "OPTIONS" => Served(HandleOptions(), w)
    case "DELETE" => HandleDelete(cfg, w, p)
    case "MKCOL" => HandleMkcol(cfg, w, p)
    case "COPY" => HandleCopyMove(cfg, w, p, req, false)
    case "MOVE" => HandleCopyMove(cfg, w, p, req, true)
    case "HEAD" => Served(HandleHead(cfg, w, p), w)
    case "LOCK" => Served(HandleLock(req.lockId), w)
    case "UNLOCK" => Served(Status(204), w)
    case _ => Served(Status(405), w)
  }
}
