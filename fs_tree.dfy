/** The filesystem as the handler sees it: a tree of directories and files rooted at
    ROOT_DIR, addressed by sequences of names, and the lexical resolution of PHP's
    path strings to such sequences. */
module FsTree {
  import opened PhpStrings

  datatype Option<T> = None | Some(value: T)

  datatype Node = File(data: Str) | Dir(children: map<Str, Node>)

  /** A position in the tree: the names from ROOT_DIR down. */
  type Path = seq<Str>

  /** A name a directory can hold: one non-empty segment, not a self-reference. */
  predicate ValidName(n: Str) {
    n != [] && '/' !in n && n != "." && n != ".."
  }

  ghost predicate WellFormed(n: Node) {
    match n
    case File(_) => true
    case Dir(ch) => forall k :: k in ch ==> ValidName(k) && WellFormed(ch[k])
  }

  function Get(n: Node, p: Path): Option<Node>
    decreases |p|
  {
    if p == [] then Some(n)
    else match n
      case File(_) => None
      case Dir(ch) => if p[0] in ch then Get(ch[p[0]], p[1..]) else None
  }

  predicate IsPrefix(p: Path, q: Path) {
    |p| <= |q| && q[..|p|] == p
  }

  /** `p` names an entry whose parent is an existing directory. */
  predicate ParentIsDir(n: Node, p: Path) {
    p != [] && Get(n, p[..|p| - 1]).Some? && Get(n, p[..|p| - 1]).value.Dir?
  }

  /** A directory's entries with `k` set to `o`, or removed when `o` is None. */
  function Put(ch: map<Str, Node>, k: Str, o: Option<Node>): (r: map<Str, Node>)
    ensures o.Some? ==> k in r && r[k] == o.value
    ensures o.None? ==> k !in r
    ensures forall j :: j != k ==> (j in r <==> j in ch)
    ensures forall j :: j != k && j in ch ==> r[j] == ch[j]
  {
    if o.Some? then ch[k := o.value] else ch - {k}
  }

  lemma ParentStep(n: Node, p: Path)
    requires ParentIsDir(n, p) && |p| > 1
    ensures n.Dir? && p[0] in n.children && ParentIsDir(n.children[p[0]], p[1..])
  {
    assert p[..|p| - 1][1..] == p[1..][..|p| - 2];
  }

  /** The tree with the entry at `p` set to `o` (None removes it). */
  function Update(n: Node, p: Path, o: Option<Node>): (r: Node)
    requires ParentIsDir(n, p)
    ensures r.Dir?
    decreases |p|
  {
    if |p| == 1 then Dir(Put(n.children, p[0], o))
    else
      ParentStep(n, p);
      Dir(n.children[p[0] := Update(n.children[p[0]], p[1..], o)])
  }

  /** The tree with the existing subtree at `p` replaced by `x`. */
  function Replace(n: Node, p: Path, x: Node): Node
    requires Get(n, p).Some?
    decreases |p|
  {
    if p == [] then x else Dir(n.children[p[0] := Replace(n.children[p[0]], p[1..], x)])
  }

  lemma {:induction false} GetUpdateAt(n: Node, p: Path, o: Option<Node>, q: Path)
    requires ParentIsDir(n, p) && IsPrefix(p, q)
    ensures Get(Update(n, p, o), q) == if o.Some? then Get(o.value, q[|p|..]) else None
    decreases |p|
  {
    if |p| > 1 {
      ParentStep(n, p);
      GetUpdateAt(n.children[p[0]], p[1..], o, q[1..]);
      assert q[1..][|p| - 1..] == q[|p|..];
    }
  }

  lemma {:induction false} GetUpdateApart(n: Node, p: Path, o: Option<Node>, q: Path)
    requires ParentIsDir(n, p) && !IsPrefix(p, q) && !IsPrefix(q, p)
    ensures Get(Update(n, p, o), q) == Get(n, q)
    decreases |p|
  {
    assert q[..1] == [q[0]] && p[..1] == [p[0]];
    if q[0] == p[0] && |p| > 1 && |q| > 1 {
      ParentStep(n, p);
      GetUpdateApart(n.children[p[0]], p[1..], o, q[1..]);
    }
  }

  lemma {:induction false} GetUpdateAbove(n: Node, p: Path, o: Option<Node>, q: Path)
    requires ParentIsDir(n, p) && IsPrefix(q, p) && q != p
    ensures Get(Update(n, p, o), q).Some? && Get(Update(n, p, o), q).value.Dir?
    decreases |p|
  {
    if q != [] {
      ParentStep(n, p);
      GetUpdateAbove(n.children[p[0]], p[1..], o, q[1..]);
    }
  }

  lemma {:induction false} GetReplaceAt(n: Node, p: Path, x: Node, r: Path)
    requires Get(n, p).Some?
    ensures Get(Replace(n, p, x), p + r) == Get(x, r)
    decreases |p|
  {
    if p != [] {
      GetReplaceAt(n.children[p[0]], p[1..], x, r);
      assert (p + r)[1..] == p[1..] + r;
    } else {
      assert p + r == r;
    }
  }

  /** Setting a child of a replaced directory is the same as replacing it with a
      directory whose entries already have the child set. */
  lemma {:induction false} UpdateUnderReplace(n: Node, p: Path, ch: map<Str, Node>, k: Str, o: Option<Node>)
    requires Get(n, p).Some?
    ensures Get(Replace(n, p, Dir(ch)), p) == Some(Dir(ch))
    ensures ParentIsDir(Replace(n, p, Dir(ch)), p + [k])
    ensures Update(Replace(n, p, Dir(ch)), p + [k], o) == Replace(n, p, Dir(Put(ch, k, o)))
    decreases |p|
  {
    GetReplaceAt(n, p, Dir(ch), []);
    assert p + [] == p;
    assert (p + [k])[..|p|] == p;
    if p != [] {
      UpdateUnderReplace(n.children[p[0]], p[1..], ch, k, o);
      assert (p + [k])[1..] == p[1..] + [k];
    }
  }

  lemma {:induction false} ReplaceSame(n: Node, p: Path)
    requires Get(n, p).Some?
    ensures Replace(n, p, Get(n, p).value) == n
    decreases |p|
  {
    if p != [] {
      ReplaceSame(n.children[p[0]], p[1..]);
    }
  }

  lemma {:induction false} ReplaceIsUpdate(n: Node, p: Path, x: Node)
    requires Get(n, p).Some? && p != []
    ensures ParentIsDir(n, p) && Replace(n, p, x) == Update(n, p, Some(x))
    decreases |p|
  {
    assert p[..|p| - 1] == [] ==> Get(n, p[..|p| - 1]) == Some(n);
    if |p| > 1 {
      assert p[..|p| - 1][1..] == p[1..][..|p| - 2];
      ReplaceIsUpdate(n.children[p[0]], p[1..], x);
    }
  }

  /** Writing back what is already there changes nothing. */
  lemma UpdateSame(n: Node, p: Path, x: Node)
    requires p != [] && Get(n, p) == Some(x)
    ensures ParentIsDir(n, p) && Update(n, p, Some(x)) == n
  {
    ReplaceIsUpdate(n, p, x);
    ReplaceSame(n, p);
  }

  /** An update at `p` forgets an earlier replacement at `p`. */
  lemma {:induction false} UpdateAfterReplace(n: Node, p: Path, x: Node, o: Option<Node>)
    requires p != [] && Get(n, p).Some?
    ensures ParentIsDir(n, p) && ParentIsDir(Replace(n, p, x), p)
    ensures Update(Replace(n, p, x), p, o) == Update(n, p, o)
    decreases |p|
  {
    ReplaceIsUpdate(n, p, x);
    GetUpdateAbove(n, p, Some(x), p[..|p| - 1]);
    if |p| > 1 {
      ParentStep(n, p);
      UpdateAfterReplace(n.children[p[0]], p[1..], x, o);
    }
  }

  /** A replacement at `p` overrides an earlier update at `p`. */
  lemma ReplaceAfterUpdate(n: Node, p: Path, a: Node, b: Node)
    requires ParentIsDir(n, p)
    ensures Get(Update(n, p, Some(a)), p) == Some(a)
    ensures Replace(Update(n, p, Some(a)), p, b) == Update(n, p, Some(b))
  {
    GetUpdateAt(n, p, Some(a), p);
    assert p[|p|..] == [];
    ReplaceIsUpdate(Update(n, p, Some(a)), p, b);
    UpdateTwice(n, p, Some(a), Some(b));
  }

  lemma {:induction false} UpdateTwice(n: Node, p: Path, a: Option<Node>, b: Option<Node>)
    requires ParentIsDir(n, p)
    ensures ParentIsDir(Update(n, p, a), p)
    ensures Update(Update(n, p, a), p, b) == Update(n, p, b)
    decreases |p|
  {
    if |p| > 1 {
      GetUpdateAbove(n, p, a, p[..|p| - 1]);
      ParentStep(n, p);
      UpdateTwice(n.children[p[0]], p[1..], a, b);
    }
  }

  /** Nothing lies below a file or a missing entry. */
  /** An entry's parent is a directory. */
  lemma ParentOfEntry(n: Node, p: Path)
    requires p != [] && Get(n, p).Some?
    ensures ParentIsDir(n, p)
  {
    assert p == p[..|p| - 1] + [p[|p| - 1]];
    GetAncestor(n, p[..|p| - 1], [p[|p| - 1]]);
  }

  /** Where the parent is not a directory there is no entry. */
  lemma NoEntryWithoutParent(n: Node, p: Path)
    requires p != [] && !ParentIsDir(n, p)
    ensures Get(n, p).None?
  {
    GetBelowNonDir(n, p[..|p| - 1], p[|p| - 1]);
    assert p == p[..|p| - 1] + [p[|p| - 1]];
  }

  lemma {:induction false} GetBelowNonDir(n: Node, p: Path, k: Str)
    requires !(Get(n, p).Some? && Get(n, p).value.Dir?)
    ensures Get(n, p + [k]).None?
    decreases |p|
  {
    if p != [] && n.Dir? && p[0] in n.children {
      GetBelowNonDir(n.children[p[0]], p[1..], k);
      assert (p + [k])[1..] == p[1..] + [k];
    }
  }

  /** The entry `k` below `p` is what a directory at `p` holds under `k`, if anything. */
  lemma {:induction false} GetSnoc(n: Node, p: Path, k: Str)
    ensures Get(n, p + [k]) ==
      if Get(n, p).Some? && Get(n, p).value.Dir? && k in Get(n, p).value.children
      then Some(Get(n, p).value.children[k]) else None
    decreases |p|
  {
    if p == [] {
      assert p + [k] == [k];
    } else {
      assert (p + [k])[0] == p[0] && (p + [k])[1..] == p[1..] + [k];
      if n.Dir? && p[0] in n.children {
        GetSnoc(n.children[p[0]], p[1..], k);
      }
    }
  }

  /** Whatever lies below `p` lies in a directory at `p`. */
  lemma {:induction false} GetAncestor(n: Node, p: Path, r: Path)
    requires r != [] && Get(n, p + r).Some?
    ensures Get(n, p).Some? && Get(n, p).value.Dir? && r[0] in Get(n, p).value.children
    decreases |p|
  {
    if p == [] {
      assert p + r == r;
    } else {
      assert (p + r)[0] == p[0] && (p + r)[1..] == p[1..] + r;
      GetAncestor(n.children[p[0]], p[1..], r);
    }
  }

  lemma {:induction false} UpdateWellFormed(n: Node, p: Path, o: Option<Node>)
    requires ParentIsDir(n, p) && WellFormed(n)
    requires ValidName(p[|p| - 1])
    requires o.Some? ==> WellFormed(o.value)
    ensures WellFormed(Update(n, p, o))
    decreases |p|
  {
    if |p| > 1 {
      ParentStep(n, p);
      UpdateWellFormed(n.children[p[0]], p[1..], o);
    }
  }

  lemma {:induction false} ReplaceWellFormed(n: Node, p: Path, x: Node)
    requires Get(n, p).Some? && WellFormed(n) && WellFormed(x)
    ensures WellFormed(Replace(n, p, x))
    decreases |p|
  {
    if p != [] {
      ReplaceWellFormed(n.children[p[0]], p[1..], x);
    }
  }

  lemma {:induction false} GetWellFormed(n: Node, p: Path)
    requires WellFormed(n) && Get(n, p).Some?
    ensures WellFormed(Get(n, p).value)
    ensures forall j :: 0 <= j < |p| ==> ValidName(p[j])
    decreases |p|
  {
    if p != [] {
      GetWellFormed(n.children[p[0]], p[1..]);
      assert forall j :: 1 <= j < |p| ==> p[j] == p[1..][j - 1];
    }
  }

  // ---------------------------------------------------------------------------
  // From PHP path strings to tree positions
  // ---------------------------------------------------------------------------

  /** A resolved path string: where it lands, and whether its spelling (a trailing
      slash, `.` or `..`) only admits a directory there. */
  datatype Loc = Loc(path: Path, dirOnly: bool)

  /** The segments between slashes (`explode('/', $s)`). */
  function Split(s: Str): (r: seq<Str>)
    ensures |r| >= 1
    ensures forall j :: 0 <= j < |r| ==> '/' !in r[j]
    decreases |s|
  {
    if s == [] then [[]] else Cons(s[0], Split(s[1..]))
  }

  /** The segments of a string with one byte more in front of the segments `t`: a
      slash starts a new empty segment, any other byte joins the first one. */
  function Cons(c: Byte, t: seq<Str>): (r: seq<Str>)
    requires |t| >= 1
    ensures |r| >= 1
    ensures (forall j :: 0 <= j < |t| ==> '/' !in t[j]) ==> forall j :: 0 <= j < |r| ==> '/' !in r[j]
  {
    if c == '/' then [[]] + t else [[c] + t[0]] + t[1..]
  }

  /** Putting a byte in front commutes with appending further segments. */
  lemma ConsAppend(c: Byte, ta: seq<Str>, tb: seq<Str>)
    requires |ta| >= 1
    ensures Cons(c, ta + tb) == Cons(c, ta) + tb
  {
    if c != '/' {
      assert (ta + tb)[1..] == ta[1..] + tb;
    }
  }

  lemma {:induction false} SplitJoin(a: Str, b: Str)
    ensures Split(a + Slash + b) == Split(a) + Split(b)
    decreases |a|
  {
    if a == [] {
      assert (Slash + b)[1..] == b;
    } else {
      var s := a + Slash + b;
      assert s[0] == a[0] && s[1..] == a[1..] + Slash + b;
      SplitJoin(a[1..], b);
      ConsAppend(a[0], Split(a[1..]), Split(b));
    }
  }

  lemma SplitSegment(b: Str)
    requires '/' !in b
    ensures Split(b) == [b]
    decreases |b|
  {
    if b != [] {
      SplitSegment(b[1..]);
      assert [b[0]] + b[1..] == b;
    }
  }

  /** Walks segments from `acc` the way the kernel would if every component were a
      directory: empty segments and `.` stay, `..` goes up, and going up from
      ROOT_DIR leaves the modelled tree (None). */
  function Walk(acc: Path, segs: seq<Str>): Option<Path>
    decreases |segs|
  {
    if segs == [] then Some(acc)
    else if segs[0] == [] || segs[0] == "." then Walk(acc, segs[1..])
    else if segs[0] == ".." then (if acc == [] then None else Walk(acc[..|acc| - 1], segs[1..]))
    else Walk(acc + [segs[0]], segs[1..])
  }

  lemma {:induction false} WalkAppend(acc: Path, s1: seq<Str>, s2: seq<Str>)
    ensures Walk(acc, s1 + s2) == match Walk(acc, s1) case None => None case Some(m) => Walk(m, s2)
    decreases |s1|
  {
    if s1 == [] {
      assert s1 + s2 == s2;
    } else {
      assert (s1 + s2)[0] == s1[0] && (s1 + s2)[1..] == s1[1..] + s2;
      if s1[0] == [] || s1[0] == "." {
        WalkAppend(acc, s1[1..], s2);
      } else if s1[0] == ".." {
        if acc != [] {
          WalkAppend(acc[..|acc| - 1], s1[1..], s2);
        }
      } else {
        WalkAppend(acc + [s1[0]], s1[1..], s2);
      }
    }
  }

  lemma {:induction false} WalkValid(acc: Path, segs: seq<Str>)
    requires forall j :: 0 <= j < |acc| ==> ValidName(acc[j])
    requires forall j :: 0 <= j < |segs| ==> '/' !in segs[j]
    ensures Walk(acc, segs).Some? ==> forall j :: 0 <= j < |Walk(acc, segs).value| ==> ValidName(Walk(acc, segs).value[j])
    decreases |segs|
  {
    if segs != [] {
      if segs[0] == [] || segs[0] == "." {
        WalkValid(acc, segs[1..]);
      } else if segs[0] == ".." {
        if acc != [] {
          WalkValid(acc[..|acc| - 1], segs[1..]);
        }
      } else {
        WalkValid(acc + [segs[0]], segs[1..]);
      }
    }
  }

  /** Resolves what follows ROOT_DIR in a path string. */
  function Resolve(rel: Str): Option<Loc> {
    var segs := Split(rel);
    var last := segs[|segs| - 1];
    match Walk([], segs)
    case None => None
    case Some(p) => Some(Loc(p, rel != [] && (last == [] || last == "." || last == "..")))
  }

  /** Where a PHP path string lands in the tree rooted at `rootDir`; None when it
      does not lie under `rootDir` or climbs above it. */
  function Locate(rootDir: Str, s: Str): (r: Option<Loc>)
    ensures r.Some? ==> forall j :: 0 <= j < |r.value.path| ==> ValidName(r.value.path[j])
  {
    if StartsWith(s, rootDir) && (|s| == |rootDir| || s[|rootDir|] == '/') then
      WalkValid([], Split(s[|rootDir|..]));
      Resolve(s[|rootDir|..])
    else None
  }

  /** Appending a slash and one segment to a path below ROOT_DIR walks one step
      from where the path lands. */
  lemma LocateStep(rootDir: Str, s: Str, seg: Str)
    requires Locate(rootDir, s).Some? && '/' !in seg
    ensures Locate(rootDir, s + Slash + seg) ==
      match Walk(Locate(rootDir, s).value.path, [seg])
      case None => None
      case Some(q) => Some(Loc(q, seg == [] || seg == "." || seg == ".."))
  {
    var rel := s[|rootDir|..];
    var t := s + Slash + seg;
    assert StartsWith(t, rootDir) by { assert t[..|rootDir|] == s[..|rootDir|]; }
    assert t[|rootDir|..] == rel + Slash + seg;
    SplitJoin(rel, seg);
    SplitSegment(seg);
    WalkAppend([], Split(rel), [seg]);
    assert Walk([], Split(rel)) == Some(Locate(rootDir, s).value.path);
    if |s| == |rootDir| {
      assert t[|rootDir|] == '/';
    } else {
      assert t[|rootDir|] == s[|rootDir|];
    }
  }

  /** `$p . '/' . $name` lands on the child `name` of wherever `$p` lands: the
      recursive copy and removal may therefore walk the tree by names. */
  lemma LocateChild(rootDir: Str, s: Str, name: Str)
    requires Locate(rootDir, s).Some? && ValidName(name)
    ensures Locate(rootDir, s + Slash + name) == Some(Loc(Locate(rootDir, s).value.path + [name], false))
  {
    LocateStep(rootDir, s, name);
    var p := Locate(rootDir, s).value.path;
    assert Walk(p, [name]) == Walk(p + [name], []);
  }

  /** A trailing slash changes where a path lands only by demanding a directory. */
  lemma LocateTrailingSlash(rootDir: Str, s: Str)
    requires Locate(rootDir, s).Some? && s[|rootDir|..] != []
    ensures Locate(rootDir, s + Slash) == Some(Loc(Locate(rootDir, s).value.path, true))
  {
    var rel := s[|rootDir|..];
    var t := s + Slash;
    assert t == s + Slash + [];
    assert StartsWith(t, rootDir) by { assert t[..|rootDir|] == s[..|rootDir|]; }
    assert t[|rootDir|..] == rel + Slash + [];
    SplitJoin(rel, []);
    assert Split([]) == [[]];
    WalkAppend([], Split(rel), [[]]);
    var p := Locate(rootDir, s).value.path;
    assert Walk([], Split(rel)) == Some(p);
    assert Walk(p, [[]]) == Some(p);
    assert t[|rootDir|] == s[|rootDir|];
  }

  /** ROOT_DIR itself lands on the root of the tree. */
  lemma LocateRoot(rootDir: Str)
    ensures Locate(rootDir, rootDir) == Some(Loc([], false))
  {
    assert rootDir[..|rootDir|] == rootDir;
    assert rootDir[|rootDir|..] == [];
    assert Split([]) == [[]];
    assert Walk([], [[]]) == Walk([], []);
  }

  /** A trailing slash on a path below ROOT_DIR changes nothing about where it lands
      but the demand for a directory. */
  lemma LocateSlashed(rootDir: Str, s: Str)
    requires StartsWith(s, rootDir) && (|s| == |rootDir| || s[|rootDir|] == '/')
    ensures Locate(rootDir, s + Slash).Some? <==> Locate(rootDir, s).Some?
    ensures Locate(rootDir, s).Some? ==> Locate(rootDir, s + Slash).value.path == Locate(rootDir, s).value.path
  {
    var rel := s[|rootDir|..];
    var t := s + Slash;
    assert t == s + Slash + [];
    assert StartsWith(t, rootDir) by { assert t[..|rootDir|] == s[..|rootDir|]; }
    assert t[|rootDir|..] == rel + Slash + [];
    SplitJoin(rel, []);
    assert Split([]) == [[]];
    WalkAppend([], Split(rel), [[]]);
    if Walk([], Split(rel)).Some? {
      assert Walk(Walk([], Split(rel)).value, [[]]) == Walk([], Split(rel));
    }
    if |s| == |rootDir| {
      assert t[|rootDir|] == '/';
    } else {
      assert t[|rootDir|] == s[|rootDir|];
    }
  }

  /** The entry `k` of a directory at `p` is at `p + [k]`. */
  lemma GetChild(n: Node, p: Path, k: Str)
    requires Get(n, p).Some? && Get(n, p).value.Dir? && k in Get(n, p).value.children
    ensures Get(n, p + [k]) == Some(Get(n, p).value.children[k])
  {
    GetReplaceAt(n, p, Get(n, p).value, [k]);
    ReplaceSame(n, p);
  }
}
