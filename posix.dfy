/** The filesystem calls the handler makes, as functions of the tree they act on
    (`file_exists`, `is_dir`, `mkdir`, `rmdir`, `unlink`, writing a file, `copy`,
    `rename`), and the mutable filesystem object that performs them. Each call
    fails without changing anything when the underlying system call would. */
module Posix {
  import opened PhpStrings
  import opened FsTree

  /** Whether a call succeeded, and the tree afterwards. */
  datatype Outcome = Outcome(ok: bool, root: Node)

  /** What a path string names: a spelling that demands a directory (trailing
      slash) does not name a file. */
  function Lookup(w: Node, l: Loc): (r: Option<Node>)
    ensures r.Some? ==> Get(w, l.path) == r
    ensures r.Some? && l.dirOnly ==> r.value.Dir?
  {
    match Get(w, l.path)
    case None => None
    case Some(n) => if l.dirOnly && n.File? then None else Some(n)
  }

  /** `file_exists` */
  predicate Exists(w: Node, l: Loc) {
    Lookup(w, l).Some?
  }

  /** `is_dir` */
  predicate IsDir(w: Node, l: Loc) {
    Lookup(w, l).Some? && Lookup(w, l).value.Dir?
  }

  /** `mkdir($p)`: creates one empty directory; fails when the name is taken or its
      parent is not a directory. */
  function Mkdir(w: Node, l: Loc): (o: Outcome)
    ensures o.ok <==> Get(w, l.path).None? && ParentIsDir(w, l.path)
    ensures !o.ok ==> o.root == w
  {
    if Get(w, l.path).None? && ParentIsDir(w, l.path) then Outcome(true, Update(w, l.path, Some(Dir(map[]))))
    else Outcome(false, w)
  }

  /** The tree with every missing directory along `p` created; None when a file
      stands in the way. */
  function MakeDirs(n: Node, p: Path): Option<Node>
    decreases |p|
  {
    if p == [] then (if n.Dir? then Some(n) else None)
    else match n
      case File(_) => None
      case Dir(ch) =>
        match MakeDirs(if p[0] in ch then ch[p[0]] else Dir(map[]), p[1..])
        case None => None
        case Some(s) => Some(Dir(ch[p[0] := s]))
  }

  /** `mkdir($p, 0755, true)`: creates the directory and its missing ancestors; fails
      when the name is taken or a file stands on the way. */
  function MkdirRecursive(w: Node, l: Loc): (o: Outcome)
    ensures Get(w, l.path).Some? ==> !o.ok
    ensures !o.ok ==> o.root == w
    ensures o.ok ==> Get(o.root, l.path) == Some(Dir(map[]))
  {
    if Get(w, l.path).Some? then Outcome(false, w)
    else match MakeDirs(w, l.path)
      case None => Outcome(false, w)
      case Some(r) =>
        MakeDirsEmpty(w, l.path);
        Outcome(true, r)
  }

  /** `rmdir($p)`: removes an empty directory other than ROOT_DIR. */
  function Rmdir(w: Node, l: Loc): (o: Outcome)
    ensures o.ok <==> l.path != [] && Get(w, l.path) == Some(Dir(map[]))
    ensures !o.ok ==> o.root == w
  {
    if l.path != [] && Get(w, l.path) == Some(Dir(map[])) then
      ReplaceIsUpdate(w, l.path, Dir(map[]));
      Outcome(true, Update(w, l.path, None))
    else Outcome(false, w)
  }

  /** `unlink($p)`: removes a file. */
  function Unlink(w: Node, l: Loc): (o: Outcome)
    ensures o.ok <==> l.path != [] && Lookup(w, l).Some? && Lookup(w, l).value.File?
    ensures !o.ok ==> o.root == w
  {
    if l.path != [] && Lookup(w, l).Some? && Lookup(w, l).value.File? then
      ReplaceIsUpdate(w, l.path, Lookup(w, l).value);
      Outcome(true, Update(w, l.path, None))
    else Outcome(false, w)
  }

  /** `fopen($p, 'wb')` followed by writing `data`: creates or truncates a file;
      fails on a directory, a spelling that demands one, or a missing parent. */
  function WriteFile(w: Node, l: Loc, data: Str): (o: Outcome)
    ensures o.ok <==> ParentIsDir(w, l.path) && !l.dirOnly && (Get(w, l.path).None? || Get(w, l.path).value.File?)
    ensures !o.ok ==> o.root == w
  {
    if ParentIsDir(w, l.path) && !l.dirOnly && (Get(w, l.path).None? || Get(w, l.path).value.File?) then
      Outcome(true, Update(w, l.path, Some(File(data))))
    else Outcome(false, w)
  }

  /** Whether `rename` may put `x` in place of what is at `d`. */
  predicate CanReplace(x: Node, y: Option<Node>) {
    y.None? || (x.File? && y.value.File?) || (x.Dir? && y.value == Dir(map[]))
  }

  /** `rename($s, $d)`: moves an entry. Renaming onto itself changes nothing; a
      directory cannot move into itself; an existing target is replaced only by an
      entry of the same kind, and a directory only when it is empty. */
  function Rename(w: Node, s: Loc, d: Loc): (o: Outcome)
    requires w.Dir?
    ensures Lookup(w, s).None? || s.path == [] || d.path == [] ==> !o.ok
    ensures o.ok <==>
      Lookup(w, s).Some? && s.path != [] && d.path != [] && !(d.dirOnly && Lookup(w, s).value.File?) &&
      (s.path == d.path || (!IsPrefix(s.path, d.path) && ParentIsDir(w, d.path) && CanReplace(Lookup(w, s).value, Get(w, d.path))))
    ensures !o.ok ==> o.root == w
  {
    match Lookup(w, s)
    case None => Outcome(false, w)
    case Some(x) =>
      if s.path == [] || d.path == [] || (d.dirOnly && x.File?) then Outcome(false, w)
      else if s.path == d.path then Outcome(true, w)
      else if IsPrefix(s.path, d.path) || !ParentIsDir(w, d.path) || !CanReplace(x, Get(w, d.path)) then Outcome(false, w)
      else
        RemovedParent(w, s.path, d.path);
        Outcome(true, Update(Update(w, s.path, None), d.path, Some(x)))
  }

  /** Removing `s` leaves the parent of `d` a directory, unless `d` lies inside `s`. */
  lemma RemovedParent(w: Node, s: Path, d: Path)
    requires s != [] && Get(w, s).Some? && ParentIsDir(w, d) && !IsPrefix(s, d)
    ensures ParentIsDir(w, s) && ParentIsDir(Update(w, s, None), d)
  {
    ReplaceIsUpdate(w, s, Get(w, s).value);
    var q := d[..|d| - 1];
    if IsPrefix(q, s) && q != s {
      GetUpdateAbove(w, s, None, q);
    } else {
      GetUpdateApart(w, s, None, q);
    }
  }

  /** The outcome of `rename` when it succeeds: the source is gone and the target
      holds what the source held. */
  lemma RenameMoves(w: Node, s: Loc, d: Loc)
    requires w.Dir? && Rename(w, s, d).ok && s.path != d.path
    ensures Get(Rename(w, s, d).root, d.path) == Lookup(w, s)
    ensures Get(Rename(w, s, d).root, s.path).None?
  {
    var x := Lookup(w, s).value;
    RemovedParent(w, s.path, d.path);
    var w1 := Update(w, s.path, None);
    GetUpdateAt(w1, d.path, Some(x), d.path);
    assert d.path[|d.path|..] == [];
    GetUpdateAt(w, s.path, None, s.path);
    assert !IsPrefix(d.path, s.path) by {
      if IsPrefix(d.path, s.path) {
        // The target would be a non-empty directory holding the source.
        assert s.path == d.path + s.path[|d.path|..];
        GetAncestor(w, d.path, s.path[|d.path|..]);
      }
    }
    GetUpdateApart(w1, d.path, Some(x), s.path);
  }

  /** The filesystem under ROOT_DIR, changed in place by the calls the handler makes. */
  class FileSystem {
    var root: Node

    ghost predicate Valid()
      reads this
    {
      root.Dir? && WellFormed(root)
    }

    constructor (initial: Node)
      requires initial.Dir? && WellFormed(initial)
      ensures Valid() && root == initial
    {
      root := initial;
    }

    method FileExists(l: Loc) returns (b: bool)
      ensures b == Exists(root, l)
    {
      b := Lookup(root, l).Some?;
    }

    method IsDirectory(l: Loc) returns (b: bool)
      ensures b == IsDir(root, l)
    {
      b := IsDir(root, l);
    }

    /** `stat`, as far as the handler looks at it: the entry a path names. */
    method Stat(l: Loc) returns (r: Option<Node>)
      ensures r == Lookup(root, l)
    {
      r := Lookup(root, l);
    }

    method MakeDirectory(l: Loc) returns (ok: bool)
      requires Valid() && forall j :: 0 <= j < |l.path| ==> ValidName(l.path[j])
      modifies this
      ensures Valid()
      ensures ok == Mkdir(old(root), l).ok && root == Mkdir(old(root), l).root
    {
      var o := Mkdir(root, l);
      if o.ok {
        UpdateWellFormed(root, l.path, Some(Dir(map[])));
      }
      ok, root := o.ok, o.root;
    }

    method MakeDirectories(l: Loc) returns (ok: bool)
      requires Valid() && forall j :: 0 <= j < |l.path| ==> ValidName(l.path[j])
      modifies this
      ensures Valid()
      ensures ok == MkdirRecursive(old(root), l).ok && root == MkdirRecursive(old(root), l).root
    {
      var o := MkdirRecursive(root, l);
      if o.ok {
        MakeDirsWellFormed(root, l.path);
      }
      ok, root := o.ok, o.root;
    }

    method RemoveDirectory(l: Loc) returns (ok: bool)
      requires Valid()
      modifies this
      ensures Valid()
      ensures ok == Rmdir(old(root), l).ok && root == Rmdir(old(root), l).root
    {
      var o := Rmdir(root, l);
      if o.ok {
        ReplaceIsUpdate(root, l.path, Dir(map[]));
        GetWellFormed(root, l.path);
        UpdateWellFormed(root, l.path, None);
      }
      ok, root := o.ok, o.root;
    }

    method RemoveFile(l: Loc) returns (ok: bool)
      requires Valid()
      modifies this
      ensures Valid()
      ensures ok == Unlink(old(root), l).ok && root == Unlink(old(root), l).root
    {
      var o := Unlink(root, l);
      if o.ok {
        ReplaceIsUpdate(root, l.path, Lookup(root, l).value);
        GetWellFormed(root, l.path);
        UpdateWellFormed(root, l.path, None);
      }
      ok, root := o.ok, o.root;
    }

    method Write(l: Loc, data: Str) returns (ok: bool)
      requires Valid() && forall j :: 0 <= j < |l.path| ==> ValidName(l.path[j])
      modifies this
      ensures Valid()
      ensures ok == WriteFile(old(root), l, data).ok && root == WriteFile(old(root), l, data).root
    {
      var o := WriteFile(root, l, data);
      if o.ok {
        UpdateWellFormed(root, l.path, Some(File(data)));
      }
      ok, root := o.ok, o.root;
    }

    method Move(s: Loc, d: Loc) returns (ok: bool)
      requires Valid() && forall j :: 0 <= j < |d.path| ==> ValidName(d.path[j])
      modifies this
      ensures Valid()
      ensures ok == Rename(old(root), s, d).ok && root == Rename(old(root), s, d).root
    {
      var o := Rename(root, s, d);
      if o.ok && s.path != d.path {
        var x := Lookup(root, s).value;
        RemovedParent(root, s.path, d.path);
        GetWellFormed(root, s.path);
        UpdateWellFormed(root, s.path, None);
        UpdateWellFormed(Update(root, s.path, None), d.path, Some(x));
      }
      ok, root := o.ok, o.root;
    }
  }

  lemma {:induction false} MakeDirsWellFormed(n: Node, p: Path)
    requires WellFormed(n) && MakeDirs(n, p).Some?
    requires forall j :: 0 <= j < |p| ==> ValidName(p[j])
    ensures WellFormed(MakeDirs(n, p).value) && MakeDirs(n, p).value.Dir?
    decreases |p|
  {
    if p != [] {
      var ch := n.children;
      MakeDirsWellFormed(if p[0] in ch then ch[p[0]] else Dir(map[]), p[1..]);
    }
  }

  /** Recursive `mkdir` fails exactly when a file stands somewhere on the way
      (the target itself included). */
  lemma {:induction false} MakeDirsFails(n: Node, p: Path)
    ensures MakeDirs(n, p).None? <==> exists i :: 0 <= i <= |p| && Get(n, p[..i]).Some? && Get(n, p[..i]).value.File?
    decreases |p|
  {
    if p == [] {
      assert forall i :: 0 <= i <= |p| ==> p[..i] == [];
    } else if n.File? {
      assert p[..0] == [];
    } else {
      var ch := n.children;
      var sub := if p[0] in ch then ch[p[0]] else Dir(map[]);
      MakeDirsFails(sub, p[1..]);
      forall i | 1 <= i <= |p|
        ensures Get(n, p[..i]) == (if p[0] in ch then Get(sub, p[1..][..i - 1]) else None)
      {
        assert p[..i][1..] == p[1..][..i - 1];
      }
      if p[0] !in ch {
        assert forall i :: 0 <= i <= |p[1..]| ==> Get(sub, p[1..][..i]).Some? ==> Get(sub, p[1..][..i]).value.Dir?;
        assert p[..0] == [];
      } else {
        if MakeDirs(sub, p[1..]).None? {
          var i :| 0 <= i <= |p[1..]| && Get(sub, p[1..][..i]).Some? && Get(sub, p[1..][..i]).value.File?;
          assert Get(n, p[..i + 1]) == Get(sub, p[1..][..i]);
        }
        if exists i :: 0 <= i <= |p| && Get(n, p[..i]).Some? && Get(n, p[..i]).value.File? {
          var i :| 0 <= i <= |p| && Get(n, p[..i]).Some? && Get(n, p[..i]).value.File?;
          assert p[..0] == [];
          assert i >= 1;
          assert Get(sub, p[1..][..i - 1]).Some? && Get(sub, p[1..][..i - 1]).value.File?;
        }
      }
    }
  }

  /** A successful recursive `mkdir` leaves a directory at the target. */
  lemma {:induction false} MakeDirsMakes(n: Node, p: Path)
    requires MakeDirs(n, p).Some?
    ensures Get(MakeDirs(n, p).value, p).Some? && Get(MakeDirs(n, p).value, p).value.Dir?
    decreases |p|
  {
    if p != [] {
      var ch := n.children;
      MakeDirsMakes(if p[0] in ch then ch[p[0]] else Dir(map[]), p[1..]);
    }
  }

  /** Recursive `mkdir` touches only the directories along its path: every position
      that is not the target or one of its ancestors keeps what it held. */
  lemma {:induction false} MakeDirsFrame(n: Node, p: Path, q: Path)
    requires MakeDirs(n, p).Some? && !IsPrefix(q, p)
    ensures Get(MakeDirs(n, p).value, q) == Get(n, q)
    decreases |p|
  {
    if p != [] {
      var ch := n.children;
      var sub := if p[0] in ch then ch[p[0]] else Dir(map[]);
      assert q != [];
      if q[0] == p[0] {
        assert !IsPrefix(q[1..], p[1..]);
        assert q[1..] != [];
        MakeDirsFrame(sub, p[1..], q[1..]);
      }
    }
  }

  /** A directory that recursive `mkdir` creates where nothing was is empty. */
  lemma {:induction false} MakeDirsEmpty(n: Node, p: Path)
    requires MakeDirs(n, p).Some? && Get(n, p).None?
    ensures Get(MakeDirs(n, p).value, p) == Some(Dir(map[]))
    decreases |p|
  {
    var ch := n.children;
    var sub := if p[0] in ch then ch[p[0]] else Dir(map[]);
    if p[0] in ch || p[1..] != [] {
      MakeDirsEmpty(sub, p[1..]);
    }
  }

  /** `mkdir($p, 0755, true)` leaves everything but the target and its ancestors alone. */
  lemma MkdirRecursiveFrame(w: Node, l: Loc, q: Path)
    requires !IsPrefix(q, l.path)
    ensures Get(MkdirRecursive(w, l).root, q) == Get(w, q)
  {
    if MkdirRecursive(w, l).ok {
      MakeDirsFrame(w, l.path, q);
    }
  }

  /** Writing a file changes nothing but the file itself: its ancestors already were
      directories, and nothing lay below it. */
  lemma WriteFileFrame(w: Node, l: Loc, data: Str, q: Path)
    requires WriteFile(w, l, data).ok && !IsPrefix(q, l.path)
    ensures Get(WriteFile(w, l, data).root, q) == Get(w, q)
  {
    if IsPrefix(l.path, q) {
      var r := q[|l.path|..];
      assert q == l.path + r && r != [];
      GetUpdateAt(w, l.path, Some(File(data)), q);
      if Get(w, q).Some? {
        GetAncestor(w, l.path, r);
      }
    } else {
      GetUpdateApart(w, l.path, Some(File(data)), q);
    }
  }
}
