/** What the handler's recursive `rm` and `cp` do to the tree. Both skip the hidden
    names: `rm` leaves hidden entries (and the directories holding them) in place,
    and `cp` neither reads nor writes them. */
module TreeOps {
  import opened PhpStrings
  import opened Config
  import opened FsTree
  import opened Posix

  // ---------------------------------------------------------------------------
  // rm
  // ---------------------------------------------------------------------------

  /** What recursive removal leaves of an entry: None when everything went, else the
      directory still holding hidden entries (its `rmdir` fails). */
  function RmNode(n: Node, sf: Str): Option<Node>
    decreases n, 1
  {
    match n
    case File(_) => None
    case Dir(_) =>
      var rest := RmRest(n, sf);
      if rest == map[] then None else Some(Dir(rest))
  }

  /** The entries of a directory after its non-hidden children were removed. */
  function RmRest(n: Node, sf: Str): map<Str, Node>
    requires n.Dir?
    decreases n, 0
  {
    map k | k in n.children && (IsHidden(k, sf) || RmNode(n.children[k], sf).Some?) ::
      if IsHidden(k, sf) then n.children[k] else RmNode(n.children[k], sf).value
  }

  /** No hidden name anywhere at or below this entry. */
  ghost predicate NoHiddenBelow(n: Node, sf: Str) {
    match n
    case File(_) => true
    case Dir(ch) => forall k :: k in ch ==> !IsHidden(k, sf) && NoHiddenBelow(ch[k], sf)
  }

  /** `rm($p)` on the tree: a file is unlinked; a directory loses its non-hidden
      children recursively and is then removed with `rmdir`, which fails if
      anything hidden remains; a missing path is left alone. */
  function RmAt(w: Node, l: Loc, sf: Str): (r: Node)
    requires w.Dir?
    ensures Lookup(w, l).None? ==> r == w
    ensures l.path == [] ==> r == Dir(RmRest(w, sf))
    ensures l.path != [] && Lookup(w, l).Some? && Lookup(w, l).value.File? ==> Get(r, l.path).None?
  {
    match Lookup(w, l)
    case None => w
    case Some(File(_)) =>
      if l.path != [] then
        ParentOfEntry(w, l.path);
        GetUpdateAt(w, l.path, None, l.path);
        Unlink(w, l).root
      else Unlink(w, l).root
    case Some(Dir(_)) => Rmdir(Replace(w, l.path, Dir(RmRest(Lookup(w, l).value, sf))), l).root
  }

  /** Removal takes an entry away entirely exactly when nothing hidden lies below it. */
  lemma {:induction false} RmRemovesAll(n: Node, sf: Str)
    ensures RmNode(n, sf).None? <==> NoHiddenBelow(n, sf)
    decreases n
  {
    if n.Dir? {
      var ch := n.children;
      forall k | k in ch
        ensures RmNode(ch[k], sf).None? <==> NoHiddenBelow(ch[k], sf)
      {
        RmRemovesAll(ch[k], sf);
      }
      if RmRest(n, sf) == map[] {
        forall k | k in ch
          ensures !IsHidden(k, sf) && NoHiddenBelow(ch[k], sf)
        {
          assert k !in RmRest(n, sf);
        }
      } else {
        var k :| k in RmRest(n, sf);
        assert IsHidden(k, sf) || !NoHiddenBelow(ch[k], sf);
      }
    }
  }

  /** Every hidden entry, at any depth, survives removal unchanged. */
  lemma {:induction false} RmKeepsHidden(n: Node, q: Path, sf: Str)
    requires q != [] && Get(n, q).Some? && IsHidden(q[|q| - 1], sf)
    ensures RmNode(n, sf).Some? && Get(RmNode(n, sf).value, q) == Get(n, q)
    decreases |q|
  {
    var ch := n.children;
    var k := q[0];
    if IsHidden(k, sf) {
      assert k in RmRest(n, sf);
    } else {
      RmKeepsHidden(ch[k], q[1..], sf);
      assert k in RmRest(n, sf);
    }
  }

  /** Every file left after removal sits under a hidden name. */
  lemma {:induction false} RmLeavesOnlyHidden(n: Node, q: Path, sf: Str)
    requires RmNode(n, sf).Some? && Get(RmNode(n, sf).value, q).Some? && Get(RmNode(n, sf).value, q).value.File?
    ensures exists j :: 0 <= j < |q| && IsHidden(q[j], sf)
    decreases |q|
  {
    var r := RmNode(n, sf).value;
    assert q != [];
    var k := q[0];
    if !IsHidden(k, sf) {
      RmLeavesOnlyHidden(n.children[k], q[1..], sf);
      var j :| 0 <= j < |q[1..]| && IsHidden(q[1..][j], sf);
      assert IsHidden(q[j + 1], sf);
    } else {
      assert IsHidden(q[0], sf);
    }
  }

  /** `rm` at an existing entry other than ROOT_DIR puts there what removal leaves. */
  lemma RmAtEntry(w: Node, l: Loc, sf: Str)
    requires w.Dir? && l.path != [] && Lookup(w, l).Some?
    ensures ParentIsDir(w, l.path)
    ensures RmAt(w, l, sf) == Update(w, l.path, RmNode(Lookup(w, l).value, sf))
  {
    var x := Lookup(w, l).value;
    ReplaceIsUpdate(w, l.path, x);
    if x.Dir? {
      var rest := RmRest(x, sf);
      var w1 := Replace(w, l.path, Dir(rest));
      GetReplaceAt(w, l.path, Dir(rest), []);
      assert l.path + [] == l.path;
      UpdateAfterReplace(w, l.path, Dir(rest), None);
      ReplaceIsUpdate(w, l.path, Dir(rest));
    }
  }

  // ---------------------------------------------------------------------------
  // cp
  // ---------------------------------------------------------------------------

  /** The entry with every hidden name removed at every level. */
  function Filtered(n: Node, sf: Str): (r: Node)
    ensures NoHiddenBelow(r, sf)
    decreases n
  {
    match n
    case File(_) => n
    case Dir(ch) => Dir(map k | k in ch && !IsHidden(k, sf) :: Filtered(ch[k], sf))
  }

  /** What recursive copying of `src` makes of the entry `dst` it lands on. A file
      overwrites a file or fills an empty name, but not a directory; a directory
      merges into a directory or an empty name, and leaves a file alone. */
  function CopyOnto(src: Node, dst: Option<Node>, sf: Str): (r: Node)
    ensures dst.Some? && dst.value.Dir? ==> r.Dir? && dst.value.children.Keys <= r.children.Keys
    ensures dst.Some? && dst.value.Dir? && src.File? ==> r == dst.value
    ensures dst.Some? && dst.value.File? && src.Dir? ==> r == dst.value
    decreases src, 1
  {
    match src
    case File(_) => if dst.Some? && dst.value.Dir? then dst.value else src
    case Dir(_) =>
      match dst
      case None => Dir(CopyEntries(src, map[], sf))
      case Some(File(_)) => dst.value
      case Some(Dir(dch)) => Dir(CopyEntries(src, dch, sf))
  }

  /** A directory's entries after the non-hidden children of `src` were copied in. */
  function CopyEntries(src: Node, dch: map<Str, Node>, sf: Str): (r: map<Str, Node>)
    requires src.Dir?
    ensures dch.Keys <= r.Keys
    decreases src, 0
  {
    map k | k in dch.Keys + (set j | j in src.children && !IsHidden(j, sf)) ::
      if k in src.children && !IsHidden(k, sf) then CopyOnto(src.children[k], if k in dch then Some(dch[k]) else None, sf)
      else dch[k]
  }

  /** `cp($s, $d)` on the tree, given what `$s` held: a file is copied with `copy`; a
      directory gets `mkdir($d)` and then each non-hidden child is copied into `$d`,
      which succeeds only where `$d` is now a directory. A missing source changes
      nothing. */
  function CpAt(w: Node, src: Option<Node>, d: Loc, sf: Str): (r: Node)
    requires w.Dir?
    ensures src.None? ==> r == w
    ensures d.path != [] && !ParentIsDir(w, d.path) ==> r == w
  {
    match src
    case None => w
    case Some(File(data)) => WriteFile(w, d, data).root
    case Some(Dir(_)) =>
      if d.path != [] && !ParentIsDir(w, d.path) then NoEntryWithoutParent(w, d.path); w
      else CopyInto(Mkdir(w, d).root, d.path, src.value, sf)
  }

  /** The loop of `cp` over a directory `src`: its non-hidden children are copied
      into the entry at `q` where that is a directory; elsewhere nothing changes. */
  function CopyInto(w: Node, q: Path, src: Node, sf: Str): Node
    requires src.Dir?
  {
    match Get(w, q)
    case Some(Dir(dch)) => Replace(w, q, Dir(CopyEntries(src, dch, sf)))
    case _ => w
  }

  /** Copying onto a name with nothing there creates the source without its hidden entries. */
  lemma {:induction false} CopyFresh(n: Node, sf: Str)
    ensures CopyOnto(n, None, sf) == Filtered(n, sf)
    decreases n
  {
    if n.Dir? {
      var ch := n.children;
      forall k | k in ch && !IsHidden(k, sf)
        ensures CopyOnto(ch[k], None, sf) == Filtered(ch[k], sf)
      {
        CopyFresh(ch[k], sf);
      }
      assert CopyEntries(n, map[], sf) == map k | k in ch && !IsHidden(k, sf) :: Filtered(ch[k], sf);
    }
  }

  /** A copy can always be removed again entirely: it holds nothing hidden. */
  lemma CopyRemovable(n: Node, sf: Str)
    ensures RmNode(CopyOnto(n, None, sf), sf).None?
  {
    CopyFresh(n, sf);
    RmRemovesAll(Filtered(n, sf), sf);
  }

  /** Copying never alters what the target held under a hidden name. */
  lemma {:induction false} CopyKeepsHidden(src: Node, dst: Node, q: Path, sf: Str)
    requires q != [] && Get(dst, q).Some? && IsHidden(q[|q| - 1], sf)
    ensures Get(CopyOnto(src, Some(dst), sf), q) == Get(dst, q)
    decreases |q|
  {
    var k := q[0];
    if src.Dir? && dst.Dir? && k in src.children && !IsHidden(k, sf) {
      CopyKeepsHidden(src.children[k], dst.children[k], q[1..], sf);
    }
  }

  /** `cp` onto a name whose parent is a directory puts there what `CopyOnto` makes. */
  lemma CpAtEntry(w: Node, x: Node, q: Path, sf: Str)
    requires w.Dir? && ParentIsDir(w, q)
    ensures CpAt(w, Some(x), Loc(q, false), sf) == Update(w, q, Some(CopyOnto(x, Get(w, q), sf)))
  {
    var d := Loc(q, false);
    match Get(w, q)
    case None =>
      if x.Dir? {
        ReplaceAfterUpdate(w, q, Dir(map[]), Dir(CopyEntries(x, map[], sf)));
      }
    case Some(y) =>
      UpdateSame(w, q, y);
      if x.Dir? && y.Dir? {
        ReplaceIsUpdate(w, q, Dir(CopyEntries(x, y.children, sf)));
      }
  }

  /** COPY of an entry onto a free name whose parent is a directory creates the
      entry there, hidden names excluded. */
  lemma CpAtFresh(w: Node, x: Node, q: Path, sf: Str)
    requires w.Dir? && ParentIsDir(w, q) && Get(w, q).None?
    ensures Get(CpAt(w, Some(x), Loc(q, false), sf), q) == Some(Filtered(x, sf))
  {
    CpAtEntry(w, x, q, sf);
    CopyFresh(x, sf);
    GetUpdateAt(w, q, Some(CopyOnto(x, None, sf)), q);
    assert q[|q|..] == [];
  }

  /** `cp` changes no entry that is neither above nor below the destination. */
  lemma CpAtFrame(w: Node, x: Node, q: Path, sf: Str, q': Path)
    requires w.Dir? && ParentIsDir(w, q) && !IsPrefix(q', q) && !IsPrefix(q, q')
    ensures Get(CpAt(w, Some(x), Loc(q, false), sf), q') == Get(w, q')
  {
    CpAtEntry(w, x, q, sf);
    GetUpdateApart(w, q, Some(CopyOnto(x, Get(w, q), sf)), q');
  }
}
