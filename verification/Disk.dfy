/** A link-free disk: one tree of folders and files, changed by operations that may fail. */
module Disks {
  import opened Common

  /** The components below the root; the empty path is the root itself. */
  type Path = seq<string>

  datatype Node = Dir | File(content: Bytes)

  type Tree = map<Path, Node>

  predicate IsDir(t: Tree, p: Path) {
    p in t && t[p].Dir?
  }

  predicate IsFile(t: Tree, p: Path) {
    p in t && t[p].File?
  }

  function Parent(p: Path): Path
    requires p != []
  {
    p[..|p| - 1]
  }

  ghost predicate WellFormed(t: Tree) {
    IsDir(t, []) && forall q :: q in t && q != [] ==> IsDir(t, Parent(q))
  }

  /** What can be at a path: a folder by itself, or one file. */
  ghost predicate IsFolder(sub: Tree) {
    [] in sub && forall rel :: rel in sub && rel != [] ==> IsDir(sub, Parent(rel))
  }

  // ----- Subtrees -----

  function Below(t: Tree, p: Path): (rels: set<Path>)
    ensures forall rel :: rel in rels <==> p + rel in t
  {
    assert forall q :: q in t && p <= q ==> q == p + q[|p|..];
    assert forall rel :: p <= p + rel && (p + rel)[|p|..] == rel;
    set q | q in t && p <= q :: q[|p|..]
  }

  /** What is at `p` and below it, by relative path. */
  function Subtree(t: Tree, p: Path): Tree {
    map rel | rel in Below(t, p) :: t[p + rel]
  }

  function Outside(t: Tree, p: Path): Tree {
    map q | q in t && !(p <= q) :: t[q]
  }

  /** `sub` at `p`, and everything else as it is in `t`. */
  function Place(t: Tree, p: Path, sub: Tree): Tree {
    var placed := set rel | rel in sub :: p + rel;
    map q | q in Outside(t, p).Keys + placed :: if p <= q then sub[q[|p|..]] else t[q]
  }

  lemma SubtreeAt(t: Tree, p: Path, rel: Path)
    ensures rel in Subtree(t, p) <==> p + rel in t
    ensures p + rel in t ==> Subtree(t, p)[rel] == t[p + rel]
  {
  }

  lemma PutInside(t: Tree, p: Path, rel: Path, node: Node)
    ensures Outside(t[p + rel := node], p) == Outside(t, p)
    ensures Subtree(t[p + rel := node], p) == Subtree(t, p)[rel := node]
  {
    var after := t[p + rel := node];
    forall r ensures r in Subtree(after, p) <==> r in Subtree(t, p)[rel := node]
      ensures r in Subtree(after, p) ==> Subtree(after, p)[r] == Subtree(t, p)[rel := node][r]
    {
      SubtreeAt(after, p, r);
      SubtreeAt(t, p, r);
      assert p + r == p + rel <==> r == rel by {
        assert (p + r)[|p|..] == r && (p + rel)[|p|..] == rel;
      }
    }
  }

  lemma RemoveInside(t: Tree, p: Path, rel: Path)
    ensures Outside(t - {p + rel}, p) == Outside(t, p)
    ensures Subtree(t - {p + rel}, p) == Subtree(t, p) - {rel}
  {
    var after := t - {p + rel};
    forall r ensures r in Subtree(after, p) <==> r in Subtree(t, p) - {rel}
      ensures r in Subtree(after, p) ==> Subtree(after, p)[r] == (Subtree(t, p) - {rel})[r]
    {
      SubtreeAt(after, p, r);
      SubtreeAt(t, p, r);
      assert p + r == p + rel <==> r == rel by {
        assert (p + r)[|p|..] == r && (p + rel)[|p|..] == rel;
      }
    }
  }

  lemma InPlace(t: Tree, p: Path, sub: Tree, rel: Path)
    ensures p + rel in Place(t, p, sub) <==> rel in sub
    ensures rel in sub ==> Place(t, p, sub)[p + rel] == sub[rel]
  {
    assert (p + rel)[|p|..] == rel;
    assert forall s :: s in sub && p + s == p + rel ==> (p + s)[|p|..] == s;
  }

  lemma PlacedAt(t: Tree, p: Path, sub: Tree)
    ensures Subtree(Place(t, p, sub), p) == sub
    ensures Outside(Place(t, p, sub), p) == Outside(t, p)
  {
    var after := Place(t, p, sub);
    forall r ensures r in Subtree(after, p) <==> r in sub
      ensures r in sub ==> Subtree(after, p)[r] == sub[r]
    {
      SubtreeAt(after, p, r);
      InPlace(t, p, sub, r);
    }
  }

  /** Nothing lies below a path that does not exist. */
  lemma {:induction false} NothingBelow(t: Tree, p: Path, q: Path)
    requires WellFormed(t) && p !in t && p <= q
    ensures q !in t
    decreases |q|
  {
    if q != p {
      NothingBelow(t, p, Parent(q));
    }
  }

  lemma MissingIsEmpty(t: Tree, p: Path)
    requires WellFormed(t) && p !in t
    ensures Outside(t, p) == t && Subtree(t, p) == map[]
  {
    forall q | q in t ensures !(p <= q) {
      if p <= q {
        NothingBelow(t, p, q);
      }
    }
  }

  /** Neither path is inside the other. */
  predicate Apart(p: Path, q: Path) {
    !(p <= q) && !(q <= p)
  }

  lemma PrefixesOfConcat(p: Path, q: Path, r: Path)
    ensures p <= q + r ==> p <= q || q <= p
  {
  }

  /** A subtree apart from `p` does not depend on what is in `p`. */
  lemma SubtreeApart(t: Tree, p: Path, q: Path)
    requires Apart(p, q)
    ensures Subtree(t, q) == Subtree(Outside(t, p), q)
  {
    forall r ensures r in Subtree(t, q) <==> r in Subtree(Outside(t, p), q)
      ensures r in Subtree(t, q) ==> Subtree(t, q)[r] == Subtree(Outside(t, p), q)[r]
    {
      SubtreeAt(t, q, r);
      SubtreeAt(Outside(t, p), q, r);
      PrefixesOfConcat(p, q, r);
    }
  }

  // ----- Operations -----

  datatype IoError = AlreadyExists | OtherError

  predicate CanCreate(t: Tree, p: Path) {
    p != [] && p !in t && IsDir(t, Parent(p))
  }

  predicate CanWrite(t: Tree, p: Path) {
    p != [] && IsDir(t, Parent(p)) && (p in t ==> t[p].File?)
  }

  predicate CanRename(t: Tree, from: Path, to: Path) {
    && from != [] && to != [] && from in t && IsDir(t, Parent(to))
    && (from == to || (to !in t && !(from <= to)))
  }

  /** `after` is `before` with some file at `p`. */
  predicate Writes(after: Tree, before: Tree, p: Path) {
    IsFile(after, p) && after == before[p := after[p]]
  }

  lemma WritesTwice(after: Tree, middle: Tree, before: Tree, p: Path)
    requires Writes(after, middle, p) && Writes(middle, before, p)
    ensures Writes(after, before, p)
  {
  }

  function Renamed(t: Tree, from: Path, to: Path): Tree {
    Place(Outside(t, from), to, Subtree(t, from))
  }

  lemma WriteKeepsForm(t: Tree, p: Path, content: Bytes)
    requires WellFormed(t) && CanWrite(t, p)
    ensures WellFormed(t[p := File(content)])
  {
  }

  lemma OutsideKeepsForm(t: Tree, p: Path)
    requires WellFormed(t) && p != []
    ensures WellFormed(Outside(t, p))
  {
    forall q | q in Outside(t, p) && q != [] ensures IsDir(Outside(t, p), Parent(q)) {
      assert p <= Parent(q) ==> p <= q;
    }
  }

  lemma PlaceKeepsForm(t: Tree, p: Path, sub: Tree)
    requires WellFormed(t) && p != [] && IsDir(t, Parent(p))
    requires IsFolder(sub)
    ensures WellFormed(Place(t, p, sub))
  {
    var after := Place(t, p, sub);
    forall q | q in after && q != [] ensures IsDir(after, Parent(q)) {
      if p <= q && p != q {
        var rel := q[|p|..];
        assert Parent(q) == p + Parent(rel) && Parent(q)[|p|..] == Parent(rel);
      } else {
        assert !(p <= Parent(q));
      }
    }
  }

  lemma SubtreeForm(t: Tree, p: Path)
    requires WellFormed(t) && p in t
    ensures IsFolder(Subtree(t, p))
  {
    hide Subtree, Below;
    SubtreeAt(t, p, []);
    assert p + [] == p;
    forall rel | rel in Subtree(t, p) && rel != [] ensures IsDir(Subtree(t, p), Parent(rel)) {
      SubtreeAt(t, p, rel);
      SubtreeAt(t, p, Parent(rel));
      assert Parent(p + rel) == p + Parent(rel);
    }
  }

  lemma RenameKeepsForm(t: Tree, from: Path, to: Path)
    requires WellFormed(t) && CanRename(t, from, to)
    ensures WellFormed(Renamed(t, from, to))
  {
    OutsideKeepsForm(t, from);
    SubtreeForm(t, from);
    assert from <= Parent(to) ==> from <= to;
    PlaceKeepsForm(Outside(t, from), to, Subtree(t, from));
  }

  // ----- Removing a folder entry by entry -----

  /** Nothing lies below. */
  predicate IsLeaf(t: Tree, p: Path) {
    forall q :: q in t && p <= q ==> q == p
  }

  /** An order in which entries at and below `p` can go: each after everything that lies below it. */
  ghost predicate Clears(t: Tree, p: Path, order: seq<Path>) {
    && Distinct(order)
    && (forall i :: 0 <= i < |order| ==> p <= order[i] && order[i] in t)
    && forall i, q :: 0 <= i < |order| && q in t && order[i] <= q && q != order[i] ==> q in order[..i]
  }

  /** What is left after those entries are gone. */
  ghost function Cleared(t: Tree, order: seq<Path>): Tree {
    map q | q in t && q !in order :: t[q]
  }

  lemma NothingCleared(t: Tree, p: Path)
    ensures Clears(t, p, []) && Cleared(t, []) == t
  {
  }

  lemma ClearedOnTheWay(t: Tree, p: Path, order: seq<Path>, n: nat)
    requires Clears(t, p, order) && n <= |order|
    ensures Clears(t, p, order[..n])
  {
    assert forall i :: 0 <= i < n ==> order[..n][..i] == order[..i];
  }

  lemma ClearedKeepsForm(t: Tree, p: Path, order: seq<Path>)
    requires WellFormed(t) && p != [] && Clears(t, p, order)
    ensures WellFormed(Cleared(t, order))
  {
    hide Clears;
    RootStays(t, p, order);
    forall i, q | 0 <= i < |order| && q in t && q != [] && order[i] == Parent(q) ensures q in order {
      FolderGoesLast(t, p, order, i, q);
    }
  }

  lemma RootStays(t: Tree, p: Path, order: seq<Path>)
    requires p != [] && Clears(t, p, order)
    ensures [] !in order
  {
  }

  lemma FolderGoesLast(t: Tree, p: Path, order: seq<Path>, i: nat, q: Path)
    requires Clears(t, p, order) && i < |order| && q in t && q != [] && order[i] == Parent(q)
    ensures q in order
  {
    assert order[i] <= q && q != order[i];
  }

  lemma LeafCleared(t: Tree, p: Path, order: seq<Path>, leaf: Path)
    requires WellFormed(Cleared(t, order)) && Clears(t, p, order) && p != []
    requires leaf in Cleared(t, order) && p <= leaf && IsLeaf(Cleared(t, order), leaf)
    ensures Clears(t, p, order + [leaf])
    ensures Cleared(t, order + [leaf]) == Cleared(t, order) - {leaf}
    ensures WellFormed(Cleared(t, order) - {leaf}) && |Cleared(t, order) - {leaf}| < |Cleared(t, order)|
  {
    hide Clears, WellFormed;
    assert leaf != [];
    LeafClears(t, p, order, leaf);
    LeafKeepsForm(Cleared(t, order), leaf);
  }

  lemma LeafClears(t: Tree, p: Path, order: seq<Path>, leaf: Path)
    requires Clears(t, p, order)
    requires leaf in Cleared(t, order) && p <= leaf && IsLeaf(Cleared(t, order), leaf)
    ensures Clears(t, p, order + [leaf])
  {
    var after := order + [leaf];
    forall i, q | 0 <= i < |after| && q in t && after[i] <= q && q != after[i]
      ensures q in after[..i]
    {
      assert after[..i] == order[..i];
      if i == |order| {
        assert q !in Cleared(t, order) && order[..i] == order;
      } else {
        assert order[i] <= q && q != order[i];
      }
    }
  }

  lemma LeafKeepsForm(t: Tree, leaf: Path)
    requires WellFormed(t) && leaf in t && leaf != [] && IsLeaf(t, leaf)
    ensures WellFormed(t - {leaf}) && |t - {leaf}| < |t|
  {
    forall q | q in t && q != leaf && q != [] ensures Parent(q) != leaf {
      assert Parent(q) <= q;
    }
    assert (t - {leaf}).Keys == t.Keys - {leaf};
  }

  lemma AllCleared(t: Tree, p: Path, order: seq<Path>)
    requires Clears(t, p, order) && WellFormed(Cleared(t, order)) && p !in Cleared(t, order)
    ensures Cleared(t, order) == Outside(t, p)
  {
    forall q | q in Cleared(t, order) ensures !(p <= q) {
      if p <= q {
        NothingBelow(Cleared(t, order), p, q);
      }
    }
  }

  lemma {:induction false} Smaller(xs: set<Path>, ys: set<Path>)
    requires xs <= ys
    ensures |xs| <= |ys|
  {
    if x :| x in xs {
      Smaller(xs - {x}, ys - {x});
    }
  }

  lemma {:induction false} LeafBelow(t: Tree, p: Path) returns (leaf: Path)
    requires p in t
    ensures leaf in t && p <= leaf && IsLeaf(t, leaf)
    decreases |set q | q in t && p <= q|
  {
    leaf := p;
    if q :| q in t && p <= q && q != p {
      var below, above := set r | r in t && q <= r, set r | r in t && p <= r;
      assert p in above && p !in below && below <= above - {p};
      Smaller(below, above - {p});
      leaf := LeafBelow(t, q);
    }
  }

  /** Whatever has gone, nothing outside the folder has. */
  lemma ClearedInside(t: Tree, p: Path, order: seq<Path>)
    requires Clears(t, p, order)
    ensures Outside(Cleared(t, order), p) == Outside(t, p)
  {
  }

  class Disk {
    var nodes: Tree
    /** Every state the disk has been in: what a crash may leave. */
    ghost var seen: set<Tree>
    /** No operation fails unless the tree itself stands in its way. */
    const steady: bool

    ghost predicate Valid()
      reads this
    {
      WellFormed(nodes) && nodes in seen
    }

    constructor (nodes: Tree, steady: bool)
      requires WellFormed(nodes)
      ensures Valid() && this.nodes == nodes && seen == {nodes} && this.steady == steady
    {
      this.nodes, seen, this.steady := nodes, {nodes}, steady;
    }

    /** Whether the operating system refuses an operation the tree allows. */
    method Fault() returns (fault: bool)
      ensures steady ==> !fault
    {
      fault := *;
      fault := fault && !steady;
    }

    method CreateDir(p: Path) returns (error: Option<IoError>)
      requires Valid()
      modifies this
      ensures Valid()
      ensures error.None? ==>
                && CanCreate(old(nodes), p)
                && nodes == old(nodes)[p := Dir] && seen == old(seen) + {nodes}
      ensures error.Some? ==> nodes == old(nodes) && seen == old(seen)
      ensures error == Some(AlreadyExists) ==> p in nodes
      ensures steady ==> (error.None? <==> CanCreate(old(nodes), p))
      ensures steady && p in old(nodes) ==> error == Some(AlreadyExists)
    {
      var fault := Fault();
      if fault {
        return Some(OtherError);
      }
      if p in nodes {
        return Some(AlreadyExists);
      }
      if !CanCreate(nodes, p) {
        return Some(OtherError);
      }
      nodes := nodes[p := Dir];
      seen := seen + {nodes};
      error := None;
    }

    /** Replace or create a file; a write that fails may leave any content behind. */
    method WriteFile(p: Path, content: Bytes) returns (ok: bool)
      requires Valid()
      modifies this
      ensures Valid()
      ensures ok ==> CanWrite(old(nodes), p) && nodes == old(nodes)[p := File(content)]
      ensures nodes != old(nodes) ==> CanWrite(old(nodes), p) && Writes(nodes, old(nodes), p)
      ensures forall t :: t in seen ==> t in old(seen) || Writes(t, old(nodes), p)
      ensures steady ==> (ok <==> CanWrite(old(nodes), p))
    {
      var fault := Fault();
      if fault || !CanWrite(nodes, p) {
        return false;
      }
      ghost var before := nodes;
      nodes := nodes[p := File([])];
      seen := seen + {nodes};
      ghost var created := nodes;
      WriteKeepsForm(before, p, []);
      ok := AppendTo(p, content);
      assert [] + content == content;
      assert created[p := File(content)] == before[p := File(content)];
      forall t | Writes(t, created, p) ensures Writes(t, before, p) {
        WritesTwice(t, created, before, p);
      }
    }

    method CreateNew(p: Path) returns (ok: bool)
      requires Valid()
      modifies this
      ensures Valid()
      ensures ok ==> CanCreate(old(nodes), p) && nodes == old(nodes)[p := File([])]
      ensures !ok ==> nodes == old(nodes)
      ensures seen == old(seen) + {nodes}
      ensures steady ==> (ok <==> CanCreate(old(nodes), p))
    {
      var fault := Fault();
      if fault || !CanCreate(nodes, p) {
        return false;
      }
      nodes := nodes[p := File([])];
      seen := seen + {nodes};
      ok := true;
    }

    method AppendTo(p: Path, chunk: Bytes) returns (ok: bool)
      requires Valid() && IsFile(nodes, p) && p != []
      modifies this
      ensures Valid()
      ensures ok ==> nodes == old(nodes)[p := File(old(nodes)[p].content + chunk)]
      ensures Writes(nodes, old(nodes), p)
      ensures forall t :: t in seen ==> t in old(seen) || Writes(t, old(nodes), p)
      ensures steady ==> ok
    {
      var fault := Fault();
      var n := |chunk|;
      if fault {
        n :| 0 <= n <= |chunk|;
      }
      nodes := nodes[p := File(nodes[p].content + chunk[..n])];
      seen := seen + {nodes};
      assert chunk[..|chunk|] == chunk;
      ok := !fault;
    }

    /** Some of what is left of an open file; nothing only at its end. */
    method Read(p: Path, from: nat, limit: nat) returns (chunk: Option<Bytes>)
      requires IsFile(nodes, p) && from <= |nodes[p].content| && limit > 0
      ensures chunk.Some? ==>
                && |chunk.value| <= limit && from + |chunk.value| <= |nodes[p].content|
                && chunk.value == nodes[p].content[from..from + |chunk.value|]
                && (chunk.value == [] <==> from == |nodes[p].content|)
      ensures steady ==> chunk.Some?
    {
      var fault := Fault();
      if fault {
        return None;
      }
      var left := |nodes[p].content| - from;
      var most := if left < limit then left else limit;
      var n :| 0 <= n <= most && (n == 0 <==> most == 0);
      chunk := Some(nodes[p].content[from..from + n]);
    }

    method RemoveFile(p: Path) returns (ok: bool)
      requires Valid()
      modifies this
      ensures Valid()
      ensures ok ==> IsFile(old(nodes), p) && nodes == old(nodes) - {p}
      ensures !ok ==> nodes == old(nodes)
      ensures seen == old(seen) + {nodes}
      ensures steady ==> (ok <==> IsFile(old(nodes), p))
    {
      var fault := Fault();
      if fault || !IsFile(nodes, p) {
        return false;
      }
      nodes := nodes - {p};
      seen := seen + {nodes};
      ok := true;
    }

    method Rename(from: Path, to: Path) returns (ok: bool)
      requires Valid()
      modifies this
      ensures Valid()
      ensures ok ==> CanRename(old(nodes), from, to) && nodes == Renamed(old(nodes), from, to)
      ensures !ok ==> nodes == old(nodes)
      ensures seen == old(seen) + {nodes}
      ensures steady ==> (ok <==> CanRename(old(nodes), from, to))
    {
      var fault := Fault();
      if fault || !CanRename(nodes, from, to) {
        return false;
      }
      RenameKeepsForm(nodes, from, to);
      nodes := Renamed(nodes, from, to);
      seen := seen + {nodes};
      ok := true;
    }

    /**
     Remove a folder and everything in it, one entry after another: each folder after what is in it,
     and otherwise in whatever order the file system lists them. A removal that fails has removed
     some of it.
     */
    method RemoveDirAll(p: Path) returns (ok: bool, ghost order: seq<Path>)
      requires Valid()
      modifies this
      ensures Valid()
      ensures ok ==> p != [] && IsDir(old(nodes), p) && nodes == Outside(old(nodes), p)
      ensures Clears(old(nodes), p, order) && nodes == Cleared(old(nodes), order)
      ensures forall t :: t in seen <==>
                t in old(seen) || exists n :: 0 < n <= |order| && t == Cleared(old(nodes), order[..n])
      ensures steady ==> (ok <==> p != [] && IsDir(old(nodes), p))
    {
      hide WellFormed, Clears, Cleared, Outside;
      order := [];
      ghost var before := nodes;
      NothingCleared(before, p);
      if p == [] || !IsDir(nodes, p) {
        return false, order;
      }
      while p in nodes
        invariant Valid() && Clears(before, p, order) && nodes == Cleared(before, order)
        invariant forall t :: t in seen <==>
                    t in old(seen) || exists n :: 0 < n <= |order| && t == Cleared(before, order[..n])
        decreases |nodes|
      {
        var fault := Fault();
        if fault {
          return false, order;
        }
        ghost var _ := LeafBelow(nodes, p);
        var leaf :| leaf in nodes && p <= leaf && IsLeaf(nodes, leaf);
        LeafCleared(before, p, order, leaf);
        nodes := nodes - {leaf};
        seen := seen + {nodes};
        assert forall n :: 0 <= n <= |order| ==> (order + [leaf])[..n] == order[..n];
        assert (order + [leaf])[..|order| + 1] == order + [leaf];
        order := order + [leaf];
      }
      AllCleared(before, p, order);
      ok := true;
    }

    /** Create a folder and the folders above it that are missing, from the top down. */
    method CreateDirAll(p: Path) returns (ok: bool)
      requires Valid()
      modifies this
      ensures Valid()
      ensures ok ==> IsDir(nodes, p)
      ensures ParentsOnly(nodes, old(nodes), p)
      ensures forall t :: t in seen ==> t in old(seen) || ParentsOnly(t, old(nodes), p)
      ensures ok ==> forall n :: 0 <= n <= |p| ==> !IsFile(old(nodes), p[..n])
      ensures steady && (forall n :: 0 <= n <= |p| ==> !IsFile(old(nodes), p[..n])) ==> ok
    {
      hide ParentsOnly, WellFormed;
      ParentsOfNone(nodes, p);
      for n := 0 to |p|
        invariant Valid() && ParentsOnly(nodes, old(nodes), p)
        invariant forall m :: 0 <= m <= n ==> IsDir(nodes, p[..m])
        invariant forall t :: t in seen ==> t in old(seen) || ParentsOnly(t, old(nodes), p)
      {
        var next := p[..n + 1];
        assert Parent(next) == p[..n];
        if !IsDir(nodes, next) {
          ParentCreated(nodes, old(nodes), p, next);
          var error := CreateDir(next);
          if error.Some? {
            return false;
          }
        }
      }
      assert p[..|p|] == p;
      forall n | 0 <= n <= |p| ensures !IsFile(old(nodes), p[..n]) {
        ParentCreated(nodes, old(nodes), p, p[..n]);
      }
      ok := true;
    }
  }

  /** `after` is `before`, with at most some missing folders on the way to `p` created. */
  ghost predicate ParentsOnly(after: Tree, before: Tree, p: Path) {
    && (forall q :: q in before ==> q in after && after[q] == before[q])
    && forall q :: q in after && q !in before ==> q <= p && after[q].Dir?
  }

  lemma ParentsOfNone(t: Tree, p: Path)
    requires WellFormed(t)
    ensures ParentsOnly(t, t, p) && IsDir(t, p[..0])
  {
  }

  lemma ParentCreated(t: Tree, before: Tree, p: Path, next: Path)
    requires ParentsOnly(t, before, p) && next <= p
    ensures next !in t ==> ParentsOnly(t[next := Dir], before, p)
    ensures IsFile(t, next) <==> IsFile(before, next)
  {
  }
}
