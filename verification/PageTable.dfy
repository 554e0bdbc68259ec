/** A four-level page table as a tree of frames, and the walk that maps a page
    or rewrites its permission bits. */
module PageTable {
  import opened PageEntry

  /** An entry's place: a frame and an index into it. */
  datatype Loc = Loc(frame: Frame, index: nat)

  type Memory = map<Loc, bv64>

  function Entry(m: Memory, f: Frame, i: nat): bv64 {
    if Loc(f, i) in m then m[Loc(f, i)] else 0
  }

  /** pt_walk from table `f` along the remaining indices.  `pool` are the frames
      the allocator would hand out, in order. */
  function Walk(m: Memory, f: Frame, idxs: seq<nat>, remove: bool, fromSwitch: bool, compOff: bool,
                pool: seq<Frame>): Memory
    requires idxs != [] && (fromSwitch || |idxs| <= |pool|)
    decreases |idxs|
  {
    var e, l := Entry(m, f, idxs[0]), Loc(f, idxs[0]);
    if |idxs| == 1 then
      if Present(e) then m[l := SetLeaf(e, remove, compOff)]
      else if fromSwitch then m
      else m[l := NewLeaf(pool[0], remove)]
    else if Present(e) then
      Walk(m[l := Open(e)], FrameOf(Open(e)), idxs[1..], remove, fromSwitch, compOff, pool)
    else if fromSwitch then m
    else Walk(m[l := NewEntry(pool[0])], pool[0], idxs[1..], remove, fromSwitch, compOff, pool[1..])
  }

  // ---------------------------------------------------------------- translation

  datatype Leaf = Unmapped | Mapped(entry: bv64)

  /** The leaf entry the hardware finds for a page. */
  function Lookup(m: Memory, f: Frame, idxs: seq<nat>): Leaf
    requires idxs != []
    decreases |idxs|
  {
    var e := Entry(m, f, idxs[0]);
    if !Present(e) then Unmapped
    else if |idxs| == 1 then Mapped(e)
    else Lookup(m, FrameOf(e), idxs[1..])
  }

  /** The access the hardware grants: a right counts only if every level grants it. */
  function Effective(m: Memory, f: Frame, idxs: seq<nat>, user: bool, writable: bool): Access
    requires idxs != []
    decreases |idxs|
  {
    var e := Entry(m, f, idxs[0]);
    var u, w := user && UserBit(e), writable && Writable(e);
    if !Present(e) then NoAccess
    else if |idxs| == 1 then AccessOf(u, w)
    else Effective(m, FrameOf(e), idxs[1..], u, w)
  }

  /** No level above the leaf takes a right away. */
  predicate UpperOpen(m: Memory, f: Frame, idxs: seq<nat>)
    requires idxs != []
    decreases |idxs|
  {
    var e := Entry(m, f, idxs[0]);
    |idxs| > 1 && Present(e) ==> UserBit(e) && Writable(e) && UpperOpen(m, FrameOf(e), idxs[1..])
  }

  predicate AtMost(a: Access, b: Access) {
    a == NoAccess || a == b || b == ReadWrite
  }

  // ---------------------------------------------------------------- the tree

  /** Every frame in use labelled with the indices that lead to it. */
  type Labels = map<Frame, seq<nat>>

  ghost predicate Owned(m: Memory, path: Labels, g: Frame)
    requires g in path
  {
    exists f, i | f in path && Present(Entry(m, f, i)) :: FrameOf(Entry(m, f, i)) == g && path[g] == path[f] + [i]
  }

  /** Labels are distinct places in the tree, the root's the empty one. */
  ghost predicate Labelled(root: Frame, path: Labels) {
    && root in path && path[root] == []
    && (forall f | f in path :: |path[f]| <= 4)
    && (forall f, g | f in path && g in path && f != g :: path[f] != path[g])
  }

  /** Each present entry leads to the frame labelled with its place. */
  ghost predicate Leads(m: Memory, path: Labels) {
    forall f, i {:trigger Entry(m, f, i)} | f in path && |path[f]| < 4 && Present(Entry(m, f, i)) ::
      FrameOf(Entry(m, f, i)) in path && path[FrameOf(Entry(m, f, i))] == path[f] + [i]
  }

  /** Each frame in use but the root hangs in some entry. */
  ghost predicate AllOwned(m: Memory, root: Frame, path: Labels) {
    forall g | g in path && g != root :: Owned(m, path, g)
  }

  /** Frames not in use are zeroed. */
  ghost predicate Zeroed(m: Memory, path: Labels) {
    forall f, i {:trigger Entry(m, f, i)} | f !in path :: Entry(m, f, i) == 0
  }

  /** The table is a tree: each frame in use has one label and one parent entry. */
  ghost predicate Tree(m: Memory, root: Frame, path: Labels) {
    Labelled(root, path) && Leads(m, path) && AllOwned(m, root, path) && Zeroed(m, path)
  }

  /** The allocator can hand out the frames a walk of `need` levels may ask for:
      unused, distinct, 32-bit numbers.  A walk made by a context switch asks for none. */
  predicate Supply(path: Labels, pool: seq<Frame>, need: nat, fromSwitch: bool) {
    fromSwitch ||
    (&& need <= |pool|
     && (forall i | 0 <= i < |pool| :: pool[i] !in path && pool[i].number <= 0xFFFFFFFF)
     && (forall i, j | 0 <= i < j < |pool| :: pool[i] != pool[j]))
  }

  /** The labels after the walk: allocated frames are added. */
  function Relabel(m: Memory, path: Labels, f: Frame, idxs: seq<nat>, fromSwitch: bool, pool: seq<Frame>): Labels
    requires idxs != [] && (fromSwitch || |idxs| <= |pool|) && f in path
    decreases |idxs|
  {
    var e, l := Entry(m, f, idxs[0]), Loc(f, idxs[0]);
    if Present(e) then
      if |idxs| == 1 || FrameOf(e) !in path then path
      else Relabel(m[l := Open(e)], path, FrameOf(e), idxs[1..], fromSwitch, pool)
    else if fromSwitch then path
    else
      var grown := path[pool[0] := path[f] + [idxs[0]]];
      if |idxs| == 1 then grown
      else Relabel(m[l := NewEntry(pool[0])], grown, pool[0], idxs[1..], fromSwitch, pool[1..])
  }

  // ---------------------------------------------------------------- one entry at a time

  lemma EntryUpdate(m: Memory, f: Frame, i: nat, v: bv64)
    ensures forall h, j {:trigger Entry(m[Loc(f, i) := v], h, j)} ::
              Entry(m[Loc(f, i) := v], h, j) == if h == f && j == i then v else Entry(m, h, j)
  {
  }

  /** Rewriting the rights of a present entry leaves the tree as it is. */
  lemma RewriteKeepsTree(m: Memory, root: Frame, path: Labels, f: Frame, i: nat, v: bv64)
    requires Tree(m, root, path) && f in path && Present(Entry(m, f, i))
    requires Present(v) && FrameOf(v) == FrameOf(Entry(m, f, i))
    ensures Tree(m[Loc(f, i) := v], root, path)
  {
    EntryUpdate(m, f, i, v);
    var m' := m[Loc(f, i) := v];
    hide Entry, Present, FrameOf, Labelled;
    assert forall h, j {:trigger Entry(m', h, j)} ::
        Present(Entry(m', h, j)) == Present(Entry(m, h, j)) && FrameOf(Entry(m', h, j)) == FrameOf(Entry(m, h, j));
    forall g | g in path && g != root ensures Owned(m', path, g) {
      OwnedCarriesOver(m, m', path, g);
    }
  }

  lemma OwnedCarriesOver(m: Memory, m': Memory, path: Labels, g: Frame)
    requires g in path && Owned(m, path, g)
    requires forall h, j {:trigger Entry(m', h, j)} ::
        Present(Entry(m', h, j)) == Present(Entry(m, h, j)) && FrameOf(Entry(m', h, j)) == FrameOf(Entry(m, h, j))
    ensures Owned(m', path, g)
  {
    hide Entry, Present, FrameOf;
    var h, j :| h in path && Present(Entry(m, h, j)) && FrameOf(Entry(m, h, j)) == g && path[g] == path[h] + [j];
    assert Present(Entry(m', h, j)) && FrameOf(Entry(m', h, j)) == g;
  }

  lemma SnocInjective(a: seq<nat>, i: nat, b: seq<nat>, j: nat)
    ensures a + [i] == b + [j] ==> a == b && i == j
  {
    if a + [i] == b + [j] {
      assert a == (a + [i])[..|a|] && b == (b + [j])[..|b|];
      assert i == (a + [i])[|a|] && j == (b + [j])[|b|];
    }
  }

  /** No frame is labelled with a place whose entry is absent. */
  lemma LabelIsNew(m: Memory, root: Frame, path: Labels, f: Frame, i: nat)
    requires Labelled(root, path) && AllOwned(m, root, path) && f in path && |path[f]| < 4 && !Present(Entry(m, f, i))
    ensures forall g | g in path :: path[g] != path[f] + [i]
  {
    hide Entry, Present, FrameOf;
    forall g | g in path ensures path[g] != path[f] + [i] {
      if g != root {
        assert Owned(m, path, g);
        var h, j :| h in path && Present(Entry(m, h, j)) && FrameOf(Entry(m, h, j)) == g && path[g] == path[h] + [j];
        SnocInjective(path[h], j, path[f], i);
      }
    }
  }

  lemma ZeroIsAbsent()
    ensures !Present(0)
  {
  }

  lemma AttachLeads(m: Memory, path: Labels, f: Frame, i: nat, v: bv64, g: Frame)
    requires Leads(m, path) && Zeroed(m, path) && f in path
    requires g !in path && Present(v) && FrameOf(v) == g
    ensures Leads(m[Loc(f, i) := v], path[g := path[f] + [i]])
    ensures Zeroed(m[Loc(f, i) := v], path[g := path[f] + [i]])
  {
    EntryUpdate(m, f, i, v);
    ZeroIsAbsent();
    hide Entry, Present, FrameOf;
  }

  lemma AttachOwned(m: Memory, root: Frame, path: Labels, f: Frame, i: nat, v: bv64, g: Frame)
    requires AllOwned(m, root, path) && f in path && !Present(Entry(m, f, i))
    requires g !in path && Present(v) && FrameOf(v) == g
    ensures AllOwned(m[Loc(f, i) := v], root, path[g := path[f] + [i]])
  {
    EntryUpdate(m, f, i, v);
    var m', path' := m[Loc(f, i) := v], path[g := path[f] + [i]];
    hide Entry, Present, FrameOf;
    forall k | k in path' && k != root ensures Owned(m', path', k) {
      if k == g {
        assert f in path' && Present(Entry(m', f, i)) && FrameOf(Entry(m', f, i)) == g && path'[g] == path'[f] + [i];
      } else {
        assert Owned(m, path, k);
        var h, j :| h in path && Present(Entry(m, h, j)) && FrameOf(Entry(m, h, j)) == k && path[k] == path[h] + [j];
        assert h in path' && Present(Entry(m', h, j)) && FrameOf(Entry(m', h, j)) == k && path'[k] == path'[h] + [j];
      }
    }
  }

  /** Hanging an unused frame into an absent entry extends the tree by it. */
  lemma AttachKeepsTree(m: Memory, root: Frame, path: Labels, f: Frame, i: nat, v: bv64, g: Frame)
    requires Tree(m, root, path) && f in path && |path[f]| < 4 && !Present(Entry(m, f, i))
    requires g !in path && Present(v) && FrameOf(v) == g
    ensures Tree(m[Loc(f, i) := v], root, path[g := path[f] + [i]])
  {
    AttachLeads(m, path, f, i, v, g);
    AttachOwned(m, root, path, f, i, v, g);
    LabelIsNew(m, root, path, f, i);
    hide Entry, Present, FrameOf, Leads, AllOwned, Zeroed;
  }

  // ---------------------------------------------------------------- the walk keeps the tree

  lemma SupplyHead(path: Labels, pool: seq<Frame>, need: nat, p: seq<nat>)
    requires need > 0 && Supply(path, pool, need, false)
    ensures pool[0] !in path && pool[0].number <= 0xFFFFFFFF
    ensures Supply(path[pool[0] := p], pool[1..], need - 1, false)
  {
    forall i | 0 <= i < |pool| - 1 ensures pool[1..][i] == pool[i + 1] {}
  }

  /** Where a present entry of the tree leads. */
  lemma LabelLength(m: Memory, root: Frame, path: Labels, f: Frame, i: nat)
    requires Tree(m, root, path) && f in path && |path[f]| < 4
    ensures Present(Entry(m, f, i)) ==>
              FrameOf(Entry(m, f, i)) in path && path[FrameOf(Entry(m, f, i))] == path[f] + [i]
  {
  }

  /** The last level of the walk. */
  lemma LeafKeepsTree(m: Memory, root: Frame, path: Labels, f: Frame, i: nat,
                      remove: bool, fromSwitch: bool, compOff: bool, pool: seq<Frame>)
    requires Tree(m, root, path) && f in path && |path[f]| == 3 && Supply(path, pool, 1, fromSwitch)
    ensures Tree(Walk(m, f, [i], remove, fromSwitch, compOff, pool), root, Relabel(m, path, f, [i], fromSwitch, pool))
  {
    hide Tree, Open, Entry, Present, FrameOf, SetLeaf, NewLeaf, NewEntry, EntryAccess, Granted;
    var e := Entry(m, f, i);
    if Present(e) {
      LeafSet(e, remove, compOff);
      RewriteKeepsTree(m, root, path, f, i, SetLeaf(e, remove, compOff));
    } else if !fromSwitch {
      LeafCreated(pool[0], remove);
      AttachKeepsTree(m, root, path, f, i, NewLeaf(pool[0], remove), pool[0]);
    }
  }

  /** A level above the last: the table reached next, and the tree so far. */
  lemma LevelKeepsTree(m: Memory, root: Frame, path: Labels, f: Frame, i: nat, need: nat, fromSwitch: bool,
                       pool: seq<Frame>)
    requires Tree(m, root, path) && f in path && |path[f]| < 3 && need > 0 && Supply(path, pool, need, fromSwitch)
    ensures var e, l := Entry(m, f, i), Loc(f, i);
            if Present(e) then
              && FrameOf(Open(e)) == FrameOf(e) && FrameOf(e) in path && path[FrameOf(e)] == path[f] + [i]
              && Tree(m[l := Open(e)], root, path)
            else !fromSwitch ==>
              && pool[0] !in path && pool[0].number <= 0xFFFFFFFF
              && Supply(path[pool[0] := path[f] + [i]], pool[1..], need - 1, fromSwitch)
              && Tree(m[l := NewEntry(pool[0])], root, path[pool[0] := path[f] + [i]])
  {
    var e := Entry(m, f, i);
    if Present(e) {
      hide Tree, Open, Entry, Present, FrameOf, NewEntry, EntryAccess, Supply;
      LabelLength(m, root, path, f, i);
      Opened(e);
      RewriteKeepsTree(m, root, path, f, i, Open(e));
    } else if !fromSwitch {
      hide Tree, Open, Entry, Present, FrameOf, NewEntry, EntryAccess, Supply;
      SupplyHead(path, pool, need, path[f] + [i]);
      Created(pool[0]);
      AttachKeepsTree(m, root, path, f, i, NewEntry(pool[0]), pool[0]);
    }
  }

  /** The walk keeps the table a tree: no frame becomes shared, and labels of
      frames in use never change. */
  lemma {:induction false} WalkKeepsTree(m: Memory, root: Frame, path: Labels, f: Frame, idxs: seq<nat>,
                                         remove: bool, fromSwitch: bool, compOff: bool, pool: seq<Frame>)
    requires Tree(m, root, path) && f in path && idxs != [] && |path[f]| + |idxs| == 4
    requires Supply(path, pool, |idxs|, fromSwitch)
    ensures Tree(Walk(m, f, idxs, remove, fromSwitch, compOff, pool), root, Relabel(m, path, f, idxs, fromSwitch, pool))
    decreases |idxs|
  {
    hide Tree, Open, Entry, Present, FrameOf, SetLeaf, NewLeaf, NewEntry;
    if |idxs| == 1 {
      assert idxs == [idxs[0]];
      LeafKeepsTree(m, root, path, f, idxs[0], remove, fromSwitch, compOff, pool);
    } else {
      LevelKeepsTree(m, root, path, f, idxs[0], |idxs|, fromSwitch, pool);
      var e, l := Entry(m, f, idxs[0]), Loc(f, idxs[0]);
      if Present(e) {
        WalkKeepsTree(m[l := Open(e)], root, path, FrameOf(e), idxs[1..], remove, fromSwitch, compOff, pool);
      } else if !fromSwitch {
        WalkKeepsTree(m[l := NewEntry(pool[0])], root, path[pool[0] := path[f] + [idxs[0]]], pool[0], idxs[1..],
                      remove, fromSwitch, compOff, pool[1..]);
      }
    }
  }

  /** Labels are only added, and none during a context switch. */
  lemma {:induction false} RelabelGrows(m: Memory, path: Labels, f: Frame, idxs: seq<nat>,
                                        fromSwitch: bool, pool: seq<Frame>)
    requires idxs != [] && f in path && Supply(path, pool, |idxs|, fromSwitch)
    ensures var path' := Relabel(m, path, f, idxs, fromSwitch, pool);
            && path.Keys <= path'.Keys && (forall g | g in path :: path'[g] == path[g])
            && (fromSwitch ==> path' == path)
    decreases |idxs|
  {
    hide Entry, Open, Present, FrameOf, NewEntry;
    var e, l := Entry(m, f, idxs[0]), Loc(f, idxs[0]);
    if Present(e) {
      if |idxs| > 1 && FrameOf(e) in path {
        RelabelGrows(m[l := Open(e)], path, FrameOf(e), idxs[1..], fromSwitch, pool);
      }
    } else if !fromSwitch {
      SupplyHead(path, pool, |idxs|, path[f] + [idxs[0]]);
      if |idxs| > 1 {
        RelabelGrows(m[l := NewEntry(pool[0])], path[pool[0] := path[f] + [idxs[0]]], pool[0], idxs[1..],
                     fromSwitch, pool[1..]);
      }
    }
  }
}
