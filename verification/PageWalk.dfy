/** What a page-table walk changes and what it leaves alone. */
module PageWalk {
  import opened PageEntry
  import opened PageTable

  predicate IsPrefix(a: seq<nat>, b: seq<nat>) {
    |a| <= |b| && a == b[..|a|]
  }

  // ---------------------------------------------------------------- which entries change

  /** The walk writes only entries on the way to its page, in `f` or below. */
  lemma {:induction false} WalkWrites(m: Memory, root: Frame, path: Labels, f: Frame, idxs: seq<nat>,
                                      remove: bool, fromSwitch: bool, compOff: bool, pool: seq<Frame>, h: Frame, j: nat)
    requires Tree(m, root, path) && f in path && idxs != [] && |path[f]| + |idxs| == 4
    requires Supply(path, pool, |idxs|, fromSwitch)
    ensures Entry(Walk(m, f, idxs, remove, fromSwitch, compOff, pool), h, j) != Entry(m, h, j) ==>
              var path' := Relabel(m, path, f, idxs, fromSwitch, pool);
              h in path' && |path[f]| <= |path'[h]| && IsPrefix(path'[h] + [j], path[f] + idxs)
    decreases |idxs|
  {
    hide Tree, Open, Entry, Present, FrameOf, SetLeaf, NewLeaf, NewEntry;
    var e, l := Entry(m, f, idxs[0]), Loc(f, idxs[0]);
    EntryUpdate(m, f, idxs[0], SetLeaf(e, remove, compOff));
    EntryUpdate(m, f, idxs[0], Open(e));
    if !fromSwitch {
      EntryUpdate(m, f, idxs[0], NewLeaf(pool[0], remove));
      EntryUpdate(m, f, idxs[0], NewEntry(pool[0]));
    }
    RelabelGrows(m, path, f, idxs, fromSwitch, pool);
    assert path[f] + [idxs[0]] == (path[f] + idxs)[..|path[f]| + 1];
    if |idxs| > 1 {
      LevelKeepsTree(m, root, path, f, idxs[0], |idxs|, fromSwitch, pool);
      assert path[f] + [idxs[0]] + idxs[1..] == path[f] + idxs;
      if Present(e) {
        WalkWrites(m[l := Open(e)], root, path, FrameOf(e), idxs[1..], remove, fromSwitch, compOff, pool, h, j);
      } else if !fromSwitch {
        WalkWrites(m[l := NewEntry(pool[0])], root, path[pool[0] := path[f] + [idxs[0]]], pool[0], idxs[1..],
                   remove, fromSwitch, compOff, pool[1..], h, j);
      }
    }
  }

  /** Translation below a frame reads only frames labelled below it. */
  lemma {:induction false} LookupReadsBelow(m: Memory, m': Memory, root: Frame, path: Labels, f: Frame, idxs: seq<nat>)
    requires Tree(m, root, path) && f in path && idxs != [] && |path[f]| + |idxs| == 4
    requires forall h, j {:trigger Entry(m', h, j)} | h in path && IsPrefix(path[f], path[h]) ::
               Entry(m', h, j) == Entry(m, h, j)
    ensures Lookup(m', f, idxs) == Lookup(m, f, idxs) && UpperOpen(m', f, idxs) == UpperOpen(m, f, idxs)
    decreases |idxs|
  {
    hide Entry, Present, FrameOf, UserBit, Writable;
    assert Entry(m', f, idxs[0]) == Entry(m, f, idxs[0]);
    LabelLength(m, root, path, f, idxs[0]);
    hide Tree;
    var e := Entry(m, f, idxs[0]);
    if Present(e) && |idxs| > 1 {
      var c := FrameOf(e);
      forall h | h in path && IsPrefix(path[c], path[h]) ensures IsPrefix(path[f], path[h]) {
        assert path[f] == path[c][..|path[f]|] == path[h][..|path[c]|][..|path[f]|];
      }
      LookupReadsBelow(m, m', root, path, c, idxs[1..]);
    }
  }

  // ---------------------------------------------------------------- other pages

  /** Places on the way to a page agree with its indices. */
  lemma OnTheWay(a: seq<nat>, j: nat, b: seq<nat>, idxs: seq<nat>, o: nat)
    requires idxs != []
    ensures |b| <= |a| && IsPrefix(a + [j], b + idxs) ==>
              (a == b ==> j == idxs[0]) && (IsPrefix(b + [o], a) ==> o == idxs[0])
  {
    if |b| <= |a| && IsPrefix(a + [j], b + idxs) {
      assert (a + [j])[|b|] == (b + idxs)[|b|] == idxs[0];
      if IsPrefix(b + [o], a) {
        assert a[|b|] == (b + [o])[|b|] == o;
      }
    }
  }

  /** At the level where two pages part, the other page's entry and everything
      below it is out of the walk's reach. */
  lemma PartedLookup(m: Memory, root: Frame, path: Labels, f: Frame, idxs: seq<nat>, other: seq<nat>,
                     remove: bool, fromSwitch: bool, compOff: bool, pool: seq<Frame>)
    requires Tree(m, root, path) && f in path && idxs != [] && |path[f]| + |idxs| == 4
    requires Supply(path, pool, |idxs|, fromSwitch) && |other| == |idxs| && other[0] != idxs[0]
    ensures var m' := Walk(m, f, idxs, remove, fromSwitch, compOff, pool);
            Lookup(m', f, other) == Lookup(m, f, other) && UpperOpen(m', f, other) == UpperOpen(m, f, other)
  {
    assert fromSwitch || |idxs| <= |pool|;
    hide Walk, Entry, Present, FrameOf, Relabel, Tree, IsPrefix, Supply, UserBit, Writable;
    var m' := Walk(m, f, idxs, remove, fromSwitch, compOff, pool);
    RelabelGrows(m, path, f, idxs, fromSwitch, pool);
    forall h, j | h in path && (IsPrefix(path[f] + [other[0]], path[h]) || (h == f && j == other[0]))
      ensures Entry(m', h, j) == Entry(m, h, j)
    {
      WalkWrites(m, root, path, f, idxs, remove, fromSwitch, compOff, pool, h, j);
      OnTheWay(path[h], j, path[f], idxs, other[0]);
    }
    LabelLength(m, root, path, f, other[0]);
    var e := Entry(m, f, other[0]);
    assert Entry(m', f, other[0]) == e;
    if Present(e) && |other| > 1 {
      LookupReadsBelow(m, m', root, path, FrameOf(e), other[1..]);
    }
  }

  lemma EmptyTable(m: Memory, g: Frame, idxs: seq<nat>)
    requires idxs != [] && Entry(m, g, idxs[0]) == 0
    ensures Lookup(m, g, idxs) == Unmapped && UpperOpen(m, g, idxs)
  {
    ZeroIsAbsent();
  }

  /** Writing one entry outside the part of the tree below `c` is invisible there. */
  lemma WriteAbove(m: Memory, root: Frame, path: Labels, f: Frame, i: nat, v: bv64, c: Frame, idxs: seq<nat>)
    requires Tree(m, root, path) && f in path && c in path && |path[f]| < |path[c]|
    requires idxs != [] && |path[c]| + |idxs| == 4
    ensures Lookup(m[Loc(f, i) := v], c, idxs) == Lookup(m, c, idxs)
    ensures UpperOpen(m[Loc(f, i) := v], c, idxs) == UpperOpen(m, c, idxs)
  {
    hide Lookup, UpperOpen, Entry, Tree;
    EntryUpdate(m, f, i, v);
    LookupReadsBelow(m, m[Loc(f, i) := v], root, path, c, idxs);
  }

  /** The entry the walk passes through at the top keeps leading to the same frame. */
  lemma TopEntry(m: Memory, root: Frame, path: Labels, f: Frame, idxs: seq<nat>,
                 remove: bool, fromSwitch: bool, compOff: bool, pool: seq<Frame>)
    requires Tree(m, root, path) && f in path && |idxs| > 1 && |path[f]| + |idxs| == 4
    requires Supply(path, pool, |idxs|, fromSwitch)
    ensures var e := Entry(m, f, idxs[0]);
            var m' := Walk(m, f, idxs, remove, fromSwitch, compOff, pool);
            Entry(m', f, idxs[0]) == if Present(e) then Open(e) else if fromSwitch then e else NewEntry(pool[0])
  {
    hide Tree, Open, Entry, Present, FrameOf, SetLeaf, NewLeaf, NewEntry, Relabel;
    var e, l := Entry(m, f, idxs[0]), Loc(f, idxs[0]);
    LevelKeepsTree(m, root, path, f, idxs[0], |idxs|, fromSwitch, pool);
    EntryUpdate(m, f, idxs[0], Open(e));
    if !fromSwitch { EntryUpdate(m, f, idxs[0], NewEntry(pool[0])); }
    if Present(e) {
      var m1 := m[l := Open(e)];
      RelabelGrows(m1, path, FrameOf(e), idxs[1..], fromSwitch, pool);
      WalkWrites(m1, root, path, FrameOf(e), idxs[1..], remove, fromSwitch, compOff, pool, f, idxs[0]);
    } else if !fromSwitch {
      var m1, path1 := m[l := NewEntry(pool[0])], path[pool[0] := path[f] + [idxs[0]]];
      RelabelGrows(m1, path1, pool[0], idxs[1..], fromSwitch, pool[1..]);
      WalkWrites(m1, root, path1, pool[0], idxs[1..], remove, fromSwitch, compOff, pool[1..], f, idxs[0]);
    }
  }

  /** A walk to one page changes the leaf entry of no other page. */
  lemma {:induction false} OtherPagesUnchanged(m: Memory, root: Frame, path: Labels, f: Frame,
                                               idxs: seq<nat>, other: seq<nat>,
                                               remove: bool, fromSwitch: bool, compOff: bool, pool: seq<Frame>)
    requires Tree(m, root, path) && f in path && idxs != [] && |path[f]| + |idxs| == 4
    requires Supply(path, pool, |idxs|, fromSwitch) && |other| == |idxs| && other != idxs
    ensures Lookup(Walk(m, f, idxs, remove, fromSwitch, compOff, pool), f, other) == Lookup(m, f, other)
    decreases |idxs|
  {
    hide Tree, Open, Entry, Present, FrameOf, SetLeaf, NewLeaf, NewEntry;
    if other[0] != idxs[0] {
      PartedLookup(m, root, path, f, idxs, other, remove, fromSwitch, compOff, pool);
    } else {
      assert |idxs| > 1 && other[1..] != idxs[1..] by {
        assert idxs == [idxs[0]] + idxs[1..] && other == [other[0]] + other[1..];
      }
      var e, l := Entry(m, f, idxs[0]), Loc(f, idxs[0]);
      LevelKeepsTree(m, root, path, f, idxs[0], |idxs|, fromSwitch, pool);
      TopEntry(m, root, path, f, idxs, remove, fromSwitch, compOff, pool);
      if Present(e) {
        Opened(e);
        OtherPagesUnchanged(m[l := Open(e)], root, path, FrameOf(e), idxs[1..], other[1..],
                            remove, fromSwitch, compOff, pool);
        WriteAbove(m, root, path, f, idxs[0], Open(e), FrameOf(e), other[1..]);
      } else if !fromSwitch {
        Created(pool[0]);
        var m1 := m[l := NewEntry(pool[0])];
        OtherPagesUnchanged(m1, root, path[pool[0] := path[f] + [idxs[0]]], pool[0], idxs[1..], other[1..],
                            remove, fromSwitch, compOff, pool[1..]);
        NewTableEmpty(m, root, path, f, idxs[0], NewEntry(pool[0]), pool[0], other[1]);
        EmptyTable(m1, pool[0], other[1..]);
      }
    }
  }

  lemma NewTableEmpty(m: Memory, root: Frame, path: Labels, f: Frame, i: nat, v: bv64, g: Frame, j: nat)
    requires Tree(m, root, path) && f in path && g !in path
    ensures Entry(m[Loc(f, i) := v], g, j) == 0
  {
    EntryUpdate(m, f, i, v);
  }

  // ---------------------------------------------------------------- the page itself

  /** What the walk leaves in its own page's leaf entry: rights are set and the
      frame stays; an unmapped page gets a frame that was not in use. */
  ghost predicate LeafAfter(before: Leaf, remove: bool, fromSwitch: bool, compOff: bool, path: Labels, after: Leaf) {
    match before
    case Mapped(e) =>
      after.Mapped? && FrameOf(after.entry) == FrameOf(e) && EntryAccess(after.entry) == Granted(remove, compOff)
    case Unmapped =>
      if fromSwitch then after == Unmapped
      else after.Mapped? && FrameOf(after.entry) !in path && EntryAccess(after.entry) == Granted(remove, false)
  }

  /** The walk sets its own page's rights and never its frame; a walk made by a
      context switch maps nothing. */
  lemma {:induction false} OwnPage(m: Memory, root: Frame, path: Labels, f: Frame, idxs: seq<nat>,
                                   remove: bool, fromSwitch: bool, compOff: bool, pool: seq<Frame>)
    requires Tree(m, root, path) && f in path && idxs != [] && |path[f]| + |idxs| == 4
    requires Supply(path, pool, |idxs|, fromSwitch)
    ensures LeafAfter(Lookup(m, f, idxs), remove, fromSwitch, compOff, path,
                      Lookup(Walk(m, f, idxs, remove, fromSwitch, compOff, pool), f, idxs))
    decreases |idxs|
  {
    hide Tree, Open, Entry, Present, FrameOf, SetLeaf, NewLeaf, NewEntry, EntryAccess, Granted;
    var e, l := Entry(m, f, idxs[0]), Loc(f, idxs[0]);
    if |idxs| == 1 {
      EntryUpdate(m, f, idxs[0], SetLeaf(e, remove, compOff));
      if Present(e) {
        LeafSet(e, remove, compOff);
      } else if !fromSwitch {
        EntryUpdate(m, f, idxs[0], NewLeaf(pool[0], remove));
        LeafCreated(pool[0], remove);
      }
    } else {
      LevelKeepsTree(m, root, path, f, idxs[0], |idxs|, fromSwitch, pool);
      TopEntry(m, root, path, f, idxs, remove, fromSwitch, compOff, pool);
      if Present(e) {
        Opened(e);
        OwnPage(m[l := Open(e)], root, path, FrameOf(e), idxs[1..], remove, fromSwitch, compOff, pool);
        WriteAbove(m, root, path, f, idxs[0], Open(e), FrameOf(e), idxs[1..]);
      } else if !fromSwitch {
        Created(pool[0]);
        var m1 := m[l := NewEntry(pool[0])];
        OwnPage(m1, root, path[pool[0] := path[f] + [idxs[0]]], pool[0], idxs[1..],
                remove, fromSwitch, compOff, pool[1..]);
        NewTableEmpty(m, root, path, f, idxs[0], NewEntry(pool[0]), pool[0], idxs[1]);
        EmptyTable(m1, pool[0], idxs[1..]);
      }
    }
  }

  // ---------------------------------------------------------------- effective rights

  /** However the upper levels are set, no more than the leaf entry is granted. */
  lemma {:induction false} EffectiveAtMostLeaf(m: Memory, f: Frame, idxs: seq<nat>, user: bool, writable: bool)
    requires idxs != []
    ensures match Lookup(m, f, idxs)
            case Unmapped => Effective(m, f, idxs, user, writable) == NoAccess
            case Mapped(e) => AtMost(Effective(m, f, idxs, user, writable), EntryAccess(e))
    decreases |idxs|
  {
    hide Entry, Present, FrameOf, UserBit, Writable;
    var e := Entry(m, f, idxs[0]);
    if Present(e) && |idxs| > 1 {
      EffectiveAtMostLeaf(m, FrameOf(e), idxs[1..], user && UserBit(e), writable && Writable(e));
    }
  }

  /** With the upper levels open the hardware grants exactly what the leaf entry says. */
  lemma {:induction false} OpenEffective(m: Memory, f: Frame, idxs: seq<nat>)
    requires idxs != [] && UpperOpen(m, f, idxs)
    ensures Effective(m, f, idxs, true, true) ==
              match Lookup(m, f, idxs) case Unmapped => NoAccess case Mapped(e) => EntryAccess(e)
    decreases |idxs|
  {
    hide Entry, Present, FrameOf, UserBit, Writable;
    var e := Entry(m, f, idxs[0]);
    if Present(e) && |idxs| > 1 {
      OpenEffective(m, FrameOf(e), idxs[1..]);
    }
  }

  lemma OpenedBits(e: bv64)
    ensures UserBit(Open(e)) && Writable(Open(e))
  {
    OpenBits(e);
  }

  lemma NewEntryBits(f: Frame)
    requires f.number <= 0xFFFFFFFF
    ensures UserBit(NewEntry(f)) && Writable(NewEntry(f))
  {
    NewBits(f.number);
  }

  /** The walk opens the upper levels on the way to its page. */
  lemma {:induction false} WalkOpens(m: Memory, root: Frame, path: Labels, f: Frame, idxs: seq<nat>,
                                     remove: bool, fromSwitch: bool, compOff: bool, pool: seq<Frame>)
    requires Tree(m, root, path) && f in path && idxs != [] && |path[f]| + |idxs| == 4
    requires Supply(path, pool, |idxs|, fromSwitch)
    ensures UpperOpen(Walk(m, f, idxs, remove, fromSwitch, compOff, pool), f, idxs)
    decreases |idxs|
  {
    hide Tree, Open, Entry, Present, FrameOf, SetLeaf, NewLeaf, NewEntry, UserBit, Writable;
    if |idxs| > 1 {
      var e, l := Entry(m, f, idxs[0]), Loc(f, idxs[0]);
      LevelKeepsTree(m, root, path, f, idxs[0], |idxs|, fromSwitch, pool);
      TopEntry(m, root, path, f, idxs, remove, fromSwitch, compOff, pool);
      if Present(e) {
        OpenedBits(e);
        WalkOpens(m[l := Open(e)], root, path, FrameOf(e), idxs[1..], remove, fromSwitch, compOff, pool);
      } else if !fromSwitch {
        Created(pool[0]);
        NewEntryBits(pool[0]);
        WalkOpens(m[l := NewEntry(pool[0])], root, path[pool[0] := path[f] + [idxs[0]]], pool[0], idxs[1..],
                  remove, fromSwitch, compOff, pool[1..]);
      }
    }
  }

  /** The walk closes no level on the way to any other page. */
  lemma {:induction false} WalkKeepsOpen(m: Memory, root: Frame, path: Labels, f: Frame, idxs: seq<nat>,
                                         other: seq<nat>, remove: bool, fromSwitch: bool, compOff: bool,
                                         pool: seq<Frame>)
    requires Tree(m, root, path) && f in path && idxs != [] && |path[f]| + |idxs| == 4
    requires Supply(path, pool, |idxs|, fromSwitch) && |other| == |idxs| && UpperOpen(m, f, other)
    ensures UpperOpen(Walk(m, f, idxs, remove, fromSwitch, compOff, pool), f, other)
    decreases |idxs|
  {
    hide Tree, Open, Entry, Present, FrameOf, SetLeaf, NewLeaf, NewEntry, UserBit, Writable;
    if other[0] != idxs[0] {
      PartedLookup(m, root, path, f, idxs, other, remove, fromSwitch, compOff, pool);
    } else if |idxs| > 1 {
      var e, l := Entry(m, f, idxs[0]), Loc(f, idxs[0]);
      LevelKeepsTree(m, root, path, f, idxs[0], |idxs|, fromSwitch, pool);
      TopEntry(m, root, path, f, idxs, remove, fromSwitch, compOff, pool);
      if Present(e) {
        OpenedBits(e);
        WriteAbove(m, root, path, f, idxs[0], Open(e), FrameOf(e), other[1..]);
        WalkKeepsOpen(m[l := Open(e)], root, path, FrameOf(e), idxs[1..], other[1..],
                      remove, fromSwitch, compOff, pool);
      } else if !fromSwitch {
        Created(pool[0]);
        NewEntryBits(pool[0]);
        var m1 := m[l := NewEntry(pool[0])];
        NewTableEmpty(m, root, path, f, idxs[0], NewEntry(pool[0]), pool[0], other[1]);
        EmptyTable(m1, pool[0], other[1..]);
        WalkKeepsOpen(m1, root, path[pool[0] := path[f] + [idxs[0]]], pool[0], idxs[1..], other[1..],
                      remove, fromSwitch, compOff, pool[1..]);
      }
    }
  }

  // ---------------------------------------------------------------- by address

  /** pt_walk on an address. */
  function PtWalk(m: Memory, root: Frame, addr: nat, remove: bool, fromSwitch: bool, compOff: bool,
                  pool: seq<Frame>): Memory
    requires fromSwitch || 4 <= |pool|
  {
    Walk(m, root, Path(addr), remove, fromSwitch, compOff, pool)
  }

  /** pt_walk sets the rights of the address's own page, touches the leaf entry
      of no other page, closes no upper level, allocates only frames that were
      not in use (none in a context switch), and leaves the table a tree. */
  lemma PtWalkTouchesOnePage(m: Memory, root: Frame, path: Labels, addr: nat, other: nat,
                             remove: bool, fromSwitch: bool, compOff: bool, pool: seq<Frame>)
    requires Tree(m, root, path) && Supply(path, pool, 4, fromSwitch)
    ensures var m' := PtWalk(m, root, addr, remove, fromSwitch, compOff, pool);
            var path' := Relabel(m, path, root, Path(addr), fromSwitch, pool);
            var before, after := Lookup(m, root, Path(other)), Lookup(m', root, Path(other));
            && Tree(m', root, path')
            && path.Keys <= path'.Keys && (fromSwitch ==> path' == path)
            && (PageOf(other) != PageOf(addr) ==> after == before)
            && (PageOf(other) == PageOf(addr) ==>
                  UpperOpen(m', root, Path(other)) && LeafAfter(before, remove, fromSwitch, compOff, path, after))
            && (UpperOpen(m, root, Path(other)) ==> UpperOpen(m', root, Path(other)))
  {
    var idxs, q := Path(addr), Path(other);
    PathNamesPage(addr, other);
    assert path[root] == [] && |idxs| == 4;
    hide Path, PageOf, Tree, Walk, Relabel, Lookup, UpperOpen, LeafAfter;
    WalkKeepsTree(m, root, path, root, idxs, remove, fromSwitch, compOff, pool);
    RelabelGrows(m, path, root, idxs, fromSwitch, pool);
    if q == idxs {
      OwnPage(m, root, path, root, idxs, remove, fromSwitch, compOff, pool);
      WalkOpens(m, root, path, root, idxs, remove, fromSwitch, compOff, pool);
    } else {
      OtherPagesUnchanged(m, root, path, root, idxs, q, remove, fromSwitch, compOff, pool);
      if UpperOpen(m, root, q) {
        WalkKeepsOpen(m, root, path, root, idxs, q, remove, fromSwitch, compOff, pool);
      }
    }
  }
}
