/** The edits the editor makes to the arena, as transitions from one store
    to the next, and what each does to the tree's value. */
module Edits {
  import opened Blocks
  import opened Children
  import opened Arena
  import opened Latex

  /** Nothing is ever deallocated: `t` has every record of `s`, the same
      root, and a counter that has not gone back. */
  ghost predicate Grows(s: Store, t: Store)
  {
    && s.root == t.root
    && s.next <= t.next
    && s.blocks.Keys <= t.blocks.Keys
    && s.containers.Keys <= t.containers.Keys
  }

  /** The editor's state right after construction: a root container seeded
      with one empty text block. */
  function Initial(): (s: Store)
    ensures Valid(s) && AbsContainer(s, s.root) == FreshContainer()
  {
    var s := Store(map[1 := BlockRec(0, TextShape("", ""))], map[0 := ContainerRec(None, [1])], 0, 2);
    assert BlockOk(s, 1) && ContainerOk(s, 0);
    assert AbsList(s, [1], 0) == [EmptyText()];
    s
  }

  /** The new editor's seed lists its root as its `parent_container`. */
  lemma InitialLinked()
    ensures Linked(Initial())
  {
    var s := Initial();
    assert SlotsLinked(s, 1) && ChildrenLinked(s, 0);
  }

  function WithChildren(s: Store, c: Id, ids: seq<Id>): Store
    requires c in s.containers
  {
    s.(containers := s.containers[c := s.containers[c].(children := ids)])
  }

  /** Rewriting one container's child list (to blocks newer than it) keeps
      the arena valid, and the container then denotes exactly those blocks'
      values: the children's subtrees are untouched. */
  lemma WithChildrenAbs(s: Store, c: Id, ids: seq<Id>)
    requires Valid(s) && c in s.containers
    requires forall x | x in ids :: x in s.blocks && c < x
    ensures var t := WithChildren(s, c, ids);
            && Valid(t) && Grows(s, t) && Preserves(s, t, c + 1) && ContainerOk(s, c)
            && AbsContainer(t, c).children == AbsList(s, ids, c)
  {
    var t := WithChildren(s, c, ids);
    assert ContainerOk(s, c);
    forall b | b in t.blocks
      ensures BlockOk(t, b)
    {
      assert BlockOk(s, b);
    }
    forall x | x in t.containers
      ensures ContainerOk(t, x)
    {
      assert ContainerOk(s, x);
    }
    assert Valid(t);
    assert Preserves(s, t, c + 1);
    FrameList(s, t, c + 1, ids, c);
    assert AbsContainer(t, c).children == AbsList(t, ids, c);
  }

  /** Rewriting one container's child list keeps the links when the new
      list has no repeats and holds only blocks created in that container. */
  lemma WithChildrenLinked(s: Store, c: Id, ids: seq<Id>)
    requires Linked(s) && c in s.containers && NoDup(ids)
    requires forall x | x in ids :: x in s.blocks && s.blocks[x].parentContainer == c
    ensures Linked(WithChildren(s, c, ids))
  {
    var t := WithChildren(s, c, ids);
    forall x | x in t.containers
      ensures ChildrenLinked(t, x)
    {
      if x != c {
        assert ChildrenLinked(s, x);
      }
    }
    forall b | b in t.blocks
      ensures SlotsLinked(t, b)
    {
      assert SlotsLinked(s, b);
    }
  }

  lemma NoDupAppended(ids: seq<Id>, b: Id)
    requires NoDup(ids) && b !in ids
    ensures NoDup(ids + [b])
  {
    forall i, j | 0 <= i < j < |ids + [b]|
      ensures (ids + [b])[i] != (ids + [b])[j]
    {
      if j < |ids| {
        assert ids[i] != ids[j];
      } else {
        assert ids[i] in ids;
      }
    }
  }

  /** Swapping in an id the list does not hold keeps it free of repeats,
      and the swapped-out id leaves it. */
  lemma NoDupReplaced(ids: seq<Id>, a: Id, b: Id)
    requires NoDup(ids) && b !in ids
    ensures NoDup(Replaced(ids, a, b)) && a !in Replaced(ids, a, b)
    ensures forall x | x in Replaced(ids, a, b) :: x in ids || x == b
  {
    var r, i := Replaced(ids, a, b), IndexOf(ids, a);
    forall k, l | 0 <= k < l < |r|
      ensures r[k] != r[l]
    {
      if k != i && l != i {
        assert ids[k] != ids[l];
      } else if k == i {
        assert ids[l] in ids;
      } else {
        assert ids[k] in ids;
      }
    }
    forall x | x in r
      ensures x in ids || x == b
    {
      var k :| 0 <= k < |r| && r[k] == x;
      if k != i {
        assert x == ids[k];
      }
    }
    if a in ids {
      forall k | 0 <= k < |r|
        ensures r[k] != a
      {
        if k != i {
          assert ids[k] != ids[i] by { assert k < i || i < k; }
        } else {
          assert ids[i] == a && b != a;
        }
      }
    }
  }

  /** Splicing keeps a list free of repeats, and the spliced id leaves it. */
  lemma NoDupSpliced(ids: seq<Id>, b: Id)
    requires NoDup(ids)
    ensures NoDup(Spliced(ids, b)) && b !in Spliced(ids, b)
  {
    if b in ids {
      var r, i := Spliced(ids, b), IndexOf(ids, b);
      forall k, l | 0 <= k < l < |r|
        ensures r[k] != r[l]
      {
        var k', l' := if k < i then k else k + 1, if l < i then l else l + 1;
        assert r[k] == ids[k'] && r[l] == ids[l'] && k' < l';
      }
      SplicedMultiset(ids, b);
      NoDupOnce(ids, b);
      assert multiset(r)[b] == 0;
    }
  }

  // ---- BlockContainer.add ----

  function Appended(s: Store, c: Id, b: Id): Store
    requires c in s.containers
  {
    WithChildren(s, c, s.containers[c].children + [b])
  }

  /** Appending keeps every existing child and adds the block at the end;
      the container's LaTeX grows by exactly the block's LaTeX. */
  lemma AppendedAbs(s: Store, c: Id, b: Id)
    requires Valid(s) && c in s.containers && b in s.blocks && c < b
    ensures var t := Appended(s, c, b);
            && Valid(t) && Grows(s, t) && Preserves(s, t, c + 1)
            && AbsContainer(t, c).children == AbsContainer(s, c).children + [AbsBlock(s, b)]
            && ContainerLatex(AbsContainer(t, c)) == ContainerLatex(AbsContainer(s, c)) + BlockLatex(AbsBlock(s, b))
  {
    assert ContainerOk(s, c);
    var ids := s.containers[c].children;
    WithChildrenAbs(s, c, ids + [b]);
    var t := Appended(s, c, b);
    assert AbsContainer(t, c).children == AbsContainer(s, c).children + [AbsBlock(s, b)];
    AppendLatex(AbsContainer(s, c), AbsBlock(s, b));
  }

  /** Appending a block created in `c` and listed nowhere keeps the links. */
  lemma AppendedLinked(s: Store, c: Id, b: Id)
    requires Linked(s) && c in s.containers && b in s.blocks
    requires s.blocks[b].parentContainer == c && Unlisted(s, b)
    ensures Linked(Appended(s, c, b))
  {
    assert ChildrenLinked(s, c);
    var ids := s.containers[c].children;
    NoDupAppended(ids, b);
    WithChildrenLinked(s, c, ids + [b]);
  }

  // ---- BlockContainer.replace ----

  function ReplacedIn(s: Store, c: Id, a: Id, b: Id): Store
    requires c in s.containers
  {
    WithChildren(s, c, Replaced(s.containers[c].children, a, b))
  }

  /** Replacing puts the new block's value at the old block's position and
      leaves every other position alone; an absent block changes nothing. */
  lemma ReplacedInAbs(s: Store, c: Id, a: Id, b: Id)
    requires Valid(s) && c in s.containers && b in s.blocks && c < b
    ensures var t := ReplacedIn(s, c, a, b);
            var ids := s.containers[c].children;
            && Valid(t) && Grows(s, t) && Preserves(s, t, c + 1)
            && var before, after := AbsContainer(s, c).children, AbsContainer(t, c).children;
            && (a in ids ==> after == before[IndexOf(ids, a) := AbsBlock(s, b)])
            && (a !in ids ==> after == before)
  {
    assert ContainerOk(s, c);
    var ids := s.containers[c].children;
    AbsListReplaced(s, ids, c, a, b);
    WithChildrenAbs(s, c, Replaced(ids, a, b));
    var t := ReplacedIn(s, c, a, b);
    assert AbsContainer(s, c).children == AbsList(s, ids, c);
    assert AbsContainer(t, c).children == AbsList(s, Replaced(ids, a, b), c);
  }

  /** What replacing does to the container's LaTeX: the old block's LaTeX,
      between the same prefix and suffix, gives way to the new block's. */
  lemma ReplacedLatex(s: Store, c: Id, a: Id, b: Id)
    requires Valid(s) && c in s.containers && b in s.blocks && c < b
    requires a in s.containers[c].children
    ensures var t := ReplacedIn(s, c, a, b);
            var before := AbsContainer(s, c).children;
            var i := IndexOf(s.containers[c].children, a);
            && Valid(t) && 0 <= i < |before|
            && ContainerLatex(AbsContainer(s, c)) == Concat(before[..i]) + BlockLatex(before[i]) + Concat(before[i + 1..])
            && ContainerLatex(AbsContainer(t, c)) == Concat(before[..i]) + BlockLatex(AbsBlock(s, b)) + Concat(before[i + 1..])
  {
    ReplacedInAbs(s, c, a, b);
    var t := ReplacedIn(s, c, a, b);
    var before := AbsContainer(s, c).children;
    var i := IndexOf(s.containers[c].children, a);
    assert ContainerOk(s, c);
    ConcatAround(before, i);
    ConcatUpdate(before, i, AbsBlock(s, b));
  }

  /** Replacing by a block created in `c` and listed nowhere keeps the
      links, and the replaced block leaves `c`. */
  lemma ReplacedInLinked(s: Store, c: Id, a: Id, b: Id)
    requires Linked(s) && c in s.containers && b in s.blocks
    requires s.blocks[b].parentContainer == c && Unlisted(s, b)
    ensures Linked(ReplacedIn(s, c, a, b))
    ensures a !in ReplacedIn(s, c, a, b).containers[c].children
  {
    assert ChildrenLinked(s, c);
    var ids := s.containers[c].children;
    NoDupReplaced(ids, a, b);
    WithChildrenLinked(s, c, Replaced(ids, a, b));
  }

  lemma AbsListReplaced(s: Store, ids: seq<Id>, lo: Id, a: Id, b: Id)
    requires Valid(s) && lo < s.next && forall x | x in ids :: x in s.blocks && lo < x
    requires b in s.blocks && lo < b
    ensures forall x | x in Replaced(ids, a, b) :: x in s.blocks && lo < x
    ensures a in ids ==> AbsList(s, Replaced(ids, a, b), lo) == AbsList(s, ids, lo)[IndexOf(ids, a) := AbsBlock(s, b)]
    ensures a !in ids ==> AbsList(s, Replaced(ids, a, b), lo) == AbsList(s, ids, lo)
  {
    var r := Replaced(ids, a, b);
    forall x | x in r
      ensures x in s.blocks && lo < x
    {
      var k :| 0 <= k < |r| && r[k] == x;
      if k != IndexOf(ids, a) {
        assert x == ids[k];
      }
    }
    if a in ids {
      var i := IndexOf(ids, a);
      var left, right := AbsList(s, r, lo), AbsList(s, ids, lo)[i := AbsBlock(s, b)];
      assert |left| == |right|;
      forall k | 0 <= k < |left|
        ensures left[k] == right[k]
      {
      }
    }
  }

  /** Splicing a list of ids splices the list of values at the same place. */
  lemma AbsListSpliced(s: Store, ids: seq<Id>, lo: Id, b: Id)
    requires Valid(s) && lo < s.next && forall x | x in ids :: x in s.blocks && lo < x
    ensures forall x | x in Spliced(ids, b) :: x in s.blocks && lo < x
    ensures b in ids ==> var i := IndexOf(ids, b);
                        AbsList(s, Spliced(ids, b), lo) == AbsList(s, ids, lo)[..i] + AbsList(s, ids, lo)[i + 1..]
    ensures b !in ids ==> AbsList(s, Spliced(ids, b), lo) == AbsList(s, ids, lo)
  {
    var r := Spliced(ids, b);
    forall x | x in r
      ensures x in s.blocks && lo < x
    {
      SplicedSubset(ids, b, x);
    }
    if b in ids {
      AbsListSplicedAt(s, ids, lo, b);
    }
  }

  lemma AbsListSplicedAt(s: Store, ids: seq<Id>, lo: Id, b: Id)
    requires Valid(s) && lo < s.next && forall x | x in ids :: x in s.blocks && lo < x
    requires b in ids && forall x | x in Spliced(ids, b) :: x in s.blocks && lo < x
    ensures var i := IndexOf(ids, b);
            AbsList(s, Spliced(ids, b), lo) == AbsList(s, ids, lo)[..i] + AbsList(s, ids, lo)[i + 1..]
  {
    var r, i := Spliced(ids, b), IndexOf(ids, b);
    var all := AbsList(s, ids, lo);
    var left, right := AbsList(s, r, lo), all[..i] + all[i + 1..];
    assert |left| == |right|;
    forall k | 0 <= k < |left|
      ensures left[k] == right[k]
    {
      if k < i {
        assert r[k] == ids[k] && right[k] == all[k];
      } else {
        assert r[k] == ids[k + 1] && right[k] == all[k + 1];
      }
    }
  }

  // ---- new TextBlock(parent) ----

  /** Allocates an empty text block under the next id. */
  function NewText(s: Store, pc: Id): Store
  {
    s.(blocks := s.blocks[s.next := BlockRec(pc, TextShape("", ""))], next := s.next + 1)
  }

  lemma NewTextAbs(s: Store, pc: Id)
    requires Valid(s) && pc in s.containers
    ensures var t := NewText(s, pc);
            && Valid(t) && Grows(s, t) && Preserves(s, t, 0)
            && s.next in t.blocks && s.next !in s.blocks
            && t.blocks[s.next].parentContainer == pc
            && AbsBlock(t, s.next) == EmptyText()
  {
    var t := NewText(s, pc);
    IdsBelowNext(s);
    assert ContainerOk(s, pc);
    forall b | b in t.blocks
      ensures BlockOk(t, b)
    {
      if b != s.next {
        assert BlockOk(s, b);
        assert t.blocks[b] == s.blocks[b];
      }
    }
    forall x | x in t.containers
      ensures ContainerOk(t, x)
    {
      assert ContainerOk(s, x);
      assert t.containers[x] == s.containers[x];
    }
    assert Valid(t);
    assert AbsBlock(t, s.next) == EmptyText();
  }

  /** The new text block is in no list, so the links still hold. */
  lemma NewTextLinked(s: Store, pc: Id)
    requires Valid(s) && Linked(s) && pc in s.containers
    ensures Linked(NewText(s, pc)) && Unlisted(NewText(s, pc), s.next)
  {
    var t := NewText(s, pc);
    IdsBelowNext(s);
    forall x | x in t.containers
      ensures ChildrenLinked(t, x) && s.next !in t.containers[x].children
    {
      assert ChildrenLinked(s, x) && ContainerOk(s, x);
    }
    forall b | b in t.blocks
      ensures SlotsLinked(t, b)
    {
      if b != s.next {
        assert SlotsLinked(s, b);
      }
    }
  }

  // ---- BlockContainer.remove ----

  /** Splices `b` out of `c`; if that leaves `c` with no children and `c`
      belongs to a block, that block is replaced, in its own container, by
      a newly allocated empty text block. */
  function RemovedFrom(s: Store, c: Id, b: Id): Store
    requires Valid(s) && c in s.containers
  {
    var spliced := WithChildren(s, c, Spliced(s.containers[c].children, b));
    var parent := s.containers[c].parentBlock;
    if spliced.containers[c].children == [] && parent.Some? then
      assert ContainerOk(s, c) && BlockOk(s, parent.value);
      var g := s.blocks[parent.value].parentContainer;
      ReplacedIn(NewText(spliced, g), g, parent.value, s.next)
    else
      spliced
  }

  /** Collapsing predicate: the removal empties a container that has an owner. */
  predicate Collapses(s: Store, c: Id, b: Id)
    requires c in s.containers
  {
    Spliced(s.containers[c].children, b) == [] && s.containers[c].parentBlock.Some?
  }

  lemma RemovedValid(s: Store, c: Id, b: Id)
    requires Valid(s) && c in s.containers
    ensures Valid(RemovedFrom(s, c, b)) && Grows(s, RemovedFrom(s, c, b))
  {
    assert ContainerOk(s, c);
    var ids := s.containers[c].children;
    forall x | x in Spliced(ids, b)
      ensures x in s.blocks && c < x
    {
      SplicedSubset(ids, b, x);
    }
    WithChildrenAbs(s, c, Spliced(ids, b));
    var s1 := WithChildren(s, c, Spliced(ids, b));
    if Collapses(s, c, b) {
      var p := s.containers[c].parentBlock.value;
      assert BlockOk(s, p);
      var g := s.blocks[p].parentContainer;
      NewTextAbs(s1, g);
      ReplacedInAbs(NewText(s1, g), g, p, s.next);
    }
  }

  /** Without a collapse, removal drops the block's value from its position
      and keeps the order of the rest; an absent block changes nothing. */
  lemma RemovedAbs(s: Store, c: Id, b: Id)
    requires Valid(s) && c in s.containers && !Collapses(s, c, b)
    ensures var t := RemovedFrom(s, c, b);
            var ids := s.containers[c].children;
            var i := IndexOf(ids, b);
            && Valid(t) && t.blocks == s.blocks
            && (forall x | x in s.containers && x != c :: x in t.containers && t.containers[x] == s.containers[x])
            && var before, after := AbsContainer(s, c).children, AbsContainer(t, c).children;
            && (b in ids ==> |after| == |before| - 1 && after == before[..i] + before[i + 1..])
            && (b !in ids ==> after == before)
  {
    assert ContainerOk(s, c);
    var ids := s.containers[c].children;
    RemovedSplices(s, c, b);
    AbsListSpliced(s, ids, c, b);
    WithChildrenAbs(s, c, Spliced(ids, b));
    var t := RemovedFrom(s, c, b);
    assert AbsContainer(s, c).children == AbsList(s, ids, c);
    assert AbsContainer(t, c).children == AbsList(s, Spliced(ids, b), c);
  }

  /** What removal without a collapse does to the container's LaTeX: the
      removed block's LaTeX is cut out from between the same prefix and
      suffix. */
  lemma RemovedLatex(s: Store, c: Id, b: Id)
    requires Valid(s) && c in s.containers && !Collapses(s, c, b)
    requires b in s.containers[c].children
    ensures var t := RemovedFrom(s, c, b);
            var before := AbsContainer(s, c).children;
            var i := IndexOf(s.containers[c].children, b);
            && Valid(t) && 0 <= i < |before|
            && ContainerLatex(AbsContainer(s, c)) == Concat(before[..i]) + BlockLatex(before[i]) + Concat(before[i + 1..])
            && ContainerLatex(AbsContainer(t, c)) == Concat(before[..i]) + Concat(before[i + 1..])
  {
    RemovedAbs(s, c, b);
    var before := AbsContainer(s, c).children;
    var i := IndexOf(s.containers[c].children, b);
    assert ContainerOk(s, c);
    ConcatAround(before, i);
    ConcatAppend(before[..i], before[i + 1..]);
  }

  /** Without a collapse, removal only rewrites `c`'s child list. */
  lemma RemovedSplices(s: Store, c: Id, b: Id)
    requires Valid(s) && c in s.containers && !Collapses(s, c, b)
    ensures var t := RemovedFrom(s, c, b);
            && t == WithChildren(s, c, Spliced(s.containers[c].children, b))
            && t.blocks == s.blocks
            && (forall x | x in s.containers && x != c :: x in t.containers && t.containers[x] == s.containers[x])
  {
  }

  /** With a collapse, the emptied container stays empty, and the block that
      owned it is replaced at the same position of its own container by a
      fresh empty text block; every other position there is unchanged. */
  lemma RemovedCollapses(s: Store, c: Id, b: Id)
    requires Valid(s) && c in s.containers && Collapses(s, c, b)
    ensures var t := RemovedFrom(s, c, b);
            var p := s.containers[c].parentBlock.value;
            && p in s.blocks
            && var g := s.blocks[p].parentContainer;
            && Valid(t) && g in s.containers && g in t.containers && c in t.containers
            && t.containers[c].children == []
            && t.containers[g].children == Replaced(s.containers[g].children, p, s.next)
            && s.next !in s.blocks && s.next in t.blocks
            && t.blocks[s.next].parentContainer == g
            && AbsBlock(t, s.next) == EmptyText()
            && (forall x | x in s.blocks :: x in t.blocks && t.blocks[x] == s.blocks[x])
            && (forall x | x in s.containers && x != c && x != g :: x in t.containers && t.containers[x] == s.containers[x])
  {
    RemovedValid(s, c, b);
    assert ContainerOk(s, c);
    var p := s.containers[c].parentBlock.value;
    assert BlockOk(s, p);
    var g := s.blocks[p].parentContainer;
    var s1 := WithChildren(s, c, []);
    WithChildrenAbs(s, c, []);
    NewTextAbs(s1, g);
    var s2 := NewText(s1, g);
    ReplacedInAbs(s2, g, p, s.next);
    var t := ReplacedIn(s2, g, p, s.next);
    FrameBlock(s2, t, g + 1, s.next);
  }

  /** Removal keeps the links, with or without a collapse. */
  lemma RemovedLinked(s: Store, c: Id, b: Id)
    requires Valid(s) && Linked(s) && c in s.containers
    ensures Linked(RemovedFrom(s, c, b))
  {
    assert ContainerOk(s, c) && ChildrenLinked(s, c);
    var ids := s.containers[c].children;
    NoDupSpliced(ids, b);
    forall x | x in Spliced(ids, b)
      ensures x in s.blocks && c < x && s.blocks[x].parentContainer == c
    {
      SplicedSubset(ids, b, x);
    }
    WithChildrenAbs(s, c, Spliced(ids, b));
    WithChildrenLinked(s, c, Spliced(ids, b));
    var s1 := WithChildren(s, c, Spliced(ids, b));
    if Collapses(s, c, b) {
      var p := s.containers[c].parentBlock.value;
      assert BlockOk(s, p);
      var g := s.blocks[p].parentContainer;
      NewTextAbs(s1, g);
      NewTextLinked(s1, g);
      ReplacedInLinked(NewText(s1, g), g, p, s.next);
    }
  }

  /** Backspace on block `b` removes it from its own `parent_container`;
      in a linked arena that is the only list that can hold it, so
      afterwards `b` is in no list at all, whether or not a collapse
      followed. */
  lemma RemovedUnlists(s: Store, b: Id)
    requires Valid(s) && Linked(s) && b in s.blocks
    ensures var t := RemovedFrom(s, ParentOf(s, b), b);
            Valid(t) && Linked(t) && Unlisted(t, b)
  {
    var c := ParentOf(s, b);
    var t := RemovedFrom(s, c, b);
    RemovedValid(s, c, b);
    RemovedLinked(s, c, b);
    assert ChildrenLinked(s, c);
    NoDupSpliced(s.containers[c].children, b);
    if Collapses(s, c, b) {
      RemovedCollapses(s, c, b);
      var p := s.containers[c].parentBlock.value;
      var g := s.blocks[p].parentContainer;
      assert ContainerOk(s, c) && BlockOk(s, p);
      IdsBelowNext(s);
      forall x | x in t.containers
        ensures b !in t.containers[x].children
      {
        assert ChildrenLinked(s, x);
        if x == g {
          assert ChildrenLinked(s, g);
          forall y | y in Replaced(s.containers[g].children, p, s.next)
            ensures y != b
          {
            ReplacedFrom(s.containers[g].children, p, s.next, y);
          }
        }
      }
    } else {
      RemovedSplices(s, c, b);
      forall x | x in t.containers
        ensures b !in t.containers[x].children
      {
        assert ChildrenLinked(s, x);
      }
    }
  }

  /** What a replaced list holds comes from the old list or is the new id. */
  lemma ReplacedFrom(ids: seq<Id>, a: Id, b: Id, y: Id)
    requires y in Replaced(ids, a, b)
    ensures y in ids || y == b
  {
    var r := Replaced(ids, a, b);
    var k :| 0 <= k < |r| && r[k] == y;
    if k != IndexOf(ids, a) {
      assert y == ids[k];
    }
  }

  /** A collapse whose owner `p` is still listed in its own container `g`:
      the new empty text block takes `p`'s position there, `p` leaves the
      tree, and every other child of `g` keeps its value, because the
      emptied container lies under `p` and under no sibling of it. */
  lemma CollapsedAbs(s: Store, c: Id, b: Id)
    requires Valid(s) && Linked(s) && c in s.containers && Collapses(s, c, b)
    requires var p := s.containers[c].parentBlock.value;
             p in s.blocks && p in s.containers[ParentOf(s, p)].children
    ensures var t := RemovedFrom(s, c, b);
            var p := s.containers[c].parentBlock.value;
            var g := ParentOf(s, p);
            var ids := s.containers[g].children;
            var i := IndexOf(ids, p);
            && Valid(t) && Linked(t) && g in t.containers && Unlisted(t, p)
            && t.containers[g].children == ids[i := s.next]
            && AbsContainer(t, g).children == AbsContainer(s, g).children[i := EmptyText()]
  {
    var p := s.containers[c].parentBlock.value;
    var g := ParentOf(s, p);
    RemovedCollapses(s, c, b);
    RemovedLinked(s, c, b);
    CollapsedUnlists(s, c, b);
    assert ContainerOk(s, g);
    CollapsedValues(s, c, b);
  }

  /** What a collapse does to the LaTeX of the owner's container: the new
      text block is empty, so the owner's LaTeX is cut out from between the
      same prefix and suffix. */
  lemma CollapsedLatex(s: Store, c: Id, b: Id)
    requires Valid(s) && Linked(s) && c in s.containers && Collapses(s, c, b)
    requires var p := s.containers[c].parentBlock.value;
             p in s.blocks && p in s.containers[ParentOf(s, p)].children
    ensures var t := RemovedFrom(s, c, b);
            var p := s.containers[c].parentBlock.value;
            var g := ParentOf(s, p);
            var before := AbsContainer(s, g).children;
            var i := IndexOf(s.containers[g].children, p);
            && Valid(t) && g in t.containers && 0 <= i < |before|
            && ContainerLatex(AbsContainer(s, g)) == Concat(before[..i]) + BlockLatex(before[i]) + Concat(before[i + 1..])
            && ContainerLatex(AbsContainer(t, g)) == Concat(before[..i]) + Concat(before[i + 1..])
  {
    var t := RemovedFrom(s, c, b);
    var p := s.containers[c].parentBlock.value;
    var g := ParentOf(s, p);
    CollapsedValues(s, c, b);
    assert ContainerOk(s, g);
    ConcatDropped(AbsContainer(s, g).children, IndexOf(s.containers[g].children, p));
  }

  /** The values of the owner's container after a collapse, position by
      position. */
  lemma CollapsedValues(s: Store, c: Id, b: Id)
    requires Valid(s) && Linked(s) && c in s.containers && Collapses(s, c, b)
    requires var p := s.containers[c].parentBlock.value;
             p in s.blocks && p in s.containers[ParentOf(s, p)].children
    ensures var t := RemovedFrom(s, c, b);
            var p := s.containers[c].parentBlock.value;
            var g := ParentOf(s, p);
            var ids := s.containers[g].children;
            && Valid(t) && g in t.containers
            && AbsContainer(t, g).children == AbsContainer(s, g).children[IndexOf(ids, p) := EmptyText()]
  {
    var t := RemovedFrom(s, c, b);
    var p := s.containers[c].parentBlock.value;
    var g := ParentOf(s, p);
    var ids := s.containers[g].children;
    var i := IndexOf(ids, p);
    RemovedCollapses(s, c, b);
    assert ContainerOk(s, g) && ContainerOk(t, g) && ChildrenLinked(s, g);
    assert t.containers[g].children == ids[i := s.next];
    var before, after := AbsContainer(s, g).children, AbsContainer(t, g).children;
    forall j | 0 <= j < |ids|
      ensures after[j] == before[i := EmptyText()][j]
    {
      if j != i {
        assert ids[j] != ids[i] by { assert j < i || i < j; }
        CollapseKeepsSibling(s, c, b, ids[j]);
      }
    }
  }

  /** After a collapse the owner is in no list. */
  lemma CollapsedUnlists(s: Store, c: Id, b: Id)
    requires Valid(s) && Linked(s) && c in s.containers && Collapses(s, c, b)
    requires var p := s.containers[c].parentBlock.value;
             p in s.blocks && p in s.containers[ParentOf(s, p)].children
    ensures Unlisted(RemovedFrom(s, c, b), s.containers[c].parentBlock.value)
  {
    var t := RemovedFrom(s, c, b);
    var p := s.containers[c].parentBlock.value;
    var g := ParentOf(s, p);
    RemovedCollapses(s, c, b);
    ListedOnce(s, p, g);
    assert ChildrenLinked(s, g);
    IdsBelowNext(s);
    NoDupReplaced(s.containers[g].children, p, s.next);
    assert ContainerOk(s, c);
  }

  /** A collapse leaves the value of every other child of the owner's
      container alone: the only containers it rewrites are the emptied one,
      under the owner, and the owner's own, older than the child. */
  lemma CollapseKeepsSibling(s: Store, c: Id, b: Id, q: Id)
    requires Valid(s) && Linked(s) && c in s.containers && Collapses(s, c, b)
    requires var p := s.containers[c].parentBlock.value;
             && p in s.blocks && q != p && q in s.blocks
             && q in s.containers[ParentOf(s, p)].children
    ensures var t := RemovedFrom(s, c, b);
            Valid(t) && q in t.blocks && AbsBlock(t, q) == AbsBlock(s, q)
  {
    var t := RemovedFrom(s, c, b);
    var p := s.containers[c].parentBlock.value;
    var g := ParentOf(s, p);
    RemovedCollapses(s, c, b);
    assert ContainerOk(s, g) && ChildrenLinked(s, g);
    assert !ContainerUnder(s, g, q) by {
      if ContainerUnder(s, g, q) {
        UnderIsNewer(s, g, q);
      }
    }
    assert !ContainerUnder(s, c, q);
    FrameUnderBlock(s, t, q, q);
  }

  /** The root has no owner, so removing its last child leaves it empty:
      nothing is collapsed and the whole formula renders as "". */
  lemma RootMayEmpty(s: Store, b: Id)
    requires Valid(s) && s.containers[s.root].children == [b]
    ensures var t := RemovedFrom(s, s.root, b);
            && Valid(t) && t.root == s.root && t.containers[t.root].children == []
            && Empty(AbsContainer(t, t.root)) && ContainerLatex(AbsContainer(t, t.root)) == ""
  {
    assert ContainerOk(s, s.root);
    assert Spliced([b], b) == [];
    RemovedAbs(s, s.root, b);
    var t := RemovedFrom(s, s.root, b);
    assert ContainerOk(t, t.root);
    EmptyLatex(AbsContainer(t, t.root));
  }

  // ---- new XBlock(parent): constructor and create() ----

  /** The slot ids a block allocated under `b` gets: the ids right after
      it, in the order its `create` makes the containers. */
  function FreshShape(k: Kind, b: Id): Shape
  {
    match k
    case Text => TextShape("", "")
    case Frac => FracShape(b + 1, b + 2)
    case Sup => SupShape(b + 1, b + 2)
    case Sub => SubShape(b + 1, b + 2)
    case Int => IntShape(b + 1, b + 2, b + 3)
  }

  /** How many slot containers a block of kind `k` owns. */
  function Arity(k: Kind): nat
  {
    match k
    case Text => 0
    case Int => 3
    case _ => 2
  }

  lemma FreshSlots(k: Kind, b: Id)
    ensures |SlotIds(FreshShape(k, b))| == Arity(k)
    ensures forall x: Id :: x in SlotIds(FreshShape(k, b)) <==> b < x <= b + Arity(k)
  {
  }

  /** Allocates a block of kind `k` whose parent container is `pc`: the
      block under the old `next`, its `n` slot containers under the next
      `n` ids, each owned by it, and then their seeds, one empty text block
      per container, the seed of container `x` under `x + n`. */
  function Spawned(s: Store, k: Kind, pc: Id): Store
  {
    var b, n := s.next, Arity(k);
    var last := b + n;
    var end := last + n;
    Store(s.blocks[b := BlockRec(pc, FreshShape(k, b))]
            + map y: Id | last < y <= end && Between(last, y, end) :: BlockRec(y - n, TextShape("", "")),
          s.containers + map x: Id | b < x <= last && Between(b, x, last) :: ContainerRec(Some(b), [x + n]),
          s.root, end + 1)
  }

  /** `lo < x <= hi`, as a term the verifier can instantiate the range of
      the comprehensions above on. */
  predicate Between(lo: Id, x: Id, hi: Id)
  {
    lo < x <= hi
  }

  /** A seeded container denotes a fresh container. */
  lemma SeededAbs(s: Store, c: Id, y: Id)
    requires Valid(s) && c in s.containers
    requires s.containers[c].children == [y] && y in s.blocks
    requires s.blocks[y].shape == TextShape("", "")
    ensures AbsContainer(s, c) == FreshContainer()
  {
    assert ContainerOk(s, c);
    assert AbsContainer(s, c).children == AbsList(s, [y], c);
  }

  /** Where `Spawned` puts things: slot `j` of the new block `b` is
      container `b + 1 + j`, owned by `b` and holding only its seed, the
      empty text block `b + 1 + j + n`. */
  lemma SpawnedLayout(s: Store, k: Kind, pc: Id, j: nat)
    requires j < Arity(k)
    ensures var t, b, n := Spawned(s, k, pc), s.next, Arity(k);
            var x := b + 1 + j;
            && b in t.blocks && t.blocks[b] == BlockRec(pc, FreshShape(k, b))
            && |SlotIds(FreshShape(k, b))| == n && SlotIds(FreshShape(k, b))[j] == x
            && x in t.containers && t.containers[x] == ContainerRec(Some(b), [x + n])
            && x + n in t.blocks && t.blocks[x + n] == BlockRec(x, TextShape("", ""))
  {
    FreshSlotAt(k, s.next, j);
    SpawnedOwner(s, k, pc);
    SpawnedSeedAt(s, k, pc, j);
  }

  lemma SpawnedOwner(s: Store, k: Kind, pc: Id)
    ensures var t, b := Spawned(s, k, pc), s.next;
            b in t.blocks && t.blocks[b] == BlockRec(pc, FreshShape(k, b))
  {
  }

  lemma SpawnedSeedAt(s: Store, k: Kind, pc: Id, j: nat)
    requires j < Arity(k)
    ensures var t, n := Spawned(s, k, pc), Arity(k);
            var x := s.next + 1 + j;
            && x in t.containers && t.containers[x] == ContainerRec(Some(s.next), [x + n])
            && x + n in t.blocks && t.blocks[x + n] == BlockRec(x, TextShape("", ""))
  {
    var n, x := Arity(k), s.next + 1 + j;
    assert Between(s.next, x, s.next + n);
    assert Between(s.next + n, x + n, s.next + n + n);
  }

  lemma FreshSlotAt(k: Kind, b: Id, j: nat)
    requires j < Arity(k)
    ensures |SlotIds(FreshShape(k, b))| == Arity(k) && SlotIds(FreshShape(k, b))[j] == b + 1 + j
  {
  }

  /** Spawning only adds records, under ids from the old `next` on. */
  lemma SpawnedFrame(s: Store, k: Kind, pc: Id)
    requires Valid(s)
    ensures var t := Spawned(s, k, pc);
            && Grows(s, t) && Preserves(s, t, 0)
            && s.next !in s.blocks && s.next in t.blocks
            && t.blocks[s.next] == BlockRec(pc, FreshShape(k, s.next))
            && (forall x | x in t.blocks && x !in s.blocks :: s.next <= x)
            && (forall x | x in t.containers && x !in s.containers :: s.next < x)
  {
    IdsBelowNext(s);
  }

  lemma SpawnedValid(s: Store, k: Kind, pc: Id)
    requires Valid(s) && pc in s.containers
    ensures Valid(Spawned(s, k, pc))
  {
    SpawnedBlocksOk(s, k, pc);
    SpawnedContainersOk(s, k, pc);
  }

  lemma SpawnedBlocksOk(s: Store, k: Kind, pc: Id)
    requires Valid(s) && pc in s.containers
    ensures var t := Spawned(s, k, pc);
            forall x | x in t.blocks :: BlockOk(t, x)
  {
    var t, b := Spawned(s, k, pc), s.next;
    IdsBelowNext(s);
    FreshSlots(k, b);
    assert ContainerOk(s, pc);
    forall x | x in t.blocks
      ensures BlockOk(t, x)
    {
      if x in s.blocks {
        assert BlockOk(s, x);
      }
    }
  }

  lemma SpawnedContainersOk(s: Store, k: Kind, pc: Id)
    requires Valid(s) && pc in s.containers
    ensures var t := Spawned(s, k, pc);
            forall x | x in t.containers :: ContainerOk(t, x)
  {
    var t, b := Spawned(s, k, pc), s.next;
    IdsBelowNext(s);
    FreshSlots(k, b);
    forall x | x in t.containers
      ensures ContainerOk(t, x)
    {
      if x in s.containers {
        assert ContainerOk(s, x);
      } else {
        assert t.containers[x] == ContainerRec(Some(b), [x + Arity(k)]);
      }
    }
  }

  /** The spawned block denotes a freshly constructed block of kind `k`. */
  lemma SpawnedAbs(s: Store, k: Kind, pc: Id)
    requires Valid(s) && pc in s.containers
    ensures var t := Spawned(s, k, pc);
            && Valid(t) && s.next in t.blocks && AbsBlock(t, s.next) == Fresh(k)
  {
    var t, b := Spawned(s, k, pc), s.next;
    SpawnedValid(s, k, pc);
    SpawnedFrame(s, k, pc);
    forall x | x in SlotIds(FreshShape(k, b))
      ensures x in t.containers && AbsContainer(t, x) == FreshContainer()
    {
      FreshSlots(k, b);
      SpawnedSlotAbs(s, k, pc, x - b - 1);
    }
    FreshShapeAbs(t, k, b);
  }

  /** Spawning keeps the links: each slot is owned by the new block, each
      seed lives in its slot, and the new block itself is in no list yet. */
  lemma SpawnedLinked(s: Store, k: Kind, pc: Id)
    requires Valid(s) && Linked(s)
    ensures Linked(Spawned(s, k, pc)) && Unlisted(Spawned(s, k, pc), s.next)
  {
    SpawnedChildrenLinked(s, k, pc);
    SpawnedSlotsLinked(s, k, pc);
  }

  lemma SpawnedChildrenLinked(s: Store, k: Kind, pc: Id)
    requires Valid(s) && Linked(s)
    ensures var t := Spawned(s, k, pc);
            forall x | x in t.containers :: ChildrenLinked(t, x) && s.next !in t.containers[x].children
  {
    var t, b, n := Spawned(s, k, pc), s.next, Arity(k);
    IdsBelowNext(s);
    forall x | x in t.containers
      ensures ChildrenLinked(t, x) && s.next !in t.containers[x].children
    {
      if x in s.containers {
        assert ChildrenLinked(s, x) && ContainerOk(s, x);
        assert s.containers[x].children == t.containers[x].children;
      } else {
        var j: nat := x - b - 1;
        SpawnedSeedAt(s, k, pc, j);
        assert t.containers[x].children == [x + n];
      }
    }
  }

  lemma SpawnedSlotsLinked(s: Store, k: Kind, pc: Id)
    requires Valid(s) && Linked(s)
    ensures var t := Spawned(s, k, pc);
            forall y | y in t.blocks :: SlotsLinked(t, y)
  {
    var t, b, n := Spawned(s, k, pc), s.next, Arity(k);
    IdsBelowNext(s);
    FreshSlots(k, b);
    SpawnedOwner(s, k, pc);
    forall y | y in t.blocks
      ensures SlotsLinked(t, y)
    {
      if y in s.blocks {
        assert SlotsLinked(s, y) && BlockOk(s, y);
        assert t.blocks[y] == s.blocks[y];
      } else if y == b {
        var ids := SlotIds(FreshShape(k, b));
        forall x | x in ids
          ensures x in t.containers && t.containers[x].parentBlock == Some(b)
        {
          SpawnedSeedAt(s, k, pc, x - b - 1);
        }
      } else {
        assert t.blocks[y].shape == TextShape("", "");
      }
    }
  }

  /** A block laid out as `FreshShape` whose slots all denote fresh
      containers denotes a fresh block. */
  lemma FreshShapeAbs(t: Store, k: Kind, b: Id)
    requires Valid(t) && b in t.blocks && t.blocks[b].shape == FreshShape(k, b)
    requires forall x | x in SlotIds(FreshShape(k, b)) :: x in t.containers && AbsContainer(t, x) == FreshContainer()
    ensures AbsBlock(t, b) == Fresh(k)
  {
    assert b + 1 in SlotIds(FreshShape(k, b)) <== k != Text;
    assert b + 2 in SlotIds(FreshShape(k, b)) <== k != Text;
    assert b + 3 in SlotIds(FreshShape(k, b)) <== k == Int;
  }

  /** Each slot of the spawned block denotes a fresh container. */
  lemma SpawnedSlotAbs(s: Store, k: Kind, pc: Id, j: nat)
    requires Valid(s) && pc in s.containers && j < Arity(k)
    ensures var t, x := Spawned(s, k, pc), s.next + 1 + j;
            && Valid(t) && x in t.containers && AbsContainer(t, x) == FreshContainer()
  {
    SpawnedValid(s, k, pc);
    SpawnedLayout(s, k, pc, j);
    var x := s.next + 1 + j;
    SeededAbs(Spawned(s, k, pc), x, x + Arity(k));
  }

  // ---- TextBlock blur: commit ----

  /** Commits the raw value typed into text block `b`. */
  function Committed(s: Store, b: Id, raw: string): Store
    requires b in s.blocks
  {
    s.(blocks := s.blocks[b := s.blocks[b].(shape := TextShape(raw, DisplayText(raw)))])
  }

  /** The committed block denotes the raw text with its display text; every
      newer record is untouched, and so is every block outside the path
      from the root to `b`. */
  lemma CommittedAbs(s: Store, b: Id, raw: string)
    requires Valid(s) && b in s.blocks && s.blocks[b].shape.TextShape?
    ensures var t := Committed(s, b, raw);
            && Valid(t) && Grows(s, t) && Preserves(s, t, b + 1) && t.containers == s.containers
            && AbsBlock(t, b) == TextBlock(raw, DisplayText(raw))
            && BlockLatex(AbsBlock(t, b)) == (if raw == "" then "" else "{" + raw + "}")
  {
    var t := Committed(s, b, raw);
    forall x | x in t.blocks
      ensures BlockOk(t, x)
    {
      assert BlockOk(s, x);
    }
    forall x | x in t.containers
      ensures ContainerOk(t, x)
    {
      assert ContainerOk(s, x);
    }
  }

  /** Committing text rewrites no reference, so the links still hold. */
  lemma CommittedLinked(s: Store, b: Id, raw: string)
    requires Linked(s) && b in s.blocks && s.blocks[b].shape.TextShape?
    ensures Linked(Committed(s, b, raw))
  {
    var t := Committed(s, b, raw);
    forall x | x in t.containers
      ensures ChildrenLinked(t, x)
    {
      assert ChildrenLinked(s, x);
    }
    forall y | y in t.blocks
      ensures SlotsLinked(t, y)
    {
      assert SlotsLinked(s, y);
    }
  }

  // ---- Formula: selection and add ----

  /** The selection: a block, or only a container to append to. */
  datatype Selection = Focus(container: Id) | Selected(block: Id)

  predicate SelectionOk(s: Store, sel: Selection)
  {
    match sel
    case Focus(c) => c in s.containers
    case Selected(b) => b in s.blocks
  }

  /** The selection's `parent_container`. */
  function SelectionContainer(s: Store, sel: Selection): (c: Id)
    requires Valid(s) && SelectionOk(s, sel)
    ensures c in s.containers
  {
    match sel
    case Focus(c) => c
    case Selected(b) => ParentOf(s, b)
  }

  /** The selection is a text block whose raw text is empty. */
  predicate SelectsEmptyText(s: Store, sel: Selection)
    requires SelectionOk(s, sel)
  {
    sel.Selected? && s.blocks[sel.block].shape.TextShape? && s.blocks[sel.block].shape.text == ""
  }

  /** `Formula.add(block)`: replace a selected empty text block, otherwise
      append to the selection's container. */
  function Inserted(s: Store, sel: Selection, b: Id): Store
    requires Valid(s) && SelectionOk(s, sel)
  {
    var c := SelectionContainer(s, sel);
    if SelectsEmptyText(s, sel) then ReplacedIn(s, c, sel.block, b) else Appended(s, c, b)
  }

  /** `Formula.addXBlock()`: a new block of kind `k` whose parent container
      is the selection's, then `add`. */
  function Added(s: Store, sel: Selection, k: Kind): Store
    requires Valid(s) && SelectionOk(s, sel)
  {
    var c := SelectionContainer(s, sel);
    var s1 := Spawned(s, k, c);
    SpawnedAbs(s, k, c);
    SpawnedFrame(s, k, c);
    Inserted(s1, sel, s.next)
  }

  lemma SelectionGrows(s: Store, t: Store, sel: Selection)
    requires Valid(s) && Valid(t) && SelectionOk(s, sel) && Grows(s, t)
    requires forall x | x in s.blocks :: t.blocks[x] == s.blocks[x]
    ensures SelectionOk(t, sel) && SelectionContainer(t, sel) == SelectionContainer(s, sel)
    ensures SelectsEmptyText(t, sel) == SelectsEmptyText(s, sel)
  {
  }

  lemma InsertedValid(s: Store, sel: Selection, b: Id)
    requires Valid(s) && SelectionOk(s, sel) && b in s.blocks && SelectionContainer(s, sel) < b
    ensures Valid(Inserted(s, sel, b)) && Grows(s, Inserted(s, sel, b))
    ensures Preserves(s, Inserted(s, sel, b), SelectionContainer(s, sel) + 1)
    ensures Inserted(s, sel, b).blocks == s.blocks
    ensures forall x | x in s.containers && x != SelectionContainer(s, sel) ::
              Inserted(s, sel, b).containers[x] == s.containers[x]
  {
    var c := SelectionContainer(s, sel);
    if SelectsEmptyText(s, sel) {
      ReplacedInAbs(s, c, sel.block, b);
    } else {
      AppendedAbs(s, c, b);
    }
  }

  /** `Formula.add` keeps the links when the block was created in the
      selection's container and is not yet listed, as every block that
      `add*Block` builds is. */
  lemma InsertedLinked(s: Store, sel: Selection, b: Id)
    requires Valid(s) && Linked(s) && SelectionOk(s, sel) && b in s.blocks
    requires s.blocks[b].parentContainer == SelectionContainer(s, sel) && Unlisted(s, b)
    ensures Linked(Inserted(s, sel, b))
  {
    var c := SelectionContainer(s, sel);
    if SelectsEmptyText(s, sel) {
      ReplacedInLinked(s, c, sel.block, b);
    } else {
      AppendedLinked(s, c, b);
    }
  }

  /** `add*Block` keeps the links. */
  lemma AddedLinked(s: Store, sel: Selection, k: Kind)
    requires Valid(s) && Linked(s) && SelectionOk(s, sel)
    ensures Linked(Added(s, sel, k))
  {
    var c := SelectionContainer(s, sel);
    SpawnedAbs(s, k, c);
    SpawnedFrame(s, k, c);
    SpawnedLinked(s, k, c);
    var s1 := Spawned(s, k, c);
    SelectionGrows(s, s1, sel);
    InsertedLinked(s1, sel, s.next);
  }

  /** Adding changes no existing container but the selection's, and the new
      block is newer than everything that was there. */
  lemma AddedFrame(s: Store, sel: Selection, k: Kind)
    requires Valid(s) && SelectionOk(s, sel)
    ensures var t := Added(s, sel, k);
            var c := SelectionContainer(s, sel);
            && Valid(t) && Grows(s, t) && SelectionOk(t, sel)
            && s.next in t.blocks && t.blocks[s.next].parentContainer == c
            && AbsBlock(t, s.next) == Fresh(k)
            && (forall x | x in s.blocks :: t.blocks[x] == s.blocks[x])
            && (forall x | x in s.containers && x != c :: t.containers[x] == s.containers[x])
  {
    var c := SelectionContainer(s, sel);
    assert ContainerOk(s, c);
    SpawnedAbs(s, k, c);
    SpawnedFrame(s, k, c);
    var s1 := Spawned(s, k, c);
    SelectionGrows(s, s1, sel);
    InsertedValid(s1, sel, s.next);
    var t := Inserted(s1, sel, s.next);
    FrameBlock(s1, t, c + 1, s.next);
  }

  /** When the selection is not an empty text block, the new block is
      appended: every existing child keeps its place and value. */
  lemma AddedAppends(s: Store, sel: Selection, k: Kind)
    requires Valid(s) && SelectionOk(s, sel) && !SelectsEmptyText(s, sel)
    ensures var t := Added(s, sel, k);
            var c := SelectionContainer(s, sel);
            && Valid(t) && c in t.containers
            && t.containers[c].children == s.containers[c].children + [s.next]
            && AbsContainer(t, c).children == AbsContainer(s, c).children + [Fresh(k)]
  {
    var c := SelectionContainer(s, sel);
    assert ContainerOk(s, c);
    SpawnedAbs(s, k, c);
    SpawnedFrame(s, k, c);
    var s1 := Spawned(s, k, c);
    SelectionGrows(s, s1, sel);
    FrameContainer(s, s1, 0, c);
    AppendedAbs(s1, c, s.next);
  }

  /** When the selection is an empty text block still in its container, the
      new block takes its place: same position, every other child kept. */
  lemma AddedReplaces(s: Store, sel: Selection, k: Kind)
    requires Valid(s) && SelectionOk(s, sel) && SelectsEmptyText(s, sel)
    requires sel.block in s.containers[SelectionContainer(s, sel)].children
    ensures var t := Added(s, sel, k);
            var c := SelectionContainer(s, sel);
            var ids := s.containers[c].children;
            var i := IndexOf(ids, sel.block);
            && Valid(t) && c in t.containers
            && t.containers[c].children == ids[i := s.next]
            && AbsContainer(t, c).children == AbsContainer(s, c).children[i := Fresh(k)]
  {
    var c := SelectionContainer(s, sel);
    assert ContainerOk(s, c);
    SpawnedAbs(s, k, c);
    SpawnedFrame(s, k, c);
    var s1 := Spawned(s, k, c);
    SelectionGrows(s, s1, sel);
    FrameContainer(s, s1, 0, c);
    ReplacedInAbs(s1, c, sel.block, s.next);
  }

  /** Adding at the root selection (the editor's initial one) appends the new
      block's LaTeX to the whole formula's. */
  lemma AddedAtRootLatex(s: Store, k: Kind)
    requires Valid(s)
    ensures var t := Added(s, Focus(s.root), k);
            && Valid(t) && t.root == s.root
            && ContainerLatex(AbsContainer(t, t.root))
               == ContainerLatex(AbsContainer(s, s.root)) + BlockLatex(Fresh(k))
  {
    AddedAppends(s, Focus(s.root), k);
    AppendLatex(AbsContainer(s, s.root), Fresh(k));
    AddedFrame(s, Focus(s.root), k);
  }

  /** Adding with a selected empty text block that is no longer among its
      container's children replaces nothing: no existing container changes,
      and the new block is in no container at all. */
  lemma AddedDetachedIsLost(s: Store, sel: Selection, k: Kind)
    requires Valid(s) && SelectionOk(s, sel) && SelectsEmptyText(s, sel)
    requires sel.block !in s.containers[SelectionContainer(s, sel)].children
    ensures var t := Added(s, sel, k);
            && s.next in t.blocks
            && (forall x | x in s.containers :: x in t.containers && t.containers[x] == s.containers[x])
            && (forall x | x in t.containers :: s.next !in t.containers[x].children)
  {
    var c := SelectionContainer(s, sel);
    SpawnedValid(s, k, c);
    SpawnedFrame(s, k, c);
    var s1 := Spawned(s, k, c);
    SelectionGrows(s, s1, sel);
    var t := Added(s, sel, k);
    assert t == ReplacedIn(s1, c, sel.block, s.next);
    assert s1.containers[c] == s.containers[c];
    assert t.containers == s1.containers by {
      assert s1.containers[c := s1.containers[c].(children := s1.containers[c].children)] == s1.containers;
    }
    IdsBelowNext(s);
    FreshSlots(k, s.next);
    forall x | x in t.containers
      ensures s.next !in t.containers[x].children
    {
      if x in s.containers {
        assert ContainerOk(s, x);
      } else {
        assert t.containers[x].children == [x + Arity(k)];
      }
    }
  }

  /** The selection is not moved by `add`: once a selected empty text block
      has been replaced, it is detached but still selected and still empty,
      so a second add looks for it in its old container, finds nothing to
      replace, and leaves its new block in no container at all. */
  lemma AddAfterReplaceIsLost(s: Store, sel: Selection, k1: Kind, k2: Kind)
    requires Valid(s) && SelectionOk(s, sel) && SelectsEmptyText(s, sel)
    requires multiset(s.containers[SelectionContainer(s, sel)].children)[sel.block] == 1
    ensures var t1 := Added(s, sel, k1);
            && Valid(t1) && SelectionOk(t1, sel)
            && var t2 := Added(t1, sel, k2);
            && t1.next in t2.blocks
            && (forall x | x in t1.containers :: x in t2.containers && t2.containers[x] == t1.containers[x])
            && (forall x | x in t2.containers :: t1.next !in t2.containers[x].children)
  {
    var c := SelectionContainer(s, sel);
    var ids := s.containers[c].children;
    AddedFrame(s, sel, k1);
    AddedReplaces(s, sel, k1);
    var t1 := Added(s, sel, k1);
    IdsBelowNext(s);
    ReplacedMultiset(ids, sel.block, s.next);
    assert t1.containers[c].children == Replaced(ids, sel.block, s.next);
    assert sel.block !in t1.containers[c].children by {
      assert multiset(t1.containers[c].children)[sel.block] == 0;
    }
    SelectionGrows(s, t1, sel);
    AddedDetachedIsLost(t1, sel, k2);
  }
}
