/** The live, mutable formula tree as an arena: every block and container
    the editor has ever created is a record under its allocation id, and
    references between them (children, slots, back-references) are ids.
    Ids come from one counter, so a container's children and a block's slots
    always carry larger ids than their owner: the tree is acyclic by
    construction, and the value it denotes is computed by recursion on
    `next - id`. Records are never deleted: a block that was removed from
    its container still exists and keeps its last back-reference, as a
    detached object does in formula.js. */
module Arena {
  import opened Blocks

  type Id = nat

  datatype Option<T> = None | Some(value: T)

  /** A block record: its own fields, with slots as container ids. */
  datatype Shape =
    | TextShape(text: string, displayText: string)
    | FracShape(up: Id, down: Id)
    | SupShape(base: Id, sup: Id)
    | SubShape(base: Id, sub: Id)
    | IntShape(up: Id, mid: Id, down: Id)

  datatype BlockRec = BlockRec(parentContainer: Id, shape: Shape)

  /** `parentBlock` is absent only for the root container. */
  datatype ContainerRec = ContainerRec(parentBlock: Option<Id>, children: seq<Id>)

  datatype Store = Store(blocks: map<Id, BlockRec>, containers: map<Id, ContainerRec>, root: Id, next: Id)

  function SlotIds(sh: Shape): seq<Id>
  {
    match sh
    case TextShape(_, _) => []
    case FracShape(u, d) => [u, d]
    case SupShape(base, sup) => [base, sup]
    case SubShape(base, sub) => [base, sub]
    case IntShape(u, m, d) => [u, m, d]
  }

  predicate BlockOk(s: Store, b: Id)
    requires b in s.blocks
  {
    var r := s.blocks[b];
    && b < s.next
    && r.parentContainer in s.containers && r.parentContainer < b
    && forall x | x in SlotIds(r.shape) :: x in s.containers && b < x
  }

  predicate ContainerOk(s: Store, c: Id)
    requires c in s.containers
  {
    var r := s.containers[c];
    && c < s.next
    && (r.parentBlock.None? <==> c == s.root)
    && (r.parentBlock.Some? ==>
          var p := r.parentBlock.value;
          p in s.blocks && p < c && c in SlotIds(s.blocks[p].shape))
    && forall x | x in r.children :: x in s.blocks && c < x
  }

  /** The arena invariant: every reference resolves, points to a newer
      record (children and slots) or an older one (back-references), and
      every container's back-reference names a block that owns it. */
  predicate Valid(s: Store)
  {
    && s.root in s.containers
    && (forall b {:trigger BlockOk(s, b)} | b in s.blocks :: BlockOk(s, b))
    && (forall c {:trigger ContainerOk(s, c)} | c in s.containers :: ContainerOk(s, c))
  }

  /** Every record's id is below the counter, so the counter is a fresh id. */
  lemma IdsBelowNext(s: Store)
    requires Valid(s)
    ensures forall x | x in s.blocks :: x < s.next
    ensures forall x | x in s.containers :: x < s.next
  {
    forall x | x in s.blocks ensures x < s.next { assert BlockOk(s, x); }
    forall x | x in s.containers ensures x < s.next { assert ContainerOk(s, x); }
  }

  /** A block's `parent_container`: the container it was created in. */
  function ParentOf(s: Store, b: Id): (c: Id)
    requires Valid(s) && b in s.blocks
    ensures c in s.containers && c < b
  {
    assert BlockOk(s, b);
    s.blocks[b].parentContainer
  }

  /** No id occurs twice in the list. */
  predicate NoDup(xs: seq<Id>)
  {
    forall i, j | 0 <= i < j < |xs| :: xs[i] != xs[j]
  }

  /** Container `c` lists each child once, and each child's
      `parent_container` is `c`. */
  predicate ChildrenLinked(s: Store, c: Id)
    requires c in s.containers
  {
    var ids := s.containers[c].children;
    && NoDup(ids)
    && forall x | x in ids :: x in s.blocks && s.blocks[x].parentContainer == c
  }

  /** Block `b` owns each of its slots once, and each slot's `parent_block`
      is `b`. */
  predicate SlotsLinked(s: Store, b: Id)
    requires b in s.blocks
  {
    var ids := SlotIds(s.blocks[b].shape);
    && NoDup(ids)
    && forall x | x in ids :: x in s.containers && s.containers[x].parentBlock == Some(b)
  }

  /** The back-references agree with the forward ones: what `remove` reaches
      through `parent_container` and the collapse through `parent_block` is
      the container or block that actually lists the record. */
  predicate Linked(s: Store)
  {
    && (forall c {:trigger ChildrenLinked(s, c)} | c in s.containers :: ChildrenLinked(s, c))
    && (forall b {:trigger SlotsLinked(s, b)} | b in s.blocks :: SlotsLinked(s, b))
  }

  /** `b` is in no container's child list: it is new, or it was removed. */
  predicate Unlisted(s: Store, b: Id)
  {
    forall c | c in s.containers :: b !in s.containers[c].children
  }

  /** A list without repeats holds each of its elements exactly once. */
  lemma NoDupOnce(xs: seq<Id>, x: Id)
    requires NoDup(xs) && x in xs
    ensures multiset(xs)[x] == 1
  {
    var i :| 0 <= i < |xs| && xs[i] == x;
    assert xs == xs[..i] + [x] + xs[i + 1..];
    assert x !in xs[..i] by {
      forall k | 0 <= k < i ensures xs[..i][k] != x { assert xs[k] != xs[i]; }
    }
    assert x !in xs[i + 1..] by {
      forall k | i < k < |xs| ensures xs[k] != x { assert xs[i] != xs[k]; }
    }
  }

  /** In a linked arena a block is listed in at most one container, its own
      `parent_container`, and there exactly once. */
  lemma ListedOnce(s: Store, b: Id, c: Id)
    requires Valid(s) && Linked(s) && c in s.containers && b in s.containers[c].children
    ensures b in s.blocks && c == ParentOf(s, b)
    ensures multiset(s.containers[c].children)[b] == 1
    ensures forall d | d in s.containers && d != c :: b !in s.containers[d].children
  {
    assert ChildrenLinked(s, c);
    NoDupOnce(s.containers[c].children, b);
    forall d | d in s.containers && d != c
      ensures b !in s.containers[d].children
    {
      assert ChildrenLinked(s, d);
    }
  }

  /** The value tree a block record denotes. */
  function AbsBlock(s: Store, b: Id): Block
    requires Valid(s) && b in s.blocks
    decreases s.next - b, 0
  {
    assert BlockOk(s, b);
    match s.blocks[b].shape
    case TextShape(t, d) => TextBlock(t, d)
    case FracShape(u, d) => FracBlock(AbsContainer(s, u), AbsContainer(s, d))
    case SupShape(base, sup) => SupBlock(AbsContainer(s, base), AbsContainer(s, sup))
    case SubShape(base, sub) => SubBlock(AbsContainer(s, base), AbsContainer(s, sub))
    case IntShape(u, m, d) => IntBlock(AbsContainer(s, u), AbsContainer(s, m), AbsContainer(s, d))
  }

  /** The value tree a container record denotes. */
  function AbsContainer(s: Store, c: Id): Container
    requires Valid(s) && c in s.containers
    decreases s.next - c, 1
  {
    assert ContainerOk(s, c);
    Container(AbsList(s, s.containers[c].children, c))
  }

  /** The values of a list of block ids that are all newer than `lo`. */
  function AbsList(s: Store, ids: seq<Id>, lo: Id): (bs: seq<Block>)
    requires Valid(s) && lo < s.next
    requires forall x | x in ids :: x in s.blocks && lo < x
    ensures |bs| == |ids|
    ensures forall i | 0 <= i < |ids| :: bs[i] == AbsBlock(s, ids[i])
    decreases s.next - lo, 0, |ids|
  {
    if ids == [] then []
    else
      assert BlockOk(s, ids[0]);
      [AbsBlock(s, ids[0])] + AbsList(s, ids[1..], lo)
  }

  /** `t` keeps every record of `s` whose id is at least `lo`. */
  ghost predicate Preserves(s: Store, t: Store, lo: Id)
  {
    && s.next <= t.next
    && (forall b | b in s.blocks && lo <= b :: b in t.blocks && t.blocks[b] == s.blocks[b])
    && (forall c | c in s.containers && lo <= c :: c in t.containers && t.containers[c] == s.containers[c])
  }

  /** A record's value depends only on records newer than it: an edit that
      keeps every record from `lo` on keeps the value of each of them. */
  lemma {:induction false} FrameBlock(s: Store, t: Store, lo: Id, b: Id)
    requires Valid(s) && Valid(t) && Preserves(s, t, lo)
    requires b in s.blocks && lo <= b
    ensures b in t.blocks && AbsBlock(t, b) == AbsBlock(s, b)
    decreases s.next - b, 0
  {
    assert BlockOk(s, b);
    var sh := s.blocks[b].shape;
    assert t.blocks[b].shape == sh;
    forall x | x in SlotIds(sh)
      ensures x in t.containers && AbsContainer(t, x) == AbsContainer(s, x)
    {
      FrameContainer(s, t, lo, x);
    }
    match sh
    case TextShape(_, _) =>
    case FracShape(u, d) =>
      assert u in SlotIds(sh) && d in SlotIds(sh);
    case SupShape(base, sup) =>
      assert base in SlotIds(sh) && sup in SlotIds(sh);
    case SubShape(base, sub) =>
      assert base in SlotIds(sh) && sub in SlotIds(sh);
    case IntShape(u, m, d) =>
      assert u in SlotIds(sh) && m in SlotIds(sh) && d in SlotIds(sh);
  }

  lemma {:induction false} FrameContainer(s: Store, t: Store, lo: Id, c: Id)
    requires Valid(s) && Valid(t) && Preserves(s, t, lo)
    requires c in s.containers && lo <= c
    ensures c in t.containers && AbsContainer(t, c) == AbsContainer(s, c)
    decreases s.next - c, 1
  {
    assert ContainerOk(s, c);
    var ids := s.containers[c].children;
    assert t.containers[c].children == ids;
    FrameList(s, t, lo, ids, c);
    assert AbsContainer(t, c).children == AbsList(t, ids, c);
  }

  lemma {:induction false} FrameList(s: Store, t: Store, lo: Id, ids: seq<Id>, p: Id)
    requires Valid(s) && Valid(t) && Preserves(s, t, lo)
    requires p < s.next && forall x | x in ids :: x in s.blocks && p < x && lo <= x
    ensures forall x | x in ids :: x in t.blocks
    ensures AbsList(t, ids, p) == AbsList(s, ids, p)
    decreases s.next - p, 0
  {
    forall i | 0 <= i < |ids|
      ensures ids[i] in t.blocks && AbsBlock(t, ids[i]) == AbsBlock(s, ids[i])
    {
      assert ids[i] in ids && BlockOk(s, ids[i]);
      FrameBlock(s, t, lo, ids[i]);
    }
  }

  /** Container `x` lies in the subtree of block `q`: climbing from `x` by
      `parent_block` and then `parent_container` reaches `q`. */
  ghost predicate ContainerUnder(s: Store, x: Id, q: Id)
    requires Valid(s) && x in s.containers
    decreases x
  {
    assert ContainerOk(s, x);
    match s.containers[x].parentBlock
    case None => false
    case Some(p) => p == q || ContainerUnder(s, ParentOf(s, p), q)
  }

  /** Block `y` is `q` itself or lies in its subtree. */
  ghost predicate BlockUnder(s: Store, y: Id, q: Id)
    requires Valid(s) && y in s.blocks
  {
    y == q || ContainerUnder(s, ParentOf(s, y), q)
  }

  /** A subtree holds only records newer than its root. */
  lemma {:induction false} UnderIsNewer(s: Store, x: Id, q: Id)
    requires Valid(s) && x in s.containers && ContainerUnder(s, x, q)
    ensures q < x
    decreases x
  {
    assert ContainerOk(s, x);
    var p := s.containers[x].parentBlock.value;
    if p != q {
      UnderIsNewer(s, ParentOf(s, p), q);
    }
  }

  /** In a linked arena a block's value depends only on the records of its
      own subtree: an edit that keeps every block record, and every
      container record under `q`, keeps the value of `q` and of everything
      under it. */
  lemma {:induction false} FrameUnderBlock(s: Store, t: Store, q: Id, y: Id)
    requires Valid(s) && Valid(t) && Linked(s) && q in s.blocks
    requires forall b | b in s.blocks :: b in t.blocks && t.blocks[b] == s.blocks[b]
    requires forall x | x in s.containers && ContainerUnder(s, x, q) :: x in t.containers && t.containers[x] == s.containers[x]
    requires y in s.blocks && BlockUnder(s, y, q)
    ensures AbsBlock(t, y) == AbsBlock(s, y)
    decreases s.next - y, 0
  {
    assert BlockOk(s, y) && SlotsLinked(s, y);
    var sh := s.blocks[y].shape;
    forall x | x in SlotIds(sh)
      ensures x in t.containers && AbsContainer(t, x) == AbsContainer(s, x)
    {
      assert ContainerUnder(s, x, q);
      FrameUnderContainer(s, t, q, x);
    }
    match sh
    case TextShape(_, _) =>
    case FracShape(u, d) =>
      assert u in SlotIds(sh) && d in SlotIds(sh);
    case SupShape(base, sup) =>
      assert base in SlotIds(sh) && sup in SlotIds(sh);
    case SubShape(base, sub) =>
      assert base in SlotIds(sh) && sub in SlotIds(sh);
    case IntShape(u, m, d) =>
      assert u in SlotIds(sh) && m in SlotIds(sh) && d in SlotIds(sh);
  }

  lemma {:induction false} FrameUnderContainer(s: Store, t: Store, q: Id, x: Id)
    requires Valid(s) && Valid(t) && Linked(s) && q in s.blocks
    requires forall b | b in s.blocks :: b in t.blocks && t.blocks[b] == s.blocks[b]
    requires forall x | x in s.containers && ContainerUnder(s, x, q) :: x in t.containers && t.containers[x] == s.containers[x]
    requires x in s.containers && ContainerUnder(s, x, q)
    ensures x in t.containers && AbsContainer(t, x) == AbsContainer(s, x)
    decreases s.next - x, 1
  {
    assert ContainerOk(s, x) && ChildrenLinked(s, x);
    var ids := s.containers[x].children;
    forall i | 0 <= i < |ids|
      ensures AbsBlock(t, ids[i]) == AbsBlock(s, ids[i])
    {
      assert ids[i] in ids;
      assert BlockUnder(s, ids[i], q);
      FrameUnderBlock(s, t, q, ids[i]);
    }
    assert AbsContainer(t, x).children == AbsContainer(s, x).children;
  }

  /** `empty()` read off the records: it holds exactly when the container's
      value is empty. */
  function IsEmptyIn(s: Store, c: Id): (r: bool)
    requires Valid(s) && c in s.containers
    ensures r == Empty(AbsContainer(s, c))
  {
    var ids := s.containers[c].children;
    assert ContainerOk(s, c);
    assert |AbsContainer(s, c).children| == |ids|;
    |ids| == 0
    || (|ids| == 1 && s.blocks[ids[0]].shape.TextShape? && s.blocks[ids[0]].shape.text == "")
  }
}
