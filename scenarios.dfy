/** Whole editing sessions driven through the editor object, with the
    formula's LaTeX they end in. Ids are the allocation order: the root
    container is 0 and its seed text block 1, and a block added next takes
    2, its `n` slot containers 3 to `2 + n`, and their seeds after them. */
module Scenarios {
  import opened Blocks
  import opened Children
  import opened Arena
  import opened Latex
  import opened Edits
  import opened Editor

  /** Container `x`, owned by block 2, holds only its seed, the empty text
      block `x + n`. */
  predicate HoldsSeed(t: Store, x: Id, n: nat)
  {
    && x in t.containers && t.containers[x] == ContainerRec(Some(2), [x + n])
    && x + n in t.blocks && t.blocks[x + n] == BlockRec(x, TextShape("", ""))
  }

  /** What the first add of a structural block of kind `k` to a new editor
      leaves outside the root container, for either selection: the block
      is 2 and its slots are 3, 4 (and 5), each holding its seed. */
  predicate FirstBuilt(t: Store, k: Kind)
  {
    var n := Arity(k);
    && Valid(t) && t.root == 0 && 0 in t.containers && t.next == 3 + 2 * n
    && 1 in t.blocks && t.blocks[1].shape == TextShape("", "")
    && 2 in t.blocks && t.blocks[2] == BlockRec(0, FreshShape(k, 2))
    && HoldsSeed(t, 3, n) && HoldsSeed(t, 4, n) && (k == Int ==> HoldsSeed(t, 5, n))
  }

  /** With the root's seed text block selected, the first add replaces it:
      the root holds only the new block. */
  lemma FirstReplace(k: Kind)
    requires k != Text
    ensures var t := Added(Initial(), Selected(1), k);
            FirstBuilt(t, k) && t.containers[0].children == [2]
  {
    assert Replaced([1], 1, 2) == [2];
    var s, sel := Initial(), Selected(1);
    var s1 := Spawned(s, k, 0);
    FirstSpawn(k);
    assert SelectsEmptyText(s1, sel);
    FirstInserted(k, sel);
  }

  /** With the initial selection, the first add appends after the root's
      seed text block. */
  lemma FirstAppend(k: Kind)
    requires k != Text
    ensures var t := Added(Initial(), Focus(0), k);
            FirstBuilt(t, k) && t.containers[0].children == [1, 2]
  {
    assert [1] + [2] == [1, 2];
    var s, sel := Initial(), Focus(0);
    var s1 := Spawned(s, k, 0);
    FirstSpawn(k);
    FirstInserted(k, sel);
  }

  /** The first add is the insertion of block 2 into the spawned store,
      which keeps every record outside the root container. */
  lemma FirstInserted(k: Kind, sel: Selection)
    requires k != Text && (sel == Selected(1) || sel == Focus(0))
    requires SelectionOk(Spawned(Initial(), k, 0), sel)
    ensures var s1 := Spawned(Initial(), k, 0);
            && Valid(s1) && SelectionOk(s1, sel)
            && Added(Initial(), sel, k) == Inserted(s1, sel, 2)
            && FirstBuilt(Inserted(s1, sel, 2), k)
  {
    var s := Initial();
    var s1 := Spawned(s, k, 0);
    FirstSpawn(k);
    InsertedValid(s1, sel, 2);
    var t := Inserted(s1, sel, 2);
    SeedsKept(s1, t, Arity(k));
  }

  /** Seeds outside the root survive an edit that changes only the root. */
  lemma SeedsKept(s1: Store, t: Store, n: nat)
    requires t.blocks == s1.blocks
    requires forall x | x in s1.containers && x != 0 :: x in t.containers && t.containers[x] == s1.containers[x]
    ensures forall x | x != 0 && HoldsSeed(s1, x, n) :: HoldsSeed(t, x, n)
  {
  }

  /** The store right after the first block of kind `k` is built, before it
      is added anywhere. */
  lemma FirstSpawn(k: Kind)
    requires k != Text
    ensures var s1, n := Spawned(Initial(), k, 0), Arity(k);
            && Valid(s1) && s1.root == 0 && s1.next == 3 + 2 * n
            && 0 in s1.containers && s1.containers[0] == ContainerRec(None, [1])
            && 1 in s1.blocks && s1.blocks[1] == BlockRec(0, TextShape("", ""))
            && 2 in s1.blocks && s1.blocks[2] == BlockRec(0, FreshShape(k, 2))
            && HoldsSeed(s1, 3, n) && HoldsSeed(s1, 4, n) && (k == Int ==> HoldsSeed(s1, 5, n))
  {
    FirstSpawnRecords(k);
    FirstSeed(k, 0);
    FirstSeed(k, 1);
    if k == Int {
      FirstSeed(k, 2);
    }
  }

  /** The first block built keeps the initial records and sits under id 2. */
  lemma FirstSpawnRecords(k: Kind)
    ensures var s1 := Spawned(Initial(), k, 0);
            && Valid(s1) && s1.root == 0 && s1.next == 3 + 2 * Arity(k)
            && 0 in s1.containers && s1.containers[0] == ContainerRec(None, [1])
            && 1 in s1.blocks && s1.blocks[1] == BlockRec(0, TextShape("", ""))
            && 2 in s1.blocks && s1.blocks[2] == BlockRec(0, FreshShape(k, 2))
  {
    var s := Initial();
    assert ContainerOk(s, 0);
    SpawnedValid(s, k, 0);
    SpawnedFrame(s, k, 0);
  }

  /** Slot `j` of the first block built is container `3 + j`, holding its seed. */
  lemma FirstSeed(k: Kind, j: nat)
    requires j < Arity(k)
    ensures HoldsSeed(Spawned(Initial(), k, 0), 3 + j, Arity(k))
  {
    assert Initial().next == 2;
    SpawnedSeedAt(Initial(), k, 0, j);
  }

  /** A text block holding `t` renders as `{t}`. */
  lemma OneText(s: Store, c: Id, b: Id, t: string)
    requires Valid(s) && c in s.containers && s.containers[c].children == [b]
    requires b in s.blocks && s.blocks[b].shape == TextShape(t, DisplayText(t)) && t != ""
    ensures ContainerLatex(AbsContainer(s, c)) == "{" + t + "}"
  {
    assert ContainerOk(s, c);
    assert AbsContainer(s, c).children == AbsList(s, [b], c);
    assert AbsBlock(s, b) == TextBlock(t, DisplayText(t));
    var bs := [TextBlock(t, DisplayText(t))];
    assert AbsContainer(s, c).children == bs;
    assert bs[1..] == [];
    assert Concat(bs) == BlockLatex(bs[0]) + Concat(bs[1..]);
  }

  /** A container holding one block renders as that block. */
  lemma OneBlock(s: Store, c: Id, b: Id)
    requires Valid(s) && c in s.containers && s.containers[c].children == [b]
    ensures b in s.blocks && ContainerLatex(AbsContainer(s, c)) == BlockLatex(AbsBlock(s, b))
  {
    assert ContainerOk(s, c);
    assert AbsContainer(s, c).children == AbsList(s, [b], c);
    var bs := [AbsBlock(s, b)];
    assert AbsContainer(s, c).children == bs;
    assert bs[1..] == [];
    assert Concat(bs) == BlockLatex(bs[0]) + Concat(bs[1..]);
  }

  /** Container `x` holds only the text block `y`, committed as `t`. */
  predicate HoldsText(s: Store, x: Id, y: Id, t: string)
  {
    && x in s.containers && s.containers[x].children == [y]
    && y in s.blocks && s.blocks[y].shape == TextShape(t, DisplayText(t))
  }

  /** Committing `raw` into the seed `x + n` of container `x` fills that
      container, and leaves every other record as it was. */
  lemma CommitSeed(t: Store, x: Id, n: nat, raw: string)
    requires Valid(t) && HoldsSeed(t, x, n)
    ensures var u := Committed(t, x + n, raw);
            && Valid(u) && u.containers == t.containers && u.root == t.root
            && (forall y | y in t.blocks && y != x + n :: y in u.blocks && u.blocks[y] == t.blocks[y])
            && HoldsText(u, x, x + n, raw)
  {
    CommittedAbs(t, x + n, raw);
  }

  /** Select the seed text block, add a fraction, type "a" above the line
      and "b" below it. */
  method FractionSession() returns (latex: string)
    ensures latex == "\\dfrac{{a}}{{b}}"
  {
    var f := new Formula();
    f.Select(1);
    FirstReplace(Frac);
    var b := f.AddBlock(Frac);
    FractionLatex(f.store);
    f.Commit(5, "a");
    f.Commit(6, "b");
    latex := f.ToLatex();
  }

  /** After the first add replaced the root's seed by a fraction, typing
      "a" into its numerator's seed and "b" into its denominator's renders
      as `\dfrac{{a}}{{b}}`. */
  lemma FractionLatex(t: Store)
    requires FirstBuilt(t, Frac) && t.containers[0].children == [2]
    ensures var s := Committed(Committed(t, 5, "a"), 6, "b");
            Valid(s) && ContainerLatex(AbsContainer(s, s.root)) == "\\dfrac{{a}}{{b}}"
  {
    CommitSeed(t, 3, 2, "a");
    var t1 := Committed(t, 5, "a");
    CommitSeed(t1, 4, 2, "b");
    var s := Committed(t1, 6, "b");
    assert HoldsText(s, 3, 5, "a");
    FractionShown(s);
  }

  lemma FractionShown(s: Store)
    requires Valid(s) && s.root == 0 && 0 in s.containers && s.containers[0].children == [2]
    requires 2 in s.blocks && s.blocks[2].shape == FracShape(3, 4)
    requires HoldsText(s, 3, 5, "a") && HoldsText(s, 4, 6, "b")
    ensures ContainerLatex(AbsContainer(s, s.root)) == "\\dfrac{{a}}{{b}}"
  {
    OneText(s, 3, 5, "a");
    OneText(s, 4, 6, "b");
    var top := AbsBlock(s, 2);
    assert top == FracBlock(AbsContainer(s, 3), AbsContainer(s, 4));
    OneBlock(s, 0, 2);
  }

  /** A container holding two blocks renders as the one then the other. */
  lemma TwoBlocks(s: Store, c: Id, a: Id, b: Id)
    requires Valid(s) && c in s.containers && s.containers[c].children == [a, b]
    ensures a in s.blocks && b in s.blocks
    ensures ContainerLatex(AbsContainer(s, c)) == BlockLatex(AbsBlock(s, a)) + BlockLatex(AbsBlock(s, b))
  {
    assert ContainerOk(s, c);
    assert AbsContainer(s, c).children == AbsList(s, [a, b], c);
    var bs := [AbsBlock(s, a), AbsBlock(s, b)];
    assert AbsContainer(s, c).children == bs;
    assert bs[1..] == [bs[1]] && bs[1..][1..] == [];
    assert Concat(bs[1..]) == BlockLatex(bs[1]) + Concat(bs[1..][1..]);
    assert Concat(bs) == BlockLatex(bs[0]) + Concat(bs[1..]);
  }

  /** Select the seed text block, add an integral, type "1" as its upper
      bound, "x" as its integrand and "0" as its lower bound. */
  method IntegralSession() returns (latex: string)
    ensures latex == "\\int^{1}_{0}{x}"
  {
    var f := new Formula();
    f.Select(1);
    FirstReplace(Int);
    var b := f.AddBlock(Int);
    IntegralLatex(f.store);
    f.Commit(6, "1");
    f.Commit(7, "x");
    f.Commit(8, "0");
    latex := f.ToLatex();
  }

  /** After the first add replaced the root's seed by an integral, typing
      "1", "x" and "0" into the seeds of its upper bound, integrand and
      lower bound renders as `\int^{1}_{0}{x}`: the bounds come first. */
  lemma IntegralLatex(t: Store)
    requires FirstBuilt(t, Int) && t.containers[0].children == [2]
    ensures var s := Committed(Committed(Committed(t, 6, "1"), 7, "x"), 8, "0");
            Valid(s) && ContainerLatex(AbsContainer(s, s.root)) == "\\int^{1}_{0}{x}"
  {
    CommitSeed(t, 3, 3, "1");
    var t1 := Committed(t, 6, "1");
    CommitSeed(t1, 4, 3, "x");
    var t2 := Committed(t1, 7, "x");
    CommitSeed(t2, 5, 3, "0");
    var s := Committed(t2, 8, "0");
    assert HoldsText(s, 3, 6, "1") && HoldsText(s, 4, 7, "x");
    IntegralShown(s);
  }

  lemma IntegralShown(s: Store)
    requires Valid(s) && s.root == 0 && 0 in s.containers && s.containers[0].children == [2]
    requires 2 in s.blocks && s.blocks[2].shape == IntShape(3, 4, 5)
    requires HoldsText(s, 3, 6, "1") && HoldsText(s, 4, 7, "x") && HoldsText(s, 5, 8, "0")
    ensures ContainerLatex(AbsContainer(s, s.root)) == "\\int^{1}_{0}{x}"
  {
    OneText(s, 3, 6, "1");
    OneText(s, 4, 7, "x");
    OneText(s, 5, 8, "0");
    var top := AbsBlock(s, 2);
    assert top == IntBlock(AbsContainer(s, 3), AbsContainer(s, 4), AbsContainer(s, 5));
    OneBlock(s, 0, 2);
  }

  /** With the initial selection, adding a superscript appends it after the
      root's seed text block, which renders as nothing; type "x" as the base
      and "2" as the exponent. */
  method SuperscriptSession() returns (latex: string)
    ensures latex == "{{x}^{2}}"
  {
    var f := new Formula();
    FirstAppend(Sup);
    var b := f.AddBlock(Sup);
    SuperscriptLatex(f.store);
    f.Commit(5, "x");
    f.Commit(6, "2");
    latex := f.ToLatex();
  }

  /** After the first add appended a superscript to the root, typing "x"
      into its base's seed and "2" into its exponent's renders as
      `{{x}^{2}}`: the root's untouched seed adds nothing. */
  lemma SuperscriptLatex(t: Store)
    requires FirstBuilt(t, Sup) && t.containers[0].children == [1, 2]
    ensures var s := Committed(Committed(t, 5, "x"), 6, "2");
            Valid(s) && ContainerLatex(AbsContainer(s, s.root)) == "{{x}^{2}}"
  {
    CommitSeed(t, 3, 2, "x");
    var t1 := Committed(t, 5, "x");
    CommitSeed(t1, 4, 2, "2");
    var s := Committed(t1, 6, "2");
    assert HoldsText(s, 3, 5, "x");
    SuperscriptShown(s);
  }

  lemma SuperscriptShown(s: Store)
    requires Valid(s) && s.root == 0 && 0 in s.containers && s.containers[0].children == [1, 2]
    requires 1 in s.blocks && s.blocks[1].shape == TextShape("", "")
    requires 2 in s.blocks && s.blocks[2].shape == SupShape(3, 4)
    requires HoldsText(s, 3, 5, "x") && HoldsText(s, 4, 6, "2")
    ensures ContainerLatex(AbsContainer(s, s.root)) == "{{x}^{2}}"
  {
    OneText(s, 3, 5, "x");
    OneText(s, 4, 6, "2");
    var top := AbsBlock(s, 2);
    assert top == SupBlock(AbsContainer(s, 3), AbsContainer(s, 4));
    assert AbsBlock(s, 1) == EmptyText();
    TwoBlocks(s, 0, 1, 2);
  }

  /** Select the seed text block, add a fraction, then press backspace in
      its empty numerator: the numerator's container empties, so the whole
      fraction is replaced in the root by a new empty text block (id 7). */
  method CollapseSession() returns (latex: string, rootChildren: seq<Id>)
    ensures latex == "" && rootChildren == [7]
  {
    var f := new Formula();
    f.Select(1);
    FirstReplace(Frac);
    var b := f.AddBlock(Frac);
    CollapseLatex(f.store);
    f.KeyDown(5, "", 8);
    latex := f.ToLatex();
    rootChildren := f.store.containers[0].children;
  }

  /** Removing the fraction's numerator seed (block 5, in container 3)
      collapses the fraction into a new empty text block 7. */
  lemma CollapseLatex(t: Store)
    requires Valid(t) && t.root == 0 && 0 in t.containers && t.containers[0].children == [2]
    requires t.next == 7 && 2 in t.blocks && t.blocks[2] == BlockRec(0, FracShape(3, 4))
    requires HoldsSeed(t, 3, 2)
    ensures ParentOf(t, 5) == 3
    ensures var u := RemovedFrom(t, 3, 5);
            && Valid(u) && u.root == 0 && 0 in u.containers && u.containers[0].children == [7]
            && ContainerLatex(AbsContainer(u, u.root)) == ""
  {
    assert Spliced([5], 5) == [];
    assert Collapses(t, 3, 5);
    RemovedCollapses(t, 3, 5);
    var u := RemovedFrom(t, 3, 5);
    assert Replaced([2], 2, 7) == [7];
    OneBlock(u, 0, 7);
  }
}
