/** The editor object: the arena of blocks and containers it has built, and
    its current selection. Its methods change both in place, one step at a
    time, in the order formula.js takes them, and each is tied to the store
    transition that specifies it in `Edits`. */
module Editor {
  import opened Blocks
  import opened Children
  import opened Arena
  import opened Latex
  import Json
  import opened Edits

  /** Backspace (key code 8) pressed while the text block's editable content
      is empty removes the block. */
  predicate BackspaceRemoves(html: string, keyCode: int)
  {
    html == "" && keyCode == 8
  }

  class Formula {
    var store: Store
    var selected: Selection

    ghost predicate Valid()
      reads this
    {
      Arena.Valid(store) && Linked(store) && SelectionOk(store, selected)
    }

    /** A new editor: a root container seeded with one empty text block, and
        the root as the selection's container. */
    constructor()
      ensures Valid() && store == Initial() && selected == Focus(store.root)
      ensures AbsContainer(store, store.root) == FreshContainer()
    {
      InitialLinked();
      store := Initial();
      selected := Focus(Initial().root);
    }

    /** The whole formula's LaTeX: the root container's, so an empty root
        renders as nothing. */
    function ToLatex(): (r: string)
      requires Valid()
      reads this
      ensures IsEmptyIn(store, store.root) ==> r == ""
    {
      EmptyLatex(AbsContainer(store, store.root));
      ContainerLatex(AbsContainer(store, store.root))
    }

    /** The whole formula's JSON value (before it is stringified). */
    function ToJson(): (r: Json.Json)
      requires Valid()
      reads this
      ensures r.JArray? && |r.items| == |store.containers[store.root].children|
    {
      assert ContainerOk(store, store.root);
      Json.ContainerJson(AbsContainer(store, store.root))
    }

    /** Clicking a text block selects it. */
    method Select(b: Id)
      requires Valid() && b in store.blocks
      modifies this
      ensures Valid() && store == old(store) && selected == Selected(b)
    {
      selected := Selected(b);
    }

    /** Clicking the editor's background selects the root container. */
    method FocusRoot()
      requires Valid()
      modifies this
      ensures Valid() && store == old(store) && selected == Focus(store.root)
    {
      selected := Focus(store.root);
    }

    /** `BlockContainer.add`: push `b` onto `c`'s children. `b` was created
        in `c` and is not listed yet, as every block `Formula.add` gets is. */
    method AppendChild(c: Id, b: Id)
      requires Valid() && c in store.containers && b in store.blocks
      requires store.blocks[b].parentContainer == c && Unlisted(store, b)
      modifies this
      ensures Valid() && selected == old(selected)
      ensures store == Appended(old(store), c, b)
      ensures store.containers[c].children == old(store.containers[c].children) + [b]
      ensures AbsContainer(store, c).children == old(AbsContainer(store, c).children) + [old(AbsBlock(store, b))]
    {
      assert BlockOk(store, b);
      AppendedAbs(store, c, b);
      AppendedLinked(store, c, b);
      var ids := store.containers[c].children;
      store := store.(containers := store.containers[c := store.containers[c].(children := ids + [b])]);
    }

    /** `BlockContainer.replace`: find `a` by identity and overwrite that
        position with `b`; an absent `a` changes nothing. `b` was created in
        `c` and is not listed yet. */
    method ReplaceChild(c: Id, a: Id, b: Id)
      requires Valid() && c in store.containers && b in store.blocks
      requires store.blocks[b].parentContainer == c && Unlisted(store, b)
      modifies this
      ensures Valid() && selected == old(selected)
      ensures store == ReplacedIn(old(store), c, a, b)
      ensures var ids := old(store.containers[c].children);
              && (a in ids ==> AbsContainer(store, c).children
                               == old(AbsContainer(store, c).children)[IndexOf(ids, a) := old(AbsBlock(store, b))])
              && (a !in ids ==> store == old(store))
    {
      assert BlockOk(store, b);
      ReplacedInAbs(store, c, a, b);
      ReplacedInLinked(store, c, a, b);
      var ids := store.containers[c].children;
      var i := IndexOf(ids, a);
      if i >= 0 {
        store := store.(containers := store.containers[c := store.containers[c].(children := ids[i := b])]);
      } else {
        assert store.containers[c := store.containers[c].(children := ids)] == store.containers;
      }
    }

    /** `new TextBlock(pc)`: an empty text block under the next id. */
    method NewTextBlock(pc: Id) returns (t: Id)
      requires Valid() && pc in store.containers
      modifies this
      ensures Valid() && selected == old(selected)
      ensures store == NewText(old(store), pc) && t == old(store.next)
      ensures t !in old(store.blocks) && t in store.blocks && AbsBlock(store, t) == EmptyText()
      ensures store.blocks[t].parentContainer == pc && Unlisted(store, t)
    {
      NewTextAbs(store, pc);
      NewTextLinked(store, pc);
      t := store.next;
      store := NewText(store, pc);
    }

    /** A block's constructor with its `create`: the block, then per slot a
        container seeded with an empty text block. */
    method CreateBlock(k: Kind, pc: Id) returns (b: Id)
      requires Valid() && pc in store.containers
      modifies this
      ensures Valid() && selected == old(selected)
      ensures store == Spawned(old(store), k, pc) && b == old(store.next)
      ensures b !in old(store.blocks) && b in store.blocks && store.blocks[b].parentContainer == pc
      ensures AbsBlock(store, b) == Fresh(k) && Unlisted(store, b)
    {
      SpawnedAbs(store, k, pc);
      SpawnedLinked(store, k, pc);
      SpawnedFrame(store, k, pc);
      b := store.next;
      store := Spawned(store, k, pc);
    }

    /** The first half of `BlockContainer.remove`: splice `b` out of `c`'s
        children if it is there. */
    method SpliceChild(c: Id, b: Id)
      requires Valid() && c in store.containers
      modifies this
      ensures Valid() && selected == old(selected)
      ensures store == WithChildren(old(store), c, Spliced(old(store.containers[c].children), b))
    {
      assert ContainerOk(store, c);
      var ids := store.containers[c].children;
      assert ChildrenLinked(store, c);
      forall x | x in Spliced(ids, b)
        ensures x in store.blocks && c < x && store.blocks[x].parentContainer == c
      {
        SplicedSubset(ids, b, x);
      }
      NoDupSpliced(ids, b);
      WithChildrenAbs(store, c, Spliced(ids, b));
      WithChildrenLinked(store, c, Spliced(ids, b));
      var i := IndexOf(ids, b);
      if i >= 0 {
        store := store.(containers := store.containers[c := store.containers[c].(children := ids[..i] + ids[i + 1..])]);
      } else {
        assert store.containers[c := store.containers[c].(children := ids)] == store.containers;
      }
    }

    /** `BlockContainer.remove`: splice `b` out if present; then, if `c` has
        no children left and is owned by a block, replace that block in its
        own container by a new empty text block. */
    method RemoveChild(c: Id, b: Id)
      requires Valid() && c in store.containers
      modifies this
      ensures Valid() && selected == old(selected)
      ensures store == RemovedFrom(old(store), c, b)
    {
      ghost var s := store;
      assert ContainerOk(s, c);
      SpliceChild(c, b);
      var parent := store.containers[c].parentBlock;
      if |store.containers[c].children| == 0 && parent.Some? {
        assert BlockOk(s, parent.value);
        var g := store.blocks[parent.value].parentContainer;
        var t := NewTextBlock(g);
        ReplaceChild(g, parent.value, t);
      }
    }

    /** `Block.remove`: remove `b` from the container it was created in. */
    method RemoveBlock(b: Id)
      requires Valid() && b in store.blocks
      modifies this
      ensures Valid() && selected == old(selected)
      ensures store == RemovedFrom(old(store), ParentOf(old(store), b), b)
    {
      RemoveChild(ParentOf(store, b), b);
    }

    /** `Formula.add`: a selected empty text block is replaced by `b`;
        otherwise `b` is appended to the selection's container. */
    method Insert(b: Id)
      requires Valid() && b in store.blocks
      requires store.blocks[b].parentContainer == SelectionContainer(store, selected) && Unlisted(store, b)
      modifies this
      ensures Valid() && selected == old(selected)
      ensures store == Inserted(old(store), selected, b)
    {
      var c := SelectionContainer(store, selected);
      if SelectsEmptyText(store, selected) {
        ReplaceChild(c, selected.block, b);
      } else {
        AppendChild(c, b);
      }
    }

    /** `Formula.addXBlock`: build a block of kind `k` in the selection's
        container and add it. */
    method AddBlock(k: Kind) returns (b: Id)
      requires Valid()
      modifies this
      ensures Valid() && selected == old(selected)
      ensures store == Added(old(store), selected, k) && b == old(store.next)
      ensures b in store.blocks && AbsBlock(store, b) == Fresh(k)
    {
      AddedFrame(store, selected, k);
      AddedLinked(store, selected, k);
      var c := SelectionContainer(store, selected);
      ghost var s := store;
      IdsBelowNext(s);
      b := CreateBlock(k, c);
      SelectionGrows(s, store, selected);
      Insert(b);
    }

    /** Leaving a text block commits what was typed into it. */
    method Commit(b: Id, raw: string)
      requires Valid() && b in store.blocks && store.blocks[b].shape.TextShape?
      modifies this
      ensures Valid() && selected == old(selected)
      ensures store == Committed(old(store), b, raw)
      ensures AbsBlock(store, b) == TextBlock(raw, DisplayText(raw))
    {
      CommittedAbs(store, b, raw);
      CommittedLinked(store, b, raw);
      store := Committed(store, b, raw);
    }

    /** A key pressed in text block `b` whose editable content is `html`. */
    method KeyDown(b: Id, html: string, keyCode: int)
      requires Valid() && b in store.blocks
      modifies this
      ensures Valid() && selected == old(selected)
      ensures BackspaceRemoves(html, keyCode) ==>
                store == RemovedFrom(old(store), ParentOf(old(store), b), b)
      ensures !BackspaceRemoves(html, keyCode) ==> store == old(store)
      ensures BackspaceRemoves(html, keyCode) ==> Unlisted(store, b)
    {
      if BackspaceRemoves(html, keyCode) {
        RemovedUnlists(store, b);
        RemoveBlock(b);
      }
    }
  }
}
