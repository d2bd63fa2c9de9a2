# formula.js: the formula tree, its edits and its exports

formula.js is a browser editor for mathematical formulas. A formula is a
tree. A `BlockContainer` holds an ordered list of blocks. A block is a
text block (raw `text` plus the `display_text` shown for it) or a
structural block that owns one container per slot:

- a fraction (`up`, `down`);
- a superscript (`base`, `sup`);
- a subscript (`base`, `sub`);
- an integral (`up`, `mid`, `down`).

Every new container starts with one empty text block. The editor
(`Formula`) keeps a root container and a selection. Its `add*Block`
operations build a block in the selection's container and then either
replace the selected block, when it is an empty text block, or append
the new block. Removing a block can empty a container. When that
container belongs to a block, the block collapses: it is replaced, in its
own container, by a new empty text block. The formula exports to LaTeX
and to JSON.

The project has these modules:

- `Blocks` (blocks.dfy): the tree as a value. Holds the five block
  variants, fresh containers and fresh blocks, `empty()`, and the
  display text that committing a text edit produces.
- `Children` (children.dfy): the three list edits behind
  `BlockContainer`: `indexOf`, replace-at-index and `splice`. It also
  proves what each does to the multiset of children.
- `Latex` (latex.dfy): `toLatex` of every block and container. It proves
  the exact formats, the LaTeX of every fresh block, that `empty()`
  containers render as "", and that the export keeps braces balanced
  whenever the typed text does.
- `Json` (json.dfy): `toJson` as a structured value. Each block becomes
  an object with a `type` tag and exactly its variant's fields, and a
  container becomes an array with one entry per child. The JSON is
  injective, so it determines the tree.
- `Arena` (arena.dfy): the live, mutable tree as an arena. Blocks and
  containers are records under allocation ids, and references are ids.
  `AbsBlock`/`AbsContainer` give the value a record denotes. Frame
  lemmas show that values depend only on newer records, and in a linked
  arena only on the records of their own subtree. `Linked` states that
  the back-references agree with the forward ones:
  - each child's `parent_container` is the container that lists it;
  - each slot's `parent_block` is the block that owns it;
  - no list repeats an id, so a block is listed at most once.
- `Edits` (edits.dfy): each mutation as a transition of the arena:
  - `add`, `replace` and `remove` with its collapse;
  - the block constructors with `create`;
  - the blur commit;
  - `Formula.add` and `add*Block`.

  Each transition has a lemma relating the values before and after, and
  one showing that it keeps the arena linked.
- `Editor` (editor.dfy): class `Formula`, whose fields are the arena and
  the selection. Its methods change them in place, step by step, in the
  order formula.js takes them. Each is proved to perform the `Edits`
  transition that specifies it, and to keep the arena valid and linked
  and the selection valid.
- `Scenarios` (scenarios.dfy): whole editing sessions driven through a
  `Formula` object. Each states the LaTeX that the session ends in.

The model follows these details of the code:

- The integral's LaTeX adds no braces of its own (formula.js:288).
- Removing a block never moves the selection.
- A collapse happens whenever the container is left with no children and
  has an owner. This holds even if the block to remove was not there.
- A lone "-" is committed with the display text `&minus;`.

## Model

| member | source | states |
|---|---|---|
| Blocks.FreshContainer | formula.js:56-60 | a new container holds exactly one child, an empty text block, so `empty()` holds for it |
| Blocks.Fresh | formula.js:110-113 | a newly constructed block has the requested type, is an empty text block for `text`, and has 0, 2 or 3 slots, each a fresh container |
| Blocks.EmptyText | formula.js:134-138 | defines the text block `create` leaves: raw and display text both empty |
| Blocks.Empty | formula.js:82-85 | defines `empty()`: no children, or exactly one child that is a text block with empty raw text |
| Blocks.DisplayText | formula.js:148-153 | the committed display text differs from the raw text exactly when the raw text is "-", and is then `&minus;` |
| Children.IndexOf | formula.js:65 | `indexOf` finds the first occurrence; it is -1 exactly when the element is absent |
| Children.Replaced | formula.js:75-79 | replace keeps the length, puts the new element at the old one's first index and keeps every other position; an absent element changes nothing |
| Children.ReplacedMultiset | formula.js:75-79 | replacing a present element trades exactly one occurrence of it for one of the new element |
| Children.Spliced | formula.js:64-68 | removal shortens the list by one and keeps the elements before and after the removed one in order; an absent element changes nothing |
| Children.SplicedMultiset | formula.js:64-68 | removal takes exactly one occurrence of the element out of the multiset of children |
| Latex.BlockLatex | formula.js:173-289 | defines each variant's `toLatex`: text at 173-179, fraction at 206-208, superscript at 229-231, subscript at 253-255, integral at 287-289; a structural block always shows, and a text block renders as "" exactly when its raw text is empty |
| Latex.ContainerLatex | formula.js:96-100 | defines a container's `toLatex` as the concatenation of its children's |
| Latex.Concat | formula.js:97-99 | the `map`/`join("")` over the children; it is "" exactly when every child is a text block with empty raw text |
| Latex.ConcatAppend | formula.js:96-100 | a container's LaTeX is the concatenation of its children's, so splitting the child list splits the LaTeX |
| Latex.AppendLatex | formula.js:96-100 | appending a block to a container appends that block's LaTeX to the container's |
| Latex.ConcatAround | formula.js:96-100 | a container's LaTeX is the prefix's, then child `i`'s, then the suffix's |
| Latex.ConcatUpdate | formula.js:96-100 | overwriting child `i` swaps exactly that child's LaTeX between the same prefix and suffix |
| Latex.ConcatDropped | formula.js:96-100 | overwriting child `i` with an empty text block cuts that child's LaTeX out |
| Latex.EmptyLatex | formula.js:82-85 | every container that `empty()` accepts renders as "" |
| Latex.EmptyLatexNotEmpty | formula.js:82-85 | the converse fails: two empty text blocks render as "" but are not `empty()` |
| Latex.FreshLatex | formula.js:173-179 | the LaTeX of each newly constructed block: "", `\dfrac{}{}`, `{^}`, `{_}` and `\int^_` |
| Latex.FracExample | formula.js:206-208 | a fraction of "a" over "b" renders as `\dfrac{{a}}{{b}}` |
| Latex.ScriptExamples | formula.js:229-231 | "x" to the "2" renders as `{{x}^{2}}`, and "a" with subscript "i" as `{{a}_{i}}` |
| Latex.IntExample | formula.js:287-289 | an integral with bounds "1" and "0" and integrand "x" renders as `\int^{1}_{0}{x}`, bounds first |
| Latex.FracBalanced | formula.js:206-208 | the fraction format keeps braces balanced when both slots' LaTeX is balanced |
| Latex.ScriptBalanced | formula.js:253-255 | the superscript and subscript formats keep braces balanced |
| Latex.IntBalanced | formula.js:287-289 | the integral format, with no braces of its own, keeps braces balanced |
| Latex.BlockLatexBalanced | formula.js:173-179 | if every typed text in a block is brace-balanced, so is the block's LaTeX |
| Latex.ContainerLatexBalanced | formula.js:96-100 | if every typed text in a container is brace-balanced, so is the container's LaTeX |
| Json.BlockJson | formula.js:180-182 | a block's JSON is an object whose keys are `type` and then exactly its variant's fields, with `type` set to the variant's tag |
| Json.ContainerJson | formula.js:101-105 | a container's JSON is an array with one entry per child, in order, each the child's JSON |
| Json.ListJson | formula.js:102-104 | the `map` over the children: one entry per block, in order, each that block's JSON |
| Json.BlockJsonInjective | formula.js:209-211 | two blocks with the same JSON are the same block |
| Json.ContainerJsonInjective | formula.js:101-105 | two containers with the same JSON are the same container |
| Arena.IsEmptyIn | formula.js:82-85 | `empty()` read from the arena records holds exactly when the container's value is empty |
| Arena.ParentOf | formula.js:110-111 | a block's `parent_container` is a live container created before it |
| Arena.ListedOnce | formula.js:117-119 | in a linked arena a listed block is listed exactly once, in its own `parent_container`, which is where `remove` looks for it |
| Edits.Initial | formula.js:13-14 | a new editor's arena is valid and its root denotes a fresh container |
| Edits.InitialLinked | formula.js:56-58 | the seed of the new root lists the root as its `parent_container` |
| Edits.Appended | formula.js:61-63 | defines `add`: the block id pushed onto the end of the container's children |
| Edits.AppendedLinked | formula.js:61-63 | pushing a block created in the container and listed nowhere keeps the arena linked |
| Edits.AppendedAbs | formula.js:61-63 | `add` keeps the arena valid, appends the block's value to the container's children, and appends its LaTeX |
| Edits.ReplacedIn | formula.js:75-79 | defines `replace`: the first occurrence of the old id overwritten by the new one, or no change when it is absent |
| Edits.ReplacedLatex | formula.js:75-79 | when the old block is present, the container's LaTeX has the new block's LaTeX where the old block's was, between the same prefix and suffix |
| Edits.ReplacedInLinked | formula.js:75-79 | replacing by a block created in the container and listed nowhere keeps the arena linked, and the old block leaves the container |
| Edits.ReplacedInAbs | formula.js:75-79 | `replace` keeps the arena valid; the new block's value sits at the old block's index and every other child is kept; an absent block changes nothing |
| Edits.NewText | formula.js:133-138 | defines `new TextBlock(pc)`: an empty text record under the next id, with `pc` as parent |
| Edits.NewTextLinked | formula.js:133-138 | a new text block is listed nowhere, and the arena stays linked |
| Edits.NewTextAbs | formula.js:133-138 | a new text block is under a fresh id, has the given parent container, and denotes an empty text block |
| Edits.RemovedFrom | formula.js:64-72 | defines `remove`: splice the block out; then, if the container is left with no children and has an owner, replace the owner in its own container by a new empty text block |
| Edits.RemovedValid | formula.js:64-72 | `remove` keeps the arena valid, with or without a collapse |
| Edits.RemovedAbs | formula.js:64-68 | without a collapse, `remove` drops the block's value at its index, keeps the rest in order, and changes no block and no other container |
| Edits.RemovedLatex | formula.js:64-68 | without a collapse, removing a present block cuts exactly its LaTeX out of the container's |
| Edits.RemovedLinked | formula.js:64-72 | `remove` keeps the arena linked, with or without a collapse |
| Edits.RemovedUnlists | formula.js:117-119 | in a linked arena, removing a block from its `parent_container` leaves it in no list at all, whether or not a collapse follows |
| Edits.CollapsedAbs | formula.js:69-72 | when the owner is listed in its container, a collapse puts the new empty text block at the owner's index, takes the owner out of every list, and keeps the value of every other child |
| Edits.CollapsedUnlists | formula.js:69-72 | after a collapse the owner is listed nowhere |
| Edits.CollapseKeepsSibling | formula.js:69-72 | a collapse keeps the value of every other child of the owner's container, since the emptied container lies under the owner only |
| Edits.CollapsedValues | formula.js:69-72 | after a collapse, the owner's container holds the old values with an empty text block at the owner's index |
| Edits.CollapsedLatex | formula.js:69-72 | a collapse cuts exactly the owner's LaTeX out of its container's |
| Edits.RemovedCollapses | formula.js:69-72 | with a collapse, the container stays empty, and its owner is replaced at the same index of its own container by a new empty text block; nothing else changes |
| Edits.RootMayEmpty | formula.js:69-72 | the root has no owner, so removing its only child leaves it empty, and the formula then renders as "" |
| Edits.Spawned | formula.js:110-113 | defines a block's constructor with its `create` (formula.js:186-190, 215-219, 238-242, 262-267): the block, then one container per slot owned by it, then one empty text block per container |
| Edits.SpawnedLinked | formula.js:185-190 | constructing a block keeps the arena linked: its slots name it as `parent_block`, each seed names its slot as `parent_container`, and the block is not listed yet |
| Edits.SpawnedLayout | formula.js:185-190 | where constructing a block puts its records: slot `j` is a container owned by the block and seeded with one empty text block |
| Edits.SpawnedAbs | formula.js:110-113 | constructing a block of any kind keeps the arena valid, and the new block denotes the fresh block of that kind |
| Edits.Committed | formula.js:148-153 | defines the blur commit: the raw text and its display text written into the block |
| Edits.CommittedLinked | formula.js:148-153 | committing rewrites no reference, so the arena stays linked |
| Edits.CommittedAbs | formula.js:148-154 | committing sets the raw text and the display text, keeps every container, and gives the block's LaTeX as `{raw}`, or "" for empty raw text |
| Edits.Inserted | formula.js:28-33 | defines `Formula.add`: replace a selected empty text block, otherwise append to the selection's container |
| Edits.InsertedLinked | formula.js:28-33 | `Formula.add` keeps the arena linked when the block was created in the selection's container and is listed nowhere |
| Edits.Added | formula.js:37-51 | defines `add*Block`: construct a block whose parent is the selection's container, then `Formula.add` it |
| Edits.AddedLinked | formula.js:37-51 | `add*Block` keeps the arena linked |
| Edits.InsertedValid | formula.js:28-33 | `Formula.add` keeps the arena valid and changes no block and no container other than the selection's |
| Edits.AddedFrame | formula.js:37-51 | `add*Block` keeps the arena and the selection valid; the new block has the selection's container as parent and denotes a fresh block |
| Edits.AddedAppends | formula.js:31-33 | when the selection is not an empty text block, the new block's value is appended and the existing children are unchanged |
| Edits.AddedReplaces | formula.js:29-30 | when the selection is an empty text block in its container, the new block's value takes its index and every other child is kept |
| Edits.AddedAtRootLatex | formula.js:14 | with the initial selection, adding a block appends its LaTeX to the whole formula's |
| Edits.AddedDetachedIsLost | formula.js:28-30 | a selected empty text block that is no longer in its container replaces nothing: every container is unchanged and the new block is in none |
| Edits.AddAfterReplaceIsLost | formula.js:28-35 | `add` does not move the selection: after a selected empty text block was replaced, a second add attaches its block to no container |
| Editor.BackspaceRemoves | formula.js:161 | defines the backspace test: empty editable content and key code 8 |
| Editor.Formula.constructor | formula.js:13-14 | a new editor has a root container seeded with an empty text block, and the root as the selection's container |
| Editor.Formula.ToLatex | formula.js:21-23 | the formula's LaTeX is "" when the root container is empty, as it is in a new editor |
| Editor.Formula.ToJson | formula.js:24-26 | the formula's JSON is an array with one entry per root child |
| Editor.Formula.Select | formula.js:165-167 | clicking a text block selects it and changes no tree record |
| Editor.Formula.FocusRoot | formula.js:6-9 | clicking the background selects the root container and changes no tree record |
| Editor.Formula.AppendChild | formula.js:61-63 | `add` pushes the block id onto the children in place; the container's value gains the block's value at the end |
| Editor.Formula.ReplaceChild | formula.js:75-81 | `replace` overwrites the found index in place, or changes nothing when the block is absent |
| Editor.Formula.NewTextBlock | formula.js:133-138 | a new empty text block is allocated under a fresh id |
| Editor.Formula.CreateBlock | formula.js:110-113 | a block's constructor with its `create` allocates the block and its seeded slots; the block denotes a fresh block |
| Editor.Formula.SpliceChild | formula.js:64-68 | the splice step of `remove` drops the block's first occurrence in place |
| Editor.Formula.RemoveChild | formula.js:64-74 | `remove` performs exactly the removal transition, including the collapse into a new empty text block |
| Editor.Formula.RemoveBlock | formula.js:117-119 | a block's `remove` removes it from the container it was created in |
| Editor.Formula.Insert | formula.js:28-35 | `Formula.add` replaces a selected empty text block and appends otherwise; the selection is not moved |
| Editor.Formula.AddBlock | formula.js:37-51 | `add*Block` builds a block in the selection's container and adds it; the new block denotes a fresh block |
| Editor.Formula.Commit | formula.js:148-154 | blur commits the raw text, and the block then denotes that text with its display text |
| Editor.Formula.KeyDown | formula.js:160-164 | backspace in an empty text block removes it from its `parent_container`, after which it is in no list; any other key changes nothing |
| Scenarios.FirstReplace | formula.js:29-30 | selecting a new editor's seed text block and adding a structural block replaces the seed; the block's slots each hold their seed |
| Scenarios.FirstAppend | formula.js:31-33 | with a new editor's initial selection, adding a structural block appends it after the seed text block |
| Scenarios.FractionLatex | formula.js:206-208 | after a fraction replaced the seed, committing "a" and "b" into its slots makes the formula `\dfrac{{a}}{{b}}` |
| Scenarios.FractionSession | formula.js:40-42 | the editing session select, add a fraction, type "a" and "b" ends in `\dfrac{{a}}{{b}}` |
| Scenarios.IntegralLatex | formula.js:287-289 | after an integral replaced the seed, committing "1", "x" and "0" makes the formula `\int^{1}_{0}{x}` |
| Scenarios.IntegralSession | formula.js:49-51 | the editing session with an integral ends in `\int^{1}_{0}{x}` |
| Scenarios.SuperscriptLatex | formula.js:229-231 | after a superscript was appended to the root, committing "x" and "2" makes the formula `{{x}^{2}}`, since the untouched seed adds nothing |
| Scenarios.SuperscriptSession | formula.js:43-45 | the editing session with the initial selection and a superscript ends in `{{x}^{2}}` |
| Scenarios.CollapseLatex | formula.js:69-72 | removing a new fraction's numerator seed collapses the fraction: the root then holds only a new empty text block, and the formula renders as "" |
| Scenarios.CollapseSession | formula.js:160-164 | backspace in a new fraction's empty numerator collapses it, leaving the formula "" |

## Left out

- DOM rendering is not modelled: `Formula.render`, every `render()`, and the re-render calls inside `remove` and `replace` (formula.js:15, 17-20, 34, 73, 80, 88-95, 122-124, 140-145, 170-171, 192-205, 221-228, 244-252, 269-286). They draw the tree through a browser API and hold no model state.
- Event wiring is not modelled (formula.js:5-11, 146-168). Only the decisions the handlers make are: commit on blur, backspace on empty content removes, a click selects. The `html` argument of `KeyDown` stands for the editable element's current content.
- Enter-key suppression (formula.js:155-159) is not modelled. It only blocks a keystroke in the browser.
- The browser's re-serialisation of `innerHTML` is not modelled. The committed text is the raw string, and `&minus;` is taken literally.
- `JSON.stringify` (formula.js:25) is not modelled. `toJson` is modelled as the structured value before it is stringified.
- The CSS `class_name` of containers (formula.js:59) is not modelled. It is presentation only.
- The global `formula` object is not modelled. The editor object is passed explicitly.
- Object identity is modelled by allocation ids. The order in which a block's slot containers and their seed text blocks are allocated is a choice of the model. Only identity matters to formula.js.
- Records are never freed. A removed block stays in the arena with its last back-reference, as a detached object does in formula.js.
- Editor.Formula.AppendChild requires the added block to have been created in the container and to be in no list yet. That keeps the tree acyclic and linked. Every caller in formula.js passes a block it has just built there.
- Editor.Formula.ReplaceChild requires the new block to have been created in the container and to be in no list yet, for the same reason.
- Editor.Formula.Insert requires the added block to have been created in the selection's container and to be in no list yet, for the same reason.
- Editor.Formula.ToLatex states only the empty case. In general its value is the root container's LaTeX, whose formats are stated by the `Latex` members.
- Editor.Formula.ToJson states only the shape of the result. Its entries are stated by `Json.ContainerJson` and `Json.BlockJson`.
- Edits.AddedReplaces requires the selected block to still be in its container. The other case is `Edits.AddedDetachedIsLost`.
- Edits.RemovedCollapses states the owner's container's children as ids. Their values are stated by `Edits.CollapsedAbs`, for a linked arena whose collapsing owner is still listed in its container.
- Edits.CollapsedAbs requires the owner to be listed in its container. A block inside a removed subtree can still be selected in the model, and removing it collapses an owner that is already listed nowhere; the replace then changes nothing, as in formula.js.
