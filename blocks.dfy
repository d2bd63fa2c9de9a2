/** The formula tree as a value: a container is an ordered list of blocks,
    and a block is one of five variants, the structural ones owning one
    container per slot. */
module Blocks {

  /** The five block variants, named by their `type` tag. */
  datatype Kind = Text | Frac | Sup | Sub | Int

  datatype Block =
    | TextBlock(text: string, displayText: string)
    | FracBlock(up: Container, down: Container)
    | SupBlock(base: Container, sup: Container)
    | SubBlock(base: Container, sub: Container)
    | IntBlock(up: Container, mid: Container, down: Container)

  datatype Container = Container(children: seq<Block>)

  function KindOf(b: Block): Kind
  {
    match b
    case TextBlock(_, _) => Text
    case FracBlock(_, _) => Frac
    case SupBlock(_, _) => Sup
    case SubBlock(_, _) => Sub
    case IntBlock(_, _, _) => Int
  }

  /** The containers a block owns, in the order its `create` makes them. */
  function Slots(b: Block): seq<Container>
  {
    match b
    case TextBlock(_, _) => []
    case FracBlock(u, d) => [u, d]
    case SupBlock(base, sup) => [base, sup]
    case SubBlock(base, sub) => [base, sub]
    case IntBlock(u, m, d) => [u, m, d]
  }

  /** A text block as `create` leaves it: no raw text, no display text. */
  function EmptyText(): Block
  {
    TextBlock("", "")
  }

  /** A container as its constructor leaves it: seeded with one empty text block. */
  function FreshContainer(): (c: Container)
    ensures Empty(c) && |c.children| == 1
  {
    Container([EmptyText()])
  }

  /** A block of kind `k` as its constructor leaves it. */
  function Fresh(k: Kind): (b: Block)
    ensures KindOf(b) == k
    ensures k == Text ==> b == EmptyText()
    ensures forall i | 0 <= i < |Slots(b)| :: Slots(b)[i] == FreshContainer()
    ensures |Slots(b)| == (match k case Text => 0 case Int => 3 case _ => 2)
  {
    match k
    case Text => EmptyText()
    case Frac => FracBlock(FreshContainer(), FreshContainer())
    case Sup => SupBlock(FreshContainer(), FreshContainer())
    case Sub => SubBlock(FreshContainer(), FreshContainer())
    case Int => IntBlock(FreshContainer(), FreshContainer(), FreshContainer())
  }

  /** `empty()`: no children, or a single text child whose raw text is empty. */
  predicate Empty(c: Container)
  {
    |c.children| == 0
    || (|c.children| == 1 && c.children[0].TextBlock? && c.children[0].text == "")
  }

  /** The display text committed when editing leaves a text block: a lone
      hyphen is shown as the minus-sign entity, anything else as typed. */
  function DisplayText(raw: string): (d: string)
    ensures d != raw <==> raw == "-"
    ensures raw == "-" ==> d == "&minus;"
  {
    if raw == "-" then "&minus;" else raw
  }
}
