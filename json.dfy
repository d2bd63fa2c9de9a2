/** The JSON export as a structured value: a container becomes an array of
    its children's objects, and each object carries the block's `type` tag
    followed by exactly that variant's fields. The text rendering of that
    value (`JSON.stringify`) is not part of this model. */
module Json {
  import opened Blocks

  datatype Json =
    | JString(str: string)
    | JArray(items: seq<Json>)
    | JObject(members: seq<Member>)

  /** One `key: value` pair of an object, in the order it is written. */
  datatype Member = Member(key: string, value: Json)

  /** The `type` tag each variant writes. */
  function TypeTag(k: Kind): string
  {
    match k
    case Text => "text"
    case Frac => "frac"
    case Sup => "sup"
    case Sub => "sub"
    case Int => "int"
  }

  /** The fields each variant writes after its tag. */
  function FieldNames(k: Kind): seq<string>
  {
    match k
    case Text => ["text", "display_text"]
    case Frac => ["up", "down"]
    case Sup => ["base", "sup"]
    case Sub => ["base", "sub"]
    case Int => ["up", "mid", "down"]
  }

  function Keys(ms: seq<Member>): (ks: seq<string>)
    ensures |ks| == |ms| && forall i | 0 <= i < |ms| :: ks[i] == ms[i].key
  {
    seq(|ms|, i requires 0 <= i < |ms| => ms[i].key)
  }

  /** A block's object: the tag first, then the variant's own fields, with
      each slot serialised as its container's array. */
  function BlockJson(b: Block): (j: Json)
    ensures j.JObject? && Keys(j.members) == ["type"] + FieldNames(KindOf(b))
    ensures j.members[0].value == JString(TypeTag(KindOf(b)))
  {
    var tag := Member("type", JString(TypeTag(KindOf(b))));
    match b
    case TextBlock(t, d) =>
      JObject([tag, Member("text", JString(t)), Member("display_text", JString(d))])
    case FracBlock(u, d) =>
      JObject([tag, Member("up", ContainerJson(u)), Member("down", ContainerJson(d))])
    case SupBlock(base, sup) =>
      JObject([tag, Member("base", ContainerJson(base)), Member("sup", ContainerJson(sup))])
    case SubBlock(base, sub) =>
      JObject([tag, Member("base", ContainerJson(base)), Member("sub", ContainerJson(sub))])
    case IntBlock(u, m, d) =>
      JObject([tag, Member("up", ContainerJson(u)), Member("mid", ContainerJson(m)),
               Member("down", ContainerJson(d))])
  }

  /** A container's array: one entry per child, in the same order. */
  function ContainerJson(c: Container): (j: Json)
    ensures j.JArray? && |j.items| == |c.children|
    ensures forall i | 0 <= i < |c.children| :: j.items[i] == BlockJson(c.children[i])
  {
    JArray(ListJson(c.children))
  }

  function ListJson(bs: seq<Block>): (js: seq<Json>)
    ensures |js| == |bs|
    ensures forall i | 0 <= i < |bs| :: js[i] == BlockJson(bs[i])
  {
    if bs == [] then [] else [BlockJson(bs[0])] + ListJson(bs[1..])
  }

  /** The snapshot loses nothing: two blocks with the same JSON are the same
      block, so the export determines the whole tree. */
  lemma {:induction false} BlockJsonInjective(a: Block, b: Block)
    requires BlockJson(a) == BlockJson(b)
    ensures a == b
    decreases a, 1
  {
    assert TypeTag(KindOf(a)) == TypeTag(KindOf(b)) by {
      assert BlockJson(a).members[0].value == BlockJson(b).members[0].value;
    }
    assert KindOf(a) == KindOf(b);
    var ma, mb := BlockJson(a).members, BlockJson(b).members;
    match a
    case TextBlock(_, _) =>
      assert ma[1] == mb[1] && ma[2] == mb[2];
    case FracBlock(u, d) =>
      assert ma[1] == mb[1] && ma[2] == mb[2];
      ContainerJsonInjective(u, b.up);
      ContainerJsonInjective(d, b.down);
    case SupBlock(base, sup) =>
      assert ma[1] == mb[1] && ma[2] == mb[2];
      ContainerJsonInjective(base, b.base);
      ContainerJsonInjective(sup, b.sup);
    case SubBlock(base, sub) =>
      assert ma[1] == mb[1] && ma[2] == mb[2];
      ContainerJsonInjective(base, b.base);
      ContainerJsonInjective(sub, b.sub);
    case IntBlock(u, m, d) =>
      assert ma[1] == mb[1] && ma[2] == mb[2] && ma[3] == mb[3];
      ContainerJsonInjective(u, b.up);
      ContainerJsonInjective(m, b.mid);
      ContainerJsonInjective(d, b.down);
  }

  lemma {:induction false} ContainerJsonInjective(c: Container, e: Container)
    requires ContainerJson(c) == ContainerJson(e)
    ensures c == e
    decreases c, 2
  {
    ListJsonInjective(c.children, e.children);
  }

  lemma {:induction false} ListJsonInjective(xs: seq<Block>, ys: seq<Block>)
    requires ListJson(xs) == ListJson(ys)
    ensures xs == ys
    decreases xs, 0
  {
    forall i | 0 <= i < |xs|
      ensures xs[i] == ys[i]
    {
      BlockJsonInjective(xs[i], ys[i]);
    }
  }
}
