/** The LaTeX export: a depth-first concatenation with fixed formats per
    block variant. */
module Latex {
  import opened Blocks

  /** A structural block always shows in the LaTeX; a text block vanishes
      exactly when its raw text is empty. */
  function BlockLatex(b: Block): (r: string)
    ensures b.TextBlock? ==> (r == "" <==> b.text == "")
    ensures !b.TextBlock? ==> r != ""
  {
    match b
    case TextBlock(t, _) => if t != "" then "{" + t + "}" else ""
    case FracBlock(u, d) => "\\dfrac{" + ContainerLatex(u) + "}{" + ContainerLatex(d) + "}"
    case SupBlock(base, sup) => "{" + ContainerLatex(base) + "^" + ContainerLatex(sup) + "}"
    case SubBlock(base, sub) => "{" + ContainerLatex(base) + "_" + ContainerLatex(sub) + "}"
    // the integral adds no braces of its own around its slots
    case IntBlock(u, m, d) => "\\int^" + ContainerLatex(u) + "_" + ContainerLatex(d) + ContainerLatex(m)
  }

  /** A container's LaTeX: its children's, in order, with no separator. */
  function ContainerLatex(c: Container): string
  {
    Concat(c.children)
  }

  /** The children's LaTeX joined with no separator: it is empty exactly
      when every child is a text block with no raw text. */
  function Concat(bs: seq<Block>): (r: string)
    ensures r == "" <==> forall i | 0 <= i < |bs| :: bs[i].TextBlock? && bs[i].text == ""
  {
    if bs == [] then "" else BlockLatex(bs[0]) + Concat(bs[1..])
  }

  /** Concatenation distributes over splitting the child list. */
  lemma {:induction false} ConcatAppend(a: seq<Block>, b: seq<Block>)
    ensures Concat(a + b) == Concat(a) + Concat(b)
  {
    if a == [] {
      assert a + b == b;
    } else {
      assert (a + b)[1..] == a[1..] + b;
      ConcatAppend(a[1..], b);
    }
  }

  /** Appending a block to a container appends exactly that block's LaTeX. */
  lemma AppendLatex(c: Container, b: Block)
    ensures ContainerLatex(Container(c.children + [b])) == ContainerLatex(c) + BlockLatex(b)
  {
    ConcatAppend(c.children, [b]);
    assert [b][1..] == [];
  }

  /** A container's LaTeX splits around any one child: what replacing or
      removing that child changes is exactly that child's contribution. */
  lemma ConcatAround(bs: seq<Block>, i: nat)
    requires i < |bs|
    ensures Concat(bs) == Concat(bs[..i]) + BlockLatex(bs[i]) + Concat(bs[i + 1..])
  {
    var pre, rest := bs[..i], bs[i..];
    assert bs == pre + rest;
    ConcatAppend(pre, rest);
    assert rest[0] == bs[i] && rest[1..] == bs[i + 1..];
  }

  /** Overwriting child `i` swaps exactly that child's contribution. */
  lemma ConcatUpdate(bs: seq<Block>, i: nat, x: Block)
    requires i < |bs|
    ensures Concat(bs[i := x]) == Concat(bs[..i]) + BlockLatex(x) + Concat(bs[i + 1..])
  {
    var after := bs[i := x];
    ConcatAround(after, i);
    assert after[..i] == bs[..i] && after[i + 1..] == bs[i + 1..];
  }

  /** Overwriting child `i` with an empty text block cuts that child's
      contribution out of the concatenation. */
  lemma ConcatDropped(bs: seq<Block>, i: nat)
    requires i < |bs|
    ensures Concat(bs) == Concat(bs[..i]) + BlockLatex(bs[i]) + Concat(bs[i + 1..])
    ensures Concat(bs[i := EmptyText()]) == Concat(bs[..i]) + Concat(bs[i + 1..])
  {
    ConcatAround(bs, i);
    ConcatUpdate(bs, i, EmptyText());
  }

  /** What `empty()` accepts renders as the empty string. */
  lemma EmptyLatex(c: Container)
    ensures Empty(c) ==> ContainerLatex(c) == ""
  {
    if Empty(c) && |c.children| == 1 {
      assert BlockLatex(c.children[0]) == "";
      assert Concat(c.children[1..]) == "" by { assert c.children[1..] == []; }
      assert Concat(c.children) == BlockLatex(c.children[0]) + Concat(c.children[1..]);
    }
  }

  /** The converse fails: two empty text blocks render as "" but are not `empty()`. */
  lemma EmptyLatexNotEmpty()
    ensures var c := Container([EmptyText(), EmptyText()]);
            ContainerLatex(c) == "" && !Empty(c)
  {
    var c := Container([EmptyText(), EmptyText()]);
    assert c.children[1..] == [EmptyText()];
    assert c.children[1..][1..] == [];
  }

  /** What each freshly constructed block renders as: every slot is an
      empty container and contributes nothing. */
  lemma FreshLatex(k: Kind)
    ensures BlockLatex(Fresh(k)) ==
      match k
      case Text => ""
      case Frac => "\\dfrac{}{}"
      case Sup => "{^}"
      case Sub => "{_}"
      case Int => "\\int^_"
  {
    EmptyLatex(FreshContainer());
  }

  /** Fraction with numerator "a" and denominator "b". */
  lemma FracExample()
    ensures BlockLatex(FracBlock(Container([TextBlock("a", "a")]), Container([TextBlock("b", "b")])))
            == "\\dfrac{{a}}{{b}}"
  {
    assert Concat([TextBlock("a", "a")]) == "{a}";
    assert Concat([TextBlock("b", "b")]) == "{b}";
  }

  /** Integral with upper bound "1", lower bound "0" and integrand "x". */
  lemma IntExample()
    ensures BlockLatex(IntBlock(Container([TextBlock("1", "1")]), Container([TextBlock("x", "x")]),
                                Container([TextBlock("0", "0")])))
            == "\\int^{1}_{0}{x}"
  {
    assert Concat([TextBlock("1", "1")]) == "{1}";
    assert Concat([TextBlock("0", "0")]) == "{0}";
    assert Concat([TextBlock("x", "x")]) == "{x}";
  }

  /** Superscript "x" to "2" and subscript "a" with "i". */
  lemma ScriptExamples()
    ensures BlockLatex(SupBlock(Container([TextBlock("x", "x")]), Container([TextBlock("2", "2")])))
            == "{{x}^{2}}"
    ensures BlockLatex(SubBlock(Container([TextBlock("a", "a")]), Container([TextBlock("i", "i")])))
            == "{{a}_{i}}"
  {
    assert Concat([TextBlock("x", "x")]) == "{x}";
    assert Concat([TextBlock("2", "2")]) == "{2}";
    assert Concat([TextBlock("a", "a")]) == "{a}";
    assert Concat([TextBlock("i", "i")]) == "{i}";
  }

  // ---- brace balance ----

  /** Scans `s` from nesting depth `d`: the final depth, or -1 once a closing
      brace has no opening partner. */
  function Scan(s: string, d: nat): int
  {
    if s == [] then d
    else if s[0] == '{' then Scan(s[1..], d + 1)
    else if s[0] == '}' then (if d == 0 then -1 else Scan(s[1..], d - 1))
    else Scan(s[1..], d)
  }

  predicate Balanced(s: string)
  {
    Scan(s, 0) == 0
  }

  lemma {:induction false} ScanConcat(a: string, b: string, d: nat)
    ensures Scan(a + b, d) == if Scan(a, d) < 0 then -1 else Scan(b, Scan(a, d))
  {
    if a == [] {
      assert a + b == b;
    } else {
      assert (a + b)[0] == a[0] && (a + b)[1..] == a[1..] + b;
      if a[0] == '{' {
        ScanConcat(a[1..], b, d + 1);
      } else if a[0] == '}' {
        if d > 0 {
          ScanConcat(a[1..], b, d - 1);
        }
      } else {
        ScanConcat(a[1..], b, d);
      }
    }
  }

  lemma {:induction false} ScanShift(a: string, d: nat, e: nat)
    requires Scan(a, d) >= 0
    ensures Scan(a, d + e) == Scan(a, d) + e
  {
    if a != [] {
      if a[0] == '{' {
        ScanShift(a[1..], d + 1, e);
      } else if a[0] == '}' {
        ScanShift(a[1..], d - 1, e);
      } else {
        ScanShift(a[1..], d, e);
      }
    }
  }

  lemma BalancedConcat(a: string, b: string)
    requires Balanced(a) && Balanced(b)
    ensures Balanced(a + b)
  {
    ScanConcat(a, b, 0);
  }

  lemma BalancedWrap(a: string)
    requires Balanced(a)
    ensures Balanced("{" + a + "}")
  {
    ScanShift(a, 0, 1);
    ScanConcat(a, "}", 1);
    assert ("{" + a + "}")[1..] == a + "}";
  }

  /** Every raw text in the tree is itself brace-balanced. */
  predicate BlockTextsBalanced(b: Block)
  {
    match b
    case TextBlock(t, _) => Balanced(t)
    case FracBlock(u, d) => TextsBalanced(u) && TextsBalanced(d)
    case SupBlock(base, sup) => TextsBalanced(base) && TextsBalanced(sup)
    case SubBlock(base, sub) => TextsBalanced(base) && TextsBalanced(sub)
    case IntBlock(u, m, d) => TextsBalanced(u) && TextsBalanced(m) && TextsBalanced(d)
  }

  predicate TextsBalanced(c: Container)
  {
    ListTextsBalanced(c.children)
  }

  predicate ListTextsBalanced(bs: seq<Block>)
  {
    bs == [] || (BlockTextsBalanced(bs[0]) && ListTextsBalanced(bs[1..]))
  }

  /** Every format wraps its slots so that the export never unbalances a
      brace: if all typed text is balanced, so is the whole LaTeX. */
  lemma {:induction false} BlockLatexBalanced(b: Block)
    requires BlockTextsBalanced(b)
    ensures Balanced(BlockLatex(b))
    decreases b, 1
  {
    match b
    case TextBlock(t, _) =>
      if t != "" { BalancedWrap(t); }
    case FracBlock(u, d) =>
      ContainerLatexBalanced(u);
      ContainerLatexBalanced(d);
      FracBalanced(ContainerLatex(u), ContainerLatex(d));
    case SupBlock(base, sup) =>
      ContainerLatexBalanced(base);
      ContainerLatexBalanced(sup);
      ScriptBalanced(ContainerLatex(base), "^", ContainerLatex(sup));
    case SubBlock(base, sub) =>
      ContainerLatexBalanced(base);
      ContainerLatexBalanced(sub);
      ScriptBalanced(ContainerLatex(base), "_", ContainerLatex(sub));
    case IntBlock(u, m, d) =>
      ContainerLatexBalanced(u);
      ContainerLatexBalanced(m);
      ContainerLatexBalanced(d);
      IntBalanced(ContainerLatex(u), ContainerLatex(m), ContainerLatex(d));
  }

  lemma FracBalanced(U: string, D: string)
    requires Balanced(U) && Balanced(D)
    ensures Balanced("\\dfrac{" + U + "}{" + D + "}")
  {
    BalancedWrap(U);
    BalancedWrap(D);
    BalancedConcat("\\dfrac", "{" + U + "}");
    BalancedConcat("\\dfrac" + ("{" + U + "}"), "{" + D + "}");
    assert "\\dfrac{" + U + "}{" + D + "}" == "\\dfrac" + ("{" + U + "}") + ("{" + D + "}");
  }

  lemma ScriptBalanced(B: string, op: string, S: string)
    requires Balanced(B) && Balanced(op) && Balanced(S)
    ensures Balanced("{" + B + op + S + "}")
  {
    BalancedConcat(B, op);
    BalancedConcat(B + op, S);
    BalancedWrap(B + op + S);
    assert "{" + B + op + S + "}" == "{" + (B + op + S) + "}";
  }

  lemma IntBalanced(U: string, M: string, D: string)
    requires Balanced(U) && Balanced(M) && Balanced(D)
    ensures Balanced("\\int^" + U + "_" + D + M)
  {
    BalancedConcat("\\int^", U);
    BalancedConcat("\\int^" + U, "_");
    BalancedConcat("\\int^" + U + "_", D);
    BalancedConcat("\\int^" + U + "_" + D, M);
  }

  lemma {:induction false} ContainerLatexBalanced(c: Container)
    requires TextsBalanced(c)
    ensures Balanced(ContainerLatex(c))
    decreases c, 2
  {
    ConcatBalanced(c.children);
  }

  lemma {:induction false} ConcatBalanced(bs: seq<Block>)
    requires ListTextsBalanced(bs)
    ensures Balanced(Concat(bs))
    decreases bs, 0
  {
    if bs != [] {
      BlockLatexBalanced(bs[0]);
      ConcatBalanced(bs[1..]);
      BalancedConcat(BlockLatex(bs[0]), Concat(bs[1..]));
    }
  }
}
