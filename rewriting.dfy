/** Tree-level specifications of the operations of cat.cpp that build a new
    category from old ones by rewriting its text: wildcard substitution
    (`Substitute`), feature stripping (`ToStrWithoutFeat`) and composition
    (`Compose`), with the facts that connect each to the canonical text. */
module Rewriting {
  import opened Wrappers
  import opened Slashes
  import opened Features
  import opened TextUtils
  import opened Syntax

  // ---- wildcard substitution ----

  /** Every atomic category with the wildcard feature `[X]` gets `f` instead. */
  function SubstWild(t: Cat, f: Feature): Cat {
    match t
    case Atom(ty, g, sem) => if g == WILDCARD then Atom(ty, f, sem) else t
    case Fn(l, s, r, sem) => Fn(SubstWild(l, f), s, SubstWild(r, f), sem)
  }

  /** No atomic category of `t` carries the wildcard feature. */
  predicate WildcardFree(t: Cat) {
    match t
    case Atom(_, g, _) => g != WILDCARD
    case Fn(l, _, r, _) => WildcardFree(l) && WildcardFree(r)
  }

  /** Substituting leaves no wildcard behind (unless `f` is the wildcard
      itself), and a category without wildcards is left as it is. */
  lemma {:induction false} SubstWildProperties(t: Cat, f: Feature)
    ensures f != WILDCARD ==> WildcardFree(SubstWild(t, f))
    ensures WildcardFree(t) ==> SubstWild(t, f) == t
  {
    match t
    case Atom(_, _, _) =>
    case Fn(l, _, r, _) => SubstWildProperties(l, f); SubstWildProperties(r, f);
  }

  /** Rewriting `[X]` commutes with wrapping in parentheses. */
  lemma ReplaceAllWrap(x: string, p: string, q: string)
    requires |p| > 0 && '(' !in p && ')' !in p
    ensures ReplaceAll("(" + x + ")", p, q) == "(" + ReplaceAll(x, p, q) + ")"
  {
    ReplaceAllSep("(" + x, ')', [], p, q);
    assert "(" + x + ")" == ("(" + x) + [')'] + [];
    ReplaceAllNoHead("(", x, p, q);
  }

  /** Rewriting a feature tag in the text of an atomic category. */
  lemma ReplaceAllAtom(ty: string, g: Feature, w: string, q: string)
    requires PlainText(ty) && PlainText(g.text) && w != ""
    ensures ReplaceAll(ty + g.ToStr(), "[" + w + "]", q)
         == ty + (if g.text == w then q else g.ToStr())
  {
    var p := "[" + w + "]";
    AvoidsNotIn(ty, Special, '[');
    ReplaceAllNoHead(ty, g.ToStr(), p, q);
    if g.text == "" {
      assert ReplaceAll(g.ToStr(), p, q) == "";
    } else {
      AvoidsNotIn(g.text, Special, '[');
      AvoidsNotIn(g.text, Special, ']');
      ReplaceFeatureTag(g.text, w, q);
    }
  }

  /** `Feature::SubstituteWildcard` on the canonical text of a plain category
      is the canonical text of the substituted tree. */
  lemma {:induction false} SubstituteWildcardStr(t: Cat, f: Feature)
    requires Plain(t) && PlainText(f.text)
    ensures Plain(SubstWild(t, f))
    ensures f.SubstituteWildcard(Str(t)) == Str(SubstWild(t, f))
    ensures f.SubstituteWildcard(Bracketed(t)) == Bracketed(SubstWild(t, f))
  {
    match t
    case Atom(ty, g, sem) =>
      assert "[" + "X" + "]" == "[X]";
      ReplaceAllAtom(ty, g, "X", f.ToStr());
      assert Str(t) == ty + g.ToStr();
      assert g == WILDCARD <==> g.text == "X";
      assert Str(SubstWild(t, f)) == ty + (if g == WILDCARD then f.ToStr() else g.ToStr());
    case Fn(l, s, r, sem) =>
      SubstituteWildcardStr(l, f);
      SubstituteWildcardStr(r, f);
      SubstituteFunctor(l, s, r, f);
  }

  /** The functor step of `SubstituteWildcardStr`, given it for both halves. */
  lemma SubstituteFunctor(l: Cat, s: Slash, r: Cat, f: Feature)
    requires f.SubstituteWildcard(Bracketed(l)) == Bracketed(SubstWild(l, f))
    requires f.SubstituteWildcard(Bracketed(r)) == Bracketed(SubstWild(r, f))
    ensures f.SubstituteWildcard(Str(Fn(l, s, r, ""))) == Str(SubstWild(Fn(l, s, r, ""), f))
    ensures f.SubstituteWildcard(Bracketed(Fn(l, s, r, ""))) == Bracketed(SubstWild(Fn(l, s, r, ""), f))
  {
    var t := Fn(l, s, r, "");
    var ch := s.ToStr()[0];
    assert s.ToStr() == [ch];
    assert Str(t) == Bracketed(l) + [ch] + Bracketed(r);
    ReplaceAllSep(Bracketed(l), ch, Bracketed(r), "[X]", f.ToStr());
    ReplaceAllWrap(Str(t), "[X]", f.ToStr());
    assert Str(SubstWild(t, f)) == Bracketed(SubstWild(l, f)) + [ch] + Bracketed(SubstWild(r, f));
  }

  // ---- feature stripping ----

  /** What `ToStrWithoutFeat` keeps of a category: every feature and all
      semantics gone in the `japanese` mode; otherwise only the wildcard and
      `nb` features erased, and only functor semantics dropped. */
  function Erase(t: Cat, japanese: bool): Cat {
    match t
    case Atom(ty, g, sem) =>
      if japanese then Atom(ty, NONE, "")
      else if g == WILDCARD || g == NB then Atom(ty, NONE, sem)
      else t
    case Fn(l, s, r, _) => Fn(Erase(l, japanese), s, Erase(r, japanese), "")
  }

  /** Erasing removes the wildcard and `nb` everywhere (every feature in the
      `japanese` mode), keeps the shape, and erasing again changes nothing. */
  lemma {:induction false} EraseProperties(t: Cat, japanese: bool)
    ensures WildcardFree(Erase(t, japanese))
    ensures Erase(Erase(t, japanese), japanese) == Erase(t, japanese)
    ensures Plain(t) ==> Plain(Erase(t, japanese))
  {
    match t
    case Atom(_, _, _) =>
    case Fn(l, _, r, _) => EraseProperties(l, japanese); EraseProperties(r, japanese);
  }

  /** The text `ToStrWithoutFeat` builds for a plain atomic category outside
      the `japanese` mode: its text with `[X]` and then `[nb]` rewritten to
      nothing is the text of the erased atom. */
  lemma EraseAtomText(ty: string, g: Feature)
    requires PlainText(ty) && PlainText(g.text)
    ensures ReplaceAll(ReplaceAll(Str(Atom(ty, g, "")), "[X]", ""), "[nb]", "")
         == Str(Erase(Atom(ty, g, ""), false))
  {
    assert "[" + "X" + "]" == "[X]" && "[" + "nb" + "]" == "[nb]";
    assert Str(Atom(ty, g, "")) == ty + g.ToStr();
    assert g == WILDCARD <==> g.text == "X";
    assert g == NB <==> g.text == "nb";
    ReplaceAllAtom(ty, g, "X", "");
    AvoidsNotIn(ty, Special, '[');
    if g.text == "X" {
      assert ty + "" == ty;
      ReplaceAllNoOccurrence(ty, "[nb]", "");
    } else {
      ReplaceAllAtom(ty, g, "nb", "");
    }
  }

  // ---- composition ----

  /** The number of arguments of a tree. */
  function TNArgs(t: Cat): nat {
    if t.Atom? then 0 else 1 + TNArgs(t.left)
  }

  /** `i` steps down the left spine. */
  function LeftAt(t: Cat, i: nat): (r: Option<Cat>)
    ensures r.Some? <==> i <= TNArgs(t)
  {
    if i == 0 then Some(t) else if t.Atom? then None else LeftAt(t.left, i - 1)
  }

  /** `t` with the category `i` steps down its left spine replaced by `x`.
      The functors above it are rebuilt as `Make` builds them, without
      semantics. */
  function ReplaceLeftAt(t: Cat, i: nat, x: Cat): (r: Option<Cat>)
    ensures r.Some? <==> i <= TNArgs(t)
  {
    if i == 0 then Some(x)
    else if t.Atom? then None
    else
      match ReplaceLeftAt(t.left, i - 1, x)
      case None => None
      case Some(l) => Some(Fn(l, t.slash, t.right, ""))
  }

  /** The category `k` steps down the left spine is a functor exactly when
      `k` is less than the number of arguments. */
  lemma {:induction false} LeftAtArity(t: Cat, k: nat)
    requires k <= TNArgs(t)
    ensures TNArgs(LeftAt(t, k).value) == TNArgs(t) - k
    ensures LeftAt(t, k).value.Fn? <==> k < TNArgs(t)
  {
    if k > 0 { LeftAtArity(t.left, k - 1); }
  }

  /** What replacing on the left spine keeps: the spine down to the
      replaced node, the slashes and right arguments along it. */
  lemma {:induction false} ReplaceLeftAtSpine(t: Cat, i: nat, x: Cat)
    requires i <= TNArgs(t)
    ensures TNArgs(ReplaceLeftAt(t, i, x).value) == i + TNArgs(x)
    ensures LeftAt(ReplaceLeftAt(t, i, x).value, i) == Some(x)
    ensures forall j | 0 <= j < i ::
      && LeftAt(t, j).value.Fn?
      && LeftAt(ReplaceLeftAt(t, i, x).value, j).value.Fn?
      && LeftAt(ReplaceLeftAt(t, i, x).value, j).value.slash == LeftAt(t, j).value.slash
      && LeftAt(ReplaceLeftAt(t, i, x).value, j).value.right == LeftAt(t, j).value.right
  {
    forall j | 0 <= j < i ensures LeftAt(t, j).value.Fn? { LeftAtArity(t, j); }
    if i > 0 {
      ReplaceLeftAtSpine(t.left, i - 1, x);
      var r := ReplaceLeftAt(t, i, x).value;
      forall j | 0 < j < i
        ensures LeftAt(r, j) == LeftAt(ReplaceLeftAt(t.left, i - 1, x).value, j - 1)
        ensures LeftAt(t, j) == LeftAt(t.left, j - 1)
      {
      }
    }
  }

  /** One step down the spine: replacing at depth `k` is replacing at depth
      `k - 1` by the functor that hangs `x` where the old left child was. */
  lemma {:induction false} ReplaceLeftAtStep(t: Cat, k: nat, x: Cat)
    requires 1 <= k <= TNArgs(t)
    ensures LeftAt(t, k - 1).value.Fn?
    ensures ReplaceLeftAt(t, k, x)
         == ReplaceLeftAt(t, k - 1, Fn(x, LeftAt(t, k - 1).value.slash, LeftAt(t, k - 1).value.right, ""))
  {
    LeftAtArity(t, k - 1);
    if k > 1 { ReplaceLeftAtStep(t.left, k - 1, x); }
  }

  /** `Compose<k>(head, op, tail)`: the category `k` steps down the left spine
      of `tail` is a functor `X|Y`; it is replaced by `head op Y`. `None` is
      the error of asking an atomic category for its right child. */
  function ComposeSpec(head: Cat, op: Slash, tail: Cat, k: nat): Option<Cat> {
    match LeftAt(tail, k)
    case Some(Fn(_, _, y, _)) => ReplaceLeftAt(tail, k, Fn(head, op, y, ""))
    case _ => None
  }

  /** Composition is defined exactly when `tail` has more than `k` arguments;
      the result has `head` `k + 1` steps down its spine, `head op Y` above
      it, and the outer arguments and slashes of `tail` (A/B B/C/D/E gives
      A/C/D/E). */
  lemma ComposeSpecShape(head: Cat, op: Slash, tail: Cat, k: nat)
    ensures ComposeSpec(head, op, tail, k).Some? <==> k < TNArgs(tail)
    ensures k < TNArgs(tail) ==>
      var r := ComposeSpec(head, op, tail, k).value;
      && TNArgs(r) == k + 1 + TNArgs(head)
      && LeftAt(r, k) == Some(Fn(head, op, LeftAt(tail, k).value.right, ""))
      && LeftAt(r, k + 1) == Some(head)
      && forall j | 0 <= j < k ::
           && LeftAt(tail, j).value.Fn?
           && LeftAt(r, j).value.Fn?
           && LeftAt(r, j).value.slash == LeftAt(tail, j).value.slash
           && LeftAt(r, j).value.right == LeftAt(tail, j).value.right
  {
    if k <= TNArgs(tail) {
      LeftAtArity(tail, k);
      if k < TNArgs(tail) {
        var y := LeftAt(tail, k).value.right;
        ReplaceLeftAtSpine(tail, k, Fn(head, op, y, ""));
        var r := ReplaceLeftAt(tail, k, Fn(head, op, y, "")).value;
        LeftAtStep(r, k);
      }
    }
  }

  lemma {:induction false} LeftAtStep(t: Cat, k: nat)
    requires LeftAt(t, k).Some? && LeftAt(t, k).value.Fn?
    ensures LeftAt(t, k + 1) == Some(LeftAt(t, k).value.left)
  {
    if k > 0 { LeftAtStep(t.left, k - 1); }
  }

  /** The recursion of the `Compose` template: composing at depth `k` is
      composing `head op Y` at depth `k - 1`, with the slash found there. */
  lemma ComposeSpecStep(head: Cat, op: Slash, tail: Cat, k: nat)
    requires 1 <= k < TNArgs(tail)
    ensures LeftAt(tail, k - 1).value.Fn? && LeftAt(tail, k).value.Fn?
    ensures ComposeSpec(head, op, tail, k)
         == ComposeSpec(Fn(head, op, LeftAt(tail, k).value.right, ""), LeftAt(tail, k - 1).value.slash, tail, k - 1)
  {
    LeftAtArity(tail, k);
    LeftAtArity(tail, k - 1);
    LeftAtStep(tail, k - 1);
    ReplaceLeftAtStep(tail, k, Fn(head, op, LeftAt(tail, k).value.right, ""));
  }

  /** Composition of plain categories is plain. */
  lemma {:induction false} PlainLeftAt(t: Cat, k: nat)
    requires Plain(t) && k <= TNArgs(t)
    ensures Plain(LeftAt(t, k).value)
  {
    if k > 0 { PlainLeftAt(t.left, k - 1); }
  }

  lemma {:induction false} PlainReplaceLeftAt(t: Cat, k: nat, x: Cat)
    requires Plain(t) && Plain(x) && k <= TNArgs(t)
    ensures Plain(ReplaceLeftAt(t, k, x).value)
  {
    if k > 0 { PlainReplaceLeftAt(t.left, k - 1, x); }
  }

  /** A plain tail keeps its semantics-free spine, so composing at depth `k`
      is exactly the replacement on the left spine. */
  lemma PlainCompose(head: Cat, op: Slash, tail: Cat, k: nat)
    requires Plain(head) && Plain(tail) && k < TNArgs(tail)
    ensures ComposeSpec(head, op, tail, k).Some? && Plain(ComposeSpec(head, op, tail, k).value)
  {
    ComposeSpecShape(head, op, tail, k);
    LeftAtArity(tail, k);
    PlainLeftAt(tail, k);
    PlainReplaceLeftAt(tail, k, Fn(head, op, LeftAt(tail, k).value.right, ""));
  }

  function AtomNamed(ty: string): Cat { Atom(ty, NONE, "") }

  /** The example of cat.h: `A` composed into `((B/C)/D)/E` at depth 2 gives
      `((A/C)/D)/E`; at depth 3 (as the comment there writes it) the step
      reaches the atomic `B` and fails. */
  lemma ComposeExample()
    ensures
      var tail := Fn(Fn(Fn(AtomNamed("B"), Fwd, AtomNamed("C"), ""), Fwd, AtomNamed("D"), ""), Fwd, AtomNamed("E"), "");
      && ComposeSpec(AtomNamed("A"), Fwd, tail, 2)
         == Some(Fn(Fn(Fn(AtomNamed("A"), Fwd, AtomNamed("C"), ""), Fwd, AtomNamed("D"), ""), Fwd, AtomNamed("E"), ""))
      && ComposeSpec(AtomNamed("A"), Fwd, tail, 3) == None
  {
  }
}
