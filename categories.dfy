/** Category nodes as the registry stores them, and the read-only queries of
    cat.h over them. A node refers to its children by id (its index in the
    arena); two categories are equal exactly when their ids are. */
module Categories {
  import opened Wrappers
  import opened Slashes
  import opened Features
  import opened Syntax
  import opened Rewriting

  /** `AtomicCategory(type, feat)` and `Functor(left, slash, right)`, each
      with the semantics it was parsed with. */
  datatype Node =
    | Atomic(typ: string, feat: Feature, sem: string)
    | Functor(left: nat, slash: Slash, right: nat, sem: string)

  /** Ids are handed out in construction order and a functor's children are
      built before it, so they have smaller ids. */
  predicate WellFormed(a: seq<Node>) {
    forall i | 0 <= i < |a| :: a[i].Functor? ==> a[i].left < i && a[i].right < i
  }

  /** The category tree below node `c`. */
  function Tree(a: seq<Node>, c: nat): Cat
    requires WellFormed(a) && c < |a|
    decreases c
  {
    match a[c]
    case Atomic(ty, f, sem) => Atom(ty, f, sem)
    case Functor(l, s, r, sem) => Fn(Tree(a, l), s, Tree(a, r), sem)
  }

  // ---- text ----

  /** `Category::ToStr`: the canonical text fixed at construction. */
  function ToStr(a: seq<Node>, c: nat): (s: string)
    requires WellFormed(a) && c < |a|
    ensures s == Str(Tree(a, c))
    decreases c, 0
  {
    match a[c]
    case Atomic(ty, f, sem) => ty + f.ToStr() + SemSuffix(sem)
    case Functor(l, sl, r, sem) => WithBrackets(a, l) + sl.ToStr() + WithBrackets(a, r) + SemSuffix(sem)
  }

  /** `WithBrackets`: a functor's text in parentheses, an atom's as it is. */
  function WithBrackets(a: seq<Node>, c: nat): (s: string)
    requires WellFormed(a) && c < |a|
    ensures s == Bracketed(Tree(a, c))
    decreases c, 1
  {
    if a[c].Functor? then "(" + ToStr(a, c) + ")" else ToStr(a, c)
  }

  // ---- degree, arguments, head ----

  /** `NArgs`: the number of arguments, i.e. the length of the left spine. */
  function NArgs(a: seq<Node>, c: nat): (n: nat)
    requires WellFormed(a) && c < |a|
    ensures n == 0 <==> a[c].Atomic?
    decreases c
  {
    if a[c].Atomic? then 0 else 1 + NArgs(a, a[c].left)
  }

  /** `Arg(n)`: argument `n` counted from the innermost one (`n == NArgs` is
      the outer right child); `Arg(0)` reaches the atomic result. `None` is
      the error an atomic category raises for an index other than 0. */
  function Arg(a: seq<Node>, c: nat, n: int): (r: Option<nat>)
    requires WellFormed(a) && c < |a|
    ensures r.Some? <==> 0 <= n <= NArgs(a, c)
    ensures r.Some? ==> r.value <= c
    decreases c
  {
    if a[c].Atomic? then (if n == 0 then Some(c) else None)
    else if n == NArgs(a, c) then Some(a[c].right)
    else Arg(a, a[c].left, n)
  }

  /** `HeadCat`: the atomic category at the bottom of the left spine. */
  function HeadCat(a: seq<Node>, c: nat): (h: nat)
    requires WellFormed(a) && c < |a|
    ensures h <= c && a[h].Atomic?
    ensures GetLeft(a, c, NArgs(a, c)) == Some(h)
    decreases c
  {
    if a[c].Atomic? then c else HeadCat(a, a[c].left)
  }

  // ---- spine navigation ----

  /** `GetLeft<i>`: `i` steps down the left spine; `None` where the C++
      template would ask an atomic category for its left child. */
  function GetLeft(a: seq<Node>, c: nat, i: nat): (r: Option<nat>)
    requires WellFormed(a) && c < |a|
    ensures r.Some? <==> i <= NArgs(a, c)
    ensures i > 0 && a[c].Atomic? ==> r.None?
    ensures r.Some? ==> r.value <= c
    decreases i
  {
    if i == 0 then Some(c)
    else if a[c].Atomic? then None
    else GetLeft(a, a[c].left, i - 1)
  }

  /** `GetRight<i>`: `i` steps down the right spine. */
  function GetRight(a: seq<Node>, c: nat, i: nat): (r: Option<nat>)
    requires WellFormed(a) && c < |a|
    ensures r.Some? <==> i <= RightDepth(a, c)
    ensures i > 0 && a[c].Atomic? ==> r.None?
    ensures r.Some? ==> r.value <= c
    decreases i
  {
    if i == 0 then Some(c)
    else if a[c].Atomic? then None
    else GetRight(a, a[c].right, i - 1)
  }

  /** `HasFunctorAtLeft<i>`: the node `i` steps down the left spine exists and
      is a functor. */
  predicate HasFunctorAtLeft(a: seq<Node>, c: nat, i: nat)
    requires WellFormed(a) && c < |a|
    ensures HasFunctorAtLeft(a, c, i) <==> GetLeft(a, c, i).Some? && a[GetLeft(a, c, i).value].Functor?
    decreases i
  {
    if i == 0 then a[c].Functor?
    else a[c].Functor? && HasFunctorAtLeft(a, a[c].left, i - 1)
  }

  /** `HasFunctorAtRight<i>`. */
  predicate HasFunctorAtRight(a: seq<Node>, c: nat, i: nat)
    requires WellFormed(a) && c < |a|
    ensures HasFunctorAtRight(a, c, i) <==> GetRight(a, c, i).Some? && a[GetRight(a, c, i).value].Functor?
    decreases i
  {
    if i == 0 then a[c].Functor?
    else a[c].Functor? && HasFunctorAtRight(a, a[c].right, i - 1)
  }

  /** Depth of the right spine. */
  function RightDepth(a: seq<Node>, c: nat): nat
    requires WellFormed(a) && c < |a|
    decreases c
  {
    if a[c].Atomic? then 0 else 1 + RightDepth(a, a[c].right)
  }

  // ---- matching and substitution ----

  /** `Matches`: same shape, matching slashes, and at every atom the same
      type under the empty / equal / wildcard / `nb` feature disjunction. */
  predicate Matches(a: seq<Node>, c: nat, o: nat)
    requires WellFormed(a) && c < |a| && o < |a|
    ensures Matches(a, c, o) ==> SameShape(a, c, o) && NArgs(a, c) == NArgs(a, o)
    decreases c
  {
    match a[c]
    case Atomic(ty, f, _) =>
      && a[o].Atomic?
      && ty == a[o].typ
      && (|| f.IsEmpty()
          || f.Matches(a[o].feat)
          || WILDCARD.Matches(f)
          || WILDCARD.Matches(a[o].feat)
          || f.Matches(NB))
    case Functor(l, s, r, _) =>
      && a[o].Functor?
      && Matches(a, l, a[o].left)
      && Matches(a, r, a[o].right)
      && s.Matches(a[o].slash)
  }

  /** Both categories have the same functor skeleton. */
  predicate SameShape(a: seq<Node>, c: nat, o: nat)
    requires WellFormed(a) && c < |a| && o < |a|
    decreases c
  {
    if a[c].Atomic? then a[o].Atomic?
    else a[o].Functor? && SameShape(a, a[c].left, a[o].left) && SameShape(a, a[c].right, a[o].right)
  }

  /** `GetSubstitution`: the feature a wildcard on one side picks up from the
      other, right arguments first. `None` where the C++ code asks the other
      side for a feature or a child it does not have. */
  function GetSubstitution(a: seq<Node>, c: nat, o: nat): (r: Option<Feature>)
    requires WellFormed(a) && c < |a| && o < |a|
    ensures a[c].Atomic? != a[o].Atomic? ==> r.None?
    ensures a[c].Atomic? && a[o].Atomic? ==> r.Some?
    decreases c
  {
    match a[c]
    case Atomic(_, f, _) =>
      if a[o].Functor? then None
      else if f.Matches(WILDCARD) then Some(a[o].feat)
      else if a[o].feat.Matches(WILDCARD) then Some(f)
      else Some(NONE)
    case Functor(l, _, r, _) =>
      if a[o].Atomic? then None
      else
        match GetSubstitution(a, r, a[o].right)
        case None => None
        case Some(res) =>
          if res.IsEmpty() then GetSubstitution(a, l, a[o].left) else Some(res)
  }

  // ---- shape predicates ----

  /** `IsModifier`: a functor `X|X` whose two halves are the same node. */
  predicate IsModifier(a: seq<Node>, c: nat)
    requires WellFormed(a) && c < |a|
    ensures IsModifier(a, c) ==> Tree(a, c).Fn? && Tree(a, c).left == Tree(a, c).right
  {
    a[c].Functor? && a[c].left == a[c].right
  }

  /** `IsTypeRaised`: a functor `X|(X|Y)`, the inner `X` the same node. */
  predicate IsTypeRaised(a: seq<Node>, c: nat)
    requires WellFormed(a) && c < |a|
    ensures IsTypeRaised(a, c) ==>
      Tree(a, c).Fn? && Tree(a, c).right.Fn? && Tree(a, c).right.left == Tree(a, c).left
  {
    a[c].Functor? && a[a[c].right].Functor? && a[a[c].right].left == a[c].left
  }

  /** `IsForwardTypeRaised`: `X/(X|Y)`. */
  predicate IsForwardTypeRaised(a: seq<Node>, c: nat)
    requires WellFormed(a) && c < |a|
    ensures IsForwardTypeRaised(a, c) ==>
      Tree(a, c).Fn? && Tree(a, c).slash == Fwd && Tree(a, c).right.Fn? && Tree(a, c).right.left == Tree(a, c).left
  {
    IsTypeRaised(a, c) && a[c].slash.IsForward()
  }

  /** As written: the slash test is `IsForward`, as in the forward variant. */
  predicate IsBackwardTypeRaised(a: seq<Node>, c: nat)
    requires WellFormed(a) && c < |a|
    ensures IsBackwardTypeRaised(a, c) ==> Tree(a, c).Fn? && Tree(a, c).slash == Fwd
  {
    IsTypeRaised(a, c) && a[c].slash.IsForward()
  }

  /** As evidently intended: a type-raised category with a backward slash. */
  predicate IsBackwardTypeRaisedIntended(a: seq<Node>, c: nat)
    requires WellFormed(a) && c < |a|
    ensures IsBackwardTypeRaisedIntended(a, c) ==>
      Tree(a, c).Fn? && Tree(a, c).slash == Bwd && Tree(a, c).right.Fn? && Tree(a, c).right.left == Tree(a, c).left
    ensures IsBackwardTypeRaisedIntended(a, c) ==> !IsForwardTypeRaised(a, c)
  {
    IsTypeRaised(a, c) && a[c].slash.IsBackward()
  }

  /** `IsFunctionInto(target)`: `target` matches this category or a category
      further down its left spine. */
  predicate IsFunctionInto(a: seq<Node>, c: nat, target: nat)
    requires WellFormed(a) && c < |a| && target < |a|
    ensures IsFunctionInto(a, c, target) ==> NArgs(a, target) <= NArgs(a, c)
    decreases c
  {
    Matches(a, target, c) || (a[c].Functor? && IsFunctionInto(a, a[c].left, target))
  }

  /** `IsFunctionIntoModifier`: this category or its left child is a modifier. */
  predicate IsFunctionIntoModifier(a: seq<Node>, c: nat)
    requires WellFormed(a) && c < |a|
    ensures IsFunctionIntoModifier(a, c) ==> NArgs(a, c) >= 1
  {
    IsModifier(a, c) || (a[c].Functor? && IsModifier(a, a[c].left))
  }

  /** `IsPunct`: an atomic type that does not start with a letter, or one of
      the bracket and quote types. An empty type reads as the character 0. */
  predicate IsPunct(a: seq<Node>, c: nat)
    requires WellFormed(a) && c < |a|
    ensures IsPunct(a, c) ==> Tree(a, c).Atom? && NArgs(a, c) == 0
  {
    match a[c]
    case Functor(_, _, _, _) => false
    case Atomic(ty, _, _) =>
      || |ty| == 0
      || !(('A' <= ty[0] <= 'Z') || ('a' <= ty[0] <= 'z'))
      || ty == "LRB" || ty == "RRB" || ty == "LQU" || ty == "RQU"
  }

  /** `IsNorNP`: the atomic types `N` and `NP`. */
  predicate IsNorNP(a: seq<Node>, c: nat)
    requires WellFormed(a) && c < |a|
    ensures IsNorNP(a, c) ==> Tree(a, c).Atom? && Tree(a, c).typ in {"N", "NP"} && !IsPunct(a, c)
  {
    a[c].Atomic? && (a[c].typ == "N" || a[c].typ == "NP")
  }

  /** `ToStrWithoutFeat`: the text with the wildcard and `nb` features erased
      (every feature erased, and only the type kept, in the `japanese` mode). */
  function ToStrWithoutFeat(a: seq<Node>, c: nat, japanese: bool): (r: string)
    requires WellFormed(a) && c < |a|
    ensures a[c].Functor? ==> |r| >= 3 && r[0] == '(' && r[|r| - 1] == ')'
    decreases c
  {
    match a[c]
    case Functor(l, sl, r, _) =>
      "(" + ToStrWithoutFeat(a, l, japanese) + sl.ToStr() + ToStrWithoutFeat(a, r, japanese) + ")"
    case Atomic(ty, _, _) =>
      if japanese then ty
      else TextUtils.ReplaceAll(TextUtils.ReplaceAll(ToStr(a, c), "[X]", ""), "[nb]", "")
  }

  // ---- the arena and the trees ----

  /** Extending the arena keeps it well formed below and changes no tree. */
  lemma {:induction false} TreeStable(a: seq<Node>, b: seq<Node>, c: nat)
    requires WellFormed(b) && a <= b && c < |a|
    ensures WellFormed(a) && Tree(b, c) == Tree(a, c)
    decreases c
  {
    assert forall i | 0 <= i < |a| :: a[i] == b[i];
    if b[c].Functor? { TreeStable(a, b, b[c].left); TreeStable(a, b, b[c].right); }
  }

  lemma {:induction false} NArgsTree(a: seq<Node>, c: nat)
    requires WellFormed(a) && c < |a|
    ensures NArgs(a, c) == TNArgs(Tree(a, c))
    decreases c
  {
    if a[c].Functor? { NArgsTree(a, a[c].left); }
  }

  /** `GetLeft<i>` is defined exactly up to the number of arguments, and
      reaches the node of the tree `i` steps down the left spine. */
  lemma {:induction false} GetLeftDefined(a: seq<Node>, c: nat, i: nat)
    requires WellFormed(a) && c < |a|
    ensures GetLeft(a, c, i).Some? <==> i <= NArgs(a, c)
    ensures GetLeft(a, c, i).Some? ==> LeftAt(Tree(a, c), i) == Some(Tree(a, GetLeft(a, c, i).value))
    decreases i
  {
    if i > 0 && a[c].Functor? { GetLeftDefined(a, a[c].left, i - 1); }
  }

  /** `HasFunctorAtLeft<i>` holds exactly below the number of arguments, and
      `HasFunctorAtRight<i>` exactly below the depth of the right spine, which
      is where `GetRight<i>` is defined. */
  lemma {:induction false} HasFunctorAtIff(a: seq<Node>, c: nat, i: nat)
    requires WellFormed(a) && c < |a|
    ensures HasFunctorAtLeft(a, c, i) <==> i < NArgs(a, c)
    ensures HasFunctorAtLeft(a, c, i) <==> GetLeft(a, c, i).Some? && a[GetLeft(a, c, i).value].Functor?
    ensures HasFunctorAtRight(a, c, i) <==> i < RightDepth(a, c)
    ensures GetRight(a, c, i).Some? <==> i <= RightDepth(a, c)
    ensures HasFunctorAtRight(a, c, i) <==> GetRight(a, c, i).Some? && a[GetRight(a, c, i).value].Functor?
    decreases i
  {
    if i > 0 && a[c].Functor? {
      HasFunctorAtIff(a, a[c].left, i - 1);
      HasFunctorAtIff(a, a[c].right, i - 1);
    }
  }

  /** `Arg(n)` is defined exactly for `0 <= n <= NArgs`; `Arg(0)` is the head
      and `Arg(n)` for `n >= 1` is the right child of the functor
      `NArgs - n` steps down the left spine. */
  lemma {:induction false} ArgSpine(a: seq<Node>, c: nat, n: int)
    requires WellFormed(a) && c < |a|
    ensures Arg(a, c, n).Some? <==> 0 <= n <= NArgs(a, c)
    ensures n == 0 ==> Arg(a, c, n) == Some(HeadCat(a, c))
    ensures 1 <= n <= NArgs(a, c) ==>
      var d := GetLeft(a, c, NArgs(a, c) - n);
      d.Some? && a[d.value].Functor? && Arg(a, c, n) == Some(a[d.value].right)
    decreases c
  {
    if a[c].Functor? && n != NArgs(a, c) { ArgSpine(a, a[c].left, n); }
  }

  // ---- matching and substitution ----

  /** Every category matches itself. */
  lemma {:induction false} MatchesReflexive(a: seq<Node>, c: nat)
    requires WellFormed(a) && c < |a|
    ensures Matches(a, c, c)
    decreases c
  {
    if a[c].Functor? { MatchesReflexive(a, a[c].left); MatchesReflexive(a, a[c].right); }
  }

  /** The atomic `NP[nb]` matches a featureless `NP` but not `PP`, and a
      featureless category matches any feature of its type. */
  lemma MatchesExample()
    ensures
      var a := [Atomic("NP", NB, ""), Atomic("NP", NONE, ""), Atomic("PP", NONE, ""),
                Atomic("S", Features.Parse("dcl"), ""), Atomic("S", NONE, ""), Atomic("S", Features.Parse("b"), "")];
      && WellFormed(a)
      && Matches(a, 0, 1) && !Matches(a, 0, 2)
      && Matches(a, 4, 3) && !Matches(a, 3, 5)
  {
  }

  /** Substitution looks for a feature in the same places on both sides: it
      is defined for categories of the same shape, fails on an atomic /
      functor clash, and gives the same result with the sides swapped. */
  lemma {:induction false} GetSubstitutionShape(a: seq<Node>, c: nat, o: nat)
    requires WellFormed(a) && c < |a| && o < |a|
    ensures SameShape(a, c, o) ==> GetSubstitution(a, c, o).Some?
    ensures a[c].Atomic? != a[o].Atomic? ==> GetSubstitution(a, c, o).None?
    ensures GetSubstitution(a, c, o) == GetSubstitution(a, o, c)
    decreases c
  {
    if a[c].Functor? && a[o].Functor? {
      GetSubstitutionShape(a, a[c].left, a[o].left);
      GetSubstitutionShape(a, a[c].right, a[o].right);
    }
  }

  /** Without a wildcard on either side there is nothing to substitute. */
  lemma {:induction false} GetSubstitutionNoWildcard(a: seq<Node>, c: nat, o: nat)
    requires WellFormed(a) && c < |a| && o < |a|
    requires WildcardFree(Tree(a, c)) && WildcardFree(Tree(a, o))
    ensures GetSubstitution(a, c, o).None? || GetSubstitution(a, c, o) == Some(NONE)
    decreases c
  {
    if a[c].Functor? && a[o].Functor? {
      GetSubstitutionNoWildcard(a, a[c].left, a[o].left);
      GetSubstitutionNoWildcard(a, a[c].right, a[o].right);
    }
  }

  /** A node whose tree is another's with the wildcard substituted has the
      same skeleton. */
  lemma {:induction false} SubstShape(a: seq<Node>, c: nat, o: nat, f: Feature)
    requires WellFormed(a) && c < |a| && o < |a|
    requires Tree(a, o) == SubstWild(Tree(a, c), f)
    ensures SameShape(a, c, o)
    decreases c
  {
    if a[c].Functor? {
      assert a[o].Functor?;
      SubstShape(a, a[c].left, a[o].left, f);
      SubstShape(a, a[c].right, a[o].right, f);
    } else {
      assert a[o].Atomic?;
    }
  }

  /** Matching a pattern that holds the wildcard against its instance with
      the wildcard replaced by `f` finds `f`, in either order: the feature
      that `CorrectWildcardFeatures` then spreads. */
  lemma {:induction false} GetSubstitutionRecovers(a: seq<Node>, c: nat, o: nat, f: Feature)
    requires WellFormed(a) && c < |a| && o < |a|
    requires !WildcardFree(Tree(a, c)) && !f.IsEmpty()
    requires Tree(a, o) == SubstWild(Tree(a, c), f)
    ensures GetSubstitution(a, c, o) == Some(f)
    ensures GetSubstitution(a, o, c) == Some(f)
    decreases c
  {
    GetSubstitutionShape(a, c, o);
    if a[c].Functor? {
      var l, r, ol, or := a[c].left, a[c].right, a[o].left, a[o].right;
      assert Tree(a, ol) == SubstWild(Tree(a, l), f) && Tree(a, or) == SubstWild(Tree(a, r), f);
      if !WildcardFree(Tree(a, r)) {
        GetSubstitutionRecovers(a, r, or, f);
      } else {
        SubstWildProperties(Tree(a, r), f);
        SubstShape(a, r, or, f);
        GetSubstitutionShape(a, r, or);
        GetSubstitutionNoWildcard(a, r, or);
        GetSubstitutionRecovers(a, l, ol, f);
      }
    }
  }

  // ---- shape predicates ----

  /** Type-raising as written: the backward test is the forward test. */
  lemma BackwardTypeRaisedAsWritten(a: seq<Node>, c: nat)
    requires WellFormed(a) && c < |a|
    ensures IsBackwardTypeRaised(a, c) <==> IsForwardTypeRaised(a, c)
  {
  }

  /** `S\(S/NP)` is a backward type-raised category that the code as written
      does not recognise; the intended test does. */
  lemma BackwardTypeRaisedCounterexample()
    ensures
      var a := [Atomic("S", NONE, ""), Atomic("NP", NONE, ""), Functor(0, Fwd, 1, ""), Functor(0, Bwd, 2, "")];
      && WellFormed(a)
      && IsTypeRaised(a, 3)
      && !IsBackwardTypeRaised(a, 3)
      && IsBackwardTypeRaisedIntended(a, 3)
      && ToStr(a, 3) == "S\\(S/NP)"
  {
    var a := [Atomic("S", NONE, ""), Atomic("NP", NONE, ""), Functor(0, Fwd, 1, ""), Functor(0, Bwd, 2, "")];
    assert ToStr(a, 2) == "S/NP";
  }

  /** With the intended test a type-raised category with a directed slash is
      exactly one of forward or backward type-raised. */
  lemma TypeRaisedDirection(a: seq<Node>, c: nat)
    requires WellFormed(a) && c < |a| && IsTypeRaised(a, c) && a[c].slash != Either
    ensures IsForwardTypeRaised(a, c) != IsBackwardTypeRaisedIntended(a, c)
  {
  }

  /** `IsFunctionInto(target)` holds exactly when `target` matches some
      category on the left spine. */
  lemma {:induction false} IsFunctionIntoSpine(a: seq<Node>, c: nat, target: nat)
    requires WellFormed(a) && c < |a| && target < |a|
    ensures IsFunctionInto(a, c, target) <==>
      exists i | 0 <= i <= NArgs(a, c) :: SpineMatch(a, c, target, i)
    decreases c
  {
    if a[c].Functor? {
      var l := a[c].left;
      IsFunctionIntoSpine(a, l, target);
      forall i | 0 <= i <= NArgs(a, l) ensures SpineMatch(a, c, target, i + 1) == SpineMatch(a, l, target, i) { }
      if IsFunctionInto(a, c, target) {
        if !Matches(a, target, c) {
          var i :| 0 <= i <= NArgs(a, l) && SpineMatch(a, l, target, i);
          assert SpineMatch(a, c, target, i + 1);
        } else {
          assert SpineMatch(a, c, target, 0);
        }
      } else {
        forall i | 0 <= i <= NArgs(a, c) ensures !SpineMatch(a, c, target, i) {
          if i > 0 { assert SpineMatch(a, c, target, i) == SpineMatch(a, l, target, i - 1); }
        }
      }
    } else {
      if IsFunctionInto(a, c, target) { assert SpineMatch(a, c, target, 0); }
    }
  }

  /** `target` matches the category `i` steps down the left spine of `c`. */
  predicate SpineMatch(a: seq<Node>, c: nat, target: nat, i: nat)
    requires WellFormed(a) && c < |a| && target < |a|
  {
    GetLeft(a, c, i).Some? && Matches(a, target, GetLeft(a, c, i).value)
  }

  /** `IsFunctionIntoModifier` looks one level down only: a functor whose
      halves are the same node, or whose left child is one. */
  lemma IsFunctionIntoModifierTree(a: seq<Node>, c: nat)
    requires WellFormed(a) && c < |a| && IsFunctionIntoModifier(a, c)
    ensures
      var t := Tree(a, c);
      t.Fn? && (t.left == t.right || (t.left.Fn? && t.left.left == t.left.right))
  {
  }

  /** `N` and `NP` are not punctuation, and only atomic categories are. */
  lemma PunctProperties(a: seq<Node>, c: nat)
    requires WellFormed(a) && c < |a|
    ensures IsNorNP(a, c) ==> !IsPunct(a, c)
    ensures IsPunct(a, c) ==> a[c].Atomic?
  {
  }

  /** For a plain category `ToStrWithoutFeat` is the bracketed text of the
      erased tree. */
  lemma {:induction false} ToStrWithoutFeatTree(a: seq<Node>, c: nat, japanese: bool)
    requires WellFormed(a) && c < |a| && Plain(Tree(a, c))
    ensures ToStrWithoutFeat(a, c, japanese) == Bracketed(Erase(Tree(a, c), japanese))
    decreases c
  {
    if a[c].Atomic? {
      ToStrWithoutFeatAtom(a, c, japanese);
    } else {
      ToStrWithoutFeatTree(a, a[c].left, japanese);
      ToStrWithoutFeatTree(a, a[c].right, japanese);
      ToStrWithoutFeatFunctor(a, c, japanese);
    }
  }

  lemma ToStrWithoutFeatAtom(a: seq<Node>, c: nat, japanese: bool)
    requires WellFormed(a) && c < |a| && a[c].Atomic? && Plain(Tree(a, c))
    ensures ToStrWithoutFeat(a, c, japanese) == Bracketed(Erase(Tree(a, c), japanese))
  {
    var ty, g := a[c].typ, a[c].feat;
    assert Tree(a, c) == Atom(ty, g, "");
    if !japanese {
      assert ToStr(a, c) == Str(Atom(ty, g, ""));
      EraseAtomText(ty, g);
    }
  }

  lemma ToStrWithoutFeatFunctor(a: seq<Node>, c: nat, japanese: bool)
    requires WellFormed(a) && c < |a| && a[c].Functor?
    requires ToStrWithoutFeat(a, a[c].left, japanese) == Bracketed(Erase(Tree(a, a[c].left), japanese))
    requires ToStrWithoutFeat(a, a[c].right, japanese) == Bracketed(Erase(Tree(a, a[c].right), japanese))
    ensures ToStrWithoutFeat(a, c, japanese) == Bracketed(Erase(Tree(a, c), japanese))
  {
    var l, sl, r := a[c].left, a[c].slash, a[c].right;
    EraseFunctorNode(a, c, japanese);
    BracketedFunctor(Erase(Tree(a, l), japanese), sl, Erase(Tree(a, r), japanese));
  }

  lemma EraseFunctorNode(a: seq<Node>, c: nat, japanese: bool)
    requires WellFormed(a) && c < |a| && a[c].Functor?
    ensures Erase(Tree(a, c), japanese)
         == Fn(Erase(Tree(a, a[c].left), japanese), a[c].slash, Erase(Tree(a, a[c].right), japanese), "")
  {
  }

  lemma BracketedFunctor(l: Cat, sl: Slash, r: Cat)
    ensures Bracketed(Fn(l, sl, r, "")) == "(" + Bracketed(l) + sl.ToStr() + Bracketed(r) + ")"
  {
    assert Str(Fn(l, sl, r, "")) == Bracketed(l) + sl.ToStr() + Bracketed(r) + "";
  }
}
