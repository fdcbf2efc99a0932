/** The registry behind `Category::Parse`: every category ever built, in id
    order, the `Cacheable` map from texts to ids, and the `num_cats`
    counter. Parsing is memoised, so what a text yields can depend on what
    was parsed before; the contracts tie each result to the texts it was
    reached from through `Denotes`, and to an exact tree for plain text. */
module Registries {
  import opened Wrappers
  import opened Slashes
  import opened Features
  import opened TextUtils
  import opened Syntax
  import opened Rewriting
  import opened Categories

  /** Every cached text denotes the tree of the node it is mapped to. */
  ghost predicate CacheSound(a: seq<Node>, cache: map<string, nat>)
    requires WellFormed(a)
  {
    forall k | k in cache :: cache[k] < |a| && Denotes(k, Tree(a, cache[k]))
  }

  /** The arena only grows and no cached text changes its id. */
  predicate Extends(a0: seq<Node>, cache0: map<string, nat>, a: seq<Node>, cache: map<string, nat>) {
    && a0 <= a
    && forall k | k in cache0 :: k in cache && cache[k] == cache0[k]
  }

  /** How `ParseUncached(name)` linked node `c`: an atom when the text has
      no top-level slash, otherwise a functor whose children are the nodes
      cached for the texts left and right of that slash. */
  predicate ChildrenCached(a: seq<Node>, cache: map<string, nat>, name: string, c: nat)
    requires c < |a|
  {
    var text := DropBrackets(SplitSemantics(name).0);
    var op := FindNonNestedChar(text, SlashChars);
    if op == -1 then a[c].Atomic?
    else
      && a[c].Functor?
      && text[..op] in cache && cache[text[..op]] == a[c].left
      && text[op + 1..] in cache && cache[text[op + 1..]] == a[c].right
  }

  /** A cache that keeps every key it had keeps the links. */
  lemma ChildrenCachedStable(a: seq<Node>, cache0: map<string, nat>, cache: map<string, nat>, name: string, c: nat)
    requires c < |a| && ChildrenCached(a, cache0, name, c)
    requires forall k | k in cache0 :: k in cache && cache[k] == cache0[k]
    ensures ChildrenCached(a, cache, name, c)
  {
  }

  lemma CacheSoundStable(a: seq<Node>, b: seq<Node>, cache: map<string, nat>)
    requires WellFormed(a) && WellFormed(b) && a <= b && CacheSound(a, cache)
    ensures CacheSound(b, cache)
  {
    forall k | k in cache ensures cache[k] < |b| && Denotes(k, Tree(b, cache[k])) {
      TreeStable(a, b, cache[k]);
    }
  }

  lemma ExtendsTrans(a0: seq<Node>, c0: map<string, nat>, a1: seq<Node>, c1: map<string, nat>, a2: seq<Node>, c2: map<string, nat>)
    requires Extends(a0, c0, a1, c1) && Extends(a1, c1, a2, c2)
    ensures Extends(a0, c0, a2, c2)
  {
  }

  /** Keys added over two steps are bounded by the larger of the two bounds. */
  lemma NewKeysBounded(c0: map<string, nat>, c1: map<string, nat>, c2: map<string, nat>, b1: nat, b2: nat, b: nat)
    requires forall k | k in c1 && k !in c0 :: |k| <= b1
    requires forall k | k in c2 && k !in c1 :: |k| <= b2
    requires b1 < b && b2 < b
    ensures forall k | k in c2 && k !in c0 :: |k| < b
  {
  }

  /** The atomic branch of `ParseUncached`. */
  lemma UncachedAtom(name: string, text: string)
    requires text == DropBrackets(SplitSemantics(name).0)
    requires FindNonNestedChar(text, SlashChars) == -1
    ensures DenotesUncached(name, Atom(SplitFeature(text).0, Features.Parse(SplitFeature(text).1), SplitSemantics(name).1))
  {
  }

  /** The functor branch of `ParseUncached`. */
  lemma UncachedFunctor(name: string, text: string, op: int, sl: Slash, lt: Cat, rt: Cat)
    requires text == DropBrackets(SplitSemantics(name).0)
    requires op == FindNonNestedChar(text, SlashChars) && op != -1
    requires FromStr([text[op]]) == Some(sl)
    requires Denotes(text[..op], lt) && Denotes(text[op + 1..], rt)
    ensures DenotesUncached(name, Fn(lt, sl, rt, SplitSemantics(name).1))
  {
  }

  class Registry {
    var nodes: seq<Node>
    var cache: map<string, nat>
    /** `Category::num_cats`: the id the next category gets. */
    var numCats: nat

    ghost predicate Valid()
      reads this
    {
      && WellFormed(nodes)
      && numCats == |nodes|
      && CacheSound(nodes, cache)
    }

    constructor()
      ensures Valid() && nodes == [] && cache == map[]
    {
      nodes := [];
      cache := map[];
      numCats := 0;
    }

    /** The `Category` constructor: the node gets the next id. */
    method NewCategory(n: Node) returns (c: nat)
      requires Valid()
      requires n.Functor? ==> n.left < |nodes| && n.right < |nodes|
      modifies this
      ensures Valid()
      ensures c == old(numCats) && nodes == old(nodes) + [n] && cache == old(cache)
    {
      ghost var a0 := nodes;
      c := numCats;
      nodes := nodes + [n];
      numCats := numCats + 1;
      assert forall i | 0 <= i < |a0| :: nodes[i] == a0[i];
      CacheSoundStable(a0, nodes, cache);
    }

    /** `Category::Parse`: the cached node for `s` or for `DropBrackets(s)`,
        otherwise a new one; both texts are then cached. */
    method Parse(s: string) returns (c: nat)
      requires Valid()
      modifies this
      ensures Valid() && Extends(old(nodes), old(cache), nodes, cache)
      ensures s in cache && cache[s] == c && c < |nodes|
      ensures Denotes(s, Tree(nodes, c))
      ensures s in old(cache) ==> nodes == old(nodes) && cache == old(cache)
      ensures s !in old(cache) ==> DropBrackets(s) in cache && cache[DropBrackets(s)] == c
      ensures s !in old(cache) && DropBrackets(s) in old(cache) ==>
        nodes == old(nodes) && cache == old(cache)[s := c]
      ensures s !in old(cache) && DropBrackets(s) !in old(cache) ==>
        c == |nodes| - 1 && c >= |old(nodes)| && ChildrenCached(nodes, cache, DropBrackets(s), c)
      ensures forall k | k in cache && k !in old(cache) :: |k| <= |s|
      decreases |s|, 1
    {
      if s in cache {
        return cache[s];
      }
      var name := DropBrackets(s);
      if name in cache {
        c := cache[name];
      } else {
        c := ParseUncached(name);
        ghost var c1 := cache;
        if name != s {
          cache := cache[name := c];
        }
        cache := cache[s := c];
        ChildrenCachedStable(nodes, c1, cache, name, c);
        return;
      }
      cache := cache[s := c];
    }

    /** Bracket aliasing: parsing `(s)` registers `s` under the same node, so
        parsing `s` afterwards finds it (`Parse("(NP)")` and `Parse("NP")`
        give one node). Only the outermost bracket pair is aliased, hence the
        requirement that `(s)` was not cached already. */
    method ParseBracketedAlias(s: string) returns (c: nat, d: nat)
      requires Valid() && Balanced(s) && "(" + s + ")" !in cache
      modifies this
      ensures Valid() && Extends(old(nodes), old(cache), nodes, cache)
      ensures c == d && c < |nodes| && Denotes(s, Tree(nodes, c)) && Denotes("(" + s + ")", Tree(nodes, c))
    {
      WrapEnclosed(s);
      d := Parse("(" + s + ")");
      ghost var a1, c1 := nodes, cache;
      c := Parse(s);
      ExtendsTrans(old(nodes), old(cache), a1, c1, nodes, cache);
    }

    /** `Category::ParseUncached`: always builds a new node, parsing the two
        halves of a functor through the registry first. */
    method ParseUncached(name: string) returns (c: nat)
      requires Valid()
      modifies this
      ensures Valid() && Extends(old(nodes), old(cache), nodes, cache)
      ensures c == |nodes| - 1 && c >= |old(nodes)|
      ensures DenotesUncached(name, Tree(nodes, c))
      ensures ChildrenCached(nodes, cache, name, c)
      ensures forall k | k in cache && k !in old(cache) :: |k| < |name|
      decreases |name|, 0
    {
      var (body, sem) := SplitSemantics(name);
      var text := DropBrackets(body);
      var op := FindNonNestedChar(text, SlashChars);
      if op == -1 {
        var (ty, ft) := SplitFeature(text);
        c := NewCategory(Atomic(ty, Features.Parse(ft), sem));
        UncachedAtom(name, text);
      } else {
        FromSlashChar(text[op]);
        var sl := FromStr([text[op]]).value;
        ghost var a0, c0 := nodes, cache;
        var l := Parse(text[..op]);
        ghost var a1, c1 := nodes, cache;
        var r := Parse(text[op + 1..]);
        ghost var a2, c2 := nodes, cache;
        ExtendsTrans(a0, c0, a1, c1, a2, c2);
        assert |text[..op]| < |name| && |text[op + 1..]| < |name|;
        NewKeysBounded(c0, c1, c2, |text[..op]|, |text[op + 1..]|, |name|);
        c := NewCategory(Functor(l, sl, r, sem));
        assert Extends(a2, c2, nodes, cache);
        ExtendsTrans(a0, c0, a2, c2, nodes, cache);
        TreeStable(a1, nodes, l);
        TreeStable(a2, nodes, r);
        assert Tree(nodes, c) == Fn(Tree(a1, l), sl, Tree(a2, r), sem);
        UncachedFunctor(name, text, op, sl, Tree(a1, l), Tree(a2, r));
      }
    }

    /** `Make`: the node parsed from `left op right` written out. */
    method Make(l: nat, op: Slash, r: nat) returns (c: nat)
      requires Valid() && l < |nodes| && r < |nodes|
      modifies this
      ensures Valid() && Extends(old(nodes), old(cache), nodes, cache) && c < |nodes|
      ensures var text := WithBrackets(old(nodes), l) + op.ToStr() + WithBrackets(old(nodes), r);
        text in cache && cache[text] == c
      ensures Plain(Tree(old(nodes), l)) && Plain(Tree(old(nodes), r)) ==>
        Tree(nodes, c) == Fn(Tree(old(nodes), l), op, Tree(old(nodes), r), "")
    {
      ghost var a0 := nodes;
      var text := WithBrackets(nodes, l) + op.ToStr() + WithBrackets(nodes, r);
      c := Parse(text);
      var t := Fn(Tree(a0, l), op, Tree(a0, r), "");
      if Plain(t) {
        assert Str(t) == text;
        RoundTrip(t, Tree(nodes, c));
      }
    }

    /** `Make` as `Compose` uses it: the same call, with only the tree of the
        result promised, which keeps the proof of `Compose` small. */
    method MakeNode(l: nat, op: Slash, r: nat) returns (c: nat)
      requires Valid() && l < |nodes| && r < |nodes|
      modifies this
      ensures Valid() && Extends(old(nodes), old(cache), nodes, cache) && c < |nodes|
      ensures Plain(Tree(old(nodes), l)) && Plain(Tree(old(nodes), r)) ==>
        Tree(nodes, c) == Fn(Tree(old(nodes), l), op, Tree(old(nodes), r), "")
    {
      c := Make(l, op, r);
    }

    /** `Category::Substitute`: the node parsed from the text with every `[X]`
        replaced by `f`; the same node when `f` is empty. */
    method Substitute(c: nat, f: Feature) returns (d: nat)
      requires Valid() && c < |nodes|
      modifies this
      ensures Valid() && Extends(old(nodes), old(cache), nodes, cache) && d < |nodes|
      ensures f.IsEmpty() ==> d == c && nodes == old(nodes) && cache == old(cache)
      ensures !f.IsEmpty() ==> Denotes(f.SubstituteWildcard(ToStr(old(nodes), c)), Tree(nodes, d))
      ensures !f.IsEmpty() && Plain(Tree(old(nodes), c)) && PlainText(f.text) ==>
        Tree(nodes, d) == SubstWild(Tree(old(nodes), c), f)
    {
      if f.IsEmpty() {
        return c;
      }
      ghost var t := Tree(nodes, c);
      d := Parse(f.SubstituteWildcard(ToStr(nodes, c)));
      if Plain(t) && PlainText(f.text) {
        SubstituteWildcardStr(t, f);
        RoundTrip(SubstWild(t, f), Tree(nodes, d));
      }
    }

    /** `CorrectWildcardFeatures`: substitute into `toCorrect` the feature
        that `match1` and `match2` agree on; `None` where finding it fails. */
    method CorrectWildcardFeatures(toCorrect: nat, match1: nat, match2: nat) returns (r: Option<nat>)
      requires Valid() && toCorrect < |nodes| && match1 < |nodes| && match2 < |nodes|
      modifies this
      ensures Valid() && Extends(old(nodes), old(cache), nodes, cache)
      ensures r.None? <==> GetSubstitution(old(nodes), match1, match2).None?
      ensures r.None? ==> nodes == old(nodes) && cache == old(cache)
      ensures r.Some? ==> r.value < |nodes|
      ensures r.Some? && GetSubstitution(old(nodes), match1, match2).value.IsEmpty() ==> r.value == toCorrect
      ensures r.Some? && !GetSubstitution(old(nodes), match1, match2).value.IsEmpty()
              && Plain(Tree(old(nodes), toCorrect))
              && PlainText(GetSubstitution(old(nodes), match1, match2).value.text) ==>
        Tree(nodes, r.value) == SubstWild(Tree(old(nodes), toCorrect), GetSubstitution(old(nodes), match1, match2).value)
    {
      var sub := GetSubstitution(nodes, match1, match2);
      if sub.None? {
        return None;
      }
      var d := Substitute(toCorrect, sub.value);
      r := Some(d);
    }

    /** `Category::StripFeat`: the node parsed from `ToStrWithoutFeat`. */
    method StripFeat(c: nat, japanese: bool) returns (d: nat)
      requires Valid() && c < |nodes|
      modifies this
      ensures Valid() && Extends(old(nodes), old(cache), nodes, cache) && d < |nodes|
      ensures Denotes(ToStrWithoutFeat(old(nodes), c, japanese), Tree(nodes, d))
      ensures Plain(Tree(old(nodes), c)) ==> Tree(nodes, d) == Erase(Tree(old(nodes), c), japanese)
    {
      ghost var t := Tree(nodes, c);
      d := Parse(ToStrWithoutFeat(nodes, c, japanese));
      if Plain(t) {
        ToStrWithoutFeatTree(old(nodes), c, japanese);
        EraseProperties(t, japanese);
        RoundTrip(Erase(t, japanese), Tree(nodes, d));
      }
    }

    /** `Compose<k>(head, op, tail)`: the right child of the functor `k` steps
        down the left spine of `tail` is combined with `head` by `Make`, and
        the result is rebuilt up the spine with `tail`'s slashes and right
        children. `None` is the error of the C++ template when the category
        reached is atomic or the spine is too short. */
    method Compose(head: nat, op: Slash, tail: nat, k: nat) returns (r: Option<nat>)
      requires Valid() && head < |nodes| && tail < |nodes|
      modifies this
      ensures Valid() && Extends(old(nodes), old(cache), nodes, cache)
      ensures r.None? <==> NArgs(old(nodes), tail) <= k
      ensures r.None? ==> nodes == old(nodes) && cache == old(cache)
      ensures r.Some? ==> r.value < |nodes|
      ensures r.Some? && Plain(Tree(old(nodes), head)) && Plain(Tree(old(nodes), tail)) ==>
        Some(Tree(nodes, r.value)) == ComposeSpec(Tree(old(nodes), head), op, Tree(old(nodes), tail), k)
      decreases k
    {
      ghost var a0, c0 := nodes, cache;
      ghost var h := Tree(nodes, head);
      ghost var t := Tree(nodes, tail);
      SpineFacts(nodes, tail, k);
      var target := GetLeft(nodes, tail, k);
      if target.None? || nodes[target.value].Atomic? {
        return None;
      }
      var y := nodes[target.value].right;
      ghost var plain := Plain(h) && Plain(t);
      if plain {
        PlainLeftAt(t, k);
      }
      var m := MakeNode(head, op, y);
      ghost var a1, c1 := nodes, cache;
      if k == 0 {
        r := Some(m);
      } else {
        TreeStable(a0, nodes, tail);
        SpineFacts(nodes, tail, k - 1);
        var s := GetLeft(nodes, tail, k - 1).value;
        var sl := nodes[s].slash;
        r := Compose(m, sl, tail, k - 1);
        ExtendsTrans(a0, c0, a1, c1, nodes, cache);
        if plain {
          assert Tree(a1, tail) == t && Tree(a1, m) == Fn(h, op, Tree(a0, y), "");
          ComposeSpecStep(h, op, t, k);
        }
      }
    }
  }

  /** What `Compose` needs to know about the spine of `tail` at depth `k`. */
  lemma SpineFacts(a: seq<Node>, tail: nat, k: nat)
    requires WellFormed(a) && tail < |a|
    ensures NArgs(a, tail) == TNArgs(Tree(a, tail))
    ensures GetLeft(a, tail, k).Some? <==> k <= NArgs(a, tail)
    ensures (GetLeft(a, tail, k).Some? && a[GetLeft(a, tail, k).value].Functor?) <==> k < NArgs(a, tail)
    ensures GetLeft(a, tail, k).Some? ==> LeftAt(Tree(a, tail), k) == Some(Tree(a, GetLeft(a, tail, k).value))
  {
    NArgsTree(a, tail);
    GetLeftDefined(a, tail, k);
    HasFunctorAtIff(a, tail, k);
  }

  /** Without brackets, `(B)` is `B`, and it carries no semantics. */
  lemma BracketedAtomText()
    ensures DropBrackets("(B)") == "B" && SplitSemantics("(B)") == ("(B)", "")
  {
    ParenFreeBalanced("B");
    WrapEnclosed("B");
    assert "(B)" == "(" + "B" + ")";
  }

  /** `(B)` denotes only the atom `B`. */
  lemma BracketedAtomDenotes(u: Cat)
    ensures Denotes("(B)", u) <==> u == Atom("B", NONE, "")
  {
    var b := Atom("B", NONE, "");
    assert Str(b) == "B";
    BracketedAtomText();
    assert DenotesUncached("(B)", u) == Classified("B", "", u);
    ClassifiedStr(b, "", u);
    assert Denotes("(B)", u) == (Classified("B", "", u) || Denotes("B", u));
    RoundTrip(b, u);
  }

  /** `A/(B)` denotes only the functor `A/B`. */
  lemma SlashBracketDenotes(u: Cat)
    ensures Denotes("A/(B)", u) <==> u == Fn(Atom("A", NONE, ""), Fwd, Atom("B", NONE, ""), "")
  {
    var s := "A/(B)";
    assert !Enclosed(s);
    assert SplitSemantics(s) == (s, "");
    assert Depth(s[..1]) == 0 by { assert s[..1] == "A"; }
    assert IsTopLevelAt(s, 1, SlashChars);
    forall j | 1 < j < |s| ensures !IsTopLevelAt(s, j, SlashChars) { }
    FindNonNestedCharIs(s, SlashChars, 1);
    assert s[..1] == "A" && s[2..] == "(B)" && [s[1]] == "/";
    var a := Atom("A", NONE, "");
    assert Str(a) == "A";
    if u.Fn? {
      RoundTrip(a, u.left);
      BracketedAtomDenotes(u.right);
    }
  }

  /** `A/B` denotes only the functor `A/B`. */
  lemma SlashDenotes(u: Cat)
    ensures Denotes("A/B", u) <==> u == Fn(Atom("A", NONE, ""), Fwd, Atom("B", NONE, ""), "")
  {
    var ab := Fn(Atom("A", NONE, ""), Fwd, Atom("B", NONE, ""), "");
    assert Str(ab) == "A/B";
    RoundTrip(ab, u);
  }

  /** Interning is keyed by text, not by category: on a fresh registry
      `A/B` and then `A/(B)` give two nodes with the same tree, because
      `A/(B)` is not one bracket pair away from a cached text. */
  method DuplicateNodeExample() returns (reg: Registry, n1: nat, n2: nat)
    ensures reg.Valid() && n1 < n2 < |reg.nodes|
    ensures Tree(reg.nodes, n1) == Tree(reg.nodes, n2)
    ensures Tree(reg.nodes, n1) == Fn(Atom("A", NONE, ""), Fwd, Atom("B", NONE, ""), "")
  {
    reg := new Registry();
    n1 := reg.Parse("A/B");
    ghost var a1 := reg.nodes;
    SlashDenotes(Tree(a1, n1));
    assert |"A/(B)"| == 5;
    assert !Enclosed("A/(B)");
    n2 := reg.Parse("A/(B)");
    TreeStable(a1, reg.nodes, n1);
    SlashBracketDenotes(Tree(reg.nodes, n2));
  }

  /** `NP/NP` has no semantics, no enclosing brackets, and its only
      top-level slash at index 2, between two copies of `NP`. */
  lemma NpSlashNpText()
    ensures DropBrackets(SplitSemantics("NP/NP").0) == "NP/NP"
    ensures FindNonNestedChar("NP/NP", SlashChars) == 2
    ensures "NP/NP"[..2] == "NP" && "NP/NP"[3..] == "NP"
  {
    var s := "NP/NP";
    assert s[4] == 'P' && s[0] == 'N';
    assert !HasSemantics(s);
    assert !Enclosed(s);
    assert s[..2] == "NP" && s[3..] == "NP";
    assert s[..1] == "N" && "N"[..0] == [];
    assert Depth("N") == 0;
    assert Depth("NP") == 0 by { assert "NP"[..1] == "N"; }
    assert IsTopLevelAt(s, 2, SlashChars);
    FindNonNestedCharIs(s, SlashChars, 2);
  }

  /** On a fresh registry `NP/NP` is a modifier: the right half `NP` is a
      cache hit on the left half, so both children are one node (cat.h:223
      compares ids). */
  method ModifierExample() returns (reg: Registry, c: nat)
    ensures reg.Valid() && c < |reg.nodes| && IsModifier(reg.nodes, c)
  {
    reg := new Registry();
    NpSlashNpText();
    c := reg.Parse("NP/NP");
  }
}
