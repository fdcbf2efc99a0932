/** The textual side of the category parser (cat.cpp, `ParseUncached`, and the
    canonical text built by the constructors in cat.h): categories as trees,
    their canonical text, the relation between a text and the trees that
    parsing it may yield, and the round trip between the two. */
module Syntax {
  import opened Wrappers
  import opened Slashes
  import opened Features
  import opened TextUtils

  /** A category as a tree, forgetting node identities. */
  datatype Cat =
    | Atom(typ: string, feat: Feature, sem: string)
    | Fn(left: Cat, slash: Slash, right: Cat, sem: string)

  /** The `{semantics}` suffix that the `Category` constructor appends. */
  function SemSuffix(sem: string): string {
    if sem == "" then "" else "{" + sem + "}"
  }

  /** The canonical text `str_` of a category: `type + feat` for an atomic
      one, the bracketed halves around the slash for a functor (the functor
      text itself is not wrapped in parentheses). */
  function Str(t: Cat): string
    decreases t, 0
  {
    match t
    case Atom(ty, f, sem) => ty + f.ToStr() + SemSuffix(sem)
    case Fn(l, s, r, sem) => Bracketed(l) + s.ToStr() + Bracketed(r) + SemSuffix(sem)
  }

  /** `WithBrackets`: a functor's text in one pair of parentheses, an atomic
      category's text as it is. */
  function Bracketed(t: Cat): string
    decreases t, 1
  {
    if t.Fn? then "(" + Str(t) + ")" else Str(t)
  }

  // ---- pieces of ParseUncached ----

  /** The semantics split of `ParseUncached` (src/cat.cpp:63-66) as the code
      is written: the semantics run from just after the last `{` to the END of
      the text, closing brace included, and with no `{` at all the whole text
      is taken. */
  function SplitSemanticsAsWritten(s: string): (r: (string, string))
    ensures |r.0| <= |s|
    ensures r.0 == SplitSemantics(s).0
    ensures |s| > 0 && s[|s| - 1] == '}' ==> |r.1| > 0 && r.1[|r.1| - 1] == '}'
  {
    if |s| > 0 && s[|s| - 1] == '}' then
      var o := RFind(s, '{');
      if o == -1 then (s, s) else (s[..o], s[o + 1..])
    else (s, "")
  }

  /** A text that ends in `}` and has a `{` somewhere carries semantics. */
  predicate HasSemantics(s: string) {
    |s| > 0 && s[|s| - 1] == '}' && '{' in s
  }

  /** The semantics split of `ParseUncached` (src/cat.cpp:63-66) as
      intended: a trailing `{semantics}` is cut off at the last `{` and its
      contents, without the braces, are the semantics; a text without one is
      left whole. */
  function SplitSemantics(s: string): (r: (string, string))
    ensures |r.0| <= |s|
    ensures HasSemantics(s) ==> s == r.0 + "{" + r.1 + "}" && '{' !in r.1
    ensures !HasSemantics(s) ==> r == (s, "")
  {
    if HasSemantics(s) then
      var o := RFind(s, '{');
      assert o + 1 <= |s| - 1;
      var sem := s[o + 1..|s| - 1];
      assert s == s[..o] + "{" + sem + "}";
      assert '{' !in sem by {
        assert sem == s[o + 1..][..|sem|];
      }
      (s[..o], sem)
    else (s, "")
  }

  /** The atomic branch of `ParseUncached` (src/cat.cpp:72-83): the type
      before the first `[`, and the feature text up to the next `]` (to the
      end when there is none). */
  function SplitFeature(c: string): (r: (string, string))
    ensures |r.0| <= |c| && c[..|r.0|] == r.0 && '[' !in r.0
    ensures r.0 != c ==> c[|r.0|] == '[' && ']' !in r.1 && |r.0| + 1 + |r.1| <= |c| && c[|r.0| + 1..|r.0| + 1 + |r.1|] == r.1
    ensures r.0 != c ==> |r.0| + 1 + |r.1| == |c| || c[|r.0| + 1 + |r.1|] == ']'
    ensures r.0 == c ==> r.1 == ""
  {
    var f := Find(c, '[');
    if f == -1 then (c, "")
    else
      var rest := c[f + 1..];
      var e := Find(rest, ']');
      (c[..f], if e == -1 then rest else rest[..e])
  }

  // ---- what parsing a text may yield ----

  /** `Denotes(k, t)`: `Parse(k)` may return a node whose tree is `t`. The
      registry returns what it cached, so the result for `k` is either what
      `ParseUncached(k)` builds or, when `DropBrackets(k)` differs from `k`,
      whatever that shorter text denotes. */
  ghost predicate Denotes(k: string, t: Cat)
    decreases |k|, 2
  {
    || DenotesUncached(k, t)
    || (DropBrackets(k) != k && Denotes(DropBrackets(k), t))
  }

  /** What `ParseUncached(name)` builds: semantics cut off, brackets dropped,
      then the remaining text classified. */
  ghost predicate DenotesUncached(name: string, t: Cat)
    decreases |name|, 1
  {
    var (body, sem) := SplitSemantics(name);
    Classified(DropBrackets(body), sem, t)
  }

  /** The text `c` without a top-level slash is atomic; otherwise it is a
      functor split at the right-most top-level slash, its halves parsed
      through the registry. */
  ghost predicate Classified(c: string, sem: string, t: Cat)
    decreases |c|, 0
  {
    var op := FindNonNestedChar(c, SlashChars);
    if op == -1 then
      var (ty, ft) := SplitFeature(c);
      t == Atom(ty, Features.Parse(ft), sem)
    else
      && t.Fn?
      && FromStr([c[op]]) == Some(t.slash)
      && t.sem == sem
      && Denotes(c[..op], t.left)
      && Denotes(c[op + 1..], t.right)
  }

  // ---- the round trip ----

  /** Characters with a meaning in category text. */
  const Special: string := "()[]{}/\\|"

  /** The characters an atomic category's text never holds. */
  const NotInAtom: string := "(){}/\\|"

  predicate PlainText(s: string) {
    Avoids(s, Special)
  }

  /** A category whose types and feature texts avoid the special characters
      and which carries no semantics: the text the parser was built for. */
  predicate Plain(t: Cat) {
    match t
    case Atom(ty, f, sem) => PlainText(ty) && PlainText(f.text) && sem == ""
    case Fn(l, _, r, sem) => Plain(l) && Plain(r) && sem == ""
  }

  lemma AtomTextChars(ty: string, f: Feature)
    requires PlainText(ty) && PlainText(f.text)
    ensures Avoids(ty + f.ToStr(), NotInAtom)
  {
    assert Avoids(ty, NotInAtom);
    assert Avoids(f.text, NotInAtom);
    if f.text != "" {
      AvoidsConcat("[", f.text, NotInAtom);
      AvoidsConcat("[" + f.text, "]", NotInAtom);
    }
    AvoidsConcat(ty, f.ToStr(), NotInAtom);
  }

  /** Canonical texts of plain categories hold no braces. */
  lemma {:induction false} StrChars(t: Cat)
    requires Plain(t)
    ensures Avoids(Str(t), "{}") && Avoids(Bracketed(t), "{}")
  {
    match t
    case Atom(ty, f, _) =>
      AtomTextChars(ty, f);
      assert Str(t) == ty + f.ToStr();
    case Fn(l, sl, r, _) =>
      StrChars(l);
      StrChars(r);
      var a, b, c := Bracketed(l), sl.ToStr(), Bracketed(r);
      assert Str(t) == a + b + c;
      AvoidsConcat(a, b, "{}");
      AvoidsConcat(a + b, c, "{}");
      AvoidsConcat("(", Str(t), "{}");
      AvoidsConcat("(" + Str(t), ")", "{}");
  }

  /** Canonical texts of plain categories are balanced. */
  lemma {:induction false} StrShape(t: Cat)
    requires Plain(t)
    ensures Balanced(Str(t)) && Balanced(Bracketed(t))
  {
    match t
    case Atom(ty, f, _) =>
      AtomTextChars(ty, f);
      assert Str(t) == ty + f.ToStr();
      ParenFreeBalanced(Str(t));
    case Fn(l, sl, r, _) =>
      StrShape(l);
      StrShape(r);
      var a, b, c := Bracketed(l), sl.ToStr(), Bracketed(r);
      assert Str(t) == a + b + c;
      ParenFreeBalanced(b);
      BalancedConcat(a, b);
      BalancedConcat(a + b, c);
      WrapEnclosed(Str(t));
  }

  /** A bracketed category text has no slash at bracket depth zero. */
  lemma NoTopLevelSlash(t: Cat)
    requires Plain(t)
    ensures forall j | 0 <= j < |Bracketed(t)| :: !IsTopLevelAt(Bracketed(t), j, SlashChars)
  {
    if t.Fn? {
      StrShape(t);
      WrapEnclosed(Str(t));
    } else {
      AtomTextChars(t.typ, t.feat);
      assert Bracketed(t) == t.typ + t.feat.ToStr();
    }
  }

  /** The atomic text `type[feat]` splits back into its type and feature. */
  lemma SplitFeatureOfAtom(ty: string, f: Feature)
    requires PlainText(ty) && PlainText(f.text)
    ensures SplitFeature(ty + f.ToStr()) == (ty, f.text)
  {
    AvoidsNotIn(ty, Special, '[');
    AvoidsNotIn(f.text, Special, ']');
    SplitFeatureOfText(ty, f);
  }

  lemma SplitFeatureOfText(ty: string, f: Feature)
    requires '[' !in ty && ']' !in f.text
    ensures SplitFeature(ty + f.ToStr()) == (ty, f.text)
  {
    if f.text == "" {
      assert ty + f.ToStr() == ty;
      SplitFeatureNoBracket(ty);
    } else {
      assert ty + f.ToStr() == ty + "[" + f.text + "]";
      SplitFeatureBracketed(ty, f.text);
    }
  }

  lemma SplitFeatureNoBracket(ty: string)
    requires '[' !in ty
    ensures SplitFeature(ty) == (ty, "")
  {
    assert Find(ty, '[') == -1;
  }

  lemma SplitFeatureBracketed(ty: string, text: string)
    requires '[' !in ty && ']' !in text
    ensures SplitFeature(ty + "[" + text + "]") == (ty, text)
  {
    var s := ty + "[" + text + "]";
    assert s[|ty|] == '[' && s[..|ty|] == ty;
    FindIs(s, '[', |ty|);
    var rest := s[|ty| + 1..];
    assert rest == text + "]";
    assert rest[|text|] == ']' && rest[..|text|] == text;
    FindIs(rest, ']', |text|);
  }

  /** Classifying the canonical text of a plain category (with semantics
      `sem` cut off beforehand) yields that category and nothing else. */
  lemma {:induction false} ClassifiedStr(t: Cat, sem: string, u: Cat)
    requires Plain(t)
    ensures Classified(Str(t), sem, u) <==> u == t.(sem := sem)
    decreases t, 0
  {
    match t
    case Atom(ty, f, _) =>
      assert Str(t) == ty + f.ToStr();
      ClassifiedAtomText(ty, f, sem, u);
    case Fn(l, sl, r, _) =>
      assert Str(t) == Bracketed(l) + sl.ToStr() + Bracketed(r);
      FunctorTextSplit(l, sl, r);
      if u.Fn? {
        RoundTrip(l, u.left);
        RoundTrip(r, u.right);
      }
  }

  /** The atomic case of `ClassifiedStr`. */
  lemma ClassifiedAtomText(ty: string, f: Feature, sem: string, u: Cat)
    requires PlainText(ty) && PlainText(f.text)
    ensures Classified(ty + f.ToStr(), sem, u) <==> u == Atom(ty, f, sem)
  {
    var s := ty + f.ToStr();
    NoTopLevelSlash(Atom(ty, f, ""));
    assert Bracketed(Atom(ty, f, "")) == s;
    FindNonNestedCharIs(s, SlashChars, -1);
    SplitFeatureOfAtom(ty, f);
    assert Features.Parse(f.text) == f;
  }

  /** The text of a plain functor splits at the slash between its halves. */
  lemma FunctorTextSplit(l: Cat, sl: Slash, r: Cat)
    requires Plain(l) && Plain(r)
    ensures var a, s := Bracketed(l), Bracketed(l) + sl.ToStr() + Bracketed(r);
      && FindNonNestedChar(s, SlashChars) == |a|
      && s[..|a|] == a
      && s[|a| + 1..] == Bracketed(r)
      && FromStr([s[|a|]]) == Some(sl)
  {
    var a, c := Bracketed(l), Bracketed(r);
    var ch := sl.ToStr()[0];
    assert sl.ToStr() == [ch];
    var s := a + [ch] + c;
    StrShape(l);
    NoTopLevelSlash(r);
    assert s[..|a|] == a;
    assert IsTopLevelAt(s, |a|, SlashChars);
    RightOfSplit(a, ch, c);
    FindNonNestedCharIs(s, SlashChars, |a|);
    assert s[|a| + 1..] == c;
    FromStrToStr(sl);
  }

  /** Nothing right of `ch` is a top-level slash when `c` has none. */
  lemma RightOfSplit(a: string, ch: char, c: string)
    requires Balanced(a) && ch in SlashChars
    requires forall j | 0 <= j < |c| :: !IsTopLevelAt(c, j, SlashChars)
    ensures forall j | |a| < j < |a + [ch] + c| :: !IsTopLevelAt(a + [ch] + c, j, SlashChars)
  {
    var s := a + [ch] + c;
    assert s == (a + [ch]) + c;
    DepthConcat(a, [ch]);
    assert Depth([ch]) == 0 by { assert [ch][..0] == []; }
    forall j | |a| < j < |s| ensures !IsTopLevelAt(s, j, SlashChars) {
      var j' := j - |a| - 1;
      assert s[j] == c[j'];
      PrefixDepth(a + [ch], c, j);
      assert !IsTopLevelAt(c, j', SlashChars);
    }
  }

  /** Round trip of the canonical text: parsing `Str(t)` or `Bracketed(t)`
      of a plain category yields exactly `t`. */
  lemma {:induction false} RoundTrip(t: Cat, u: Cat)
    requires Plain(t)
    ensures Denotes(Str(t), u) <==> u == t
    ensures Denotes(Bracketed(t), u) <==> u == t
    decreases t, 1
  {
    var s := Str(t);
    StrShape(t);
    StrChars(t);
    assert |s| > 0 ==> s[|s| - 1] != '}';
    NotEnclosedStr(t);
    assert SplitSemantics(s) == (s, "");
    assert DropBrackets(s) == s;
    ClassifiedStr(t, "", u);
    assert t.(sem := "") == t;
    assert Denotes(s, u) <==> Classified(s, "", u);
    if t.Fn? {
      var w := Bracketed(t);
      WrapEnclosed(s);
      assert SplitSemantics(w) == (w, "");
      assert DenotesUncached(w, u) <==> Classified(s, "", u);
      assert Denotes(w, u) <==> Classified(s, "", u);
    }
  }

  /** Slash chains are left-associative: a text whose left half is written
      without its outer brackets, like `A/B/C`, still splits at the last
      top-level slash and denotes `(A/B)/C` and nothing else. */
  lemma LeftAssociative(l: Cat, sl: Slash, r: Cat, u: Cat)
    requires Plain(l) && Plain(r)
    ensures Denotes(Str(l) + sl.ToStr() + Bracketed(r), u) <==> u == Fn(l, sl, r, "")
  {
    var a, c := Str(l), Bracketed(r);
    var ch := sl.ToStr()[0];
    assert sl.ToStr() == [ch];
    var s := a + [ch] + c;
    StrShape(l);
    StrChars(l);
    LeftAssociativeSplit(a, ch, c, r);
    assert Denotes(s, u) <==> Classified(s, "", u);
    FromStrToStr(sl);
    if u.Fn? {
      RoundTrip(l, u.left);
      RoundTrip(r, u.right);
    }
  }

  /** The text of `LeftAssociative` has no semantics, no enclosing pair,
      and its right-most top-level slash right after `Str(l)`. */
  lemma LeftAssociativeSplit(a: string, ch: char, c: string, r: Cat)
    requires Balanced(a) && Avoids(a, "{}") && ch in SlashChars
    requires Plain(r) && c == Bracketed(r)
    ensures var s := a + [ch] + c;
      && SplitSemantics(s) == (s, "")
      && DropBrackets(s) == s
      && FindNonNestedChar(s, SlashChars) == |a|
      && s[..|a|] == a && s[|a|] == ch && s[|a| + 1..] == c
  {
    var s := a + [ch] + c;
    StrChars(r);
    assert Avoids([ch], "{}");
    AvoidsConcat(a, [ch], "{}");
    AvoidsConcat(a + [ch], c, "{}");
    AvoidsNotIn(s, "{}", '{');
    assert !HasSemantics(s);
    assert s[..|a|] == a && s[|a| + 1..] == c;
    if |a| > 0 {
      SplitNotEnclosed(s, |a|);
    } else {
      assert s[0] == ch;
    }
    NoTopLevelSlash(r);
    assert IsTopLevelAt(s, |a|, SlashChars);
    RightOfSplit(a, ch, c);
    FindNonNestedCharIs(s, SlashChars, |a|);
  }

  /** `A/B/C` denotes `(A/B)/C`. */
  lemma LeftAssociativeExample(u: Cat)
    ensures Denotes("A/B/C", u) <==> u == Fn(Fn(Atom("A", NONE, ""), Fwd, Atom("B", NONE, ""), ""), Fwd, Atom("C", NONE, ""), "")
  {
    var ab := Fn(Atom("A", NONE, ""), Fwd, Atom("B", NONE, ""), "");
    var c := Atom("C", NONE, "");
    assert Str(ab) == "A/B" && Bracketed(c) == "C";
    assert "A/B" + Fwd.ToStr() + "C" == "A/B/C";
    LeftAssociative(ab, Fwd, c, u);
  }

  /** The canonical text of a plain category is never one enclosing pair. */
  lemma NotEnclosedStr(t: Cat)
    requires Plain(t)
    ensures DropBrackets(Str(t)) == Str(t)
  {
    var s := Str(t);
    match t
    case Atom(ty, f, _) =>
      assert s == ty + f.ToStr();
      if |s| > 0 {
        if |ty| > 0 { assert s[0] == ty[0]; } else { assert s[0] == '['; }
      }
    case Fn(l, sl, r, _) =>
      var a := Bracketed(l);
      assert s == a + sl.ToStr() + Bracketed(r);
      StrShape(l);
      if |a| > 0 {
        assert s[..|a|] == a;
        SplitNotEnclosed(s, |a|);
      } else {
        assert s[0] == sl.ToStr()[0];
      }
  }

  /** A single trailing `{semantics}` survives the round trip too. */
  lemma RoundTripSemantics(t: Cat, sem: string, u: Cat)
    requires Plain(t) && sem != "" && '{' !in sem
    ensures Denotes(Str(t.(sem := sem)), u) <==> u == t.(sem := sem)
  {
    var s := Str(t);
    var k := Str(t.(sem := sem));
    StrWithSemantics(t, sem);
    assert k[|k| - 1] == '}';
    assert DropBrackets(k) == k;
    SemanticsRoundTrip(s, sem);
    NotEnclosedStr(t);
    assert DenotesUncached(k, u) <==> Classified(s, sem, u);
    ClassifiedStr(t, sem, u);
  }

  lemma StrWithSemantics(t: Cat, sem: string)
    ensures Str(t.(sem := sem)) == Str(t.(sem := "")) + SemSuffix(sem)
  {
  }

  /** Both splits once the last `{` is known to be at `o`. */
  lemma SplitSemanticsAt(s: string, o: int)
    requires 0 <= o < |s| - 1 && s[|s| - 1] == '}' && RFind(s, '{') == o
    ensures SplitSemanticsAsWritten(s) == (s[..o], s[o + 1..])
    ensures SplitSemantics(s) == (s[..o], s[o + 1..|s| - 1])
  {
  }

  lemma ConcatSlice(x: string, w: string, i: int, j: int)
    requires 0 <= i <= j <= |w|
    ensures (x + w)[|x| + i..|x| + j] == w[i..j]
  {
  }

  /** Where the pieces of `x{sem}` sit. */
  lemma SemSuffixLayout(x: string, sem: string)
    requires sem != "" && '{' !in sem
    ensures var s := x + SemSuffix(sem);
      && |s| == |x| + |sem| + 2
      && s[|s| - 1] == '}'
      && s[..|x|] == x
      && s[|x| + 1..|s| - 1] == sem
      && s[|x| + 1..] == sem + "}"
      && RFind(s, '{') == |x|
  {
    var w := "{" + sem + "}";
    var s := x + w;
    assert SemSuffix(sem) == w;
    assert w[1..|w| - 1] == sem;
    assert w[1..] == sem + "}";
    ConcatSlice(x, w, 1, |w| - 1);
    ConcatSlice(x, w, 1, |w|);
    assert s[|x| + 1..] == s[|x| + 1..|s|];
    assert s[|x|] == w[0];
    assert '{' !in sem + "}";
    RFindIs(s, '{', |x|);
  }

  /** The intended semantic split undoes `SemSuffix`. */
  lemma SemanticsRoundTrip(x: string, sem: string)
    requires sem != "" && '{' !in sem
    ensures SplitSemantics(x + SemSuffix(sem)) == (x, sem)
  {
    SemSuffixLayout(x, sem);
    SplitSemanticsAt(x + SemSuffix(sem), |x|);
  }

  /** As written, the closing brace ends up inside the semantics, so the
      split no longer undoes `SemSuffix`. */
  lemma SemanticsAsWrittenKeepsBrace(x: string, sem: string)
    requires sem != "" && '{' !in sem
    ensures SplitSemanticsAsWritten(x + SemSuffix(sem)) == (x, sem + "}")
    ensures SplitSemanticsAsWritten(x + SemSuffix(sem)) != SplitSemantics(x + SemSuffix(sem))
  {
    SemSuffixLayout(x, sem);
    SplitSemanticsAt(x + SemSuffix(sem), |x|);
    assert sem + "}" != sem by { assert |sem + "}"| != |sem|; }
  }

  /** `NP{x}` gets the semantics `x}` as written, `x` as intended. */
  lemma SemanticsAsWrittenExample()
    ensures SplitSemanticsAsWritten("NP{x}") == ("NP", "x}")
    ensures SplitSemantics("NP{x}") == ("NP", "x")
  {
    assert "NP{x}" == "NP" + SemSuffix("x");
    assert "x}" == "x" + "}";
    SemanticsAsWrittenKeepsBrace("NP", "x");
    SemanticsRoundTrip("NP", "x");
  }

  /** Empty braces: as written the semantics are the lone `}`; as intended
      the braces go and no semantics remain. */
  lemma SemanticsEmptyBraces()
    ensures SplitSemanticsAsWritten("NP{}") == ("NP", "}")
    ensures SplitSemantics("NP{}") == ("NP", "")
  {
    var s := "NP{}";
    assert |s| == 4 && s[3] == '}' && s[2] == '{';
    assert '{' !in s[3..];
    RFindIs(s, '{', 2);
    SplitSemanticsAt(s, 2);
    assert s[..2] == "NP" && s[3..] == "}" && s[3..3] == "";
  }

  /** A text that ends in `}` without any `{`: as written the whole text
      becomes the semantics as well as staying the body. */
  lemma SemanticsAsWrittenNoOpenBrace()
    ensures SplitSemanticsAsWritten("NP}") == ("NP}", "NP}")
    ensures SplitSemantics("NP}") == ("NP}", "")
  {
    var s := "NP}";
    assert |s| == 3 && s[2] == '}';
    assert '{' !in s;
    assert RFind(s, '{') == -1;
  }
}
