/** Stand-ins for the string helpers of utils.h, which is not part of this
    model: bracket depth, `DropBrackets`, `FindNonNestedChar`, `ReplaceAll`
    and the `find`/`rfind` searches of `std::string`. Each is a plain
    definition with the contract the category code relies on. */
module TextUtils {

  function Delta(ch: char): int {
    if ch == '(' then 1 else if ch == ')' then -1 else 0
  }

  /** Opening minus closing parentheses in `s`: the bracket counter of the
      utils.h scanners after reading all of `s`. */
  function Depth(s: string): int
    decreases |s|
  {
    if s == [] then 0 else Depth(s[..|s| - 1]) + Delta(s[|s| - 1])
  }

  predicate ParenFree(s: string) {
    forall i | 0 <= i < |s| :: s[i] != '(' && s[i] != ')'
  }

  /** Every prefix has a non-negative depth and the whole text depth zero. */
  predicate Balanced(s: string) {
    Depth(s) == 0 && forall i | 0 <= i <= |s| :: Depth(s[..i]) >= 0
  }

  /** `s` is one pair of parentheses whose opening bracket closes at the
      last character. */
  predicate Enclosed(s: string) {
    && |s| >= 2 && s[0] == '(' && s[|s| - 1] == ')' && Depth(s) == 0
    && forall i | 1 <= i < |s| :: Depth(s[..i]) > 0
  }

  /** `utils::DropBrackets`: removes one enclosing pair of parentheses. */
  function DropBrackets(s: string): (r: string)
    ensures r == s || (Enclosed(s) && r == s[1..|s| - 1])
    ensures |r| <= |s| && (r != s ==> |r| < |s|)
  {
    if Enclosed(s) then s[1..|s| - 1] else s
  }

  /** Position `j` holds one of `needles` outside every bracket pair. */
  predicate IsTopLevelAt(s: string, j: int, needles: string)
    requires 0 <= j < |s|
  {
    s[j] != '(' && s[j] != ')' && s[j] in needles && Depth(s[..j]) == 0
  }

  /** `utils::FindNonNestedChar`: the right-most top-level occurrence of one
      of `needles`, or -1. Taking the right-most one makes slash chains
      left-associative. */
  function FindNonNestedChar(s: string, needles: string): (r: int)
    ensures -1 <= r < |s|
    ensures r >= 0 ==> IsTopLevelAt(s, r, needles)
    ensures forall j | r < j < |s| :: !IsTopLevelAt(s, j, needles)
    decreases |s|
  {
    if s == [] then -1
    else if IsTopLevelAt(s, |s| - 1, needles) then |s| - 1
    else
      var r := FindNonNestedChar(s[..|s| - 1], needles);
      TopLevelInPrefix(s, needles);
      r
  }

  lemma TopLevelInPrefix(s: string, needles: string)
    requires s != []
    ensures forall j | 0 <= j < |s| - 1 ::
      IsTopLevelAt(s[..|s| - 1], j, needles) == IsTopLevelAt(s, j, needles)
  {
    forall j | 0 <= j < |s| - 1
      ensures IsTopLevelAt(s[..|s| - 1], j, needles) == IsTopLevelAt(s, j, needles)
    {
      assert s[..|s| - 1][..j] == s[..j];
    }
  }

  /** The search result is pinned down by its two defining properties. */
  lemma FindNonNestedCharIs(s: string, needles: string, k: int)
    requires -1 <= k < |s|
    requires k >= 0 ==> IsTopLevelAt(s, k, needles)
    requires forall j | k < j < |s| :: !IsTopLevelAt(s, j, needles)
    ensures FindNonNestedChar(s, needles) == k
  {
  }

  /** `std::string::find` of one character: the first index, or -1. */
  function Find(s: string, ch: char): (r: int)
    ensures -1 <= r < |s|
    ensures r == -1 <==> ch !in s
    ensures r >= 0 ==> s[r] == ch && ch !in s[..r]
    decreases |s|
  {
    if s == [] then -1
    else if s[0] == ch then 0
    else
      var r := Find(s[1..], ch);
      if r == -1 then -1 else r + 1
  }

  /** `std::string::rfind` of one character: the last index, or -1. */
  function RFind(s: string, ch: char): (r: int)
    ensures -1 <= r < |s|
    ensures r == -1 <==> ch !in s
    ensures r >= 0 ==> s[r] == ch && ch !in s[r + 1..]
    decreases |s|
  {
    if s == [] then -1
    else if s[|s| - 1] == ch then |s| - 1
    else
      var r := RFind(s[..|s| - 1], ch);
      assert r >= 0 ==> s[r + 1..] == s[..|s| - 1][r + 1..] + [s[|s| - 1]];
      r
  }

  /** `s[k]` is the last `ch` of `s`. */
  lemma RFindIs(s: string, ch: char, k: int)
    requires 0 <= k < |s| && s[k] == ch && ch !in s[k + 1..]
    ensures RFind(s, ch) == k
  {
    assert ch in s by { assert s[k] == ch; }
    forall j | k < j < |s| ensures s[j] != ch {
      assert s[j] == s[k + 1..][j - k - 1];
    }
    var r := RFind(s, ch);
    forall j | r < j < |s| ensures s[j] != ch {
      assert s[j] == s[r + 1..][j - r - 1];
    }
  }

  /** `s[k]` is the first `ch` of `s`. */
  lemma FindIs(s: string, ch: char, k: int)
    requires 0 <= k < |s| && s[k] == ch && ch !in s[..k]
    ensures Find(s, ch) == k
  {
    assert ch in s by { assert s[k] == ch; }
    forall j | 0 <= j < k ensures s[j] != ch {
      assert s[j] == s[..k][j];
    }
    var r := Find(s, ch);
    forall j | 0 <= j < r ensures s[j] != ch {
      assert s[j] == s[..r][j];
    }
  }

  /** `utils::ReplaceAll`: replaces the occurrences of `p` left to right,
      resuming after each replacement. */
  function ReplaceAll(s: string, p: string, q: string): string
    requires |p| > 0
    decreases |s|
  {
    if |s| < |p| then s
    else if s[..|p|] == p then q + ReplaceAll(s[|p|..], p, q)
    else [s[0]] + ReplaceAll(s[1..], p, q)
  }

  /** No character of `s` is one of `cs`. */
  predicate Avoids(s: string, cs: string) {
    forall i | 0 <= i < |s| :: s[i] !in cs
  }

  lemma AvoidsConcat(a: string, b: string, cs: string)
    requires Avoids(a, cs) && Avoids(b, cs)
    ensures Avoids(a + b, cs)
  {
    forall i | 0 <= i < |a + b| ensures (a + b)[i] !in cs {
      if i < |a| { assert (a + b)[i] == a[i]; } else { assert (a + b)[i] == b[i - |a|]; }
    }
  }

  lemma AvoidsNotIn(s: string, cs: string, ch: char)
    requires Avoids(s, cs) && ch in cs
    ensures ch !in s
  {
  }

  // ---- depth lemmas ----

  lemma {:induction false} DepthConcat(a: string, b: string)
    ensures Depth(a + b) == Depth(a) + Depth(b)
    decreases |b|
  {
    if b == [] {
      assert a + b == a;
    } else {
      var b' := b[..|b| - 1];
      assert (a + b)[..|a + b| - 1] == a + b';
      DepthConcat(a, b');
    }
  }

  lemma {:induction false} ParenFreeDepth(s: string)
    requires ParenFree(s)
    ensures Depth(s) == 0
    decreases |s|
  {
    if s != [] {
      ParenFreeDepth(s[..|s| - 1]);
    }
  }

  lemma ParenFreeBalanced(s: string)
    requires ParenFree(s)
    ensures Balanced(s)
  {
    ParenFreeDepth(s);
    forall i | 0 <= i <= |s| ensures Depth(s[..i]) >= 0 {
      ParenFreeDepth(s[..i]);
    }
  }

  /** Depth of a prefix of `a + b` that reaches into `b`. */
  lemma PrefixDepth(a: string, b: string, i: int)
    requires |a| <= i <= |a| + |b|
    ensures Depth((a + b)[..i]) == Depth(a) + Depth(b[..i - |a|])
  {
    assert (a + b)[..i] == a + b[..i - |a|];
    DepthConcat(a, b[..i - |a|]);
  }

  lemma BalancedConcat(a: string, b: string)
    requires Balanced(a) && Balanced(b)
    ensures Balanced(a + b)
  {
    DepthConcat(a, b);
    forall i | 0 <= i <= |a + b| ensures Depth((a + b)[..i]) >= 0 {
      if i <= |a| {
        assert (a + b)[..i] == a[..i];
      } else {
        PrefixDepth(a, b, i);
      }
    }
  }

  /** Wrapping a balanced text in parentheses gives an enclosed, balanced one. */
  lemma WrapEnclosed(s: string)
    requires Balanced(s)
    ensures Enclosed("(" + s + ")") && Balanced("(" + s + ")")
    ensures DropBrackets("(" + s + ")") == s
  {
    var w := "(" + s + ")";
    assert Depth("(") == 1 by { assert "("[..0] == []; }
    assert Depth(")") == -1 by { assert ")"[..0] == []; }
    DepthConcat("(", s);
    assert w == ("(" + s) + ")";
    DepthConcat("(" + s, ")");
    forall i | 1 <= i < |w| ensures Depth(w[..i]) > 0 {
      assert w[..i] == "(" + s[..i - 1];
      DepthConcat("(", s[..i - 1]);
    }
    forall i | 0 <= i <= |w| ensures Depth(w[..i]) >= 0 {
      if i == |w| {
        assert w[..i] == w;
      } else if i == 0 {
        assert w[..i] == [];
      }
    }
    assert w[1..|w| - 1] == s;
  }

  /** A balanced text that is not one enclosing pair keeps its brackets. */
  lemma SplitNotEnclosed(s: string, i: int)
    requires 1 <= i < |s| && Depth(s[..i]) == 0
    ensures !Enclosed(s) && DropBrackets(s) == s
  {
  }

  // ---- ReplaceAll lemmas ----

  lemma {:induction false} ReplaceAllNoHead(a: string, b: string, p: string, q: string)
    requires |p| > 0 && p[0] !in a
    ensures ReplaceAll(a + b, p, q) == a + ReplaceAll(b, p, q)
    decreases |a|
  {
    if a == [] {
      assert a + b == b;
    } else {
      var s := a + b;
      if |s| < |p| {
        assert ReplaceAll(b, p, q) == b;
      } else {
        assert s[..|p|][0] == a[0];
        assert s[..|p|] != p;
        assert s[1..] == a[1..] + b;
        ReplaceAllNoHead(a[1..], b, p, q);
        calc {
          ReplaceAll(s, p, q);
          [s[0]] + ReplaceAll(s[1..], p, q);
          [a[0]] + (a[1..] + ReplaceAll(b, p, q));
          { assert [a[0]] + a[1..] == a; }
          a + ReplaceAll(b, p, q);
        }
      }
    }
  }

  lemma ReplaceAllNoOccurrence(s: string, p: string, q: string)
    requires |p| > 0 && p[0] !in s
    ensures ReplaceAll(s, p, q) == s
  {
    ReplaceAllNoHead(s, [], p, q);
    assert s + [] == s;
  }

  /** A character that cannot be part of `p` splits the replacement. */
  lemma {:induction false} ReplaceAllSep(a: string, ch: char, b: string, p: string, q: string)
    requires |p| > 0 && ch !in p
    ensures ReplaceAll(a + [ch] + b, p, q) == ReplaceAll(a, p, q) + [ch] + ReplaceAll(b, p, q)
    decreases |a|
  {
    var s := a + [ch] + b;
    if |s| < |p| {
      assert ReplaceAll(b, p, q) == b;
      assert ReplaceAll(a, p, q) == a;
    } else if a == [] {
      ReplaceAllSepEmpty(ch, b, p, q);
    } else if s[..|p|] == p {
      ReplaceAllSepMatch(a, ch, b, p, q);
    } else {
      ReplaceAllSepSkip(a, ch, b, p, q);
    }
  }

  lemma ReplaceAllSepEmpty(ch: char, b: string, p: string, q: string)
    requires |p| > 0 && ch !in p
    ensures ReplaceAll([] + [ch] + b, p, q) == ReplaceAll([], p, q) + [ch] + ReplaceAll(b, p, q)
  {
    var s := [ch] + b;
    assert [] + [ch] + b == s;
    if |s| >= |p| {
      assert s[..|p|][0] == ch;
      assert s[1..] == b;
    } else {
      assert ReplaceAll(b, p, q) == b;
    }
  }

  lemma ReplaceAllSepMatch(a: string, ch: char, b: string, p: string, q: string)
    requires |p| > 0 && ch !in p && a != []
    requires |a + [ch] + b| >= |p| && (a + [ch] + b)[..|p|] == p
    ensures ReplaceAll(a + [ch] + b, p, q) == ReplaceAll(a, p, q) + [ch] + ReplaceAll(b, p, q)
    decreases |a|, 0
  {
    var s := a + [ch] + b;
    assert s[|a|] == ch;
    assert forall i | 0 <= i < |p| :: s[i] == p[i] && p[i] != ch;
    assert |p| <= |a|;
    assert a[..|p|] == p;
    assert s[|p|..] == a[|p|..] + [ch] + b;
    assert ReplaceAll(s, p, q) == q + ReplaceAll(a[|p|..] + [ch] + b, p, q);
    assert ReplaceAll(a, p, q) == q + ReplaceAll(a[|p|..], p, q);
    ReplaceAllSep(a[|p|..], ch, b, p, q);
  }

  lemma ReplaceAllSepSkip(a: string, ch: char, b: string, p: string, q: string)
    requires |p| > 0 && ch !in p && a != []
    requires |a + [ch] + b| >= |p| && (a + [ch] + b)[..|p|] != p
    ensures ReplaceAll(a + [ch] + b, p, q) == ReplaceAll(a, p, q) + [ch] + ReplaceAll(b, p, q)
    decreases |a|, 0
  {
    var s := a + [ch] + b;
    var rest := a[1..] + [ch] + b;
    assert s[1..] == rest;
    assert ReplaceAll(s, p, q) == [a[0]] + ReplaceAll(rest, p, q);
    ReplaceAllSep(a[1..], ch, b, p, q);
    ReplaceAllHead(a, s, p, q);
  }

  /** When `a` does not start with `p` (shown on a longer text `s` that
      starts with `a`), its replacement keeps the first character. */
  lemma ReplaceAllHead(a: string, s: string, p: string, q: string)
    requires |p| > 0 && a != [] && a <= s && |s| >= |p| && s[..|p|] != p
    ensures ReplaceAll(a, p, q) == [a[0]] + ReplaceAll(a[1..], p, q)
  {
    if |a| >= |p| {
      assert a[..|p|] == s[..|p|];
    } else {
      assert ReplaceAll(a[1..], p, q) == a[1..];
      assert a == [a[0]] + a[1..];
    }
  }

  /** Replacing the bracketed tag `[w]` inside one bracketed feature text. */
  lemma ReplaceFeatureTag(text: string, w: string, q: string)
    requires '[' !in text && ']' !in text
    ensures ReplaceAll("[" + text + "]", "[" + w + "]", q)
         == if text == w then q else "[" + text + "]"
  {
    var t := "[" + text + "]";
    var p := "[" + w + "]";
    if text == w {
      assert t[..|p|] == p && t[|p|..] == [];
    } else if |t| >= |p| {
      if |w| < |text| {
        assert t[|p| - 1] == text[|w|] && p[|p| - 1] == ']';
        assert t[..|p|][|p| - 1] != p[|p| - 1];
      } else {
        var k :| 0 <= k < |text| && text[k] != w[k];
        assert t[..|p|][k + 1] != p[k + 1];
      }
      assert t[1..] == text + "]";
      ReplaceAllNoOccurrence(t[1..], p, q);
      assert t == [t[0]] + t[1..];
    }
  }
}
