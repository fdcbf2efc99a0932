/** The slash of a functor category: forward `/`, backward `\` and the
    wildcard `|` that matches either direction (class `Slashes` of cat.h). */
module Slashes {
  import opened Wrappers

  /** The characters that `ParseUncached` searches for at bracket depth zero. */
  const SlashChars: string := "/\\|"

  datatype Slash = Fwd | Bwd | Either {

    /** The one-character text of the slash; `FromStr` reads it back. */
    function ToStr(): (s: string)
      ensures |s| == 1 && s[0] in SlashChars
    {
      match this
      case Fwd => "/"
      case Bwd => "\\"
      case Either => "|"
    }

    /** `Either` on one side, or the same direction on both. */
    predicate Matches(other: Slash) {
      this == Either || other == Either || other == this
    }

    /** `IsForward`: the slash written `/`; the wildcard is neither direction. */
    predicate IsForward()
      ensures IsForward() <==> ToStr() == "/"
      ensures IsForward() ==> Matches(Fwd) && !Matches(Bwd)
    {
      this == Fwd
    }

    /** `IsBackward`: the slash written `\`. */
    predicate IsBackward()
      ensures IsBackward() <==> ToStr() == "\\"
      ensures IsBackward() ==> Matches(Bwd) && !Matches(Fwd)
    {
      this == Bwd
    }
  }

  /** The slash named by `s`; the C++ code throws for any other text. */
  function FromStr(s: string): (r: Option<Slash>)
    ensures r.Some? <==> s == "/" || s == "\\" || s == "|"
    ensures r.Some? ==> r.value.ToStr() == s
  {
    if s == "/" then Some(Fwd)
    else if s == "\\" then Some(Bwd)
    else if s == "|" then Some(Either)
    else None
  }

  /** `FromStr` reads back what `ToStr` writes. */
  lemma FromStrToStr(sl: Slash)
    ensures FromStr(sl.ToStr()) == Some(sl)
  {
  }

  /** The slash of a single character found by the top-level slash search. */
  lemma FromSlashChar(ch: char)
    requires ch in SlashChars
    ensures FromStr([ch]).Some?
  {
  }

  /** Slash matching is symmetric, `Either` matches everything, and two
      concrete directions match only when they are equal. */
  lemma MatchesProperties(a: Slash, b: Slash)
    ensures a.Matches(b) <==> b.Matches(a)
    ensures Either.Matches(a) && a.Matches(Either) && a.Matches(a)
    ensures a != Either && b != Either ==> (a.Matches(b) <==> a == b)
  {
  }
}
