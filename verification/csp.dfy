/** The widening of the host's directory-browser content-security-policy so
    that the viewer page may play the archived video. The policy is the
    String value of a process-wide property (empty when unset); here it is
    a plain input and output. */
module CspPolicy {
  import opened JavaStrings

  const MediaSrc := "media-src"

  /** What is appended when the policy does not mention media sources. */
  const MediaSrcDirective := ";media-src 'self';"

  /** The new policy value. */
  function WidenCsp(current: string): (widened: string)
    ensures OccursIn(widened, MediaSrc)
    ensures |current| <= |widened| && widened[..|current|] == current
    ensures OccursIn(current, MediaSrc) ==> widened == current
    ensures !OccursIn(current, MediaSrc) ==> widened == current + MediaSrcDirective
  {
    if Contains(current, MediaSrc) then current
    else
      var w := current + MediaSrcDirective;
      assert MediaSrcDirective[1..1 + |MediaSrc|] == MediaSrc;
      assert w[|current|..] == MediaSrcDirective;
      assert w[|current| + 1..|current| + 1 + |MediaSrc|] == w[|current|..][1..1 + |MediaSrc|];
      assert OccursAt(w, MediaSrc, |current| + 1);
      w
  }

  /** Widening twice is widening once. */
  lemma WidenCspIdempotent(current: string)
    ensures WidenCsp(WidenCsp(current)) == WidenCsp(current)
  {
  }
}
