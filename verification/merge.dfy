/**
 * The merge engine: the specificity score of a version label, the
 * anti-degradation choice between a recorded label and a fresh candidate,
 * and the seed-protected choice between a recorded link and a fresh one.
 */
module Merge {
  import opened Text
  import opened NotAvailable
  import opened Identifiers

  function Max(a: int, b: int): int { if a < b then b else a }

  /** `min(len(s), 200) // 20` */
  function LengthBonus(t: string): (b: nat)
    ensures b <= 10
    ensures |t| >= 200 ==> b == 10
  {
    (if |t| < 200 then |t| else 200) / 20
  }

  /**
   * The points a normalised label earns for the tokens it carries: 50 or more
   * exactly when it has an ISO date or a draft revision, at least 30 with
   * "ISO/IEC DIS", and at most 5 (a Korean date word) without an identifier.
   */
  function TokenPoints(t: string): (r: nat)
    ensures r <= 145
    ensures r >= 50 <==> HasDateToken(t) || HasDraftRevisionToken(t)
    ensures HasIsoDisToken(t) ==> r >= 30
    ensures !HasIdentifier(t) ==> r <= 5
  {
    (if HasDateToken(t) then 50 else 0)
    + (if HasDraftRevisionToken(t) then 50 else 0)
    + (if HasVersionToken(t) then 10 else 0)
    + (if HasKoreanDateWord(t) then 5 else 0)
    + (if HasIsoDisToken(t) then 30 else 0)
  }

  /** `specificity_score`: 0 for an absent label, otherwise token points plus a length bonus. */
  function SpecificityScore(s: string): (r: nat)
    ensures IsNa(s) ==> r == 0
    ensures r <= 155
  {
    var t := NormNa(s);
    IsNaOfNormNa(s);
    if IsNa(t) then 0 else TokenPoints(t) + LengthBonus(t)
  }

  /** The score looks only at the normalised label. */
  lemma ScoreOfNormalised(s: string)
    ensures SpecificityScore(NormNa(s)) == SpecificityScore(s)
  {
    NormNaIdempotent(s);
  }

  /** A present label scores its token points plus its length bonus; an absent one scores 0. */
  lemma ScoreOfPresent(s: string)
    ensures SpecificityScore(s) == if IsNa(s) then 0 else TokenPoints(NormNa(s)) + LengthBonus(NormNa(s))
  {
    IsNaOfNormNa(s);
  }

  /**
   * A label with an ISO date or a draft revision always outscores a label that
   * has neither of those nor "ISO/IEC DIS", whatever their lengths.
   */
  lemma DateOrRevisionOutranks(a: string, b: string)
    requires !IsNa(a)
    requires HasDateToken(NormNa(a)) || HasDraftRevisionToken(NormNa(a))
    requires !HasDateToken(NormNa(b)) && !HasDraftRevisionToken(NormNa(b)) && !HasIsoDisToken(NormNa(b))
    ensures SpecificityScore(a) > SpecificityScore(b)
  {
    ScoreOfPresent(a);
    ScoreOfPresent(b);
    var ta, tb := NormNa(a), NormNa(b);
    assert TokenPoints(ta) >= 50;
    assert TokenPoints(tb) <= 15;
  }

  /**
   * A label naming "ISO/IEC DIS" always outscores a present label without an
   * identifier, whatever their lengths.
   */
  lemma IsoDisOutranksUnidentified(a: string, b: string)
    requires !IsNa(a) && HasIsoDisToken(NormNa(a))
    requires !HasIdentifier(NormNa(b))
    ensures SpecificityScore(a) > SpecificityScore(b)
  {
    ScoreOfPresent(a);
    ScoreOfPresent(b);
    assert TokenPoints(NormNa(b)) <= 5;
  }

  /** `choose_value_no_degrade` */
  function ChooseValueNoDegrade(current: string, candidate: string): (r: string)
    ensures r == NormNa(current) || r == NormNa(candidate)
    ensures NormNa(r) == r
  {
    NormNaIdempotent(current);
    NormNaIdempotent(candidate);
    var cur := NormNa(current);
    var cand := NormNa(candidate);
    if IsNa(cand) then cur
    else if IsNa(cur) then cand
    else if SpecificityScore(cand) >= SpecificityScore(cur) then cand
    else cur
  }

  /**
   * The choice, stated on the raw inputs: the candidate wins exactly when it is
   * present and scores at least as high as the recorded label (ties go to the
   * candidate); otherwise the recorded label is kept.
   */
  lemma ChooseValueSpec(current: string, candidate: string)
    ensures ChooseValueNoDegrade(current, candidate)
         == if !IsNa(candidate) && SpecificityScore(candidate) >= SpecificityScore(current)
            then NormNa(candidate) else NormNa(current)
  {
    IsNaOfNormNa(current);
    IsNaOfNormNa(candidate);
    ScoreOfNormalised(current);
    ScoreOfNormalised(candidate);
  }

  /**
   * Anti-degradation: the chosen label scores as high as the better of the two,
   * so never lower than the recorded one.
   */
  lemma NoDegrade(current: string, candidate: string)
    ensures SpecificityScore(ChooseValueNoDegrade(current, candidate))
         == Max(SpecificityScore(current), SpecificityScore(candidate))
    ensures SpecificityScore(ChooseValueNoDegrade(current, candidate)) >= SpecificityScore(current)
  {
    ChooseValueSpec(current, candidate);
    ScoreOfNormalised(current);
    ScoreOfNormalised(candidate);
  }

  /** An absent candidate keeps the recorded label; a recorded absence takes the candidate. */
  lemma ChooseValueAbsent(current: string, candidate: string)
    ensures IsNa(candidate) ==> ChooseValueNoDegrade(current, candidate) == NormNa(current)
    ensures IsNa(current) && !IsNa(candidate) ==> ChooseValueNoDegrade(current, candidate) == NormNa(candidate)
  {
    ChooseValueSpec(current, candidate);
  }

  /** Choosing again against the same candidate changes nothing. */
  lemma ChooseValueStable(current: string, candidate: string)
    ensures ChooseValueNoDegrade(ChooseValueNoDegrade(current, candidate), candidate)
         == ChooseValueNoDegrade(current, candidate)
  {
    var r := ChooseValueNoDegrade(current, candidate);
    ChooseValueSpec(current, candidate);
    ChooseValueSpec(r, candidate);
    NormNaIdempotent(current);
    NormNaIdempotent(candidate);
    ScoreOfNormalised(current);
  }

  /** `choose_link_seed_protected` */
  function ChooseLinkSeedProtected(current: string, candidate: string): (r: string)
    ensures r == NormNa(current) || r == NormNa(candidate)
    ensures NormNa(r) == r
  {
    NormNaIdempotent(current);
    NormNaIdempotent(candidate);
    var cur := NormNa(current);
    var cand := NormNa(candidate);
    if IsNa(cand) then cur else cand
  }

  /**
   * Seed protection: the candidate link replaces the recorded one exactly when
   * it is present, so the result is absent only when both are.
   */
  lemma SeedProtection(current: string, candidate: string)
    ensures ChooseLinkSeedProtected(current, candidate)
         == if IsNa(candidate) then NormNa(current) else NormNa(candidate)
    ensures IsNa(ChooseLinkSeedProtected(current, candidate)) <==> IsNa(current) && IsNa(candidate)
  {
    IsNaOfNormNa(current);
    IsNaOfNormNa(candidate);
  }
}
