/**
 * The identifier grammar shared by the validator and the specificity score:
 * the four token detectors behind `has_identifier` and the Korean date words
 * that `specificity_score` rewards. Each detector says that some stretch
 * s[i..j] of the label spells the token and sits between two word boundaries
 * (`\b`), which is what a regular-expression search for it finds.
 */
module Identifiers {
  import opened Text

  /** `\w`, restricted to ASCII. */
  predicate IsWordChar(c: char) {
    IsAsciiAlnum(c) || c == '_'
  }

  /** `\b` at position k: a word character on exactly one side. */
  predicate Boundary(s: string, k: int)
    requires 0 <= k <= |s|
  {
    (k > 0 && IsWordChar(s[k - 1])) != (k < |s| && IsWordChar(s[k]))
  }

  /** `\d{4}-\d{2}-\d{2}` */
  predicate IsDateLiteral(t: string) {
    |t| == 10 && AllDigits(t[..4]) && t[4] == '-' && AllDigits(t[5..7]) && t[7] == '-' && AllDigits(t[8..])
  }

  /** `\d+\.\d+(\.\d+)?`: two or three runs of digits separated by dots. */
  predicate DottedDigits(u: string) {
    && (|Split(u, '.')| == 2 || |Split(u, '.')| == 3)
    && forall n | 0 <= n < |Split(u, '.')| :: AllDigits(Split(u, '.')[n])
  }

  /** The literal without its optional leading `v`. */
  function VersionBody(t: string): string {
    if |t| > 0 && (t[0] == 'v' || t[0] == 'V') then t[1..] else t
  }

  /** `v?\d+\.\d+(\.\d+)?`, the `v` in either case. */
  predicate IsVersionLiteral(t: string) {
    DottedDigits(VersionBody(t))
  }

  /** `[a-z0-9-]` under IGNORECASE */
  predicate IsRevisionNameChar(c: char) {
    IsAsciiAlnum(c) || c == '-'
  }

  /** `draft-[a-z0-9-]+` ending just before the hyphen at m, then `-\d{1,2}` to the end. */
  predicate RevisionTailAt(t: string, m: int)
    requires 0 <= m < |t|
  {
    m >= 7 && t[m] == '-' && AllDigits(t[m + 1..]) && forall k :: 6 <= k < m ==> IsRevisionNameChar(t[k])
  }

  /** `draft-[a-z0-9-]+-\d{1,2}` under IGNORECASE */
  predicate IsDraftRevisionLiteral(t: string) {
    && |t| >= 9
    && Lower(t[..6]) == "draft-"
    && (RevisionTailAt(t, |t| - 2) || RevisionTailAt(t, |t| - 3))
  }

  /** `ISO/IEC\s+DIS` */
  predicate IsIsoDisLiteral(t: string) {
    && |t| >= 11
    && t[..7] == "ISO/IEC"
    && t[|t| - 3..] == "DIS"
    && forall k :: 7 <= k < |t| - 3 ==> IsSpace(t[k])
  }

  /**
   * A regular-expression search for `\bL\b` succeeds: some stretch s[i..j]
   * spells the literal L and has a word boundary on both sides.
   */
  predicate Occurs(s: string, isLiteral: string -> bool) {
    exists i, j | 0 <= i < j <= |s| :: Boundary(s, i) && Boundary(s, j) && isLiteral(s[i..j])
  }

  /** `\b\d{4}-\d{2}-\d{2}\b` occurs in s. */
  predicate HasDateToken(s: string) { Occurs(s, IsDateLiteral) }

  /** `\bv?\d+\.\d+(\.\d+)?\b` occurs in s (IGNORECASE). */
  predicate HasVersionToken(s: string) { Occurs(s, IsVersionLiteral) }

  /** `\bdraft-[a-z0-9-]+-\d{1,2}\b` occurs in s (IGNORECASE). */
  predicate HasDraftRevisionToken(s: string) { Occurs(s, IsDraftRevisionLiteral) }

  /** `\bISO/IEC\s+DIS\b` occurs in s. */
  predicate HasIsoDisToken(s: string) { Occurs(s, IsIsoDisLiteral) }

  /** `(년|월|일)` occurs in s. */
  predicate HasKoreanDateWord(s: string) {
    exists k | 0 <= k < |s| :: s[k] == '년' || s[k] == '월' || s[k] == '일'
  }

  /**
   * `has_identifier`: a version token, an ISO date, a draft revision or
   * "ISO/IEC DIS". A string with none of a dot, a hyphen and a capital I has
   * no identifier.
   */
  predicate HasIdentifier(s: string)
    ensures HasIdentifier(s) ==> '.' in s || '-' in s || 'I' in s
  {
    UnmarkedHasNoToken(s);
    && s != ""
    && (HasVersionToken(s) || HasDateToken(s) || HasDraftRevisionToken(s) || HasIsoDisToken(s))
  }

  /**
   * A literal that starts and ends with a word character, placed between a
   * prefix that ends in a non-word character and a suffix that starts with
   * one, is found by the search.
   */
  lemma OccursBetween(p: string, t: string, q: string, isLiteral: string -> bool)
    requires isLiteral(t) && t != [] && IsWordChar(t[0]) && IsWordChar(t[|t| - 1])
    requires p == [] || !IsWordChar(p[|p| - 1])
    requires q == [] || !IsWordChar(q[0])
    ensures Occurs(p + t + q, isLiteral)
  {
    var s := p + t + q;
    var i, j := |p|, |p| + |t|;
    assert s[i..j] == t;
    assert Boundary(s, i);
    assert Boundary(s, j);
  }

  /** A search for literals that all contain c fails on a string without c. */
  lemma NotOccursWithout(s: string, isLiteral: string -> bool, c: char)
    requires forall t :: isLiteral(t) ==> c in t
    requires c !in s
    ensures !Occurs(s, isLiteral)
  {
    forall i, j | 0 <= i < j <= |s| && Boundary(s, i) && Boundary(s, j)
      ensures !isLiteral(s[i..j])
    {
      assert c !in s[i..j];
    }
  }

  lemma {:induction false} SplitHasSeparator(u: string, sep: char)
    requires |Split(u, sep)| >= 2
    ensures sep in u
  {
    if u != [] && u[0] != sep {
      SplitHasSeparator(u[1..], sep);
    }
  }

  /** When every piece between separators is made of digits, so is every character but the separators. */
  lemma {:induction false} DigitsBetweenSeparators(u: string, sep: char)
    requires forall n, m | 0 <= n < |Split(u, sep)| && 0 <= m < |Split(u, sep)[n]| :: IsDigit(Split(u, sep)[n][m])
    ensures forall k | 0 <= k < |u| :: u[k] == sep || IsDigit(u[k])
    decreases |u|
  {
    if u != [] {
      var parts, rest := Split(u, sep), Split(u[1..], sep);
      if u[0] == sep {
        assert forall n | 0 <= n < |rest| :: rest[n] == parts[n + 1];
      } else {
        assert parts[0] == [u[0]] + rest[0];
        assert forall m | 0 <= m < |rest[0]| :: rest[0][m] == parts[0][m + 1];
        assert forall n | 1 <= n < |rest| :: rest[n] == parts[n];
        assert IsDigit(parts[0][0]);
      }
      DigitsBetweenSeparators(u[1..], sep);
      assert forall k | 1 <= k < |u| :: u[k] == u[1..][k - 1];
    }
  }

  /** A three-character string with one dot in the middle splits into the characters around it. */
  lemma SplitAtSingleDot(a: char, b: char)
    requires a != '.' && b != '.'
    ensures Split([a, '.', b], '.') == [[a], [b]]
  {
    var s := [a, '.', b];
    var empty: string := [];
    assert Split(empty, '.') == [empty];
    assert [b][1..] == empty;
    assert [b] + empty == [b] && [a] + empty == [a];
    var none: seq<string> := [];
    assert [empty][1..] == none;
    assert Split([b], '.') == [[b]] + none == [[b]];
    assert ['.', b][1..] == [b];
    assert Split(['.', b], '.') == [empty] + [[b]];
    assert s[1..] == ['.', b];
    assert Split(s, '.') == [[a] + empty] + [[b]];
  }

  /** A version literal that starts with a digit is made of digits and dots only. */
  lemma VersionLiteralChars(t: string)
    requires IsVersionLiteral(t) && t != [] && IsDigit(t[0])
    ensures forall k | 0 <= k < |t| :: t[k] == '.' || IsDigit(t[k])
  {
    assert VersionBody(t) == t;
    DigitsBetweenSeparators(t, '.');
  }

  /** A string without a dot, a hyphen and a capital I holds no token of any kind. */
  lemma UnmarkedHasNoToken(s: string)
    ensures '.' !in s && '-' !in s && 'I' !in s ==>
      !HasVersionToken(s) && !HasDateToken(s) && !HasDraftRevisionToken(s) && !HasIsoDisToken(s)
  {
    if '.' !in s && '-' !in s && 'I' !in s {
      LiteralMarks();
      NotOccursWithout(s, IsVersionLiteral, '.');
      NotOccursWithout(s, IsDateLiteral, '-');
      NotOccursWithout(s, IsDraftRevisionLiteral, '-');
      NotOccursWithout(s, IsIsoDisLiteral, 'I');
    }
  }

  /** Every date literal and every draft-revision literal holds a hyphen; every version literal a dot. */
  lemma LiteralMarks()
    ensures forall t :: IsDateLiteral(t) ==> '-' in t
    ensures forall t :: IsDraftRevisionLiteral(t) ==> '-' in t
    ensures forall t :: IsVersionLiteral(t) ==> '.' in t
    ensures forall t :: IsIsoDisLiteral(t) ==> 'I' in t
  {
    forall t | IsDraftRevisionLiteral(t) ensures '-' in t {
      if RevisionTailAt(t, |t| - 2) { assert t[|t| - 2] == '-'; } else { assert t[|t| - 3] == '-'; }
    }
    forall t | IsVersionLiteral(t) ensures '.' in t {
      SplitHasSeparator(VersionBody(t), '.');
    }
    forall t | IsIsoDisLiteral(t) ensures 'I' in t {
      assert t[0] == "ISO/IEC"[0];
    }
  }
}
