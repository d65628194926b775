/**
 * The "N/A" sentinel: `norm_na` and `is_na`. Every empty or null-like cell
 * value collapses to the single sentinel "N/A"; every other value is kept,
 * trimmed of surrounding whitespace.
 */
module NotAvailable {
  import opened Text

  const NA: string := "N/A"

  /** The trimmed spellings that `norm_na` treats as absent, compared in lower case. */
  predicate NaLike(s: string) {
    Lower(s) in {"", "nan", "none", "null", "n/a"}
  }

  /** `norm_na`; a missing value (Python None) is handled by the callers, which pass "" or keep the old value. */
  function NormNa(v: string): (r: string)
    ensures r == NA || (r == Strip(v) && !NaLike(r))
    ensures v == NA ==> r == NA
  {
    StripOfStripped(NA);
    var s := Strip(v);
    if s == "" || Lower(s) in {"nan", "none", "null"} then NA
    else if Upper(s) == "N/A" then NA
    else (UpperNaIffLowerNa(s); s)
  }

  /** `is_na`: a value is absent exactly when its trimmed form is one of the null-like spellings. */
  predicate IsNa(v: string)
    ensures IsNa(v) <==> NaLike(Strip(v))
  {
    var s := Strip(v);
    UpperNaIffLowerNa(s);
    assert NaLike(s) && s != "" && Lower(s) !in {"nan", "none", "null"} ==> Upper(s) == "N/A";
    NormNa(v) == NA
  }

  /** Upper-casing to "N/A" and lower-casing to "n/a" pick out the same strings. */
  lemma UpperNaIffLowerNa(s: string)
    ensures Upper(s) == "N/A" <==> Lower(s) == "n/a"
  {
    if Upper(s) == "N/A" {
      assert |s| == 3 && Upper(s)[0] == 'N' && Upper(s)[1] == '/' && Upper(s)[2] == 'A';
      assert Lower(s) == [LowerChar(s[0]), LowerChar(s[1]), LowerChar(s[2])];
    }
    if Lower(s) == "n/a" {
      assert |s| == 3 && Lower(s)[0] == 'n' && Lower(s)[1] == '/' && Lower(s)[2] == 'a';
      assert Upper(s) == [UpperChar(s[0]), UpperChar(s[1]), UpperChar(s[2])];
    }
  }

  /** The sentinel itself is absent, and normalises to itself. */
  lemma SentinelIsNa()
    ensures NormNa(NA) == NA && IsNa(NA)
  {
  }

  /** `norm_na` is idempotent. */
  lemma {:induction false} NormNaIdempotent(v: string)
    ensures NormNa(NormNa(v)) == NormNa(v)
  {
    var r := NormNa(v);
    if r == NA {
      SentinelIsNa();
    } else {
      StripIdempotent(v);
      assert IsNa(r) <==> NaLike(Strip(r));
      UpperNaIffLowerNa(r);
    }
  }

  /** Normalising does not change whether a value is absent. */
  lemma IsNaOfNormNa(v: string)
    ensures IsNa(NormNa(v)) <==> IsNa(v)
  {
    NormNaIdempotent(v);
  }

  /** A value without surrounding whitespace whose first letter is not an "n" is kept as it is, and is present. */
  lemma NormNaKeeps(v: string)
    requires v != [] && !IsSpace(v[0]) && !IsSpace(v[|v| - 1])
    requires LowerChar(v[0]) != 'n'
    ensures NormNa(v) == v && !IsNa(v)
  {
    StripOfStripped(v);
    assert Lower(v)[0] != 'n';
    assert IsNa(v) <==> NaLike(Strip(v));
  }
}
