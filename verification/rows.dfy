/**
 * One tracked specification as the tabular store holds it, the partial update
 * the extractors propose for it, and the finaliser that merges the two under
 * the link/version invariants. Also the two change descriptions a pass
 * derives from a row: the core-change annotation and the per-field diff lines.
 */
module Rows {
  import opened Text
  import opened NotAvailable
  import opened Identifiers
  import opened Merge

  /**
   * The cells of one stored row that the pass reads or writes: organisation
   * ("단체"), specification name ("표준명 (항목)"), the four version/link
   * fields and the core-change annotation ("핵심 변경 내용").
   */
  datatype Row = Row(
    org: string,
    name: string,
    stableVersion: string,
    stableLink: string,
    draftVersion: string,
    draftLink: string,
    coreChange: string)

  /** `RowUpdate`: None means "keep the recorded value". */
  datatype RowUpdate = RowUpdate(
    stableVersion: Option<string>,
    stableLink: Option<string>,
    draftVersion: Option<string>,
    draftLink: Option<string>)

  const NoUpdate: RowUpdate := RowUpdate(None, None, None, None)

  /** The four version/link fields once finalised (the source returns them as a fully set `RowUpdate`). */
  datatype Fields = Fields(stableVersion: string, stableLink: string, draftVersion: string, draftLink: string)

  /** The row with its four version/link fields replaced. */
  function WithFields(row: Row, f: Fields): Row {
    row.(stableVersion := f.stableVersion, stableLink := f.stableLink,
         draftVersion := f.draftVersion, draftLink := f.draftLink)
  }

  /** The candidate for one field: the normalised update, or the recorded value when the update is None. */
  function CandidateOr(u: Option<string>, recorded: string): string {
    match u
    case Some(v) => NormNa(v)
    case None => recorded
  }

  /** The invariants every finalised row satisfies. */
  predicate Finalised(f: Fields) {
    && (IsNa(f.stableLink) ==> f.stableVersion == NA)
    && (IsNa(f.draftLink) ==> f.draftVersion == NA)
    && (!IsNa(f.draftVersion) ==> HasIdentifier(f.draftVersion) && !IsNa(f.draftLink))
  }

  /** `validate_and_finalize` */
  function ValidateAndFinalize(existing: Row, upd: RowUpdate): (r: Fields)
    ensures IsNa(r.stableLink) ==> r.stableVersion == NA
    ensures IsNa(r.draftLink) ==> r.draftVersion == NA
    ensures !IsNa(r.draftVersion) ==> HasIdentifier(r.draftVersion) && !IsNa(r.draftLink)
  {
    var curStableV := NormNa(existing.stableVersion);
    var curStableL := NormNa(existing.stableLink);
    var curDraftV := NormNa(existing.draftVersion);
    var curDraftL := NormNa(existing.draftLink);

    var candStableV := CandidateOr(upd.stableVersion, curStableV);
    var candStableL := CandidateOr(upd.stableLink, curStableL);
    var candDraftV := CandidateOr(upd.draftVersion, curDraftV);
    var candDraftL := CandidateOr(upd.draftLink, curDraftL);

    var newStableL := ChooseLinkSeedProtected(curStableL, candStableL);
    var newDraftL := ChooseLinkSeedProtected(curDraftL, candDraftL);
    var chosenStableV := ChooseValueNoDegrade(curStableV, candStableV);
    var chosenDraftV := ChooseValueNoDegrade(curDraftV, candDraftV);

    var newStableV := if IsNa(newStableL) then NA else chosenStableV;
    var checkedDraftV :=
      if IsNa(newDraftL) then NA
      else if IsNa(chosenDraftV) || !HasIdentifier(chosenDraftV) then NA
      else chosenDraftV;
    var newDraftV := if !IsNa(checkedDraftV) && IsNa(newDraftL) then NA else checkedDraftV;
    Fields(newStableV, newStableL, newDraftV, newDraftL)
  }

  /** Every field of a finalised row is in normal form. */
  lemma FinalizeNormalises(existing: Row, upd: RowUpdate)
    ensures var r := ValidateAndFinalize(existing, upd);
      && NormNa(r.stableVersion) == r.stableVersion && NormNa(r.stableLink) == r.stableLink
      && NormNa(r.draftVersion) == r.draftVersion && NormNa(r.draftLink) == r.draftLink
  {
  }

  /** Seed protection at row level: a recorded link is never turned into N/A, whatever the update holds. */
  lemma FinalizeKeepsKnownLinks(existing: Row, upd: RowUpdate)
    ensures var r := ValidateAndFinalize(existing, upd);
      && (!IsNa(existing.stableLink) ==> !IsNa(r.stableLink))
      && (!IsNa(existing.draftLink) ==> !IsNa(r.draftLink))
  {
    var curS, curD := NormNa(existing.stableLink), NormNa(existing.draftLink);
    IsNaOfNormNa(existing.stableLink);
    IsNaOfNormNa(existing.draftLink);
    SeedProtection(curS, CandidateOr(upd.stableLink, curS));
    SeedProtection(curD, CandidateOr(upd.draftLink, curD));
  }

  /** The update with every None replaced by the recorded value it stands for. */
  function Filled(existing: Row, upd: RowUpdate): RowUpdate {
    RowUpdate(
      Some(match upd.stableVersion case Some(v) => v case None => existing.stableVersion),
      Some(match upd.stableLink case Some(v) => v case None => existing.stableLink),
      Some(match upd.draftVersion case Some(v) => v case None => existing.draftVersion),
      Some(match upd.draftLink case Some(v) => v case None => existing.draftLink))
  }

  /** A None field of the update behaves exactly as the recorded value would. */
  lemma NoneMeansRecorded(existing: Row, upd: RowUpdate)
    ensures ValidateAndFinalize(existing, upd) == ValidateAndFinalize(existing, Filled(existing, upd))
  {
    FilledCandidate(upd.stableVersion, existing.stableVersion);
    FilledCandidate(upd.stableLink, existing.stableLink);
    FilledCandidate(upd.draftVersion, existing.draftVersion);
    FilledCandidate(upd.draftLink, existing.draftLink);
  }

  /** Filling in a None with the recorded value gives the same candidate. */
  lemma FilledCandidate(u: Option<string>, recorded: string)
    ensures CandidateOr(u, NormNa(recorded))
         == CandidateOr(Some(match u case Some(v) => v case None => recorded), NormNa(recorded))
  {
  }

  /**
   * With nothing proposed, the links stay as recorded and a stable version
   * whose link is known stays as recorded.
   */
  lemma FinalizeWithoutUpdate(existing: Row)
    ensures var r := ValidateAndFinalize(existing, NoUpdate);
      && r.stableLink == NormNa(existing.stableLink)
      && r.draftLink == NormNa(existing.draftLink)
      && (!IsNa(existing.stableLink) ==> r.stableVersion == NormNa(existing.stableVersion))
  {
    IsNaOfNormNa(existing.stableLink);
    ChooseValueStable(existing.stableVersion, NormNa(existing.stableVersion));
    ChooseValueSpec(existing.stableVersion, NormNa(existing.stableVersion));
    ScoreOfNormalised(existing.stableVersion);
    NormNaIdempotent(existing.stableVersion);
    NormNaIdempotent(existing.stableLink);
    NormNaIdempotent(existing.draftLink);
  }

  /**
   * Anti-degradation at row level: a stable version that survives its link
   * check scores at least as high as the recorded one, and so does a draft
   * version that survives the identifier check.
   */
  lemma FinalizeNoDegrade(existing: Row, upd: RowUpdate)
    ensures var r := ValidateAndFinalize(existing, upd);
      && (!IsNa(r.stableLink) ==> SpecificityScore(r.stableVersion) >= SpecificityScore(existing.stableVersion))
      && (!IsNa(r.draftVersion) ==> SpecificityScore(r.draftVersion) >= SpecificityScore(existing.draftVersion))
  {
    var curSV, curDV := NormNa(existing.stableVersion), NormNa(existing.draftVersion);
    NoDegrade(curSV, CandidateOr(upd.stableVersion, curSV));
    NoDegrade(curDV, CandidateOr(upd.draftVersion, curDV));
    ScoreOfNormalised(existing.stableVersion);
    ScoreOfNormalised(existing.draftVersion);
    SentinelIsNa();
  }

  /**
   * A recorded draft version with an identifier that outscores the proposed
   * one is kept as it is, as long as a draft link is known.
   */
  lemma FinalizeKeepsBetterDraft(existing: Row, upd: RowUpdate)
    requires !IsNa(existing.draftLink)
    requires !IsNa(existing.draftVersion) && HasIdentifier(NormNa(existing.draftVersion))
    requires upd.draftVersion.Some? && SpecificityScore(upd.draftVersion.value) < SpecificityScore(existing.draftVersion)
    ensures ValidateAndFinalize(existing, upd).draftVersion == NormNa(existing.draftVersion)
  {
    var curDV, cand := NormNa(existing.draftVersion), NormNa(upd.draftVersion.value);
    NormNaIdempotent(existing.draftVersion);
    ScoreOfNormalised(existing.draftVersion);
    ScoreOfNormalised(upd.draftVersion.value);
    ChooseValueSpec(curDV, cand);
    assert ChooseValueNoDegrade(curDV, cand) == curDV;
    IsNaOfNormNa(existing.draftVersion);
    FinalizeKeepsKnownLinks(existing, upd);
  }

  /**
   * A present proposed draft version with an identifier keeps the draft
   * version from being N/A, as long as a draft link is known and the recorded
   * draft version is absent or identified.
   */
  lemma FinalizeKeepsIdentifiedDraft(existing: Row, upd: RowUpdate)
    requires !IsNa(existing.draftLink) && DraftIdentified(existing)
    requires upd.draftVersion.Some? && !IsNa(upd.draftVersion.value)
    requires HasIdentifier(NormNa(upd.draftVersion.value))
    ensures !IsNa(ValidateAndFinalize(existing, upd).draftVersion)
  {
    var curDV, cand := NormNa(existing.draftVersion), NormNa(upd.draftVersion.value);
    NormNaIdempotent(existing.draftVersion);
    NormNaIdempotent(upd.draftVersion.value);
    IsNaOfNormNa(existing.draftVersion);
    IsNaOfNormNa(upd.draftVersion.value);
    ChooseValueSpec(curDV, cand);
    FinalizeKeepsKnownLinks(existing, upd);
  }

  /**
   * A present proposed draft version with an identifier that scores at least
   * as high as the recorded one is taken, as long as a draft link is known.
   */
  lemma FinalizeTakesOutscoringDraft(existing: Row, upd: RowUpdate)
    requires !IsNa(existing.draftLink)
    requires upd.draftVersion.Some? && !IsNa(upd.draftVersion.value)
    requires HasIdentifier(NormNa(upd.draftVersion.value))
    requires SpecificityScore(upd.draftVersion.value) >= SpecificityScore(existing.draftVersion)
    ensures ValidateAndFinalize(existing, upd).draftVersion == NormNa(upd.draftVersion.value)
  {
    var curDV, cand := NormNa(existing.draftVersion), NormNa(upd.draftVersion.value);
    NormNaIdempotent(upd.draftVersion.value);
    IsNaOfNormNa(upd.draftVersion.value);
    ScoreOfNormalised(existing.draftVersion);
    ScoreOfNormalised(upd.draftVersion.value);
    ChooseValueSpec(curDV, cand);
    FinalizeKeepsKnownLinks(existing, upd);
  }

  /** The recorded draft version is absent or carries an identifier (true of every finalised row). */
  predicate DraftIdentified(row: Row) {
    IsNa(row.draftVersion) || HasIdentifier(NormNa(row.draftVersion))
  }

  /**
   * Idempotence: finalising a row a second time against the same update
   * changes nothing, provided the recorded draft version is absent or carries
   * an identifier. Every row a pass has written meets that condition.
   */
  lemma FinalizeTwice(existing: Row, upd: RowUpdate)
    requires DraftIdentified(existing)
    ensures var r := ValidateAndFinalize(existing, upd);
      ValidateAndFinalize(WithFields(existing, r), upd) == r
  {
    FinalizeTwiceLinks(existing, upd);
    FinalizeTwiceVersions(existing, upd);
  }

  /** The links of a second finalisation are those of the first. */
  lemma FinalizeTwiceLinks(existing: Row, upd: RowUpdate)
    ensures var r := ValidateAndFinalize(existing, upd);
      var r2 := ValidateAndFinalize(WithFields(existing, r), upd);
      r2.stableLink == r.stableLink && r2.draftLink == r.draftLink
  {
    var r := ValidateAndFinalize(existing, upd);
    FinalizeNormalises(existing, upd);
    SentinelIsNa();
    var curSL, curDL := NormNa(existing.stableLink), NormNa(existing.draftLink);
    SeedProtection(curSL, CandidateOr(upd.stableLink, curSL));
    SeedProtection(curDL, CandidateOr(upd.draftLink, curDL));
    SeedProtection(r.stableLink, CandidateOr(upd.stableLink, r.stableLink));
    SeedProtection(r.draftLink, CandidateOr(upd.draftLink, r.draftLink));
    NormNaIdempotent(existing.stableLink);
    NormNaIdempotent(existing.draftLink);
    match upd.stableLink { case Some(v) => NormNaIdempotent(v); case None => }
    match upd.draftLink { case Some(v) => NormNaIdempotent(v); case None => }
  }

  /** With the recorded draft identified or absent, the versions of a second finalisation are those of the first. */
  lemma FinalizeTwiceVersions(existing: Row, upd: RowUpdate)
    requires DraftIdentified(existing)
    ensures var r := ValidateAndFinalize(existing, upd);
      var r2 := ValidateAndFinalize(WithFields(existing, r), upd);
      r2.stableVersion == r.stableVersion && r2.draftVersion == r.draftVersion
  {
    var r := ValidateAndFinalize(existing, upd);
    FinalizeTwiceLinks(existing, upd);
    FinalizeNormalises(existing, upd);
    SentinelIsNa();
    var curSV, curDV := NormNa(existing.stableVersion), NormNa(existing.draftVersion);
    var candSV, candDV := CandidateOr(upd.stableVersion, curSV), CandidateOr(upd.draftVersion, curDV);
    NormNaIdempotent(existing.stableVersion);
    NormNaIdempotent(existing.draftVersion);
    match upd.stableVersion { case Some(v) => NormNaIdempotent(v); case None => }
    match upd.draftVersion { case Some(v) => NormNaIdempotent(v); case None => }
    ChooseValueStable(curSV, candSV);
    ChooseValueStable(curDV, candDV);
    ChooseValueSpec(curSV, candSV);
    ChooseValueSpec(curDV, candDV);
    ChooseValueSpec(r.stableVersion, CandidateOr(upd.stableVersion, r.stableVersion));
    ChooseValueSpec(r.draftVersion, CandidateOr(upd.draftVersion, r.draftVersion));
    ScoreOfNormalised(existing.draftVersion);
  }

  /**
   * Without DraftIdentified a second pass can change the row: a recorded
   * draft version with no identifier that outscores the proposal keeps the
   * proposal out on the first pass and is then cleared; on the second pass the
   * recorded value is absent and the proposal gets in.
   */
  lemma FinalizeTwiceNeedsIdentifiedDraft(existing: Row, candidate: string)
    requires !IsNa(existing.draftLink) && !IsNa(existing.draftVersion)
    requires !HasIdentifier(NormNa(existing.draftVersion))
    requires !IsNa(candidate) && HasIdentifier(NormNa(candidate))
    requires SpecificityScore(existing.draftVersion) > SpecificityScore(candidate)
    ensures var upd := RowUpdate(None, None, Some(candidate), None);
      var r := ValidateAndFinalize(existing, upd);
      && r.draftVersion == NA
      && ValidateAndFinalize(WithFields(existing, r), upd).draftVersion == NormNa(candidate) != NA
  {
    var upd := RowUpdate(None, None, Some(candidate), None);
    var curDV, cand := NormNa(existing.draftVersion), NormNa(candidate);
    NormNaIdempotent(existing.draftVersion);
    NormNaIdempotent(candidate);
    IsNaOfNormNa(existing.draftVersion);
    IsNaOfNormNa(candidate);
    ScoreOfNormalised(existing.draftVersion);
    ScoreOfNormalised(candidate);
    // First pass: the recorded value wins the choice and fails the identifier check.
    ChooseValueSpec(curDV, cand);
    assert ChooseValueNoDegrade(curDV, cand) == curDV;
    FinalizeKeepsKnownLinks(existing, upd);
    var r := ValidateAndFinalize(existing, upd);
    assert r.draftVersion == NA;
    // Second pass: nothing is recorded, so the candidate is taken.
    var second := WithFields(existing, r);
    SentinelIsNa();
    ChooseValueAbsent(NA, cand);
    assert ChooseValueNoDegrade(NormNa(second.draftVersion), cand) == cand;
    FinalizeKeepsKnownLinks(second, upd);
    var r2 := ValidateAndFinalize(second, upd);
    assert !IsNa(r2.draftLink);
    assert r2.draftVersion == cand;
  }

  /**
   * A recorded value that satisfies FinalizeTwiceNeedsIdentifiedDraft: "년"
   * followed by 119 letters has no identifier and scores 11 (the Korean date
   * word plus the length bonus).
   */
  lemma KoreanDateWordExample(recorded: string, pad: string)
    requires |pad| == 119 && forall k | 0 <= k < |pad| :: pad[k] == 'x'
    requires recorded == "년" + pad
    ensures !IsNa(recorded) && !HasIdentifier(NormNa(recorded))
    ensures SpecificityScore(recorded) == 11
  {
    StripOfStripped(recorded);
    assert |Lower(recorded)| == 120;
    assert NormNa(recorded) == recorded;
    LiteralMarks();
    assert '-' !in recorded && '.' !in recorded && 'I' !in recorded;
    NotOccursWithout(recorded, IsDateLiteral, '-');
    NotOccursWithout(recorded, IsDraftRevisionLiteral, '-');
    NotOccursWithout(recorded, IsVersionLiteral, '.');
    NotOccursWithout(recorded, IsIsoDisLiteral, 'I');
    assert recorded[0] == '년';
    ScoreOfPresent(recorded);
  }

  /** A candidate that satisfies FinalizeTwiceNeedsIdentifiedDraft against it: "v1.0" has an identifier and scores 10. */
  lemma ShortVersionExample(candidate: string)
    requires candidate == "v1.0"
    ensures !IsNa(candidate) && HasIdentifier(NormNa(candidate))
    ensures SpecificityScore(candidate) == 10
  {
    ShortVersionIsVersion(candidate);
    ShortVersionHasNoOtherToken(candidate);
    ScoreOfPresent(candidate);
  }

  /** "v1.0" is in normal form and is a version token. */
  lemma ShortVersionIsVersion(candidate: string)
    requires candidate == "v1.0"
    ensures NormNa(candidate) == candidate && !IsNa(candidate) && HasVersionToken(candidate)
  {
    NormNaKeeps(candidate);
    assert IsVersionLiteral(candidate) by {
      assert VersionBody(candidate) == ['1', '.', '0'];
      SplitAtSingleDot('1', '0');
    }
    OccursBetween([], candidate, [], IsVersionLiteral);
    assert [] + candidate + [] == candidate;
  }

  /** "v1.0" holds no date, draft revision, "ISO/IEC DIS" or Korean date word. */
  lemma ShortVersionHasNoOtherToken(candidate: string)
    requires candidate == "v1.0"
    ensures !HasDateToken(candidate) && !HasDraftRevisionToken(candidate)
    ensures !HasIsoDisToken(candidate) && !HasKoreanDateWord(candidate)
  {
    LiteralMarks();
    assert '-' !in candidate && 'I' !in candidate;
    NotOccursWithout(candidate, IsDateLiteral, '-');
    NotOccursWithout(candidate, IsDraftRevisionLiteral, '-');
    NotOccursWithout(candidate, IsIsoDisLiteral, 'I');
  }

  /** `compute_core_change` */
  function ComputeCoreChange(before: Row, after: Row): (r: Option<string>)
    ensures r.None? <==>
      NormNa(before.stableVersion) == NormNa(after.stableVersion)
      && NormNa(before.draftVersion) == NormNa(after.draftVersion)
  {
    var bStable, aStable := NormNa(before.stableVersion), NormNa(after.stableVersion);
    var bDraft, aDraft := NormNa(before.draftVersion), NormNa(after.draftVersion);
    var parts :=
      (if bStable != aStable then ["stable " + bStable + " -> " + aStable] else [])
      + (if bDraft != aDraft then ["draft " + bDraft + " -> " + aDraft] else []);
    if parts == [] then None else Some(Join(parts, "; "))
  }

  /** Link-only changes never produce an annotation: only the two version labels are looked at. */
  lemma CoreChangeIgnoresLinks(before: Row, after: Row, b2: Row, a2: Row)
    requires before.stableVersion == b2.stableVersion && before.draftVersion == b2.draftVersion
    requires after.stableVersion == a2.stableVersion && after.draftVersion == a2.draftVersion
    ensures ComputeCoreChange(before, after) == ComputeCoreChange(b2, a2)
  {
  }

  /** The annotation's text: the stable change first, then the draft change, joined by "; ". */
  lemma CoreChangeText(before: Row, after: Row)
    ensures var bS, aS := NormNa(before.stableVersion), NormNa(after.stableVersion);
      var bD, aD := NormNa(before.draftVersion), NormNa(after.draftVersion);
      var stable, draft := "stable " + bS + " -> " + aS, "draft " + bD + " -> " + aD;
      ComputeCoreChange(before, after)
        == if bS != aS && bD != aD then Some(stable + "; " + draft)
           else if bS != aS then Some(stable)
           else if bD != aD then Some(draft)
           else None
  {
    var bS, aS := NormNa(before.stableVersion), NormNa(after.stableVersion);
    var bD, aD := NormNa(before.draftVersion), NormNa(after.draftVersion);
    var stable, draft := "stable " + bS + " -> " + aS, "draft " + bD + " -> " + aD;
    assert Join([stable, draft], "; ") == stable + "; " + draft by {
      assert [stable, draft][1..] == [draft];
    }
  }

  /** The four columns compared after a row is updated, in the order the diff lines list them. */
  datatype Column = StableVersionCol | StableVersionLinkCol | DraftVersionCol | DraftVersionLinkCol {
    function Name(): string {
      match this
      case StableVersionCol => "Stable Version"
      case StableVersionLinkCol => "Stable Version Link"
      case DraftVersionCol => "Draft Version"
      case DraftVersionLinkCol => "Draft Version Link"
    }

    function Of(row: Row): string {
      match this
      case StableVersionCol => row.stableVersion
      case StableVersionLinkCol => row.stableLink
      case DraftVersionCol => row.draftVersion
      case DraftVersionLinkCol => row.draftLink
    }
  }

  const Columns: seq<Column> := [StableVersionCol, StableVersionLinkCol, DraftVersionCol, DraftVersionLinkCol]

  /** `"{col}: {b or '(empty)'} → {a}"` */
  function DiffLine(col: Column, b: string, a: string): string {
    col.Name() + ": " + (if b == "" then "(empty)" else b) + " → " + a
  }

  /** The diff lines for the columns `cols`, in order: one per column whose trimmed value changed. */
  function ChangedLines(before: Row, after: Row, cols: seq<Column>): (lines: seq<string>)
    ensures |lines| <= |cols|
  {
    if cols == [] then []
    else
      var col := cols[|cols| - 1];
      var b, a := Strip(col.Of(before)), Strip(col.Of(after));
      ChangedLines(before, after, cols[..|cols| - 1]) + (if b != a then [DiffLine(col, b, a)] else [])
  }

  /** Taking one more column appends that column's diff line, if any. */
  lemma ChangedLinesExtend(before: Row, after: Row, cols: seq<Column>, i: nat)
    requires i < |cols|
    ensures var b, a := Strip(cols[i].Of(before)), Strip(cols[i].Of(after));
      ChangedLines(before, after, cols[..i + 1]) == ChangedLines(before, after, cols[..i]) + (if b != a then [DiffLine(cols[i], b, a)] else [])
  {
    assert cols[..i + 1][..i] == cols[..i];
  }

  /** The per-row field diff of the pass's main loop. */
  method FieldDiffLines(before: Row, after: Row) returns (diffs: seq<string>)
    ensures diffs == ChangedLines(before, after, Columns)
  {
    diffs := [];
    for i := 0 to |Columns|
      invariant diffs == ChangedLines(before, after, Columns[..i])
    {
      var col := Columns[i];
      var b := Strip(col.Of(before));
      var a := Strip(col.Of(after));
      if b != a {
        diffs := diffs + [DiffLine(col, b, a)];
      }
      ChangedLinesExtend(before, after, Columns, i);
    }
    assert Columns[..|Columns|] == Columns;
  }

  /** Whether the trimmed value of column `col` differs between the two rows. */
  predicate Changed(before: Row, after: Row, col: Column) {
    Strip(col.Of(before)) != Strip(col.Of(after))
  }

  /** The last column adds a diff line exactly when its trimmed value changed. */
  lemma ChangedLinesStep(before: Row, after: Row, cols: seq<Column>)
    requires cols != []
    ensures ChangedLines(before, after, cols) == [] <==>
      ChangedLines(before, after, cols[..|cols| - 1]) == [] && !Changed(before, after, cols[|cols| - 1])
  {
  }

  /** There is no diff line exactly when none of the trimmed values changed. */
  lemma {:induction false} NoDiffLinesIff(before: Row, after: Row, cols: seq<Column>)
    ensures ChangedLines(before, after, cols) == [] <==> forall n :: 0 <= n < |cols| ==> !Changed(before, after, cols[n])
  {
    if cols != [] {
      var init := cols[..|cols| - 1];
      NoDiffLinesIff(before, after, init);
      ChangedLinesStep(before, after, cols);
      if ChangedLines(before, after, cols) == [] {
        forall n | 0 <= n < |cols| ensures !Changed(before, after, cols[n]) {
          if n < |init| { assert cols[n] == init[n]; } else { assert n == |cols| - 1; }
        }
      }
      if forall n :: 0 <= n < |cols| ==> !Changed(before, after, cols[n]) {
        forall n | 0 <= n < |init| ensures !Changed(before, after, init[n]) {
          assert init[n] == cols[n];
        }
      }
    }
  }

  /**
   * A core-change annotation is only ever produced together with a diff line:
   * a changed normalised version label is also a changed trimmed value.
   */
  lemma CoreChangeHasDiffLine(before: Row, after: Row)
    requires ComputeCoreChange(before, after).Some?
    ensures ChangedLines(before, after, Columns) != []
  {
    NoDiffLinesIff(before, after, Columns);
    StripEqualSameNorm(before.stableVersion, after.stableVersion);
    StripEqualSameNorm(before.draftVersion, after.draftVersion);
    if NormNa(before.stableVersion) != NormNa(after.stableVersion) {
      assert Changed(before, after, Columns[0]);
    } else {
      assert Changed(before, after, Columns[2]);
    }
  }

  /** Two values with the same trimmed form have the same normal form. */
  lemma StripEqualSameNorm(x: string, y: string)
    ensures Strip(x) == Strip(y) ==> NormNa(x) == NormNa(y)
  {
  }
}
