/**
 * The row loop of `main`: for every tracked specification, record the content
 * snapshots of its stable and draft pages, route and finalise its version
 * update, rewrite its four version/link cells, annotate the core change, and
 * collect the diff lines, the content entries and the flags that decide
 * whether the CSV is written and whether the README changelog gets a block.
 */
module Orchestrator {
  import opened Text
  import opened NotAvailable
  import opened Rows
  import opened Routing
  import opened Snapshots

  /** Everything a pass reads from outside: the parsers' readings and, for the content snapshots, the page texts, the URL parser's host and path, the diff, and the timestamp. */
  datatype Web = Web(
    pages: Pages,
    pageText: string -> Option<string>,
    hostPath: string -> string,
    diff: (seq<string>, seq<string>) -> string,
    ts: string)

  /** `content_status_counts` */
  datatype Counts = Counts(baseline: nat, same: nat, changed: nat) {
    function Total(): nat { baseline + same + changed }

    function Add(st: Status): Counts {
      match st
      case Baseline => this.(baseline := baseline + 1)
      case Unchanged => this.(same := same + 1)
      case Changed => this.(changed := changed + 1)
    }
  }

  /** One entry of `diffs_for_readme` or `content_changes_for_readme`: organisation, name and lines. */
  datatype RowReport = RowReport(org: string, name: string, lines: seq<string>)

  /** What the loop leaves behind for the steps after it. */
  datatype PassReport = PassReport(
    changedAny: bool,
    csvChangedAny: bool,
    diffsForReadme: seq<RowReport>,
    contentChanges: seq<RowReport>,
    counts: Counts,
    diffFiles: nat)

  // ---------------------------------------------------------------------
  // One row, as a specification
  // ---------------------------------------------------------------------

  /**
   * The row after its version/link cells are rewritten and, when the CSV has
   * the column, its core change annotated. The organisation and name stay; a
   * version is absent when its link is; a recorded link is never lost; and
   * the draft version is absent or carries an identifier.
   */
  function UpdatedRow(row: Row, pages: Pages, hasCoreColumn: bool): (r: Row)
    ensures r.org == row.org && r.name == row.name
    ensures !hasCoreColumn ==> r.coreChange == row.coreChange
    ensures IsNa(r.stableLink) ==> r.stableVersion == NA
    ensures IsNa(r.draftLink) ==> r.draftVersion == NA
    ensures !IsNa(row.stableLink) ==> !IsNa(r.stableLink)
    ensures !IsNa(row.draftLink) ==> !IsNa(r.draftLink)
    ensures DraftIdentified(r)
  {
    var upd := Proposal(row.org, row.name, row.stableLink, row.draftLink, pages);
    var f := ValidateAndFinalize(row, upd);
    FinalizeNormalises(row, upd);
    FinalizeKeepsKnownLinks(row, upd);
    var written := WithFields(row, Fields(NormNa(f.stableVersion), NormNa(f.stableLink), NormNa(f.draftVersion), NormNa(f.draftLink)));
    Annotated(row, written, hasCoreColumn)
  }

  /** The per-row update of a pass over the given pages, as a function value. */
  function Updater(pages: Pages, hasCoreColumn: bool): Row -> Row {
    row => UpdatedRow(row, pages, hasCoreColumn)
  }

  /**
   * `f` is the per-row update of a pass. Stated with UpdatedRow as the only
   * trigger, so that facts about `f` on whole sequences of rows do not open
   * up the update of every row they mention.
   */
  ghost predicate Updates(f: Row -> Row, pages: Pages, hasCoreColumn: bool) {
    forall row {:trigger UpdatedRow(row, pages, hasCoreColumn)} :: f(row) == UpdatedRow(row, pages, hasCoreColumn)
  }

  /** The updater of a pass is its per-row update. */
  lemma UpdaterUpdates(pages: Pages, hasCoreColumn: bool)
    ensures Updates(Updater(pages, hasCoreColumn), pages, hasCoreColumn)
  {
  }

  /** `changed` is the change test of the row loop. Stated with RowChanged as the only trigger, like Updates. */
  ghost predicate Compares(changed: (Row, Row) -> bool, hasCoreColumn: bool) {
    forall before, after {:trigger RowChanged(before, after, hasCoreColumn)} ::
      changed(before, after) == RowChanged(before, after, hasCoreColumn)
  }

  /** `entry` gives the README diff entry of a row. Stated with DiffReport as the only trigger, like Updates. */
  ghost predicate ListsDiffs(entry: (Row, Row) -> seq<RowReport>) {
    forall before, after {:trigger DiffReport(before, after)} :: entry(before, after) == DiffReport(before, after)
  }

  /** The change test of the row loop, as a function value. */
  function ChangeTest(hasCoreColumn: bool): (Row, Row) -> bool {
    (before, after) => RowChanged(before, after, hasCoreColumn)
  }

  /** The README diff entry of a row, as a function value. */
  function DiffEntry(): (Row, Row) -> seq<RowReport> {
    (before, after) => DiffReport(before, after)
  }

  /** The change test and the diff entry of the row loop are what Compares and ListsDiffs describe. */
  lemma LoopFunctions(hasCoreColumn: bool)
    ensures Compares(ChangeTest(hasCoreColumn), hasCoreColumn)
    ensures ListsDiffs(DiffEntry())
  {
  }

  /** The core-change cell counts as changed when its trimmed text differs (and the CSV has the column). */
  predicate CoreCellChanged(before: Row, after: Row, hasCoreColumn: bool) {
    hasCoreColumn && Strip(before.coreChange) != Strip(after.coreChange)
  }

  /** A row makes the CSV be written again: one of the four cells or the core-change cell changed. */
  predicate RowChanged(before: Row, after: Row, hasCoreColumn: bool) {
    || Rows.Changed(before, after, StableVersionCol) || Rows.Changed(before, after, StableVersionLinkCol)
    || Rows.Changed(before, after, DraftVersionCol) || Rows.Changed(before, after, DraftVersionLinkCol)
    || CoreCellChanged(before, after, hasCoreColumn)
  }

  /** A row changes exactly when it has a diff line or its core-change cell changed. */
  lemma RowChangedIff(before: Row, after: Row, hasCoreColumn: bool)
    ensures RowChanged(before, after, hasCoreColumn)
        <==> ChangedLines(before, after, Columns) != [] || CoreCellChanged(before, after, hasCoreColumn)
  {
    NoDiffLinesIff(before, after, Columns);
    assert Columns[0] == StableVersionCol && Columns[1] == StableVersionLinkCol;
    assert Columns[2] == DraftVersionCol && Columns[3] == DraftVersionLinkCol;
  }

  /** The `diffs_for_readme` entry of one row, if it has diff lines. */
  function DiffReport(before: Row, after: Row): (r: seq<RowReport>)
    ensures |r| <= 1
    ensures r == [] <==> ChangedLines(before, after, Columns) == []
  {
    var lines := ChangedLines(before, after, Columns);
    if lines != [] then [RowReport(Strip(before.org), Strip(before.name), lines)] else []
  }

  /** The rows after a pass with per-row update `f`, as a function of the rows before it. */
  function Pass(rows: seq<Row>, f: Row -> Row): (after: seq<Row>)
    ensures |after| == |rows|
  {
    if rows == [] then []
    else Pass(rows[..|rows| - 1], f) + [f(rows[|rows| - 1])]
  }

  /** Some row of the sequence changes in a pass with update `f`, by the change test `changed`. */
  predicate AnyChanged(rows: seq<Row>, f: Row -> Row, changed: (Row, Row) -> bool) {
    if rows == [] then false
    else
      var last := rows[|rows| - 1];
      AnyChanged(rows[..|rows| - 1], f, changed) || changed(last, f(last))
  }

  /** The `diffs_for_readme` entries of a pass with update `f`, in row order, where `entry` gives a row's own. */
  function DiffReports(rows: seq<Row>, f: Row -> Row, entry: (Row, Row) -> seq<RowReport>): seq<RowReport> {
    if rows == [] then []
    else
      var last := rows[|rows| - 1];
      DiffReports(rows[..|rows| - 1], f, entry) + entry(last, f(last))
  }

  /**
   * A row the update changes has diff lines: its core-change cell is only
   * rewritten with an annotation, and an annotation needs a changed version.
   */
  lemma UpdatedRowChangeHasDiffLine(row: Row, pages: Pages, hasCoreColumn: bool)
    ensures var after := UpdatedRow(row, pages, hasCoreColumn);
      RowChanged(row, after, hasCoreColumn) ==> ChangedLines(row, after, Columns) != []
  {
    var f := ValidateAndFinalize(row, Proposal(row.org, row.name, row.stableLink, row.draftLink, pages));
    var written := WithFields(row, Fields(NormNa(f.stableVersion), NormNa(f.stableLink), NormNa(f.draftVersion), NormNa(f.draftLink)));
    assert UpdatedRow(row, pages, hasCoreColumn) == Annotated(row, written, hasCoreColumn);
    AnnotationHasDiffLine(row, written, hasCoreColumn);
  }

  /** The written row with its core change annotated, when the CSV has the column and there is one. */
  function Annotated(row: Row, written: Row, hasCoreColumn: bool): Row {
    if hasCoreColumn then
      match ComputeCoreChange(row, written)
      case Some(c) => written.(coreChange := c)
      case None => written
    else written
  }

  /** Annotating a row whose core cell is the recorded one adds no change without a diff line. */
  lemma AnnotationHasDiffLine(row: Row, written: Row, hasCoreColumn: bool)
    requires written.coreChange == row.coreChange
    ensures var after := Annotated(row, written, hasCoreColumn);
      RowChanged(row, after, hasCoreColumn) ==> ChangedLines(row, after, Columns) != []
  {
    var after := Annotated(row, written, hasCoreColumn);
    if hasCoreColumn && ComputeCoreChange(row, written).Some? {
      CoreChangeHasDiffLine(row, written);
      CoreCellNotCompared(row, written, after.coreChange, Columns);
    } else {
      assert after == written;
      RowChangedIff(row, after, hasCoreColumn);
    }
  }

  /** The diff lines do not read the core-change cell. */
  lemma {:induction false} CoreCellNotCompared(before: Row, a: Row, core: string, cols: seq<Column>)
    ensures ChangedLines(before, a, cols) == ChangedLines(before, a.(coreChange := core), cols)
    decreases |cols|
  {
    if cols != [] {
      CoreCellNotCompared(before, a, core, cols[..|cols| - 1]);
      CoreCellNotRead(a, core, cols[|cols| - 1]);
    }
  }

  /** No compared column is the core-change cell. */
  lemma CoreCellNotRead(a: Row, core: string, col: Column)
    ensures col.Of(a) == col.Of(a.(coreChange := core))
  {
  }

  /** A pass that marks the CSV changed has at least one README diff entry. */
  lemma {:induction false} ChangedPassHasEntry(rows: seq<Row>, pages: Pages, hasCoreColumn: bool)
    ensures var f := Updater(pages, hasCoreColumn);
      AnyChanged(rows, f, ChangeTest(hasCoreColumn)) ==> DiffReports(rows, f, DiffEntry()) != []
    decreases |rows|
  {
    if rows != [] {
      var last := rows[|rows| - 1];
      ChangedPassHasEntry(rows[..|rows| - 1], pages, hasCoreColumn);
      UpdatedRowChangeHasDiffLine(last, pages, hasCoreColumn);
    }
  }

  /** A pass rewrites every row on its own: row j of the result is row j updated. */
  lemma {:induction false} PassAt(rows: seq<Row>, f: Row -> Row)
    ensures forall j | 0 <= j < |rows| :: Pass(rows, f)[j] == f(rows[j])
    decreases |rows|
  {
    if rows != [] {
      var init := rows[..|rows| - 1];
      PassAt(init, f);
      forall j | 0 <= j < |rows|
        ensures Pass(rows, f)[j] == f(rows[j])
      {
        if j < |init| {
          assert rows[j] == init[j];
        }
      }
    }
  }

  /** Row j of the sequence changes in a pass. */
  predicate ChangedAt(rows: seq<Row>, f: Row -> Row, changed: (Row, Row) -> bool, j: int)
    requires 0 <= j < |rows|
  {
    changed(rows[j], f(rows[j]))
  }

  /** The CSV of a pass counts as changed exactly when one of its rows does. */
  lemma {:induction false} AnyChangedIff(rows: seq<Row>, f: Row -> Row, changed: (Row, Row) -> bool)
    ensures AnyChanged(rows, f, changed) <==> exists j | 0 <= j < |rows| :: ChangedAt(rows, f, changed, j)
    decreases |rows|
  {
    if rows != [] {
      var init := rows[..|rows| - 1];
      AnyChangedIff(init, f, changed);
      if AnyChanged(init, f, changed) {
        var j :| 0 <= j < |init| && ChangedAt(init, f, changed, j);
        assert rows[j] == init[j];
        assert ChangedAt(rows, f, changed, j);
      }
      if AnyChanged(rows, f, changed) && !AnyChanged(init, f, changed) {
        assert ChangedAt(rows, f, changed, |rows| - 1);
      }
      if j :| 0 <= j < |rows| && ChangedAt(rows, f, changed, j) {
        if j < |init| {
          assert rows[j] == init[j];
          assert ChangedAt(init, f, changed, j);
        }
      }
    }
  }

  /** A pass over one more row: its result grows by that row's update. */
  lemma PassStep(rows: seq<Row>, i: nat, f: Row -> Row)
    requires i < |rows|
    ensures Pass(rows[..i + 1], f) == Pass(rows[..i], f) + [f(rows[i])]
  {
    assert rows[..i + 1][..i] == rows[..i];
  }

  /** The content note for a check that wrote a diff file. */
  function ContentNote(which: string, outcome: Option<Outcome>): (note: Option<string>)
    ensures note.Some? <==> outcome.Some? && outcome.value.diffRef.Some? && outcome.value.status != Unchanged
  {
    match outcome
    case Some(Outcome(Changed, Some(d))) => Some("changed " + which + ": " + d)
    case Some(Outcome(Baseline, Some(d))) => Some("baseline " + which + ": " + d)
    case _ => None
  }

  // ---------------------------------------------------------------------
  // One row, as the loop body runs it
  // ---------------------------------------------------------------------

  /**
   * The version part of the loop body: route, finalise, write the four cells,
   * annotate the core change, and compare the row with how it was.
   */
  method UpdateRow(row: Row, pages: Pages, hasCoreColumn: bool) returns (after: Row, diffs: seq<string>, coreChanged: bool)
    ensures after == UpdatedRow(row, pages, hasCoreColumn)
    ensures diffs == ChangedLines(row, after, Columns)
    ensures coreChanged == CoreCellChanged(row, after, hasCoreColumn)
  {
    var org, name := Strip(row.org), Strip(row.name);
    var upd := ComputeUpdateForRow(org, name, row.stableLink, row.draftLink, pages);
    ProposalOfTrimmedNames(row.org, row.name, row.stableLink, row.draftLink, pages);
    var f := ValidateAndFinalize(row, upd);
    after := row.(stableVersion := NormNa(f.stableVersion), stableLink := NormNa(f.stableLink),
                  draftVersion := NormNa(f.draftVersion), draftLink := NormNa(f.draftLink));
    if hasCoreColumn {
      var core := ComputeCoreChange(row, after);
      if core.Some? {
        after := after.(coreChange := core.value);
      }
    }
    diffs := FieldDiffLines(row, after);
    coreChanged := false;
    if hasCoreColumn {
      coreChanged := Strip(row.coreChange) != Strip(after.coreChange);
    }
  }

  /** The router trims the organisation and name itself, so trimming them first changes nothing. */
  lemma ProposalOfTrimmedNames(org: string, specName: string, stableLink: string, draftLink: string, pages: Pages)
    ensures Proposal(Strip(org), Strip(specName), stableLink, draftLink, pages)
         == Proposal(org, specName, stableLink, draftLink, pages)
  {
    ProposalOfNormalForms(org, specName, stableLink, draftLink, pages);
    ProposalOfNormalForms(Strip(org), Strip(specName), stableLink, draftLink, pages);
    StripIdempotent(org);
    StripIdempotent(specName);
  }

  /**
   * The content part of the loop body for one link: a check when the link is
   * present, nothing when it is absent; a check that raises is dropped.
   */
  method CheckContent(store: SnapshotStore, link: string, web: Web) returns (outcome: Option<Outcome>)
    requires store.Valid()
    modifies store
    ensures store.Valid()
    ensures (store.State(), outcome) == ContentCheck(old(store.State()), store.baselineDiff, link, web)
  {
    var url := NormNa(link);
    if IsNa(url) {
      IsNaOfNormNa(link);
      return None;
    }
    IsNaOfNormNa(link);
    outcome := store.CheckAndRecord(url, web.hostPath(url), web.pageText(url), web.diff, web.ts);
  }

  /**
   * The content check of one link on a store state: nothing is checked for an
   * absent link, and a failed fetch changes nothing; otherwise the page's
   * lines are classified against the stored ones and stored under the link's
   * key, and no other key changes.
   */
  function ContentCheck(s: StoreState, bd: bool, link: string, web: Web): (r: (StoreState, Option<Outcome>))
    ensures IsNa(link) ==> r == (s, None)
    ensures r.1.None? <==> IsNa(link) || web.pageText(NormNa(link)).None?
    ensures r.1.None? ==> r.0 == s
    ensures r.1.Some? ==>
      var url := NormNa(link);
      var key := SafeFileName(web.hostPath(url), url);
      && r.1.value.status == Classify(StoredIn(s.snapshots, key), NormalizedLines(web.pageText(url).value))
      && StoredIn(r.0.snapshots, key) == NormalizedLines(web.pageText(url).value)
      && forall other | other != key :: StoredIn(r.0.snapshots, other) == StoredIn(s.snapshots, other)
  {
    var url := NormNa(link);
    IsNaOfNormNa(link);
    if IsNa(url) then (s, None)
    else CheckIn(s, bd, url, web.hostPath(url), web.pageText(url), web.diff, web.ts)
  }

  // ---------------------------------------------------------------------
  // The loop
  // ---------------------------------------------------------------------

  /** The counts after one content check: the outcome's status is counted once, a dropped check not at all. */
  function Tally(c: Counts, outcome: Option<Outcome>): (r: Counts)
    ensures r.Total() == c.Total() + (if outcome.Some? then 1 else 0)
    ensures r.baseline + r.changed == c.baseline + c.changed + (if Touched(outcome) then 1 else 0)
  {
    if outcome.Some? then c.Add(outcome.value.status) else c
  }

  /** A content check that found a first snapshot or a change: it makes the run count as changed. */
  predicate Touched(outcome: Option<Outcome>) {
    outcome.Some? && outcome.value.status != Unchanged
  }

  /** A content check that wrote a diff file. */
  function DiffFileCount(outcome: Option<Outcome>): (n: nat)
    ensures n <= 1 && (n == 1 <==> outcome.Some? && outcome.value.diffRef.Some?)
  {
    if outcome.Some? && outcome.value.diffRef.Some? then 1 else 0
  }

  /** The content notes of a row: the stable note, then the draft note, each when there is one. */
  function RowNotes(stable: Option<Outcome>, draft: Option<Outcome>): (notes: seq<string>)
    ensures |notes| <= 2
    ensures notes == [] <==> ContentNote("stable", stable).None? && ContentNote("draft", draft).None?
  {
    (match ContentNote("stable", stable) case Some(n) => [n] case None => [])
    + (match ContentNote("draft", draft) case Some(n) => [n] case None => [])
  }

  /**
   * How the content part of the loop body moves the report: the CSV flag and
   * the README diffs stay, the changed flag is raised exactly by a first
   * snapshot or a change, and the counts grow by one row's share.
   */
  predicate ContentRecorded(acc: PassReport, next: PassReport) {
    && next.csvChangedAny == acc.csvChangedAny && next.diffsForReadme == acc.diffsForReadme
    && (next.changedAny <==> acc.changedAny || next.counts.baseline + next.counts.changed > acc.counts.baseline + acc.counts.changed)
    && CountsGrow(acc, next)
  }

  /**
   * One row's share of the counts: at most two checks are counted, the
   * first-snapshot and change counts never shrink, a diff file needs a
   * counted check, and at most one content entry is added.
   */
  predicate CountsGrow(acc: PassReport, next: PassReport) {
    && acc.counts.Total() <= next.counts.Total() <= acc.counts.Total() + 2
    && acc.counts.baseline + acc.counts.changed <= next.counts.baseline + next.counts.changed
    && acc.diffFiles <= next.diffFiles && next.diffFiles - acc.diffFiles <= next.counts.Total() - acc.counts.Total()
    && |acc.contentChanges| <= |next.contentChanges| <= |acc.contentChanges| + 1
  }

  /**
   * The report after the row's stable and draft checks: both outcomes
   * counted, their diff files added, the row's notes listed when there are
   * any, and the changed flag raised by either check.
   */
  function ContentReport(acc: PassReport, row: Row, stable: Option<Outcome>, draft: Option<Outcome>): (next: PassReport)
    ensures ContentRecorded(acc, next)
    ensures next.changedAny <==> acc.changedAny || Touched(stable) || Touched(draft)
    ensures |next.contentChanges| == |acc.contentChanges| + 1 <==>
      ContentNote("stable", stable).Some? || ContentNote("draft", draft).Some?
  {
    var notes := RowNotes(stable, draft);
    acc.(counts := Tally(Tally(acc.counts, stable), draft),
         diffFiles := acc.diffFiles + DiffFileCount(stable) + DiffFileCount(draft),
         contentChanges := if notes != [] then acc.contentChanges + [RowReport(Strip(row.org), Strip(row.name), notes)] else acc.contentChanges,
         changedAny := acc.changedAny || Touched(stable) || Touched(draft))
  }

  /**
   * The content part of the loop body: the checks of the row's stable and
   * draft pages, counted, with their notes and the changed flag.
   */
  method RecordContent(row: Row, store: SnapshotStore, web: Web, acc: PassReport)
    returns (stable: Option<Outcome>, draft: Option<Outcome>, next: PassReport)
    requires store.Valid()
    modifies store
    ensures store.Valid()
    ensures var first := ContentCheck(old(store.State()), store.baselineDiff, row.stableLink, web);
      var second := ContentCheck(first.0, store.baselineDiff, row.draftLink, web);
      stable == first.1 && draft == second.1 && store.State() == second.0
    ensures next == ContentReport(acc, row, stable, draft)
  {
    stable := CheckContent(store, row.stableLink, web);
    draft := CheckContent(store, row.draftLink, web);
    next := ContentReport(acc, row, stable, draft);
  }

  /**
   * The body of the row loop of `main`: the content checks of the row's
   * stable and draft pages, then the rewritten row, with the accumulated
   * report brought up to date: one RowStep. `f` stands for the per-row
   * update.
   */
  method ProcessRow(row: Row, hasCoreColumn: bool, store: SnapshotStore, web: Web, acc: PassReport, ghost f: Row -> Row)
    returns (after: Row, next: PassReport)
    requires store.Valid()
    requires Updates(f, web.pages, hasCoreColumn)
    modifies store
    ensures store.Valid()
    ensures after == f(row)
    ensures (store.State(), next) == RowStep(old(store.State()), store.baselineDiff, row, after, web, hasCoreColumn, acc)
  {
    ghost var s0 := store.State();
    var stable, draft;
    stable, draft, next := RecordContent(row, store, web, acc);
    ghost var content := RowContent(s0, store.baselineDiff, row, web, acc);
    assert (store.State(), next) == content;
    var diffs, coreChanged;
    after, diffs, coreChanged := UpdateRow(row, web.pages, hasCoreColumn);
    next := VersionRecorded(next, row, diffs, coreChanged);
    assert next == RowVersion(content.1, row, after, hasCoreColumn);
  }

  /**
   * One row of the loop, rewritten as `after`, as a function of the store
   * state and the report before it: the stable and then the draft page checked, the content
   * report and then the version report brought up to date. The CSV flag is
   * raised exactly by a changed row, the README diff entries grow by the
   * row's own, and the run flag is raised exactly by a changed row or a
   * content check that found a first snapshot or a change.
   */
  function RowStep(s: StoreState, bd: bool, row: Row, after: Row, web: Web, hasCoreColumn: bool, acc: PassReport)
    : (r: (StoreState, PassReport))
    ensures && (r.1.csvChangedAny <==> acc.csvChangedAny || RowChanged(row, after, hasCoreColumn))
      && r.1.diffsForReadme == acc.diffsForReadme + DiffReport(row, after)
      && (r.1.changedAny <==> acc.changedAny || RowChanged(row, after, hasCoreColumn)
                              || r.1.counts.baseline + r.1.counts.changed > acc.counts.baseline + acc.counts.changed)
      && CountsGrow(acc, r.1)
  {
    var content := RowContent(s, bd, row, web, acc);
    (content.0, RowVersion(content.1, row, after, hasCoreColumn))
  }

  /** The content part of RowStep: the stable page checked, then the draft page, and the content report. */
  function RowContent(s: StoreState, bd: bool, row: Row, web: Web, acc: PassReport): (r: (StoreState, PassReport))
    ensures ContentRecorded(acc, r.1)
  {
    var stable := ContentCheck(s, bd, row.stableLink, web);
    var draft := ContentCheck(stable.0, bd, row.draftLink, web);
    (draft.0, ContentReport(acc, row, stable.1, draft.1))
  }

  /** The version part of RowStep for the row rewritten as `after`. */
  function RowVersion(acc: PassReport, row: Row, after: Row, hasCoreColumn: bool): (next: PassReport)
    ensures next.counts == acc.counts && next.diffFiles == acc.diffFiles && next.contentChanges == acc.contentChanges
    ensures next.csvChangedAny <==> acc.csvChangedAny || RowChanged(row, after, hasCoreColumn)
    ensures next.changedAny <==> acc.changedAny || RowChanged(row, after, hasCoreColumn)
    ensures next.diffsForReadme == acc.diffsForReadme + DiffReport(row, after)
  {
    RowChangedIff(row, after, hasCoreColumn);
    VersionRecorded(acc, row, ChangedLines(row, after, Columns), CoreCellChanged(row, after, hasCoreColumn))
  }

  /** The report before the first row. */
  const EmptyReport: PassReport := PassReport(false, false, [], [], Counts(0, 0, 0), 0)

  /** What the loop carries from row to row: the store state and the report. */
  type Carried = (StoreState, PassReport)

  /** The carried state after `rows`, one `step` per row in order, from `init`. */
  function Fold(rows: seq<Row>, step: (Carried, Row) -> Carried, init: Carried): Carried
    decreases |rows|
  {
    if rows == [] then init
    else step(Fold(rows[..|rows| - 1], step, init), rows[|rows| - 1])
  }

  /** Folding over one more row is one more step. */
  lemma FoldStep(rows: seq<Row>, i: nat, step: (Carried, Row) -> Carried, init: Carried)
    requires i < |rows|
    ensures Fold(rows[..i + 1], step, init) == step(Fold(rows[..i], step, init), rows[i])
  {
    assert rows[..i + 1][..i] == rows[..i];
  }

  /** One RowStep of a pass with per-row update `f`, as a function value. */
  function Stepper(f: Row -> Row, bd: bool, web: Web, hasCoreColumn: bool): (Carried, Row) -> Carried {
    (before: Carried, row: Row) => RowStep(before.0, bd, row, f(row), web, hasCoreColumn, before.1)
  }

  /** The store state and the report after a pass over `rows` with per-row update `f`, one RowStep per row in order. */
  function PassState(rows: seq<Row>, f: Row -> Row, s: StoreState, bd: bool, web: Web, hasCoreColumn: bool): Carried {
    Fold(rows, Stepper(f, bd, web, hasCoreColumn), (s, EmptyReport))
  }

  /**
   * What the report of a pass says, given the change test `changed` and the
   * README diff entry `entry`: the CSV flag is raised exactly when some row
   * changed, the README diff entries are the rows' own in row order, the run
   * flag is raised exactly when the CSV flag is or some content check found a
   * first snapshot or a change, and each row adds at most two counted checks
   * and one content entry, with a diff file only for a counted check.
   */
  lemma {:induction false} PassStateReports(rows: seq<Row>, f: Row -> Row, s: StoreState, bd: bool, web: Web, hasCoreColumn: bool,
                                            changed: (Row, Row) -> bool, entry: (Row, Row) -> seq<RowReport>)
    requires Compares(changed, hasCoreColumn) && ListsDiffs(entry)
    ensures var report := PassState(rows, f, s, bd, web, hasCoreColumn).1;
      && (report.csvChangedAny <==> AnyChanged(rows, f, changed))
      && report.diffsForReadme == DiffReports(rows, f, entry)
      && Tallied(report, |rows|)
    decreases |rows|
  {
    if rows != [] {
      var init := rows[..|rows| - 1];
      var last := rows[|rows| - 1];
      PassStateReports(init, f, s, bd, web, hasCoreColumn, changed, entry);
      var acc := PassState(init, f, s, bd, web, hasCoreColumn).1;
      var next := PassState(rows, f, s, bd, web, hasCoreColumn).1;
      TalliedStep(acc, next, |init|, changed(last, f(last)));
    }
  }

  /**
   * The report after the version part of the loop body: a diff line or a
   * core-change annotation marks both the run and the CSV as changed, and
   * the row's diff lines become a README entry when there are any; the
   * content part's counts and entries stay.
   */
  function VersionRecorded(acc: PassReport, row: Row, diffs: seq<string>, coreChanged: bool): (next: PassReport)
    ensures next.counts == acc.counts && next.diffFiles == acc.diffFiles && next.contentChanges == acc.contentChanges
    ensures next.changedAny <==> acc.changedAny || diffs != [] || coreChanged
    ensures next.csvChangedAny <==> acc.csvChangedAny || diffs != [] || coreChanged
    ensures diffs == [] ==> next.diffsForReadme == acc.diffsForReadme
    ensures diffs != [] ==> next.diffsForReadme == acc.diffsForReadme + [RowReport(Strip(row.org), Strip(row.name), diffs)]
  {
    if diffs == [] && !coreChanged then acc
    else if diffs == [] then acc.(changedAny := true, csvChangedAny := true)
    else acc.(changedAny := true, csvChangedAny := true,
              diffsForReadme := acc.diffsForReadme + [RowReport(Strip(row.org), Strip(row.name), diffs)])
  }

  /**
   * The row loop of `main` over the rows of the CSV, which it rewrites in
   * place. `hasCoreColumn` says whether the CSV has the "핵심 변경 내용"
   * column; `f`, `changed` and `entry` stand for the per-row update, the
   * change test and the README diff entry. Every row ends up updated
   * (PassAt); the CSV counts as changed exactly when some row changed
   * (AnyChangedIff), and the README diff entries are those of the rows with
   * diff lines, in order. The run counts as changed exactly when the CSV does
   * or some content check found a first snapshot or a change.
   */
  method RunPass(rows: array<Row>, hasCoreColumn: bool, store: SnapshotStore, web: Web,
                 ghost f: Row -> Row, ghost changed: (Row, Row) -> bool, ghost entry: (Row, Row) -> seq<RowReport>)
    returns (report: PassReport)
    requires store.Valid()
    requires Updates(f, web.pages, hasCoreColumn) && Compares(changed, hasCoreColumn) && ListsDiffs(entry)
    modifies rows, store
    ensures store.Valid()
    ensures rows[..] == Pass(old(rows[..]), f)
    ensures (store.State(), report) == PassState(old(rows[..]), f, old(store.State()), store.baselineDiff, web, hasCoreColumn)
    ensures report.csvChangedAny <==> AnyChanged(old(rows[..]), f, changed)
    ensures report.diffsForReadme == DiffReports(old(rows[..]), f, entry)
    ensures report.changedAny <==> report.csvChangedAny || report.counts.baseline + report.counts.changed > 0
    ensures report.diffFiles <= report.counts.Total() <= 2 * rows.Length
    ensures |report.contentChanges| <= rows.Length
  {
    report := EmptyReport;
    ghost var before := rows[..];
    ghost var s0 := store.State();
    RowsUpdatedStart(before, f);

    for i := 0 to rows.Length
      invariant store.Valid()
      invariant RowsUpdated(before, rows[..], i, f)
      invariant (store.State(), report) == PassState(before[..i], f, s0, store.baselineDiff, web, hasCoreColumn)
    {
      ghost var current := rows[..];
      var after;
      after, report := ProcessRow(rows[i], hasCoreColumn, store, web, report, f);
      rows[i] := after;
      RowsUpdatedStep(before, current, i, after, f);
      FoldStep(before, i, Stepper(f, store.baselineDiff, web, hasCoreColumn), (s0, EmptyReport));
      assert rows[..] == current[i := after];
    }
    assert before[..rows.Length] == before;
    RowsUpdatedComplete(before, rows[..], f);
    PassStateReports(before, f, s0, store.baselineDiff, web, hasCoreColumn, changed, entry);
  }

  /** After `i` rows of `before`, those rows are updated and the rest untouched. */
  ghost predicate RowsUpdated(before: seq<Row>, current: seq<Row>, i: int, f: Row -> Row)
  {
    && 0 <= i <= |before| == |current|
    && current[..i] == Pass(before[..i], f)
    && current[i..] == before[i..]
  }

  /** After `i` rows, the run flag follows the CSV flag and the counts, which grow by at most two checks a row. */
  ghost predicate Tallied(report: PassReport, i: int)
  {
    && (report.changedAny <==> report.csvChangedAny || report.counts.baseline + report.counts.changed > 0)
    && report.diffFiles <= report.counts.baseline + report.counts.same + report.counts.changed <= 2 * i
    && |report.contentChanges| <= i
  }

  /** Before the first row, no row is updated yet. */
  lemma RowsUpdatedStart(before: seq<Row>, f: Row -> Row)
    ensures RowsUpdated(before, before, 0, f)
  {
  }

  /** Writing the updated row `i` back extends the updated prefix by one. */
  lemma RowsUpdatedStep(before: seq<Row>, current: seq<Row>, i: int, after: Row, f: Row -> Row)
    requires RowsUpdated(before, current, i, f) && i < |before|
    requires after == f(current[i])
    ensures current[i] == before[i]
    ensures RowsUpdated(before, current[i := after], i + 1, f)
  {
    assert current[i] == before[i] by {
      assert current[i..][0] == before[i..][0];
    }
    PassStep(before, i, f);
    var updated := current[i := after];
    assert updated[..i + 1] == current[..i] + [after];
    assert updated[i + 1..] == current[i..][1..];
  }

  /** The counts of one more row, whose own change is `rowChanged`, keep the tally's bounds. */
  lemma TalliedStep(acc: PassReport, next: PassReport, i: int, rowChanged: bool)
    requires Tallied(acc, i)
    requires next.csvChangedAny <==> acc.csvChangedAny || rowChanged
    requires next.changedAny <==>
               acc.changedAny || rowChanged || next.counts.baseline + next.counts.changed > acc.counts.baseline + acc.counts.changed
    requires CountsGrow(acc, next)
    ensures Tallied(next, i + 1)
  {
  }

  /** After the last row, every row is updated. */
  lemma RowsUpdatedComplete(before: seq<Row>, current: seq<Row>, f: Row -> Row)
    requires RowsUpdated(before, current, |before|, f)
    ensures current == Pass(before, f)
  {
    assert before[..|before|] == before;
    assert current[..|before|] == current;
  }

  /** The column that holds the core change. */
  const CoreColumn: string := "핵심 변경 내용"

  /** The columns a pass rewrites: the four version/link cells and the core change. */
  const UpdateColumns: set<string> := {"Stable Version", "Stable Version Link", "Draft Version", "Draft Version Link", CoreColumn}

  /** The rewritten columns the CSV header lacks. */
  function MissingColumns(fieldnames: seq<string>): (missing: set<string>)
    ensures missing <= UpdateColumns
    ensures forall c | c in UpdateColumns :: c in missing <==> c !in fieldnames
  {
    set c | c in UpdateColumns && c !in fieldnames
  }

  /** How `main` ends: refused for a header without the rewritten columns, otherwise after the pass. */
  datatype RunResult =
    | Refused(missing: set<string>)
    | Done(report: PassReport, writeCsv: bool, writeChangelog: bool)
  {
    /** The process exit status. */
    function ExitCode(): int {
      if Refused? then 2 else 0
    }
  }

  /**
   * `main` from the CSV header on: a header missing a rewritten column stops
   * the run with status 2 before anything is touched; otherwise the pass runs,
   * the CSV is written when a row changed, and the changelog gets a block when
   * anything changed and there is an entry to list: a version entry or a
   * content entry (`update_readme_changelog` returns early on neither). Since
   * the core-change column is among the required ones, a run that gets past
   * the check always annotates core changes.
   */
  method Run(fieldnames: seq<string>, rows: array<Row>, store: SnapshotStore, web: Web) returns (result: RunResult)
    requires store.Valid()
    modifies rows, store
    ensures store.Valid()
    ensures result.Refused? <==> MissingColumns(fieldnames) != {}
    ensures result.ExitCode() == (if MissingColumns(fieldnames) != {} then 2 else 0)
    ensures result.Refused? ==>
      result.missing == MissingColumns(fieldnames) && rows[..] == old(rows[..]) && store.State() == old(store.State())
    ensures result.Done? ==>
      var f := Updater(web.pages, true);
      && rows[..] == Pass(old(rows[..]), f)
      && (store.State(), result.report) == PassState(old(rows[..]), f, old(store.State()), store.baselineDiff, web, true)
      && (result.writeChangelog <==>
            && (result.writeCsv || result.report.counts.baseline + result.report.counts.changed > 0)
            && (result.report.diffsForReadme != [] || result.report.contentChanges != []))
      && (result.writeCsv <==> AnyChanged(old(rows[..]), f, ChangeTest(true)))
      && (result.writeCsv ==> result.writeChangelog)
      && result.report.diffsForReadme == DiffReports(old(rows[..]), f, DiffEntry())
  {
    ghost var before := rows[..];
    var missing := MissingColumns(fieldnames);
    if missing != {} {
      return Refused(missing);
    }
    var hasCoreColumn := CoreColumn in fieldnames;
    assert CoreColumn !in missing;
    UpdaterUpdates(web.pages, hasCoreColumn);
    LoopFunctions(hasCoreColumn);
    var report := RunPass(rows, hasCoreColumn, store, web, Updater(web.pages, hasCoreColumn),
                          ChangeTest(hasCoreColumn), DiffEntry());
    ChangedPassHasEntry(before, web.pages, hasCoreColumn);
    result := Done(report, report.changedAny && report.csvChangedAny,
                   report.changedAny && (report.diffsForReadme != [] || report.contentChanges != []));
  }

  // ---------------------------------------------------------------------
  // A second pass
  // ---------------------------------------------------------------------

  /**
   * Over unchanged pages, a second pass leaves a row as the first pass left
   * it, provided the row's recorded draft version was absent or identified.
   */
  lemma UpdatedRowIdempotent(row: Row, pages: Pages, hasCoreColumn: bool)
    requires DraftIdentified(row)
    ensures var once := UpdatedRow(row, pages, hasCoreColumn);
      UpdatedRow(once, pages, hasCoreColumn) == once
  {
    var upd := Proposal(row.org, row.name, row.stableLink, row.draftLink, pages);
    var f := ValidateAndFinalize(row, upd);
    FinalizeNormalises(row, upd);
    var written := WithFields(row, f);
    var once := UpdatedRow(row, pages, hasCoreColumn);
    assert once == written || once == written.(coreChange := once.coreChange);
    // The second proposal is the first one: the links it sees are the normalised ones.
    RoutedLinksUnchanged(row, pages);
    ProposalOfNormalLinks(row.org, row.name, row.stableLink, row.draftLink, pages);
    assert Proposal(once.org, once.name, once.stableLink, once.draftLink, pages) == upd;
    // The finaliser gives the same fields again.
    FinalizeTwice(row, upd);
    FinalizeReadsFields(written, once, upd);
    assert ValidateAndFinalize(once, upd) == f;
  }

  /** The finaliser reads only the four version/link cells. */
  lemma FinalizeReadsFields(a: Row, b: Row, upd: RowUpdate)
    requires a.stableVersion == b.stableVersion && a.stableLink == b.stableLink
    requires a.draftVersion == b.draftVersion && a.draftLink == b.draftLink
    ensures ValidateAndFinalize(a, upd) == ValidateAndFinalize(b, upd)
  {
  }

  /** Normalising the links first does not change the proposal. */
  lemma ProposalOfNormalLinks(org: string, specName: string, stableLink: string, draftLink: string, pages: Pages)
    ensures Proposal(org, specName, NormNa(stableLink), NormNa(draftLink), pages)
         == Proposal(org, specName, stableLink, draftLink, pages)
  {
    ProposalOfNormalForms(org, specName, stableLink, draftLink, pages);
    ProposalOfNormalForms(org, specName, NormNa(stableLink), NormNa(draftLink), pages);
    NormNaIdempotent(stableLink);
    NormNaIdempotent(draftLink);
  }

  /**
   * A pass whose update leaves every updated row as it is, with a change test
   * and a diff entry that find nothing in a row compared with itself: a second
   * pass changes nothing, reports no diff lines and does not mark the CSV
   * changed.
   */
  lemma {:induction false} PassTwice(rows: seq<Row>, f: Row -> Row, changed: (Row, Row) -> bool,
                                     entry: (Row, Row) -> seq<RowReport>)
    requires forall j | 0 <= j < |rows| :: f(f(rows[j])) == f(rows[j])
    requires forall row :: !changed(row, row) && entry(row, row) == []
    ensures Pass(Pass(rows, f), f) == Pass(rows, f)
    ensures DiffReports(Pass(rows, f), f, entry) == []
    ensures !AnyChanged(Pass(rows, f), f, changed)
    decreases |rows|
  {
    if rows != [] {
      var init := rows[..|rows| - 1];
      var once := Pass(rows, f);
      var last := f(rows[|rows| - 1]);
      PassTwice(init, f, changed, entry);
      assert once[..|once| - 1] == Pass(init, f);
      assert f(last) == last;
    }
  }

  /**
   * From the second run on, over unchanged pages, nothing changes: whatever
   * the rows were, a third pass leaves the rows the second pass wrote as they
   * are, has no diff lines to report and does not make the CSV be written.
   */
  lemma PassesSettle(rows: seq<Row>, pages: Pages, hasCoreColumn: bool)
    ensures var f := Updater(pages, hasCoreColumn);
      var twice := Pass(Pass(rows, f), f);
      && Pass(twice, f) == twice
      && DiffReports(twice, f, DiffEntry()) == []
      && !AnyChanged(twice, f, ChangeTest(hasCoreColumn))
  {
    var f := Updater(pages, hasCoreColumn);
    var once := Pass(rows, f);
    PassAt(rows, f);
    assert forall j | 0 <= j < |once| :: DraftIdentified(once[j]);
    SecondPassChangesNothing(once, pages, hasCoreColumn);
  }

  /** A row compared with itself has not changed and has no diff entry. */
  lemma NothingChangesAgainstItself(row: Row, hasCoreColumn: bool)
    ensures !RowChanged(row, row, hasCoreColumn) && DiffReport(row, row) == []
  {
    NoDiffLinesIff(row, row, Columns);
  }

  /**
   * A second pass over the rows the first pass wrote, with the same pages,
   * leaves them as they are, has no diff lines to report and does not make
   * the CSV be written again.
   */
  lemma SecondPassChangesNothing(rows: seq<Row>, pages: Pages, hasCoreColumn: bool)
    requires forall j | 0 <= j < |rows| :: DraftIdentified(rows[j])
    ensures var f := Updater(pages, hasCoreColumn);
      && Pass(Pass(rows, f), f) == Pass(rows, f)
      && DiffReports(Pass(rows, f), f, DiffEntry()) == []
      && !AnyChanged(Pass(rows, f), f, ChangeTest(hasCoreColumn))
  {
    var f := Updater(pages, hasCoreColumn);
    forall j | 0 <= j < |rows|
      ensures f(f(rows[j])) == f(rows[j])
    {
      UpdatedRowIdempotent(rows[j], pages, hasCoreColumn);
    }
    forall row
      ensures !ChangeTest(hasCoreColumn)(row, row) && DiffEntry()(row, row) == []
    {
      NothingChangesAgainstItself(row, hasCoreColumn);
    }
    PassTwice(rows, f, ChangeTest(hasCoreColumn), DiffEntry());
  }
}
