# Standards version tracker: the reconciliation engine

This project models the core of `scripts/update_standards.py`, the script that
keeps a CSV of tracked standards (W3C, IETF, OIDF, EU, ISO, HL) current. On
each run it does the following:

- It visits each row of the CSV.
- It records a content snapshot of the row's stable page and its draft page.
  A snapshot counts as a baseline, unchanged or changed, and a change can
  produce a diff file.
- It routes each link to a parser chosen by the organisation and a substring
  of the link. The parser proposes a version label.
- It merges the proposals with the recorded cells under the no-degrade and
  seed-protection rules, and rewrites the four version and link cells.
- It annotates the core change, collects per-row diff lines and content
  entries, and decides whether the CSV is written and whether the README
  changelog gets a new block.

The model is written in Dafny and has these modules:

| Module | What it models |
|---|---|
| `Text` | Python's `str.strip`, `str.splitlines` and `str.split`, with the character classes they use |
| `NotAvailable` | the "N/A" normalisation |
| `Identifiers` | the identifier grammar, written as token predicates that stand in for the regular expressions |
| `Merge` | the specificity score and the two merge rules |
| `Rows` | the validator/finaliser, the core-change annotation and the per-column diff lines |
| `Labels` | the labels each parser assembles |
| `Routing` | the router |
| `Fetcher` | the redirect-following hop loop of `http_get` |
| `Snapshots` | the snapshot key, line normalisation, the snapshot file round trip, and the snapshot store (a class) |
| `Orchestrator` | the row loop of `main`, as a method over an array of rows |

The loops in the source are loops with invariants in the model. The hop
loop is a `while` loop. The line normalisation, the diff-line loop and the row
loop are `for` loops.

Each loop is proved equal to a recursive specification function. The lemmas
then state the properties about that function. For the row loop the
specification (`Orchestrator.PassState`) covers the rewritten rows, the
snapshot store and the whole run report: the counts, the diff files, the
content entries, the changelog entries and both flags.

## Model

| member | source | states |
|---|---|---|
| Text.Strip | scripts/update_standards.py:376 | the result neither starts nor ends with a character `str.isspace` accepts, and is no longer than the input |
| Text.TrimStartDropsSpaces | scripts/update_standards.py:376 | stripping the left side removes only whitespace: the result is a suffix of the input and every dropped character is whitespace |
| Text.TrimEndDropsSpaces | scripts/update_standards.py:376 | stripping the right side removes only whitespace: the result is a prefix of the input and every dropped character is whitespace |
| Text.StripIdempotent | scripts/update_standards.py:376 | stripping twice is stripping once |
| Text.StripOfStripped | scripts/update_standards.py:376 | a string without surrounding whitespace is its own strip |
| Text.SplitLines | scripts/update_standards.py:259 | no piece of `splitlines()` contains any of Python's line-break characters |
| Text.Split | scripts/update_standards.py:751 | `split(':')` yields at least one part and no part contains the separator |
| NotAvailable.NormNa | scripts/update_standards.py:373-381 | the result is the sentinel "N/A" or the stripped input, and then it is not empty, "nan", "none", "null" or "n/a" in any letter case; the sentinel maps to itself |
| NotAvailable.UpperNaIffLowerNa | scripts/update_standards.py:377-379 | `s.upper() == "N/A"` holds exactly when `s.lower() == "n/a"`, so the two tests form one case-insensitive set |
| NotAvailable.IsNa | scripts/update_standards.py:384-385 | `is_na` holds exactly when the stripped value is empty or one of the four absent words, ignoring case |
| NotAvailable.SentinelIsNa | scripts/update_standards.py:373-385 | "N/A" normalises to itself and counts as absent |
| NotAvailable.NormNaIdempotent | scripts/update_standards.py:373-381 | normalising twice is normalising once |
| NotAvailable.IsNaOfNormNa | scripts/update_standards.py:373-385 | normalising a value does not change whether it counts as absent |
| NotAvailable.NormNaKeeps | scripts/update_standards.py:376-381 | a trimmed non-empty value that does not start with "n"/"N" is kept verbatim and is present |
| Identifiers.NotOccursWithout | scripts/update_standards.py:388-400 | a token pattern all of whose matches contain a character cannot match a string without that character |
| Identifiers.LiteralMarks | scripts/update_standards.py:391-398 | every date token contains '-', every draft revision '-', every version '.', every ISO/IEC DIS token 'I' |
| Identifiers.HasIdentifier | scripts/update_standards.py:388-400 | an identified value contains a '.', a '-' or an 'I', the marks of its version, date, draft revision or ISO/IEC DIS token |
| Identifiers.UnmarkedHasNoToken | scripts/update_standards.py:388-400 | a value with no '.', '-' or 'I' matches none of the four identifier patterns |
| Merge.LengthBonus | scripts/update_standards.py:419 | the length bonus is at most 10 and reaches 10 at 200 characters |
| Merge.SpecificityScore | scripts/update_standards.py:403-420 | an absent value scores 0; no value scores above 155 |
| Merge.TokenPoints | scripts/update_standards.py:407-418 | the pattern points are at most 145; they reach 50 exactly when a date or a draft revision occurs; an ISO/IEC DIS token gives at least 30; a value without an identifier gets at most 5 |
| Merge.ScoreOfNormalised | scripts/update_standards.py:404 | a value and its normal form score the same |
| Merge.ScoreOfPresent | scripts/update_standards.py:405-420 | a present value scores its token points plus the length bonus of its normal form |
| Merge.DateOrRevisionOutranks | scripts/update_standards.py:408-419 | a label with a date or a draft revision outscores every label with neither and without an ISO/IEC DIS token |
| Merge.IsoDisOutranksUnidentified | scripts/update_standards.py:403-420 | a present value naming ISO/IEC DIS outscores every value without an identifier |
| Merge.ChooseValueNoDegrade | scripts/update_standards.py:423-430 | the result is one of the two normalised inputs and is itself in normal form |
| Merge.ChooseValueSpec | scripts/update_standards.py:423-430 | the candidate wins exactly when it is present and scores at least as high as the current value |
| Merge.NoDegrade | scripts/update_standards.py:423-430 | the chosen value scores the maximum of the two scores, so never lower than the current value |
| Merge.ChooseValueAbsent | scripts/update_standards.py:426-429 | an absent candidate keeps the current value; an absent current value takes a present candidate |
| Merge.ChooseValueStable | scripts/update_standards.py:423-430 | choosing again against the same candidate changes nothing |
| Merge.ChooseLinkSeedProtected | scripts/update_standards.py:433-438 | the result is one of the two normalised inputs and is in normal form |
| Merge.SeedProtection | scripts/update_standards.py:433-438 | a present candidate link wins, an absent one keeps the seed; the result is absent only when both are |
| Rows.ValidateAndFinalize | scripts/update_standards.py:867-904 | an absent stable link forces an absent stable version; an absent draft link forces an absent draft version; a present draft version carries an identifier and has a present link |
| Rows.FinalizeNormalises | scripts/update_standards.py:868-904 | all four finalised cells are in normal form |
| Rows.FinalizeKeepsKnownLinks | scripts/update_standards.py:878-879 | a link the row already has is never replaced by an absent one |
| Rows.NoneMeansRecorded | scripts/update_standards.py:873-876 | a field the update leaves unset acts as the recorded value |
| Rows.FinalizeWithoutUpdate | scripts/update_standards.py:867-904 | with no proposal the links stay and a stable version with a link stays |
| Rows.FinalizeNoDegrade | scripts/update_standards.py:881-897 | a stable version with a link, and a present draft version, never score below the recorded ones |
| Rows.FinalizeKeepsBetterDraft | scripts/update_standards.py:882-894 | an identified recorded draft version is kept against a lower-scoring candidate |
| Rows.FinalizeKeepsIdentifiedDraft | scripts/update_standards.py:882-897 | on a row with a draft link whose recorded draft version is absent or identified, a present identified candidate never leaves the draft version absent |
| Rows.FinalizeTakesOutscoringDraft | scripts/update_standards.py:882-894 | with a present draft link, a present identified candidate that scores at least the recorded draft version becomes the draft version |
| Rows.FinalizeTwice | scripts/update_standards.py:867-904 | finalising the finalised row against the same update changes nothing, provided the recorded draft version is absent or identified |
| Rows.FinalizeTwiceNeedsIdentifiedDraft | scripts/update_standards.py:890-894 | without that proviso a second finalisation can differ: an unidentified recorded draft that outscores an identified candidate is reset to N/A, and the second pass then takes the candidate |
| Rows.KoreanDateWordExample | scripts/update_standards.py:403-420 | "년" followed by 119 letters is present, has no identifier and scores 11 (a witness for the case above) |
| Rows.ShortVersionExample | scripts/update_standards.py:403-420 | "v1.0" is identified and scores 10 (the other witness) |
| Rows.ComputeCoreChange | scripts/update_standards.py:441-455 | no annotation exactly when the normalised stable and draft versions are both unchanged |
| Rows.CoreChangeIgnoresLinks | scripts/update_standards.py:441-445 | the annotation depends only on the two version cells of each row |
| Rows.CoreChangeText | scripts/update_standards.py:447-455 | the annotation names the stable change, the draft change, or both joined by "; ", with before and after values |
| Rows.ChangedLines | scripts/update_standards.py:1119-1124 | at most one diff line per compared column |
| Rows.FieldDiffLines | scripts/update_standards.py:1119-1124 | the loop yields, in column order, one line for each of the four columns whose trimmed value changed |
| Rows.NoDiffLinesIff | scripts/update_standards.py:1119-1124 | there are no diff lines exactly when no compared column's trimmed value changed |
| Rows.CoreChangeHasDiffLine | scripts/update_standards.py:1114-1124 | whenever a core change is annotated, at least one diff line is reported |
| Rows.StripEqualSameNorm | scripts/update_standards.py:1121-1122 | values equal after trimming normalise alike |
| Labels.FirstStatus | scripts/update_standards.py:544-549 | no status exactly when no key occurs in the window; otherwise the status of the first entry whose key occurs |
| Labels.TrStatusBy | scripts/update_standards.py:544-553 | a reported status comes from an entry whose key occurs in the window; no status means no key occurs unless the experimental DID 1.1 rule removed a Recommendation |
| Labels.TrStatusAsWritten | scripts/update_standards.py:532-553 | with the table in its written order, "Candidate Recommendation Draft" is never reported |
| Labels.TrStatus | scripts/update_standards.py:532-553 | the corrected lookup agrees with the written one on every window except where it reports "Candidate Recommendation Draft", and there the written one reports "Candidate Recommendation" |
| Labels.CorrectedTableMovesDraftOnly | scripts/update_standards.py:532-549 | trying the longer key first changes the first match only where the written order finds "Candidate Recommendation" and the longer key occurs as well |
| Labels.CandidateRecommendationDraftReported | scripts/update_standards.py:532-549 | with the longer key tried first, a window naming a Candidate Recommendation Draft, and neither a Recommendation nor a Proposed Recommendation, is reported as one |
| Labels.TrLabel | scripts/update_standards.py:567-571 | a TR label exists exactly when a version was found |
| Labels.TrLabelIdentified | scripts/update_standards.py:567-570 | a TR label built on a version carries an identifier |
| Labels.EdLabel | scripts/update_standards.py:640-646 | an Editor's Draft label exists exactly when a version or a date was found |
| Labels.VersionAndDateLabel | scripts/update_standards.py:641 | the version-and-date Editor's Draft label carries an identifier and a date token |
| Labels.EdLabelIdentified | scripts/update_standards.py:640-645 | every Editor's Draft label carries an identifier, and a date token whenever a date was found |
| Labels.TwoDigits | scripts/update_standards.py:704 | a one- or two-digit day is printed as exactly two digits |
| Labels.PublishedIso | scripts/update_standards.py:700-704 | a publication date is produced exactly when the month name is one of the twelve, ignoring case |
| Labels.PublishedIsoIsDate | scripts/update_standards.py:700-704 | the produced publication date is a yyyy-mm-dd token |
| Labels.DateOfParts | scripts/update_standards.py:704 | four, two and two digits joined by hyphens form an ISO date token |
| Labels.OidfLabel | scripts/update_standards.py:706-712 | an OIDF label exists exactly when a version was found |
| Labels.OidfLabelIdentified | scripts/update_standards.py:686-712 | an OIDF label carries an identifier |
| Labels.IsoStableSuffix | scripts/update_standards.py:720-729 | a suffix exists exactly when either publication pattern matched, and the "Publication date" value is preferred |
| Labels.CollapseSpaces | scripts/update_standards.py:749 | collapsing whitespace runs never lengthens the text |
| Labels.CleanRefShape | scripts/update_standards.py:747-749 | a DIS reference, cleaned, reads "ISO/IEC DIS " followed by its number |
| Labels.IsoDraftLabelWith | scripts/update_standards.py:745-769 | every step of the ISO draft parser yields a non-empty label |
| Labels.IsoDraftLabelIdentified | scripts/update_standards.py:745-769 | every ISO draft label carries an identifier |
| Labels.IsoDraftDatedLabel | scripts/update_standards.py:754-759 | a label from the dated second step carries a date token |
| Labels.IsoDraftSecondStep | scripts/update_standards.py:754-759 | the second step labels the cleaned reference with the interpolated date and "ISO Draft" |
| Labels.SecondStepLabel | scripts/update_standards.py:747-759 | with a valid DIS reference the second step reads "ISO/IEC DIS ", the number, and the interpolated text before "ISO Draft" in parentheses |
| Labels.IsoDraftCenturyExample | scripts/update_standards.py:754-759 | as written, a page dated 2025-03-01 is labelled "ISO/IEC DIS 18013-7 (20 ISO Draft)" |
| Labels.IsoDraftDateExample | scripts/update_standards.py:754-759 | corrected, the same page is labelled "ISO/IEC DIS 18013-7 (2025-03-01 ISO Draft)" |
| Labels.IetfDraftLabelIdentified | scripts/update_standards.py:667-670 | the Internet-Draft label carries a draft-revision token |
| Labels.SemverFrom | scripts/update_standards.py:673-674 | an extracted EU version has the x.y.z shape |
| Labels.SemverFromLeftmost | scripts/update_standards.py:673-674 | the extracted version is the one at the leftmost match of `/x.y.z` followed by `/` or the end |
| Labels.SemverFromNone | scripts/update_standards.py:673-674 | no version is extracted exactly when the URL has no such match |
| Labels.EuLabelsIdentified | scripts/update_standards.py:806 | the EU stable label, and the draft label built the same way at line 848, carry an identifier |
| Routing.StableSourceFor | scripts/update_standards.py:786-821 | EU links go to the semver reader exactly when the organisation is EU, and to the HL parser exactly when it is HL; IETF, EU and HL links always get a parser |
| Routing.DraftSourceFor | scripts/update_standards.py:828-854 | only W3C, IETF, EU and ISO drafts are parsed, and IETF and EU drafts always are |
| Routing.ComputeUpdateForRow | scripts/update_standards.py:776-860 | the imperative router produces exactly the proposal that `Routing.Proposal` defines; that definition follows the corrected parsers of the three findings below |
| Routing.ReadStable | scripts/update_standards.py:786-821 | the stable parser chosen by the organisation and the link is the one consulted, and none when no branch applies |
| Routing.ReadDraft | scripts/update_standards.py:828-854 | likewise for the draft parser |
| Routing.Proposal | scripts/update_standards.py:776-860 | a label and its link are proposed together; the link is the normalised input link, which was present; the label is non-empty |
| Routing.StableProposalAsWritten | scripts/update_standards.py:784-825 | as written, an HL row never gets a stable proposal; any proposal is non-empty and comes from a present link |
| Routing.StableProposal | scripts/update_standards.py:784-825 | a stable proposal is non-empty, comes from a present link, and exists only where a stable parser applies to the organisation and the link |
| Routing.DraftProposal | scripts/update_standards.py:827-854 | a draft proposal is non-empty, comes from a present link, and only W3C, IETF, EU and ISO rows get one |
| Routing.ProposalOfNormalForms | scripts/update_standards.py:777-781 | the proposal depends only on the trimmed organisation and name and the normalised links |
| Routing.RoutedLinksUnchanged | scripts/update_standards.py:776-904 | after routing and finalising, each link cell holds the normalised recorded link |
| Routing.DraftProposalIdentified | scripts/update_standards.py:827-854 | when the parsers read well-formed tokens, every proposed draft label carries an identifier |
| Routing.IsoDraftAlwaysProposed | scripts/update_standards.py:850-854 | an ISO draft link to iso.org/standard/ whose page was read always yields a draft proposal: the ISO draft label of that page |
| Routing.EdDraftKeepsDatedLabel | scripts/update_standards.py:831-834 | an Editor's Draft proposal without a date does not replace a recorded dated draft label once the finaliser (line 882) merges it |
| Routing.IsoDraftNeverNa | scripts/update_standards.py:850-854 | an ISO draft with a readable page is never left N/A after finalising (lines 882-894), whatever the recorded draft version: an unidentified one is outscored by the label's ISO/IEC DIS token |
| Routing.IsoDraftLabelNormal | scripts/update_standards.py:745-769 | an ISO draft label is its own normal form, present and identified |
| Routing.HlStableProposal | scripts/update_standards.py:818-825 | as written, an HL row never gets a stable proposal; corrected, it gets the HL parser's reading; other organisations are unaffected |
| Fetcher.NextTarget | scripts/update_standards.py:226-227 | a followed target is non-empty and differs from where the response ended |
| Fetcher.RequestsFrom | scripts/update_standards.py:212-231 | the loop makes one to three requests, the first to the given URL |
| Fetcher.HttpGet | scripts/update_standards.py:208-231 | the hop loop returns the result and the request list of the recursive definition: at most three requests, the first to the URL |
| Fetcher.RequestsFollowRedirects | scripts/update_standards.py:226-230 | each request after the first goes to the page-level redirect target of the response before it |
| Fetcher.ResultIsLastResponse | scripts/update_standards.py:212-233 | the result fails exactly when the last request fails; otherwise it carries that response's body and headers, and its final URL is where that response ended, unless a target found after the third hop is recorded instead |
| Snapshots.Sanitize | scripts/update_standards.py:172 | every character outside [a-zA-Z0-9] becomes '_', and the length is kept |
| Snapshots.SafeFileName | scripts/update_standards.py:170-175 | the key is the sanitised host and path, or the whole URL when both are empty, cut to 200 characters, and holds only [a-zA-Z0-9_] |
| Snapshots.SanitizeKeepsKeys | scripts/update_standards.py:172 | sanitising a key changes nothing |
| Snapshots.SafeFileNameIdempotent | scripts/update_standards.py:170-175 | a non-empty key is its own key |
| Snapshots.KeysCollide | scripts/update_standards.py:170-175 | two different URLs (x.org/a-b and x.org/a.b) share one snapshot key |
| Snapshots.KeptLines | scripts/update_standards.py:258-263 | never more lines than given; none exactly when every line strips to nothing; each kept line is non-empty and the strip of some given line |
| Snapshots.NormalizedLines | scripts/update_standards.py:258-263 | the compared lines are non-empty, trimmed and free of line breaks |
| Snapshots.NormalizeLines | scripts/update_standards.py:258-263 | the loop keeps exactly the stripped non-empty lines, in order |
| Snapshots.SaveLoadRoundTrip | scripts/update_standards.py:269-293 | lines without "\n" or "\r" read back from their saved file unchanged |
| Snapshots.NormalLinesRoundTrip | scripts/update_standards.py:258-293 | normalised page lines survive a save and a load unchanged |
| Snapshots.DiffWrite | scripts/update_standards.py:314-329 | a diff file is written exactly when the trimmed diff is non-empty, named by key and timestamp, holding the trimmed diff and a final newline |
| Snapshots.Classify | scripts/update_standards.py:348-366 | unchanged exactly when the stored and fetched lines are equal; baseline exactly when nothing was stored and the page has lines |
| Snapshots.CheckIn | scripts/update_standards.py:332-366 | a failed fetch changes nothing and reports nothing; otherwise the status is the classification, the key holds the fetched lines, every other key is untouched, an unchanged page changes nothing, and a diff file holding the trimmed diff and a newline is written exactly when a change (or a baseline with the option) has a non-empty trimmed diff |
| Snapshots.SnapshotStore.CheckAndRecord | scripts/update_standards.py:332-366 | the new snapshots, diff files and outcome are those `Snapshots.CheckIn` defines for the old store |
| Snapshots.SnapshotStore.WriteDiffFile | scripts/update_standards.py:314-329 | writes the file that DiffWrite names, and nothing else |
| Snapshots.RecordedHoldsFetched | scripts/update_standards.py:355-365 | after recording, the key holds the fetched lines and every other key is untouched |
| Snapshots.CheckTwiceUnchanged | scripts/update_standards.py:348-350 | checking the same page again reports unchanged and records nothing |
| Snapshots.EmptyPageUnchanged | scripts/update_standards.py:345-350 | an empty page with no snapshot is unchanged, not a baseline, and nothing is recorded |
| Snapshots.BaselineOnce | scripts/update_standards.py:352-359 | after a baseline is recorded, the next check of that key is never a baseline |
| Orchestrator.RowChangedIff | scripts/update_standards.py:1119-1134 | a row counts as changed exactly when it has a diff line or its core cell changed |
| Orchestrator.DiffReport | scripts/update_standards.py:1135-1136 | a row adds at most one changelog entry, and one exactly when it has diff lines |
| Orchestrator.Pass | scripts/update_standards.py:1038-1117 | a pass keeps the number of rows |
| Orchestrator.PassAt | scripts/update_standards.py:1038-1117 | each row after a pass is that row's own update |
| Orchestrator.UpdatedRow | scripts/update_standards.py:1106-1117 | organisation and name are kept, and the core cell when there is no such column; an absent link forces an absent version; a present link stays present; the draft version is absent or identified |
| Orchestrator.AnyChangedIff | scripts/update_standards.py:1132-1134 | the CSV is marked changed exactly when some row changed |
| Orchestrator.ContentNote | scripts/update_standards.py:1067-1070 | a content note is written exactly when a page was checked, was not unchanged, and got a diff file |
| Orchestrator.UpdateRow | scripts/update_standards.py:1106-1130 | the row's new cells, its diff lines and its core-changed flag are those the specification functions define |
| Orchestrator.CheckContent | scripts/update_standards.py:1052-1069 | the new store and the outcome are those `Orchestrator.ContentCheck` defines |
| Orchestrator.ContentCheck | scripts/update_standards.py:1052-1069 | an absent link checks nothing; the outcome is absent exactly when the link is absent or the page cannot be read, and then the store is unchanged; otherwise the page is classified against the stored lines, the fetched lines are stored and every other key is untouched |
| Orchestrator.Tally | scripts/update_standards.py:1057-1058 | each checked page adds one to the counts, and to the baseline and changed counts exactly when it was not unchanged |
| Orchestrator.RowNotes | scripts/update_standards.py:1050-1100 | a row has at most two content notes, and none exactly when neither page produced one |
| Orchestrator.ContentReport | scripts/update_standards.py:1050-1103 | the content side of a row sets the changed flag exactly when a page was a baseline or changed, and adds a content entry exactly when a note was written |
| Orchestrator.RecordContent | scripts/update_standards.py:1050-1103 | checks the stable page, then the draft page, each as `Orchestrator.ContentCheck` defines on the store the previous check left, and returns both outcomes with the report `Orchestrator.ContentReport` defines for them |
| Orchestrator.RowContent | scripts/update_standards.py:1050-1103 | the content half of a row leaves the CSV flag and the changelog entries alone, raises the overall flag exactly when a page was a baseline or changed, counts at most two checks, and adds at most one content entry |
| Orchestrator.ProcessRow | scripts/update_standards.py:1038-1136 | one loop iteration: the row becomes its update, and the store and the report become those `Orchestrator.RowStep` defines |
| Orchestrator.RowStep | scripts/update_standards.py:1038-1136 | one row: the CSV flag is raised by a changed row, the changelog entries grow by the row's entry, the overall flag is raised by a changed row or a baseline or changed page, and the counts grow by at most two checks |
| Orchestrator.RowVersion | scripts/update_standards.py:1119-1136 | the version half of a row keeps the counts, diff files and content entries, raises both flags exactly when the row changed, and appends the row's changelog entry |
| Orchestrator.VersionRecorded | scripts/update_standards.py:1132-1136 | a row with diff lines or a changed core cell sets both flags, and only one with diff lines adds a changelog entry |
| Orchestrator.RunPass | scripts/update_standards.py:1038-1136 | the row loop rewrites every row to its update and leaves the store and the report that `Orchestrator.PassState` defines; the CSV is marked changed exactly when some row changed; the changelog entries are those of the changed rows in order; the overall flag is set exactly when the CSV flag is or some page was a baseline or changed; diff files never outnumber checked pages, of which there are at most two per row |
| Orchestrator.PassStateReports | scripts/update_standards.py:1038-1136 | over a whole pass, the report of `Orchestrator.PassState` marks the CSV changed exactly when some row changed, lists the changed rows' entries in order, sets the overall flag exactly when the CSV flag is or some page was a baseline or changed, and counts at most two checks per row |
| Orchestrator.Run | scripts/update_standards.py:1022-1160 | a CSV lacking an updatable column is refused with exit status 2, with exactly the missing columns reported, and its rows and store are left untouched; otherwise the exit status is 0, rows, store and report are those of the pass, the CSV is written exactly when some row changed, and the changelog exactly when the CSV is or some page was a baseline or changed, and there is a version or content entry to list; a written CSV always has a version entry |
| Orchestrator.UpdatedRowChangeHasDiffLine | scripts/update_standards.py:1106-1130 | a row its update changes has diff lines, since the core cell is only rewritten with an annotation and an annotation needs a changed version |
| Orchestrator.ChangedPassHasEntry | scripts/update_standards.py:1132-1136 | a pass that marks the CSV changed lists at least one README diff entry |
| Orchestrator.UpdatedRowIdempotent | scripts/update_standards.py:1106-1117 | updating an updated row again against the same pages changes nothing, when its draft version is absent or identified |
| Orchestrator.FinalizeReadsFields | scripts/update_standards.py:868-871 | finalising reads only the four version and link cells of the row |
| Orchestrator.ProposalOfNormalLinks | scripts/update_standards.py:780-781 | the proposal is the same for a link and its normal form |
| Orchestrator.PassTwice | scripts/update_standards.py:1038-1136 | for an idempotent row update, a second pass leaves the rows as they are, reports no diffs and marks nothing changed |
| Orchestrator.NothingChangesAgainstItself | scripts/update_standards.py:1119-1130 | a row compared with itself has no diff lines and no core change |
| Orchestrator.SecondPassChangesNothing | scripts/update_standards.py:1038-1136 | against unchanged pages, when every recorded draft version is absent or identified, a second run's row loop rewrites nothing, reports no diffs and does not mark the CSV changed |
| Orchestrator.PassesSettle | scripts/update_standards.py:1038-1136 | against unchanged pages and for any rows, the third run's row loop rewrites nothing, reports no diffs and does not mark the CSV changed: the first run leaves every draft version absent or identified |

## Left out

- Page fetching and HTML parsing are left out. This covers BeautifulSoup, the title/h1/meta/time scanning, the status-of-this-document window and the Last-Modified fallback. What each parser reads from a page is an input (`Routing.Pages`). `Routing.DraftReadingsValid` states the shape its regular expression guarantees.
- The page-level redirect lookup `_extract_html_redirect_target` and the network are inputs of `Fetcher.HttpGet`. A request that raises, including on an HTTP error status, is `None`. The HTTP redirects that `requests` follows by itself are folded into one response.
- Regular expressions are modelled as token predicates with ASCII `\b`, `\w` and `\d`. `re.IGNORECASE`, `str.lower` and `str.upper` are modelled with ASCII case mapping. Unicode case mapping is not modelled.
- The version, date and RFC number extraction inside the parsers are part of the inputs. Only the label assembly around them is modelled.
- `urlparse` is an input: the host and path of a URL. The unified diff (`difflib`) and its text are also an input.
- The filesystem is modelled as two in-memory maps, one of snapshots and one of diff files. The temporary-file-and-replace writes and `ensure_dirs` are not modelled.
- A diff file is referred to by its file name. The `os.path.relpath` prefix is not modelled.
- The timestamp and the KST clock are an input, as is the baseline-diff environment option.
- Logging, the environment dump and the directory listing are left out. So are CSV reading and writing (`load_csv_rows`, `write_csv_rows`) and the README changelog rendering (`update_readme_changelog`). The model produces the rows, the flags and the entries those steps consume.
- `Orchestrator.Run`: `writeChangelog` means that `update_readme_changelog` is called with a non-empty entry list, which is when it builds a new block. Whether that block reaches the file depends on the README's contents, which are not modelled: the function also returns without writing when README.md is missing, has no "## 변경 내역" heading, or has no line break after it (lines 939-947 and 980-981).
- The exit code for a missing CSV file and the `__main__` wrapper are left out.
- A parser that raises is modelled like one that finds nothing. The router catches both alike.
- `v and l` in the router is modelled as a test of `v` alone. Every parser returns its input link as `l`, and that link is present at that point.
- `Orchestrator.MissingColumns`: returns a set. The source's list follows the iteration order of a Python set, which has no fixed order.
- `Orchestrator.SecondPassChangesNothing`: requires every recorded draft version to be absent or identified. An unidentified recorded draft that outscores the proposal is reset to N/A by the first run and replaced by the proposal in the second; `Rows.FinalizeTwiceNeedsIdentifiedDraft` gives such a row. `Orchestrator.PassesSettle` states the unconditional version from the third run on. Both cover the CSV side of a run only. The content side is stated per key by `Snapshots.CheckTwiceUnchanged`, which fails when two links share a key (`Snapshots.KeysCollide`).
- `Routing.Proposal`, `Routing.ComputeUpdateForRow`, `Orchestrator.UpdatedRow`, `Orchestrator.UpdateRow`, `Orchestrator.ProcessRow`, `Orchestrator.RunPass` and `Orchestrator.Run`: follow the corrected definitions of the three findings below. The HL stable parser is consulted, the status table tries the "Candidate Recommendation Draft" key first, and the ISO draft label interpolates the whole date. The program as written differs only in those three places, which `Routing.StableProposalAsWritten`, `Labels.TrStatusAsWritten` and `Labels.IsoDraftLabelAsWritten` model; the row loop is not restated over them.
- `Rows.FinalizeTwice` and `Orchestrator.UpdatedRowIdempotent`: require the recorded draft version to be absent or identified. `Rows.FinalizeTwiceNeedsIdentifiedDraft` shows that the first update of an unidentified seed draft is not idempotent.

## Findings

| source | as written | input that shows it | evidently intended | confidence | as-written member | corrected member |
|---|---|---|---|---|---|---|
| scripts/update_standards.py:818-821 | The HL branch calls `parse_hl_anoncreds_stable`, which the script never defines. The NameError is caught as a parser failure. | any row with organisation "HL" and a stable link | the HL stable page is parsed and its label proposed | high (not executed) | Routing.StableProposalAsWritten, Routing.HlStableProposal | Routing.StableProposal |
| scripts/update_standards.py:532-549 | The status table tries "W3C Candidate Recommendation" before its extension "W3C Candidate Recommendation Draft", and the first key found wins. | a status window containing "W3C Candidate Recommendation Draft" is reported as "Candidate Recommendation" | such a page is reported as "Candidate Recommendation Draft" | high (not executed) | Labels.TrStatusAsWritten | Labels.TrStatus, Labels.CandidateRecommendationDraftReported |
| scripts/update_standards.py:754-759 | The dated second step interpolates the first group of the date pattern at line 754, which captures only the century ("20" or "19"). | a page with "ISO/IEC DIS 18013-7" and "2025-03-01" and no 40.20 stage is labelled "ISO/IEC DIS 18013-7 (20 ISO Draft)" | the whole date is interpolated: "(2025-03-01 ISO Draft)" | high (not executed) | Labels.IsoDraftLabelAsWritten, Labels.IsoDraftCenturyExample | Labels.IsoDraftLabel, Labels.IsoDraftDateExample, Labels.IsoDraftDatedLabel |
