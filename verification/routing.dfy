/**
 * `compute_update_for_row`: which parser reads which link, decided by the
 * organisation and a substring of the link, and the partial update that
 * results. The parsers' page readings are inputs (`Pages`); what they glue
 * together is the label assembly of module Labels. Every parser returns the
 * URL it was given as the link, so a proposal is a label alone and the link
 * recorded beside it is the normalised input link.
 */
module Routing {
  import opened Text
  import opened NotAvailable
  import opened Identifiers
  import opened Merge
  import opened Rows
  import opened Labels

  /** The W3C TR parser's reading: the version it found (URL, h1 or title) and the status window. */
  datatype TrFacts = TrFacts(version: Option<string>, window: string)

  /** The W3C Editor's Draft parser's reading: its version and its date (meta, time, body or Last-Modified). */
  datatype EdFacts = EdFacts(version: Option<string>, date: Option<string>)

  /** The groups of a `^Published:\s*([0-9]{1,2})\s+([A-Za-z]+)\s+([0-9]{4})\s*$` line. */
  datatype PublishedLine = PublishedLine(day: string, month: string, year: string)

  /** The OIDF parser's reading: its version, the "Status:" line and the "Published:" line. */
  datatype OidfFacts = OidfFacts(version: Option<string>, status: Option<string>, published: Option<PublishedLine>)

  /** The ISO stable parser's reading: the "Publication date" value and the "Published" value. */
  datatype IsoStableFacts = IsoStableFacts(publication: Option<string>, published: Option<string>)

  /**
   * What each parser reads from the page at a URL. None stands for a fetch
   * that raised or a parser that found nothing to report; the caller treats
   * both alike.
   */
  datatype Pages = Pages(
    w3cTr: string -> Option<TrFacts>,
    w3cEd: string -> Option<EdFacts>,
    rfcNumber: string -> Option<string>,
    ietfDraftId: string -> Option<string>,
    oidf: string -> Option<OidfFacts>,
    isoStable: string -> Option<IsoStableFacts>,
    isoDraft: string -> Option<IsoDraftFacts>,
    hlAnoncreds: string -> Option<string>)

  /** Every draft-side reading has the shape its regular expression guarantees. */
  ghost predicate DraftReadingsValid(pages: Pages) {
    && (forall url :: pages.w3cTr(url).Some? && pages.w3cTr(url).value.version.Some? ==>
          IsVersionNumber(pages.w3cTr(url).value.version.value))
    && (forall url :: pages.w3cEd(url).Some? && pages.w3cEd(url).value.version.Some? ==>
          IsVersionNumber(pages.w3cEd(url).value.version.value))
    && (forall url :: pages.w3cEd(url).Some? && pages.w3cEd(url).value.date.Some? ==>
          IsDateLiteral(pages.w3cEd(url).value.date.value))
    && (forall url :: pages.ietfDraftId(url).Some? ==> IsDraftRevisionLiteral(pages.ietfDraftId(url).value))
    && (forall url :: pages.isoDraft(url).Some? ==> pages.isoDraft(url).value.Valid())
  }

  // ---------------------------------------------------------------------
  // The parsers
  // ---------------------------------------------------------------------

  /** `parse_w3c_tr_stable` */
  function ParseW3cTr(pages: Pages, url: string): Option<string> {
    match pages.w3cTr(url)
    case None => None
    case Some(f) => TrLabel(f.version, TrStatus(url, f.window))
  }

  /** `parse_w3c_ed_draft` */
  function ParseW3cEd(pages: Pages, url: string): Option<string> {
    match pages.w3cEd(url)
    case None => None
    case Some(f) => EdLabel(f.version, f.date)
  }

  /** `parse_rfc_from_link_or_page` */
  function ParseRfc(pages: Pages, url: string): Option<string> {
    match pages.rfcNumber(url)
    case None => None
    case Some(n) => Some(RfcLabel(n))
  }

  /** `parse_ietf_draft_from_datatracker` */
  function ParseIetfDraft(pages: Pages, url: string): Option<string> {
    match pages.ietfDraftId(url)
    case None => None
    case Some(id) => Some(IetfDraftLabel(id))
  }

  /** `parse_oidf_spec_stable` */
  function ParseOidf(pages: Pages, url: string): Option<string> {
    match pages.oidf(url)
    case None => None
    case Some(f) =>
      var published := match f.published
        case None => None
        case Some(p) => PublishedIso(p.day, p.month, p.year);
      OidfLabel(f.version, f.status, published)
  }

  /** `parse_iso_stable`: the suffix that the router wraps with the specification name. */
  function ParseIsoStable(pages: Pages, url: string): Option<string> {
    match pages.isoStable(url)
    case None => None
    case Some(f) => IsoStableSuffix(f.publication, f.published)
  }

  /** `parse_iso_draft`: once the page is read, a label is always proposed. */
  function ParseIsoDraft(pages: Pages, url: string, specName: string): Option<string> {
    match pages.isoDraft(url)
    case None => None
    case Some(f) => Some(IsoDraftLabel(f, specName))
  }

  // ---------------------------------------------------------------------
  // The routing table, as a specification
  // ---------------------------------------------------------------------

  /** The parser that reads a stable link. */
  datatype StableSource = TrStable | RfcStable | EuStable | OidfStable | IsoStable | HlStable

  /** The parser that reads a draft link. */
  datatype DraftSource = EdDraft | TrDraft | IetfDraft | EuDraft | IsoDraft

  /** Which parser reads the (normalised, present) stable link of an organisation, if any. */
  function StableSourceFor(org: string, url: string): (src: Option<StableSource>)
    ensures src == Some(EuStable) <==> org == "EU"
    ensures src == Some(HlStable) <==> org == "HL"
    ensures src.None? ==> org !in {"IETF", "EU", "HL"}
  {
    if org == "W3C" && Contains(url, "w3.org/TR/") then Some(TrStable)
    else if org == "IETF" then Some(RfcStable)
    else if org == "OIDF" && Contains(url, "datatracker.ietf.org/doc/html/rfc") then Some(RfcStable)
    else if org == "EU" then Some(EuStable)
    else if org == "OIDF" && Contains(url, "openid.net/specs/") then Some(OidfStable)
    else if org == "ISO" && Contains(url, "iso.org/standard/") then Some(IsoStable)
    else if org == "HL" then Some(HlStable)
    else None
  }

  /** Which parser reads the (normalised, present) draft link of an organisation, if any. */
  function DraftSourceFor(org: string, url: string): (src: Option<DraftSource>)
    ensures src.Some? ==> org in {"W3C", "IETF", "EU", "ISO"}
    ensures org in {"IETF", "EU"} ==> src.Some?
  {
    if org == "W3C" then
      if Contains(url, "w3c.github.io") then Some(EdDraft)
      else if Contains(url, "w3.org/TR/") then Some(TrDraft)
      else None
    else if org == "IETF" then Some(IetfDraft)
    else if org == "EU" then Some(EuDraft)
    else if org == "ISO" && Contains(url, "iso.org/standard/") then Some(IsoDraft)
    else None
  }

  /** The label a stable source proposes for a link, before the truthiness test. */
  function StableReading(src: StableSource, specName: string, url: string, pages: Pages, hlDefined: bool): Option<string> {
    match src
    case TrStable => ParseW3cTr(pages, url)
    case RfcStable => ParseRfc(pages, url)
    case EuStable => var ver := SemverFromUrl(url); if Truthy(ver) then Some("v" + ver.value) else None
    case OidfStable => ParseOidf(pages, url)
    case IsoStable =>
      (match ParseIsoStable(pages, url)
       case Some(suffix) => if suffix != "" then Some(specName + " (" + suffix + ")") else None
       case None => None)
    case HlStable => if hlDefined then pages.hlAnoncreds(url) else None
  }

  /** The label a draft source proposes for a link, before the truthiness test. */
  function DraftReading(src: DraftSource, specName: string, url: string, pages: Pages): Option<string> {
    match src
    case EdDraft => ParseW3cEd(pages, url)
    case TrDraft => ParseW3cTr(pages, url)
    case IetfDraft => ParseIetfDraft(pages, url)
    case EuDraft => var ver := SemverFromUrl(url); if Truthy(ver) then Some("v" + ver.value + " (Draft)") else None
    case IsoDraft => ParseIsoDraft(pages, url, specName)
  }

  /** A reading counts only when it is a non-empty label (`if v and l`). */
  function KeepTruthy(o: Option<string>): (r: Option<string>)
    ensures r.Some? <==> Truthy(o)
    ensures r.Some? ==> r == o
  {
    if Truthy(o) then o else None
  }

  /**
   * The stable label proposed for a row, given whether the HL parser exists:
   * none when the link is absent or no parser applies or the parser fails.
   */
  function StableProposalWith(org: string, specName: string, stableLink: string, pages: Pages, hlDefined: bool): Option<string> {
    var url := NormNa(stableLink);
    if IsNa(url) then None
    else match StableSourceFor(Strip(org), url)
      case None => None
      case Some(src) => KeepTruthy(StableReading(src, Strip(specName), url, pages, hlDefined))
  }

  /**
   * As written: the HL branch calls `parse_hl_anoncreds_stable`, which the
   * program never defines; the NameError is caught with the other parser
   * failures, so an HL row never gets a stable proposal.
   */
  function StableProposalAsWritten(org: string, specName: string, stableLink: string, pages: Pages): (r: Option<string>)
    ensures Strip(org) == "HL" ==> r.None?
    ensures r.Some? ==> r.value != "" && !IsNa(stableLink)
  {
    StableProposalWith(org, specName, stableLink, pages, false)
  }

  /**
   * The stable proposal the rest of the model uses: the HL branch consults its
   * parser. A label is proposed only for a present link that some parser
   * reads, and is never empty.
   */
  function StableProposal(org: string, specName: string, stableLink: string, pages: Pages): (r: Option<string>)
    ensures r.Some? ==> r.value != "" && !IsNa(stableLink) && StableSourceFor(Strip(org), NormNa(stableLink)).Some?
  {
    StableProposalWith(org, specName, stableLink, pages, true)
  }

  /**
   * The draft label proposed for a row: only for a present link of a W3C,
   * IETF, EU or ISO row that some parser reads, and never empty.
   */
  function DraftProposal(org: string, specName: string, draftLink: string, pages: Pages): (r: Option<string>)
    ensures r.Some? ==> r.value != "" && !IsNa(draftLink) && Strip(org) in {"W3C", "IETF", "EU", "ISO"}
  {
    var url := NormNa(draftLink);
    if IsNa(url) then None
    else match DraftSourceFor(Strip(org), url)
      case None => None
      case Some(src) => KeepTruthy(DraftReading(src, Strip(specName), url, pages))
  }

  /**
   * The partial update for a row: each proposed label together with the
   * normalised link it came from. A label and its link are proposed together,
   * the link is the row's own (present) link, normalised, and the label is
   * non-empty.
   */
  function Proposal(org: string, specName: string, stableLink: string, draftLink: string, pages: Pages): (u: RowUpdate)
    ensures (u.stableLink.Some? <==> u.stableVersion.Some?) && (u.draftLink.Some? <==> u.draftVersion.Some?)
    ensures u.stableLink.Some? ==> u.stableLink.value == NormNa(stableLink) && !IsNa(stableLink)
    ensures u.draftLink.Some? ==> u.draftLink.value == NormNa(draftLink) && !IsNa(draftLink)
    ensures u.stableVersion.Some? ==> u.stableVersion.value != ""
    ensures u.draftVersion.Some? ==> u.draftVersion.value != ""
  {
    var s := StableProposal(org, specName, stableLink, pages);
    var d := DraftProposal(org, specName, draftLink, pages);
    RowUpdate(
      s, if s.Some? then Some(NormNa(stableLink)) else None,
      d, if d.Some? then Some(NormNa(draftLink)) else None)
  }

  // ---------------------------------------------------------------------
  // The router, as the program runs it
  // ---------------------------------------------------------------------

  /**
   * `compute_update_for_row`: starts from an empty update and fills the stable
   * pair and the draft pair when the chosen parser reports a label. The HL
   * branch consults the HL parser (see StableProposalAsWritten for the
   * program as written).
   */
  method ComputeUpdateForRow(org: string, specName: string, stableLink: string, draftLink: string, pages: Pages)
    returns (upd: RowUpdate)
    ensures upd == Proposal(org, specName, stableLink, draftLink, pages)
  {
    var o := Strip(org);
    var name := Strip(specName);
    var stableUrl := NormNa(stableLink);
    var draftUrl := NormNa(draftLink);
    upd := NoUpdate;

    if !IsNa(stableUrl) {
      var v := ReadStable(o, name, stableUrl, pages);
      if Truthy(v) {
        upd := upd.(stableVersion := v, stableLink := Some(stableUrl));
      }
    }

    if !IsNa(draftUrl) {
      var v := ReadDraft(o, name, draftUrl, pages);
      if Truthy(v) {
        upd := upd.(draftVersion := v, draftLink := Some(draftUrl));
      }
    }
  }

  /** The stable `if`/`elif` chain: the reading of the parser the organisation and link select. */
  method ReadStable(org: string, name: string, url: string, pages: Pages) returns (v: Option<string>)
    ensures StableSourceFor(org, url).None? ==> v.None?
    ensures StableSourceFor(org, url).Some? ==> v == StableReading(StableSourceFor(org, url).value, name, url, pages, true)
  {
    v := None;
    if org == "W3C" && Contains(url, "w3.org/TR/") {
      v := ParseW3cTr(pages, url);
    } else if org == "IETF" {
      v := ParseRfc(pages, url);
    } else if org == "OIDF" && Contains(url, "datatracker.ietf.org/doc/html/rfc") {
      v := ParseRfc(pages, url);
    } else if org == "EU" {
      var ver := SemverFromUrl(url);
      if Truthy(ver) {
        v := Some("v" + ver.value);
      }
    } else if org == "OIDF" && Contains(url, "openid.net/specs/") {
      v := ParseOidf(pages, url);
    } else if org == "ISO" && Contains(url, "iso.org/standard/") {
      var suffix := ParseIsoStable(pages, url);
      if Truthy(suffix) {
        v := Some(name + " (" + suffix.value + ")");
      }
    } else if org == "HL" {
      v := pages.hlAnoncreds(url);
    }
  }

  /** The draft `if`/`elif` chain: the reading of the parser the organisation and link select. */
  method ReadDraft(org: string, name: string, url: string, pages: Pages) returns (v: Option<string>)
    ensures DraftSourceFor(org, url).None? ==> v.None?
    ensures DraftSourceFor(org, url).Some? ==> v == DraftReading(DraftSourceFor(org, url).value, name, url, pages)
  {
    v := None;
    if org == "W3C" {
      if Contains(url, "w3c.github.io") {
        v := ParseW3cEd(pages, url);
      } else if Contains(url, "w3.org/TR/") {
        v := ParseW3cTr(pages, url);
      }
    } else if org == "IETF" {
      v := ParseIetfDraft(pages, url);
    } else if org == "EU" {
      var ver := SemverFromUrl(url);
      if Truthy(ver) {
        v := Some("v" + ver.value + " (Draft)");
      }
    } else if org == "ISO" && Contains(url, "iso.org/standard/") {
      v := ParseIsoDraft(pages, url, name);
    }
  }

  // ---------------------------------------------------------------------
  // Properties
  // ---------------------------------------------------------------------

  /**
   * The proposal depends on the links only through their normal form, and on
   * the organisation and name only through their trimmed form: a row
   * rewritten with normalised links gets the same proposal again.
   */
  lemma ProposalOfNormalForms(org: string, specName: string, stableLink: string, draftLink: string, pages: Pages)
    ensures Proposal(Strip(org), Strip(specName), NormNa(stableLink), NormNa(draftLink), pages)
         == Proposal(org, specName, stableLink, draftLink, pages)
  {
    StripIdempotent(org);
    StripIdempotent(specName);
    NormNaIdempotent(stableLink);
    NormNaIdempotent(draftLink);
  }

  /**
   * A pass never changes a link except by normalising it: whatever the
   * parsers report, the finalised links are the row's own links, normalised.
   */
  lemma RoutedLinksUnchanged(row: Row, pages: Pages)
    ensures var r := ValidateAndFinalize(row, Proposal(row.org, row.name, row.stableLink, row.draftLink, pages));
      r.stableLink == NormNa(row.stableLink) && r.draftLink == NormNa(row.draftLink)
  {
    var u := Proposal(row.org, row.name, row.stableLink, row.draftLink, pages);
    NormNaIdempotent(row.stableLink);
    NormNaIdempotent(row.draftLink);
    SeedProtection(NormNa(row.stableLink), CandidateOr(u.stableLink, NormNa(row.stableLink)));
    SeedProtection(NormNa(row.draftLink), CandidateOr(u.draftLink, NormNa(row.draftLink)));
  }

  /**
   * With well-formed readings, every draft label a parser proposes carries an
   * identifier, so the finaliser's identifier check never discards a fresh
   * draft proposal.
   */
  lemma DraftProposalIdentified(org: string, specName: string, draftLink: string, pages: Pages)
    requires DraftReadingsValid(pages)
    ensures var d := DraftProposal(org, specName, draftLink, pages);
      d.Some? ==> HasIdentifier(d.value)
  {
    var url := NormNa(draftLink);
    if !IsNa(url) && DraftSourceFor(Strip(org), url).Some? {
      var name := Strip(specName);
      match DraftSourceFor(Strip(org), url).value
      case EdDraft =>
        if pages.w3cEd(url).Some? {
          var f := pages.w3cEd(url).value;
          if f.version.Some? || f.date.Some? {
            EdLabelIdentified(f.version, f.date);
          }
        }
      case TrDraft =>
        if pages.w3cTr(url).Some? && pages.w3cTr(url).value.version.Some? {
          var f := pages.w3cTr(url).value;
          TrLabelIdentified(f.version, TrStatus(url, f.window));
        }
      case IetfDraft =>
        if pages.ietfDraftId(url).Some? {
          IetfDraftLabelIdentified(pages.ietfDraftId(url).value);
        }
      case EuDraft =>
        if SemverFromUrl(url).Some? {
          EuLabelsIdentified(SemverFromUrl(url).value);
        }
      case IsoDraft =>
        if pages.isoDraft(url).Some? {
          var f := pages.isoDraft(url).value;
          IsoDraftLabelIdentified(f, name, if f.dated.Some? then Some(f.dated.value.Date()) else None);
        }
    }
  }

  /**
   * An ISO row whose draft link points at iso.org/standard/ and whose page
   * could be read always gets a draft proposal: the ISO draft label of that page.
   */
  lemma IsoDraftAlwaysProposed(org: string, specName: string, draftLink: string, pages: Pages)
    requires Strip(org) == "ISO" && !IsNa(draftLink) && Contains(NormNa(draftLink), "iso.org/standard/")
    requires pages.isoDraft(NormNa(draftLink)).Some?
    ensures DraftProposal(org, specName, draftLink, pages)
         == Some(IsoDraftLabel(pages.isoDraft(NormNa(draftLink)).value, Strip(specName)))
  {
    var url := NormNa(draftLink);
    IsNaOfNormNa(draftLink);
    assert DraftSourceFor(Strip(org), url) == Some(IsoDraft);
    var lbl := IsoDraftLabel(pages.isoDraft(url).value, Strip(specName));
    assert DraftReading(IsoDraft, Strip(specName), url, pages) == Some(lbl);
  }

  /**
   * Anti-degradation on an Editor's Draft: when the page shows a version but
   * no date, the proposal is "v<version> (Editor's Draft)", and a recorded
   * draft version that carries an ISO date outscores it and is kept.
   */
  lemma EdDraftKeepsDatedLabel(row: Row, pages: Pages, ver: string)
    requires Strip(row.org) == "W3C"
    requires !IsNa(row.draftLink) && Contains(NormNa(row.draftLink), "w3c.github.io")
    requires pages.w3cEd(NormNa(row.draftLink)) == Some(EdFacts(Some(ver), None))
    requires IsVersionNumber(ver)
    requires !IsNa(row.draftVersion) && HasDateToken(NormNa(row.draftVersion))
    ensures var u := Proposal(row.org, row.name, row.stableLink, row.draftLink, pages);
      && u.draftVersion == Some("v" + ver + " (Editor's Draft)")
      && ValidateAndFinalize(row, u).draftVersion == NormNa(row.draftVersion)
  {
    var url := NormNa(row.draftLink);
    IsNaOfNormNa(row.draftLink);
    var b := "v" + ver + " (Editor's Draft)";
    assert DraftProposal(row.org, row.name, row.draftLink, pages) == Some(b);
    EdProposalScoresLow(ver);
    DateOrRevisionOutranks(row.draftVersion, b);
    assert NormNa(row.draftVersion) != "";
    FinalizeKeepsBetterDraft(row, Proposal(row.org, row.name, row.stableLink, row.draftLink, pages));
  }

  /** A version-only Editor's Draft label is in normal form and holds no date, draft revision or "ISO/IEC DIS". */
  lemma EdProposalScoresLow(ver: string)
    requires IsVersionNumber(ver)
    ensures var b := "v" + ver + " (Editor's Draft)";
      NormNa(b) == b && !HasDateToken(b) && !HasDraftRevisionToken(b) && !HasIsoDisToken(b)
  {
    var b := "v" + ver + " (Editor's Draft)";
    assert b[0] == 'v' && b[|b| - 1] == ')';
    NormNaKeeps(b);
    EdProposalMarks(ver);
    LiteralMarks();
    NotOccursWithout(b, IsDateLiteral, '-');
    NotOccursWithout(b, IsDraftRevisionLiteral, '-');
    NotOccursWithout(b, IsIsoDisLiteral, 'I');
  }

  /** A version-only Editor's Draft label holds neither a hyphen nor a capital I. */
  lemma EdProposalMarks(ver: string)
    requires IsVersionNumber(ver)
    ensures '-' !in "v" + ver + " (Editor's Draft)" && 'I' !in "v" + ver + " (Editor's Draft)"
  {
    VersionLiteralChars(ver);
    assert '-' !in ver && 'I' !in ver;
  }

  /**
   * An ISO draft version is never N/A while its link exists: once the
   * iso.org page of the draft link can be read, the finalised draft version
   * is present, whatever the recorded one was: an identified recorded version
   * is kept or replaced by the label, and an unidentified one is outscored by
   * the label's "ISO/IEC DIS".
   */
  lemma IsoDraftNeverNa(row: Row, pages: Pages)
    requires Strip(row.org) == "ISO" && !IsNa(row.draftLink) && Contains(NormNa(row.draftLink), "iso.org/standard/")
    requires pages.isoDraft(NormNa(row.draftLink)).Some? && pages.isoDraft(NormNa(row.draftLink)).value.Valid()
    ensures !IsNa(ValidateAndFinalize(row, Proposal(row.org, row.name, row.stableLink, row.draftLink, pages)).draftVersion)
  {
    var f := pages.isoDraft(NormNa(row.draftLink)).value;
    var lbl := IsoDraftLabel(f, Strip(row.name));
    var upd := Proposal(row.org, row.name, row.stableLink, row.draftLink, pages);
    IsoDraftAlwaysProposed(row.org, row.name, row.draftLink, pages);
    IsoDraftLabelNormal(f, Strip(row.name));
    if DraftIdentified(row) {
      FinalizeKeepsIdentifiedDraft(row, upd);
    } else {
      IsoDisOutranksUnidentified(lbl, row.draftVersion);
      FinalizeTakesOutscoringDraft(row, upd);
    }
  }

  /** An ISO draft label is in normal form, present, and names "ISO/IEC DIS", so it carries an identifier. */
  lemma IsoDraftLabelNormal(f: IsoDraftFacts, specName: string)
    requires f.Valid()
    ensures var lbl := IsoDraftLabel(f, specName);
      NormNa(lbl) == lbl && !IsNa(lbl) && HasIdentifier(lbl) && HasIsoDisToken(lbl)
  {
    var d2 := if f.dated.Some? then Some(f.dated.value.Date()) else None;
    var lbl := IsoDraftLabel(f, specName);
    IsoDraftLabelIdentified(f, specName, d2);
    if f.disRef.Some? {
      CleanRefShape(f.disRef.value);
    }
    assert lbl[0] == 'I' && lbl[|lbl| - 1] == ')';
    NormNaKeeps(lbl);
  }

  /**
   * The stable proposal of an HL row: nothing as written, the HL parser's
   * label once the parser exists; every other row is routed alike.
   */
  lemma HlStableProposal(org: string, specName: string, stableLink: string, pages: Pages)
    ensures Strip(org) == "HL" ==> StableProposalAsWritten(org, specName, stableLink, pages).None?
    ensures Strip(org) == "HL" && !IsNa(stableLink) ==>
      StableProposal(org, specName, stableLink, pages) == KeepTruthy(pages.hlAnoncreds(NormNa(stableLink)))
    ensures Strip(org) != "HL" ==>
      StableProposalAsWritten(org, specName, stableLink, pages) == StableProposal(org, specName, stableLink, pages)
  {
    var url := NormNa(stableLink);
    IsNaOfNormNa(stableLink);
    if !IsNa(url) {
      var src := StableSourceFor(Strip(org), url);
      if src.Some? {
        HlReadingOnly(src.value, Strip(specName), url, pages);
      }
    }
  }

  /** Whether the HL parser exists matters to the HL source alone, and without it that source reads nothing. */
  lemma HlReadingOnly(src: StableSource, specName: string, url: string, pages: Pages)
    ensures src == HlStable ==> StableReading(src, specName, url, pages, false).None?
    ensures src == HlStable ==> StableReading(src, specName, url, pages, true) == pages.hlAnoncreds(url)
    ensures src != HlStable ==> StableReading(src, specName, url, pages, false) == StableReading(src, specName, url, pages, true)
  {
  }
}
