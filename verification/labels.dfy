/**
 * The label-assembly tails of the page parsers. Each parser reads a few
 * pieces out of a fetched page (a version number, a status, a date, a
 * reference) and glues them into the version label it proposes; the pieces
 * arrive here as inputs, each with the shape the regular expression that
 * found it guarantees, and the gluing is modelled exactly. Also the two
 * pieces that are pure string work on the page or the URL: the W3C status
 * lookup over the "Status of this document" window and the semantic version
 * in an EU URL.
 */
module Labels {
  import opened Text
  import opened Identifiers

  /** Python truthiness of an optional string: present and non-empty. */
  predicate Truthy(o: Option<string>) {
    o.Some? && o.value != ""
  }

  /**
   * What the version expressions of the parsers capture (`[0-9]+\.[0-9]+(\.[0-9]+)?`
   * and its variants): a version literal that starts and ends with a digit.
   */
  predicate IsVersionNumber(t: string) {
    |t| > 0 && IsDigit(t[0]) && IsDigit(t[|t| - 1]) && IsVersionLiteral(t)
  }

  // ---------------------------------------------------------------------
  // Identifier lemmas for labels that open with a token
  // ---------------------------------------------------------------------

  /** A label that opens with a literal, followed by nothing or by a non-word character, contains it as a token. */
  lemma LeadingToken(t: string, rest: string, isLiteral: string -> bool)
    requires isLiteral(t) && t != [] && IsWordChar(t[0]) && IsWordChar(t[|t| - 1])
    requires rest == [] || !IsWordChar(rest[0])
    ensures Occurs(t + rest, isLiteral)
  {
    OccursBetween([], t, rest, isLiteral);
    assert [] + t + rest == t + rest;
  }

  /** "v" followed by a version number, then a non-word character: the label has an identifier. */
  lemma VersionLeads(ver: string, rest: string)
    requires IsVersionNumber(ver)
    requires rest == [] || !IsWordChar(rest[0])
    ensures HasVersionToken("v" + ver + rest) && HasIdentifier("v" + ver + rest)
  {
    var t := "v" + ver;
    assert t[0] == 'v' && t[1..] == ver && t[|t| - 1] == ver[|ver| - 1];
    assert VersionBody(ver) == ver && VersionBody(t) == ver;
    LeadingToken(t, rest, IsVersionLiteral);
  }

  /** A bare version number, then a non-word character: the label has an identifier. */
  lemma BareVersionLeads(ver: string, rest: string)
    requires IsVersionNumber(ver)
    requires rest == [] || !IsWordChar(rest[0])
    ensures HasVersionToken(ver + rest) && HasIdentifier(ver + rest)
  {
    LeadingToken(ver, rest, IsVersionLiteral);
  }

  /** An ISO date, then a non-word character: the label has an identifier. */
  lemma DateLeads(d: string, rest: string)
    requires IsDateLiteral(d)
    requires rest == [] || !IsWordChar(rest[0])
    ensures HasDateToken(d + rest) && HasIdentifier(d + rest)
  {
    assert IsDigit(d[..4][0]) && IsDigit(d[8..][1]);
    LeadingToken(d, rest, IsDateLiteral);
  }

  /** An ISO date between two non-word characters is a date token. */
  lemma DateInside(p: string, d: string, q: string)
    requires IsDateLiteral(d)
    requires p == [] || !IsWordChar(p[|p| - 1])
    requires q == [] || !IsWordChar(q[0])
    ensures HasDateToken(p + d + q)
  {
    assert IsDigit(d[..4][0]) && IsDigit(d[8..][1]);
    OccursBetween(p, d, q, IsDateLiteral);
  }

  // ---------------------------------------------------------------------
  // W3C TR: the status lookup and the label
  // ---------------------------------------------------------------------

  /** The status table of the W3C TR parser, in the order the lookup tries it (scripts/update_standards.py:532-540). */
  const TrStatuses: seq<(string, string)> := [
    ("W3C Recommendation", "Recommendation"),
    ("W3C Proposed Recommendation", "Proposed Recommendation"),
    ("W3C Candidate Recommendation", "Candidate Recommendation"),
    ("W3C Candidate Recommendation Draft", "Candidate Recommendation Draft"),
    ("W3C Working Draft", "Working Draft"),
    ("W3C First Public Working Draft", "First Public Working Draft"),
    ("W3C Note", "Note")]

  /** Whether the key of entry k, lower-cased, occurs in the lower-cased window. */
  predicate KeyFound(table: seq<(string, string)>, windowLower: string, k: int)
    requires 0 <= k < |table|
  {
    Contains(windowLower, Lower(table[k].0))
  }

  /** The status of the first entry, from index i on, whose key occurs in the window. */
  function FirstStatus(table: seq<(string, string)>, windowLower: string, i: nat): (r: Option<string>)
    ensures r.None? <==> forall k | i <= k < |table| :: !KeyFound(table, windowLower, k)
    ensures r.Some? ==> exists k | i <= k < |table| ::
      && KeyFound(table, windowLower, k) && r.value == table[k].1
      && forall m | i <= m < k :: !KeyFound(table, windowLower, m)
    decreases |table| - i
  {
    if i >= |table| then None
    else if KeyFound(table, windowLower, i) then Some(table[i].1)
    else FirstStatus(table, windowLower, i + 1)
  }

  /** `\bexperimental\b` (as a whole lower-cased word) */
  predicate IsExperimentalWord(t: string) { t == "experimental" }

  /** `re.search(r"\bexperimental\b|DO NOT implement", window, re.IGNORECASE)` */
  predicate ExperimentalNotice(window: string) {
    Occurs(Lower(window), IsExperimentalWord) || Contains(Lower(window), "do not implement")
  }

  /**
   * The status the W3C TR parser reports for a page, given its status table:
   * the first table entry found in the window, except that a DID 1.1 page
   * that calls itself experimental is never reported as a Recommendation.
   */
  function TrStatusBy(table: seq<(string, string)>, url: string, window: string): (status: Option<string>)
    ensures status.Some? ==> exists k | 0 <= k < |table| :: status.value == table[k].1 && KeyFound(table, Lower(window), k)
    ensures status.None? && !(Contains(url, "did-1.1") && ExperimentalNotice(window)) ==>
      forall k | 0 <= k < |table| :: !KeyFound(table, Lower(window), k)
  {
    var s := FirstStatus(table, Lower(window), 0);
    if Contains(url, "did-1.1") && ExperimentalNotice(window) && s == Some("Recommendation") then None else s
  }

  /**
   * The status lookup with the table as written. It never reports "Candidate
   * Recommendation Draft": that key contains the key "W3C Candidate
   * Recommendation", which the lookup tries first, so every window that holds
   * the longer key is reported under the shorter one.
   */
  function TrStatusAsWritten(url: string, window: string): (status: Option<string>)
    ensures status != Some("Candidate Recommendation Draft")
  {
    FirstStatusNeverDraft(Lower(window));
    TrStatusBy(TrStatuses, url, window)
  }

  /** Lower-casing commutes with taking a prefix. */
  lemma LowerPrefix(s: string, n: nat)
    requires n <= |s|
    ensures Lower(s)[..n] == Lower(s[..n])
  {
  }

  /** The first-match lookup over the table as written never lands on the Candidate Recommendation Draft entry. */
  lemma FirstStatusNeverDraft(w: string)
    ensures FirstStatus(TrStatuses, w, 0) != Some("Candidate Recommendation Draft")
  {
    var s := FirstStatus(TrStatuses, w, 0);
    if s == Some("Candidate Recommendation Draft") {
      var k := FoundEntry(TrStatuses, w, 0);
      DraftEntryIsFourth(k);
      LongerKeyHoldsShorter(w);
    }
  }

  /** The entry a successful lookup stopped at: the first one, from index i on, whose key occurs in the window. */
  lemma {:induction false} FoundEntry(table: seq<(string, string)>, windowLower: string, i: nat) returns (k: int)
    requires FirstStatus(table, windowLower, i).Some?
    ensures i <= k < |table| && KeyFound(table, windowLower, k)
    ensures FirstStatus(table, windowLower, i).value == table[k].1
    ensures forall m | i <= m < k :: !KeyFound(table, windowLower, m)
    decreases |table| - i
  {
    if KeyFound(table, windowLower, i) {
      k := i;
    } else {
      k := FoundEntry(table, windowLower, i + 1);
    }
  }

  /** Only the fourth entry of the table reports "Candidate Recommendation Draft". */
  lemma DraftEntryIsFourth(k: int)
    requires 0 <= k < |TrStatuses| && TrStatuses[k].1 == "Candidate Recommendation Draft"
    ensures k == 3
  {
  }

  /** A window holding the Candidate Recommendation Draft key also holds the Candidate Recommendation key. */
  lemma LongerKeyHoldsShorter(w: string)
    ensures KeyFound(TrStatuses, w, 3) ==> KeyFound(TrStatuses, w, 2)
  {
    var longer, shorter := TrStatuses[3].0, TrStatuses[2].0;
    assert longer[..|shorter|] == shorter;
    LowerPrefix(longer, |shorter|);
    assert At(Lower(longer), Lower(shorter), 0);
    if KeyFound(TrStatuses, w, 3) {
      ContainsTransitive(w, Lower(longer), Lower(shorter));
    }
  }

  /** The status table with the longer Candidate Recommendation Draft key tried before its prefix. */
  const TrStatusesCorrected: seq<(string, string)> := [
    ("W3C Recommendation", "Recommendation"),
    ("W3C Proposed Recommendation", "Proposed Recommendation"),
    ("W3C Candidate Recommendation Draft", "Candidate Recommendation Draft"),
    ("W3C Candidate Recommendation", "Candidate Recommendation"),
    ("W3C Working Draft", "Working Draft"),
    ("W3C First Public Working Draft", "First Public Working Draft"),
    ("W3C Note", "Note")]

  /**
   * The status lookup the rest of the model uses. It differs from the lookup
   * as written exactly on the pages it reports as a Candidate Recommendation
   * Draft, which the lookup as written reports as a Candidate Recommendation.
   */
  function TrStatus(url: string, window: string): (status: Option<string>)
    ensures status == TrStatusAsWritten(url, window) <==> status != Some("Candidate Recommendation Draft")
    ensures status == Some("Candidate Recommendation Draft") ==> TrStatusAsWritten(url, window) == Some("Candidate Recommendation")
  {
    var w := Lower(window);
    CorrectedTableMovesDraftOnly(w);
    MovedLookup(TrStatuses, TrStatusesCorrected, url, window, KeyFound(TrStatuses, w, 3));
    TrStatusBy(TrStatusesCorrected, url, window)
  }

  /**
   * Two tables whose lookups differ only by reporting a Candidate
   * Recommendation as a Candidate Recommendation Draft give statuses that
   * differ only so, the DID 1.1 exception included.
   */
  lemma MovedLookup(t: seq<(string, string)>, c: seq<(string, string)>, url: string, window: string, moved: bool)
    requires FirstStatus(c, Lower(window), 0)
          == if FirstStatus(t, Lower(window), 0) == Some("Candidate Recommendation") && moved
             then Some("Candidate Recommendation Draft") else FirstStatus(t, Lower(window), 0)
    ensures TrStatusBy(c, url, window)
         == if TrStatusBy(t, url, window) == Some("Candidate Recommendation") && moved
            then Some("Candidate Recommendation Draft") else TrStatusBy(t, url, window)
  {
  }

  /**
   * The first-match lookup over the corrected table finds the Candidate
   * Recommendation Draft where the table as written finds a Candidate
   * Recommendation and the window holds the longer key; everywhere else the
   * two lookups agree.
   */
  lemma CorrectedTableMovesDraftOnly(w: string)
    ensures FirstStatus(TrStatusesCorrected, w, 0)
         == if FirstStatus(TrStatuses, w, 0) == Some("Candidate Recommendation") && KeyFound(TrStatuses, w, 3)
            then Some("Candidate Recommendation Draft") else FirstStatus(TrStatuses, w, 0)
  {
    var t, c := TrStatuses, TrStatusesCorrected;
    assert t[0] == c[0] && t[1] == c[1] && t[2] == c[3] && t[3] == c[2];
    assert KeyFound(t, w, 0) == KeyFound(c, w, 0) && KeyFound(t, w, 1) == KeyFound(c, w, 1);
    assert KeyFound(t, w, 2) == KeyFound(c, w, 3) && KeyFound(t, w, 3) == KeyFound(c, w, 2);
    LongerKeyHoldsShorter(w);
    if !KeyFound(t, w, 0) && !KeyFound(t, w, 1) {
      if KeyFound(t, w, 3) {
        assert FirstStatus(t, w, 0) == FirstStatus(t, w, 2) == Some("Candidate Recommendation");
        assert FirstStatus(c, w, 0) == FirstStatus(c, w, 2) == Some("Candidate Recommendation Draft");
      } else {
        SameTailStatus(w, 4);
        assert FirstStatus(t, w, 0) == FirstStatus(t, w, 2);
        assert FirstStatus(c, w, 0) == FirstStatus(c, w, 2);
        if KeyFound(t, w, 2) {
          assert FirstStatus(c, w, 2) == FirstStatus(c, w, 3) == Some("Candidate Recommendation");
        } else {
          assert FirstStatus(t, w, 2) == FirstStatus(t, w, 3) == FirstStatus(t, w, 4);
          assert FirstStatus(c, w, 2) == FirstStatus(c, w, 3) == FirstStatus(c, w, 4);
        }
      }
    }
  }

  /** From the fifth entry on, the two tables are the same, and so are their lookups. */
  lemma {:induction false} SameTailStatus(w: string, i: nat)
    requires 4 <= i
    ensures FirstStatus(TrStatusesCorrected, w, i) == FirstStatus(TrStatuses, w, i)
    decreases |TrStatuses| - i
  {
    if i < |TrStatuses| {
      assert TrStatusesCorrected[i] == TrStatuses[i];
      SameTailStatus(w, i + 1);
    }
  }

  /**
   * With the corrected table, a window that names a Candidate Recommendation
   * Draft, and neither a Recommendation nor a Proposed Recommendation, is
   * reported as a Candidate Recommendation Draft.
   */
  lemma CandidateRecommendationDraftReported(url: string, window: string)
    requires Contains(Lower(window), Lower("W3C Candidate Recommendation Draft"))
    requires !Contains(Lower(window), Lower("W3C Recommendation"))
    requires !Contains(Lower(window), Lower("W3C Proposed Recommendation"))
    ensures TrStatus(url, window) == Some("Candidate Recommendation Draft")
  {
    var w := Lower(window);
    assert !KeyFound(TrStatusesCorrected, w, 0);
    assert !KeyFound(TrStatusesCorrected, w, 1);
    assert KeyFound(TrStatusesCorrected, w, 2);
  }

  /** The W3C TR label (scripts/update_standards.py:567-571). */
  function TrLabel(ver: Option<string>, status: Option<string>): (lbl: Option<string>)
    ensures lbl.Some? <==> Truthy(ver)
  {
    if Truthy(ver) && Truthy(status) then Some("v" + ver.value + " (" + status.value + ")")
    else if Truthy(ver) then Some("v" + ver.value + " (W3C TR)")
    else None
  }

  /** A W3C TR label built from a version number carries an identifier. */
  lemma TrLabelIdentified(ver: Option<string>, status: Option<string>)
    requires ver.Some? && IsVersionNumber(ver.value)
    ensures TrLabel(ver, status).Some? && HasIdentifier(TrLabel(ver, status).value)
  {
    if Truthy(status) {
      VersionLeads(ver.value, " (" + status.value + ")");
      assert "v" + ver.value + " (" + status.value + ")" == "v" + ver.value + (" (" + status.value + ")");
    } else {
      VersionLeads(ver.value, " (W3C TR)");
    }
  }

  // ---------------------------------------------------------------------
  // W3C Editor's Draft
  // ---------------------------------------------------------------------

  /** The W3C Editor's Draft label (scripts/update_standards.py:640-646). */
  function EdLabel(ver: Option<string>, date: Option<string>): (lbl: Option<string>)
    ensures lbl.Some? <==> Truthy(ver) || Truthy(date)
  {
    if Truthy(ver) && Truthy(date) then Some("v" + ver.value + " (" + date.value + " Editor's Draft)")
    else if Truthy(date) then Some(date.value + " (Editor's Draft)")
    else if Truthy(ver) then Some("v" + ver.value + " (Editor's Draft)")
    else None
  }

  /** The Editor's Draft label with both a version number and a date carries both. */
  lemma VersionAndDateLabel(v: string, d: string)
    requires IsVersionNumber(v) && IsDateLiteral(d)
    ensures var lbl := "v" + v + " (" + d + " Editor's Draft)";
      HasIdentifier(lbl) && HasDateToken(lbl)
  {
    VersionLeadsEdLabel(v, d);
    DateInsideEdLabel(v, d);
  }

  lemma VersionLeadsEdLabel(v: string, d: string)
    requires IsVersionNumber(v)
    ensures HasIdentifier("v" + v + " (" + d + " Editor's Draft)")
  {
    var rest := " (" + d + " Editor's Draft)";
    assert rest[0] == ' ';
    VersionLeads(v, rest);
    assert "v" + v + " (" + d + " Editor's Draft)" == "v" + v + rest;
  }

  lemma DateInsideEdLabel(v: string, d: string)
    requires IsDateLiteral(d)
    ensures HasDateToken("v" + v + " (" + d + " Editor's Draft)")
  {
    DateInside("v" + v + " (", d, " Editor's Draft)");
    assert "v" + v + " (" + d + " Editor's Draft)" == ("v" + v + " (") + d + " Editor's Draft)";
  }

  /**
   * An Editor's Draft label built from a version number or an ISO date
   * carries an identifier, and one built with a date carries a date token.
   */
  lemma EdLabelIdentified(ver: Option<string>, date: Option<string>)
    requires ver.Some? ==> IsVersionNumber(ver.value)
    requires date.Some? ==> IsDateLiteral(date.value)
    requires ver.Some? || date.Some?
    ensures EdLabel(ver, date).Some? && HasIdentifier(EdLabel(ver, date).value)
    ensures date.Some? ==> HasDateToken(EdLabel(ver, date).value)
  {
    if ver.Some? && date.Some? {
      VersionAndDateLabel(ver.value, date.value);
    } else if date.Some? {
      DateLeads(date.value, " (Editor's Draft)");
    } else {
      VersionLeads(ver.value, " (Editor's Draft)");
    }
  }

  // ---------------------------------------------------------------------
  // OpenID Foundation specifications
  // ---------------------------------------------------------------------

  const Months: map<string, string> := map[
    "january" := "01", "february" := "02", "march" := "03", "april" := "04",
    "may" := "05", "june" := "06", "july" := "07", "august" := "08",
    "september" := "09", "october" := "10", "november" := "11", "december" := "12"]

  /**
   * `f"{int(dd):02d}"` for the one or two digits `[0-9]{1,2}` captures: the
   * same digits, zero-padded on the left to two.
   */
  function TwoDigits(dd: string): (r: string)
    ensures 1 <= |dd| <= 2 && AllDigits(dd) ==>
      && |r| == 2 && AllDigits(r)
      && r[2 - |dd|..] == dd
      && (|dd| == 1 ==> r[0] == '0')
  {
    if |dd| == 1 then "0" + dd else dd
  }

  /**
   * The ISO date of a "Published: 7 March 2024" line: year, month number and
   * zero-padded day, or None when the month name is not an English month.
   */
  function PublishedIso(day: string, month: string, year: string): (r: Option<string>)
    ensures r.Some? <==> Lower(month) in Months
  {
    var mon := Lower(month);
    if mon in Months then Some(year + "-" + Months[mon] + "-" + TwoDigits(day)) else None
  }

  /** The captured groups of a "Published:" line give an ISO date literal. */
  lemma PublishedIsoIsDate(day: string, month: string, year: string)
    requires 1 <= |day| <= 2 && AllDigits(day) && |year| == 4 && AllDigits(year)
    requires Lower(month) in Months
    ensures IsDateLiteral(PublishedIso(day, month, year).value)
  {
    var mm := Months[Lower(month)];
    MonthNumbers();
    DateOfParts(year, mm, TwoDigits(day));
  }

  /** Every month number is two digits. */
  lemma MonthNumbers()
    ensures forall name | name in Months :: |Months[name]| == 2 && AllDigits(Months[name])
  {
  }

  /** Four digits, two digits and two digits joined by hyphens make an ISO date literal. */
  lemma DateOfParts(y: string, m: string, d: string)
    requires |y| == 4 && AllDigits(y) && |m| == 2 && AllDigits(m) && |d| == 2 && AllDigits(d)
    ensures IsDateLiteral(y + "-" + m + "-" + d)
  {
    var r := y + "-" + m + "-" + d;
    assert r[..4] == y && r[5..7] == m && r[8..] == d;
  }

  /** The OIDF label (scripts/update_standards.py:706-712); the status is the trimmed "Status:" line. */
  function OidfLabel(ver: Option<string>, status: Option<string>, published: Option<string>): (lbl: Option<string>)
    ensures lbl.Some? <==> Truthy(ver)
  {
    var st := if status.Some? then Some(Strip(status.value)) else None;
    if !Truthy(ver) then None
    else if Truthy(st) && Truthy(published) then Some(ver.value + " (" + st.value + ", " + published.value + ")")
    else if Truthy(st) then Some(ver.value + " (" + st.value + ")")
    else if Truthy(published) then Some(ver.value + " (" + published.value + ")")
    else Some(ver.value)
  }

  /** An OIDF label opens with the version number, so it carries an identifier. */
  lemma OidfLabelIdentified(ver: Option<string>, status: Option<string>, published: Option<string>)
    requires ver.Some? && IsVersionNumber(ver.value)
    ensures OidfLabel(ver, status, published).Some? && HasIdentifier(OidfLabel(ver, status, published).value)
  {
    var v := ver.value;
    var lbl := OidfLabel(ver, status, published).value;
    if lbl == v {
      BareVersionLeads(v, []);
      assert v + [] == v;
    } else {
      var rest := lbl[|v|..];
      assert lbl == v + rest && rest[0] == ' ';
      BareVersionLeads(v, rest);
    }
  }

  // ---------------------------------------------------------------------
  // ISO published standard
  // ---------------------------------------------------------------------

  /** The ISO stable suffix: the "Publication date" value, else the "Published" value (scripts/update_standards.py:720-729). */
  function IsoStableSuffix(publication: Option<string>, published: Option<string>): (suffix: Option<string>)
    ensures suffix.Some? <==> Truthy(publication) || Truthy(published)
    ensures Truthy(publication) ==> suffix == Some("ISO Publication: " + publication.value)
  {
    if Truthy(publication) then Some("ISO Publication: " + publication.value)
    else if Truthy(published) then Some("ISO Publication: " + published.value)
    else None
  }

  // ---------------------------------------------------------------------
  // ISO draft
  // ---------------------------------------------------------------------

  /** `re.sub(r"\s+", " ", s)`: every run of whitespace becomes one space. */
  function CollapseSpaces(s: string): (r: string)
    ensures |r| <= |s|
    decreases |s|
  {
    if s == [] then []
    else if IsSpace(s[0]) then " " + CollapseSpaces(TrimStart(s))
    else [s[0]] + CollapseSpaces(s[1..])
  }

  predicate NoSpace(s: string) {
    forall k | 0 <= k < |s| :: !IsSpace(s[k])
  }

  predicate AllSpace(s: string) {
    forall k | 0 <= k < |s| :: IsSpace(s[k])
  }

  lemma {:induction false} CollapseKeeps(p: string, q: string)
    requires NoSpace(p)
    ensures CollapseSpaces(p + q) == p + CollapseSpaces(q)
    decreases |p|
  {
    if p == [] {
      assert p + q == q;
    } else {
      assert (p + q)[1..] == p[1..] + q;
      CollapseKeeps(p[1..], q);
      assert p == [p[0]] + p[1..];
    }
  }

  lemma {:induction false} TrimStartRun(g: string, q: string)
    requires AllSpace(g)
    requires q == [] || !IsSpace(q[0])
    ensures TrimStart(g + q) == q
    decreases |g|
  {
    if g == [] {
      assert g + q == q;
    } else {
      assert (g + q)[1..] == g[1..] + q;
      TrimStartRun(g[1..], q);
    }
  }

  lemma CollapseRun(g: string, q: string)
    requires g != [] && AllSpace(g)
    requires q == [] || !IsSpace(q[0])
    ensures CollapseSpaces(g + q) == " " + CollapseSpaces(q)
  {
    TrimStartRun(g, q);
  }

  /**
   * A match of `ISO/IEC\s+DIS\s+[0-9-]+`: the two whitespace gaps and the
   * document number are its parts.
   */
  datatype DisRef = DisRef(gap1: string, gap2: string, number: string) {
    function Text(): string { "ISO/IEC" + (gap1 + ("DIS" + (gap2 + number))) }

    predicate Valid() {
      && gap1 != [] && AllSpace(gap1)
      && gap2 != [] && AllSpace(gap2)
      && number != [] && forall k | 0 <= k < |number| :: IsDigit(number[k]) || number[k] == '-'
    }
  }

  /** The cleaned reference: `re.sub(r"\s+", " ", ref.strip())`. */
  function CleanRef(ref: DisRef): string {
    CollapseSpaces(Strip(ref.Text()))
  }

  /** A cleaned DIS reference reads "ISO/IEC DIS <number>". */
  lemma CleanRefShape(ref: DisRef)
    requires ref.Valid()
    ensures CleanRef(ref) == "ISO/IEC DIS " + ref.number
  {
    RefTextStripped(ref);
    CollapseRefText(ref);
  }

  /** The reference text has no surrounding whitespace. */
  lemma RefTextStripped(ref: DisRef)
    requires ref.Valid()
    ensures Strip(ref.Text()) == ref.Text()
  {
    var t := ref.Text();
    assert t[0] == 'I';
    assert t[|t| - 1] == ref.number[|ref.number| - 1];
    StripOfStripped(t);
  }

  /** Collapsing the reference text turns each gap into one space. */
  lemma CollapseRefText(ref: DisRef)
    requires ref.Valid()
    ensures CollapseSpaces(ref.Text()) == "ISO/IEC DIS " + ref.number
  {
    assert NoSpace(ref.number);
    CollapseTwoGaps("ISO/IEC", ref.gap1, "DIS", ref.gap2, ref.number);
    IsoDisPrefix(ref.number);
  }

  lemma IsoDisPrefix(n: string)
    ensures "ISO/IEC" + (" " + ("DIS" + (" " + n))) == "ISO/IEC DIS " + n
  {
  }

  /** Two words and a tail separated by two runs of spaces collapse to single spaces. */
  lemma CollapseTwoGaps(a: string, g1: string, b: string, g2: string, n: string)
    requires a != [] && NoSpace(a) && b != [] && NoSpace(b) && n != [] && NoSpace(n)
    requires g1 != [] && AllSpace(g1) && g2 != [] && AllSpace(g2)
    ensures CollapseSpaces(a + (g1 + (b + (g2 + n)))) == a + (" " + (b + (" " + n)))
  {
    CollapseKeeps(n, []);
    assert n + [] == n;
    CollapseWordGap(b, g2, n);
    var tail := b + (g2 + n);
    assert tail[0] == b[0];
    CollapseWordGap(a, g1, tail);
  }

  /** A word, a run of spaces and a tail that starts with a non-space: the run becomes one space. */
  lemma CollapseWordGap(w: string, g: string, q: string)
    requires NoSpace(w) && g != [] && AllSpace(g) && q != [] && !IsSpace(q[0])
    ensures CollapseSpaces(w + (g + q)) == w + (" " + CollapseSpaces(q))
  {
    CollapseRun(g, q);
    CollapseKeeps(w, g + q);
  }

  /** `spec_name.split(':')[0].strip()` */
  function NameStem(specName: string): string {
    Strip(Split(specName, ':')[0])
  }

  /**
   * A match of `\b(20|19)\d{2}-\d{2}-\d{2}\b`: its first group (the century)
   * and the rest of the date.
   */
  datatype DatedMatch = DatedMatch(century: string, rest: string) {
    function Date(): string { century + rest }

    predicate Valid() {
      (century == "20" || century == "19") && IsDateLiteral(century + rest)
    }
  }

  /**
   * The pieces the ISO draft parser reads from the page: the date after the
   * "40.20" life-cycle stage, any 19xx/20xx date, and the DIS reference.
   */
  datatype IsoDraftFacts = IsoDraftFacts(ballotDate: Option<string>, dated: Option<DatedMatch>, disRef: Option<DisRef>) {
    predicate Valid() {
      && (ballotDate.Some? ==> IsDateLiteral(ballotDate.value))
      && (dated.Some? ==> dated.value.Valid())
      && (disRef.Some? ==> disRef.value.Valid())
    }
  }

  /**
   * The ISO draft label as written (scripts/update_standards.py:745-769). The
   * second step interpolates `extract_first(...)`'s first group, which is the
   * century alone, not the date.
   */
  function IsoDraftLabelAsWritten(f: IsoDraftFacts, specName: string): string {
    IsoDraftLabelWith(f, specName, if f.dated.Some? then Some(f.dated.value.century) else None)
  }

  /** The ISO draft label the rest of the model uses: the second step interpolates the whole date. */
  function IsoDraftLabel(f: IsoDraftFacts, specName: string): string {
    IsoDraftLabelWith(f, specName, if f.dated.Some? then Some(f.dated.value.Date()) else None)
  }

  /** The four steps of the ISO draft parser, with the text the second step interpolates. */
  function IsoDraftLabelWith(f: IsoDraftFacts, specName: string, d2: Option<string>): (lbl: string)
    ensures lbl != ""
  {
    if Truthy(f.ballotDate) then
      if f.disRef.Some? then CleanRef(f.disRef.value) + " (DIS ballot initiated: " + f.ballotDate.value + ")"
      else "ISO/IEC DIS " + NameStem(specName) + " (DIS ballot initiated: " + f.ballotDate.value + ")"
    else if Truthy(d2) && f.disRef.Some? then CleanRef(f.disRef.value) + " (" + d2.value + " ISO Draft)"
    else if f.disRef.Some? then CleanRef(f.disRef.value) + " (ISO Draft)"
    else "ISO/IEC DIS " + NameStem(specName) + " (ISO Draft)"
  }

  /** Every label that opens with "ISO/IEC DIS " carries an identifier. */
  lemma IsoDisLeads(rest: string)
    ensures HasIsoDisToken("ISO/IEC DIS " + rest) && HasIdentifier("ISO/IEC DIS " + rest)
  {
    var t := "ISO/IEC DIS";
    IsoDisIsLiteral();
    var r := " " + rest;
    assert r[0] == ' ';
    LeadingToken(t, r, IsIsoDisLiteral);
    IsoDisSplit(rest);
  }

  lemma IsoDisIsLiteral()
    ensures IsIsoDisLiteral("ISO/IEC DIS")
  {
    var t := "ISO/IEC DIS";
    assert t[..7] == "ISO/IEC" && t[|t| - 3..] == "DIS" && IsSpace(t[7]);
  }

  lemma IsoDisSplit(rest: string)
    ensures "ISO/IEC DIS" + (" " + rest) == "ISO/IEC DIS " + rest
  {
  }

  /**
   * The ISO draft parser always proposes a label once the page is fetched,
   * and that label always names the DIS, so it always has an identifier:
   * a draft link that exists never leaves the draft version without one.
   */
  lemma IsoDraftLabelIdentified(f: IsoDraftFacts, specName: string, d2: Option<string>)
    requires f.disRef.Some? ==> f.disRef.value.Valid()
    ensures HasIsoDisToken(IsoDraftLabelWith(f, specName, d2))
    ensures HasIdentifier(IsoDraftLabelWith(f, specName, d2))
  {
    if f.disRef.Some? {
      CleanRefShape(f.disRef.value);
    }
    var lbl := IsoDraftLabelWith(f, specName, d2);
    assert lbl[..12] == "ISO/IEC DIS ";
    assert lbl == "ISO/IEC DIS " + lbl[12..];
    IsoDisLeads(lbl[12..]);
  }

  /** With the whole date interpolated, a label of the second step carries the date as a token. */
  lemma IsoDraftDatedLabel(f: IsoDraftFacts, specName: string)
    requires f.Valid() && !Truthy(f.ballotDate) && f.dated.Some? && f.disRef.Some?
    ensures HasDateToken(IsoDraftLabel(f, specName))
  {
    var d := f.dated.value.Date();
    DateInside(CleanRef(f.disRef.value) + " (", d, " ISO Draft)");
    assert CleanRef(f.disRef.value) + " (" + d + " ISO Draft)" == (CleanRef(f.disRef.value) + " (") + d + " ISO Draft)";
  }

  /** Without a "40.20" stage, a page with a date and a DIS reference gets the second step's label. */
  lemma IsoDraftSecondStep(f: IsoDraftFacts, specName: string, d2: Option<string>)
    requires !Truthy(f.ballotDate) && Truthy(d2) && f.disRef.Some?
    ensures IsoDraftLabelWith(f, specName, d2) == CleanRef(f.disRef.value) + " (" + d2.value + " ISO Draft)"
  {
  }

  /**
   * The discrepancy on a concrete page: without a "40.20" stage, with the date
   * 2025-03-01 and a reference to ISO/IEC DIS 18013-7, the label as written
   * reads "(20 ISO Draft)" where the date was meant.
   */
  lemma IsoDraftCenturyExample(ref: DisRef, specName: string)
    requires ref.Valid() && ref.number == "18013-7"
    ensures IsoDraftLabelAsWritten(IsoDraftFacts(None, Some(DatedMatch("20", "25-03-01")), Some(ref)), specName)
         == "ISO/IEC DIS 18013-7 (20 ISO Draft)"
  {
    var f := IsoDraftFacts(None, Some(DatedMatch("20", "25-03-01")), Some(ref));
    SecondStepLabel(f, specName, Some("20"));
    CenturyLabelText();
  }

  /** The same page with the whole date interpolated. */
  lemma IsoDraftDateExample(ref: DisRef, specName: string)
    requires ref.Valid() && ref.number == "18013-7"
    ensures IsoDraftLabel(IsoDraftFacts(None, Some(DatedMatch("20", "25-03-01")), Some(ref)), specName)
         == "ISO/IEC DIS 18013-7 (2025-03-01 ISO Draft)"
  {
    var f := IsoDraftFacts(None, Some(DatedMatch("20", "25-03-01")), Some(ref));
    assert IsoDraftLabelWith(f, specName, Some("2025-03-01")) == "ISO/IEC DIS 18013-7 (2025-03-01 ISO Draft)" by {
      SecondStepLabel(f, specName, Some("2025-03-01"));
      DateLabelText();
    }
    assert IsoDraftLabel(f, specName) == IsoDraftLabelWith(f, specName, Some("2025-03-01")) by {
      assert f.dated.value.Date() == "2025-03-01";
    }
  }

  /** The second step's label of the example page, with the century, as one literal. */
  lemma CenturyLabelText()
    ensures "ISO/IEC DIS " + "18013-7" + " (" + "20" + " ISO Draft)" == "ISO/IEC DIS 18013-7 (20 ISO Draft)"
  {
  }

  /** The second step's label of the example page, with the date, as one literal. */
  lemma DateLabelText()
    ensures "ISO/IEC DIS " + "18013-7" + " (" + "2025-03-01" + " ISO Draft)" == "ISO/IEC DIS 18013-7 (2025-03-01 ISO Draft)"
  {
  }

  /** The second step's label spelled out for a valid DIS reference. */
  lemma SecondStepLabel(f: IsoDraftFacts, specName: string, d2: Option<string>)
    requires !Truthy(f.ballotDate) && Truthy(d2) && f.disRef.Some? && f.disRef.value.Valid()
    ensures IsoDraftLabelWith(f, specName, d2) == "ISO/IEC DIS " + f.disRef.value.number + " (" + d2.value + " ISO Draft)"
  {
    CleanRefShape(f.disRef.value);
  }

  // ---------------------------------------------------------------------
  // Other labels
  // ---------------------------------------------------------------------

  /** The IETF Internet-Draft label (scripts/update_standards.py:670). */
  function IetfDraftLabel(draftId: string): string {
    draftId + " (Internet-Draft)"
  }

  /** A draft name with its revision number makes a label with an identifier. */
  lemma IetfDraftLabelIdentified(draftId: string)
    requires IsDraftRevisionLiteral(draftId)
    ensures HasDraftRevisionToken(IetfDraftLabel(draftId)) && HasIdentifier(IetfDraftLabel(draftId))
  {
    assert Lower(draftId[..6])[0] == 'd';
    assert IsWordChar(draftId[0]);
    var t := draftId;
    if RevisionTailAt(t, |t| - 2) {
      assert IsDigit(t[|t| - 2 + 1..][0]);
    } else {
      assert IsDigit(t[|t| - 3 + 1..][1]);
    }
    LeadingToken(draftId, " (Internet-Draft)", IsDraftRevisionLiteral);
  }

  /** The RFC label (scripts/update_standards.py:652, 661). */
  function RfcLabel(number: string): string {
    "RFC " + number
  }

  // ---------------------------------------------------------------------
  // EU: the semantic version in the URL
  // ---------------------------------------------------------------------

  /** The exact shape of `\d+\.\d+\.\d+`. */
  predicate IsSemver(t: string) {
    IsVersionNumber(t) && |Split(t, '.')| == 3
  }

  predicate IsDigitOrDot(c: char) { IsDigit(c) || c == '.' }

  /** The end of the run of digits and dots that starts at k. */
  function RunEnd(url: string, k: nat): (e: nat)
    requires k <= |url|
    ensures k <= e <= |url|
    ensures e < |url| ==> !IsDigitOrDot(url[e])
    ensures forall m | k <= m < e :: IsDigitOrDot(url[m])
    decreases |url| - k
  {
    if k == |url| || !IsDigitOrDot(url[k]) then k else RunEnd(url, k + 1)
  }

  /**
   * A match of `/(\d+\.\d+\.\d+)(/|$)` at position i: a slash, then a run
   * of digits and dots shaped as a semantic version, then a slash, the end,
   * or a final newline (`$`).
   */
  predicate SemverAt(url: string, i: nat)
    requires i < |url|
  {
    var e := RunEnd(url, i + 1);
    && url[i] == '/'
    && IsSemver(url[i + 1..e])
    && (e == |url| || url[e] == '/' || (e == |url| - 1 && url[e] == '\n'))
  }

  /** `parse_semver_from_url` from position i on: the leftmost match. */
  function SemverFrom(url: string, i: nat): (r: Option<string>)
    requires i <= |url|
    ensures r.Some? ==> IsSemver(r.value)
    decreases |url| - i
  {
    if i == |url| then None
    else if SemverAt(url, i) then Some(url[i + 1..RunEnd(url, i + 1)])
    else SemverFrom(url, i + 1)
  }

  /** A version the search reports is the version of a match with no match before it. */
  lemma {:induction false} SemverFromLeftmost(url: string, i: nat)
    requires i <= |url|
    ensures var r := SemverFrom(url, i);
      r.Some? ==> exists k | i <= k < |url| ::
        && SemverAt(url, k) && r.value == url[k + 1..RunEnd(url, k + 1)]
        && forall m | i <= m < k :: !SemverAt(url, m)
    decreases |url| - i
  {
    if i == |url| {
    } else if SemverAt(url, i) {
      assert SemverFrom(url, i).value == url[i + 1..RunEnd(url, i + 1)];
    } else {
      SemverFromLeftmost(url, i + 1);
      var r := SemverFrom(url, i);
      assert r == SemverFrom(url, i + 1);
      if r.Some? {
        var k :| i + 1 <= k < |url| && SemverAt(url, k) && r.value == url[k + 1..RunEnd(url, k + 1)]
          && forall m | i + 1 <= m < k :: !SemverAt(url, m);
        assert forall m | i <= m < k :: !SemverAt(url, m);
      }
    }
  }

  /** The search reports nothing exactly when the URL has no match. */
  lemma {:induction false} SemverFromNone(url: string, i: nat)
    requires i <= |url|
    ensures SemverFrom(url, i).None? <==> forall k | i <= k < |url| :: !SemverAt(url, k)
    decreases |url| - i
  {
    if i < |url| && !SemverAt(url, i) {
      SemverFromNone(url, i + 1);
    }
  }

  /** `parse_semver_from_url` (scripts/update_standards.py:673-674). */
  function SemverFromUrl(url: string): Option<string> {
    SemverFrom(url, 0)
  }

  /** The EU labels, stable and draft, both carry an identifier. */
  lemma EuLabelsIdentified(ver: string)
    requires IsSemver(ver)
    ensures HasIdentifier("v" + ver) && HasIdentifier("v" + ver + " (Draft)")
  {
    VersionLeads(ver, []);
    assert "v" + ver + [] == "v" + ver;
    VersionLeads(ver, " (Draft)");
  }

}
