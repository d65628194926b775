/**
 * Page-content snapshots: the key a URL is filed under, the normalised lines
 * a page is compared by, the file form a snapshot is kept in, and the store
 * whose check-and-record step classifies a fetch as baseline, unchanged or
 * changed.
 */
module Snapshots {
  import opened Text

  // ---------------------------------------------------------------------
  // url_to_safe_filename
  // ---------------------------------------------------------------------

  /** The longest file key: `clean_path[:200]`. */
  const MaxKeyLength: nat := 200

  /** `re.sub(r"[^a-zA-Z0-9]", "_", s)`: every character outside [a-zA-Z0-9] becomes '_'. */
  function Sanitize(s: string): (r: string)
    ensures |r| == |s|
    ensures forall k | 0 <= k < |s| :: r[k] == (if IsAsciiAlnum(s[k]) then s[k] else '_')
  {
    seq(|s|, k requires 0 <= k < |s| => if IsAsciiAlnum(s[k]) then s[k] else '_')
  }

  /** A character a key may hold. */
  predicate IsKeyChar(c: char) { IsAsciiAlnum(c) || c == '_' }

  /**
   * `url_to_safe_filename`: the sanitised host and path (`netloc + path`, as
   * the URL parser splits them), or the sanitised whole URL when both are
   * empty, cut to 200 characters.
   */
  function SafeFileName(hostPath: string, url: string): (key: string)
    ensures |key| <= MaxKeyLength
    ensures forall k | 0 <= k < |key| :: IsKeyChar(key[k])
    ensures var source := if hostPath != "" then hostPath else url;
      && |key| == (if |source| < MaxKeyLength then |source| else MaxKeyLength)
      && key == Sanitize(source)[..|key|]
  {
    var clean := Sanitize(hostPath);
    var clean' := if clean == "" then Sanitize(url) else clean;
    clean'[..if |clean'| < MaxKeyLength then |clean'| else MaxKeyLength]
  }

  /** Sanitising a key changes nothing, so a key filed again is the same key. */
  lemma SanitizeKeepsKeys(key: string)
    requires forall k | 0 <= k < |key| :: IsKeyChar(key[k])
    ensures Sanitize(key) == key
  {
  }

  /** A key is its own key: filing a key as a path gives it back. */
  lemma SafeFileNameIdempotent(hostPath: string, url: string)
    ensures var key := SafeFileName(hostPath, url);
      key != "" ==> SafeFileName(key, key) == key
  {
    var key := SafeFileName(hostPath, url);
    SanitizeKeepsKeys(key);
  }

  /**
   * Distinct URLs can share a key: two paths that differ only in which
   * punctuation separates the same letters are filed under one snapshot.
   */
  lemma KeysCollide(p: string, q: string)
    requires p == "x.org/a-b" && q == "x.org/a.b"
    ensures p != q && SafeFileName(p, p) == SafeFileName(q, q)
  {
    assert p[7] != q[7];
    assert Sanitize(p) == Sanitize(q);
  }

  // ---------------------------------------------------------------------
  // The lines a page is compared by
  // ---------------------------------------------------------------------

  /** The stripped, non-empty lines of a page's text, in order: `[line.strip() for line in text.splitlines() if line.strip()]`. */
  function KeptLines(lines: seq<string>): (kept: seq<string>)
    ensures |kept| <= |lines|
    ensures kept == [] <==> forall m | 0 <= m < |lines| :: Strip(lines[m]) == ""
    ensures forall n | 0 <= n < |kept| :: kept[n] != "" && exists m | 0 <= m < |lines| :: kept[n] == Strip(lines[m])
    decreases |lines|
  {
    if lines == [] then []
    else
      var init := KeptLines(lines[..|lines| - 1]);
      var s := Strip(lines[|lines| - 1]);
      if s == "" then init else init + [s]
  }

  /** The lines of a page's text as the snapshot compares them; they are normal. */
  function NormalizedLines(text: string): (lines: seq<string>)
    ensures NormalLines(lines)
  {
    KeptLinesNormal(SplitLines(text));
    KeptLines(SplitLines(text))
  }

  /** Lines as a snapshot holds them: non-empty, trimmed, and free of line breaks. */
  predicate NormalLines(lines: seq<string>) {
    forall n | 0 <= n < |lines| ::
      && lines[n] != ""
      && Strip(lines[n]) == lines[n]
      && forall m | 0 <= m < |lines[n]| :: !IsLineBreak(lines[n][m])
  }

  /** A line holds no line break, and neither does its trimmed form. */
  lemma StripKeepsNoBreak(s: string)
    requires forall m | 0 <= m < |s| :: !IsLineBreak(s[m])
    ensures forall m | 0 <= m < |Strip(s)| :: !IsLineBreak(Strip(s)[m])
  {
    var t := TrimStart(s);
    TrimStartDropsSpaces(s);
    TrimEndDropsSpaces(t);
    forall m | 0 <= m < |Strip(s)| ensures !IsLineBreak(Strip(s)[m]) {
      assert Strip(s)[m] == t[m] == s[|s| - |t| + m];
    }
  }

  /** Each kept line is one of the input lines, trimmed, and the kept lines are normal. */
  lemma {:induction false} KeptLinesNormal(lines: seq<string>)
    requires forall n, m | 0 <= n < |lines| && 0 <= m < |lines[n]| :: !IsLineBreak(lines[n][m])
    ensures NormalLines(KeptLines(lines))
    decreases |lines|
  {
    if lines != [] {
      var init := lines[..|lines| - 1];
      KeptLinesNormal(init);
      var last := lines[|lines| - 1];
      StripIdempotent(last);
      StripKeepsNoBreak(last);
    }
  }

  /** The normalisation loop of `fetch_page_lines_for_diff`. */
  method NormalizeLines(text: string) returns (lines: seq<string>)
    ensures lines == NormalizedLines(text)
    ensures NormalLines(lines)
  {
    var all := SplitLines(text);
    lines := [];
    for i := 0 to |all|
      invariant lines == KeptLines(all[..i])
    {
      var s := Strip(all[i]);
      assert all[..i + 1][..i] == all[..i];
      if s == "" {
        continue;
      }
      lines := lines + [s];
    }
    assert all[..|all|] == all;
  }

  // ---------------------------------------------------------------------
  // The snapshot file
  // ---------------------------------------------------------------------

  /** `save_snapshot_lines`: each line followed by "\n". */
  function FileText(lines: seq<string>): string
    decreases |lines|
  {
    if lines == [] then "" else lines[0] + "\n" + FileText(lines[1..])
  }

  /** Text-mode reading with universal newlines: "\r\n" and a lone "\r" read as "\n". */
  function Universal(s: string): (r: string)
    decreases |s|
  {
    if s == [] then []
    else if s[0] == '\r' then
      if |s| > 1 && s[1] == '\n' then "\n" + Universal(s[2..]) else "\n" + Universal(s[1..])
    else [s[0]] + Universal(s[1..])
  }

  /** The position of the first "\n" at or after i, or |s|. */
  function NewlineAt(s: string, i: nat): (k: nat)
    requires i <= |s|
    ensures i <= k <= |s|
    ensures k < |s| ==> s[k] == '\n'
    ensures forall m | i <= m < k :: s[m] != '\n'
    decreases |s| - i
  {
    if i == |s| || s[i] == '\n' then i else NewlineAt(s, i + 1)
  }

  /** `readlines()` with each line's trailing "\n" stripped. */
  function ReadLines(s: string): seq<string>
    decreases |s|
  {
    if s == [] then []
    else
      var k := NewlineAt(s, 0);
      if k == |s| then [s] else [s[..k]] + ReadLines(s[k + 1..])
  }

  /** `load_snapshot_lines` on an existing file. */
  function LoadLines(content: string): seq<string> {
    ReadLines(Universal(content))
  }

  /** Text with no carriage return reads unchanged in front of whatever follows. */
  lemma {:induction false} UniversalPlain(p: string, rest: string)
    requires '\r' !in p
    ensures Universal(p + rest) == p + Universal(rest)
    decreases |p|
  {
    if p != [] {
      var s := p + rest;
      assert s[0] == p[0] && p[0] != '\r';
      assert s[1..] == p[1..] + rest;
      assert '\r' !in p[1..];
      UniversalPlain(p[1..], rest);
      assert Universal(s) == [p[0]] + (p[1..] + Universal(rest));
      assert p == [p[0]] + p[1..];
    } else {
      assert p + rest == rest;
    }
  }

  /** A line without "\n", followed by "\n", is read back as that line. */
  lemma ReadOneLine(line: string, rest: string)
    requires '\n' !in line
    ensures ReadLines(line + "\n" + rest) == [line] + ReadLines(rest)
  {
    var s := line + "\n" + rest;
    assert forall m | 0 <= m < |line| :: s[m] == line[m];
    assert s[|line|] == '\n';
    assert NewlineAt(s, 0) == |line|;
    assert s[..|line|] == line && s[|line| + 1..] == rest;
  }

  /** Reading a saved snapshot gives back its lines, as long as no line holds "\n" or "\r". */
  lemma {:induction false} SaveLoadRoundTrip(lines: seq<string>)
    requires forall n, m | 0 <= n < |lines| && 0 <= m < |lines[n]| :: lines[n][m] != '\n' && lines[n][m] != '\r'
    ensures LoadLines(FileText(lines)) == lines
    decreases |lines|
  {
    if lines != [] {
      assert forall n, m | 0 <= n < |lines[1..]| && 0 <= m < |lines[1..][n]| :: lines[1..][n][m] == lines[n + 1][m];
      SaveLoadRoundTrip(lines[1..]);
      var l, rest := lines[0], FileText(lines[1..]);
      assert forall m | 0 <= m < |l + "\n"| :: (l + "\n")[m] != '\r';
      UniversalPlain(l + "\n", rest);
      assert l + "\n" + rest == (l + "\n") + rest;
      assert forall m | 0 <= m < |l| :: l[m] != '\n';
      ReadOneLine(l, Universal(rest));
    }
  }

  /** A snapshot the store holds survives being written and read back. */
  lemma NormalLinesRoundTrip(lines: seq<string>)
    requires NormalLines(lines)
    ensures LoadLines(FileText(lines)) == lines
  {
    SaveLoadRoundTrip(lines);
  }

  // ---------------------------------------------------------------------
  // The check-and-record decision
  // ---------------------------------------------------------------------

  datatype Status = Baseline | Unchanged | Changed

  /** The outcome of one check: its status and the diff file it wrote, if any. */
  datatype Outcome = Outcome(status: Status, diffRef: Option<string>)

  /** The name a diff file gets: the key, the timestamp and ".diff". */
  function DiffFileName(key: string, ts: string): string {
    key + "__" + ts + ".diff"
  }

  /**
   * `_write_diff_file`: the trimmed diff text, when non-empty, is written
   * with a final "\n" and its file named; an empty diff writes nothing.
   */
  function DiffWrite(key: string, ts: string, diffText: string): (w: Option<(string, string)>)
    ensures w.None? <==> Strip(diffText) == ""
    ensures w.Some? ==> w.value.0 == DiffFileName(key, ts) && w.value.1 == Strip(diffText) + "\n"
  {
    var d := Strip(diffText);
    if d != "" then Some((DiffFileName(key, ts), d + "\n")) else None
  }

  /** The status of a fetch against the stored lines. */
  function Classify(prev: seq<string>, cur: seq<string>): (st: Status)
    ensures st == Unchanged <==> prev == cur
    ensures st == Baseline <==> prev == [] && cur != []
  {
    if prev == cur then Unchanged else if prev == [] then Baseline else Changed
  }

  /** Whether the check writes a diff file: on a change, and on a baseline only when the baseline-diff option is set. */
  predicate WritesDiff(st: Status, baselineDiff: bool) {
    st == Changed || (st == Baseline && baselineDiff)
  }

  /** What the store holds: the snapshot of every key and the diff files written. */
  datatype StoreState = StoreState(snapshots: map<string, seq<string>>, diffFiles: map<string, string>)

  /**
   * One check-and-record step on a store state: None and no change when the
   * fetch failed; otherwise the status of the fetched lines against the stored
   * ones, the key then holding the fetched lines, and a diff file written on a
   * change (on a baseline only with `baselineDiff`) when the diff is not blank.
   */
  function CheckIn(s: StoreState, baselineDiff: bool, url: string, hostPath: string, body: Option<string>,
                   diff: (seq<string>, seq<string>) -> string, ts: string): (r: (StoreState, Option<Outcome>))
    ensures r.1.None? <==> body.None?
    ensures body.None? ==> r.0 == s
    ensures body.Some? ==>
      var key := SafeFileName(hostPath, url);
      var prev := StoredIn(s.snapshots, key);
      var cur := NormalizedLines(body.value);
      && r.1.value.status == Classify(prev, cur)
      && StoredIn(r.0.snapshots, key) == cur
      && (forall other | other != key :: StoredIn(r.0.snapshots, other) == StoredIn(s.snapshots, other))
      && (r.1.value.status == Unchanged ==> r.0 == s)
      && (r.1.value.diffRef.Some? <==> WritesDiff(r.1.value.status, baselineDiff) && Strip(diff(prev, cur)) != "")
      && (r.1.value.diffRef.Some? ==>
            r.0.diffFiles == s.diffFiles[r.1.value.diffRef.value := Strip(diff(prev, cur)) + "\n"])
      && (r.1.value.diffRef.None? ==> r.0.diffFiles == s.diffFiles)
  {
    match body
    case None => (s, None)
    case Some(text) =>
      var key := SafeFileName(hostPath, url);
      var prev := StoredIn(s.snapshots, key);
      var cur := NormalizedLines(text);
      var st := Classify(prev, cur);
      var w := if WritesDiff(st, baselineDiff) then DiffWrite(key, ts, diff(prev, cur)) else None;
      RecordedHoldsFetched(s.snapshots, key, cur);
      (StoreState(Recorded(s.snapshots, key, cur), if w.Some? then s.diffFiles[w.value.0 := w.value.1] else s.diffFiles),
       Some(Outcome(st, if w.Some? then Some(w.value.0) else None)))
  }

  /**
   * The per-URL snapshot store: `snapshots` maps a key to the lines stored for
   * it (a missing key reads as no lines), `diffFiles` maps a diff file name to
   * its contents, and `baselineDiff` is the SVT_BASELINE_DIFF option.
   */
  class SnapshotStore {
    var snapshots: map<string, seq<string>>
    var diffFiles: map<string, string>
    const baselineDiff: bool

    /** Every stored snapshot holds normal lines. */
    predicate Valid()
      reads this
    {
      forall key | key in snapshots :: NormalLines(snapshots[key])
    }

    constructor(baselineDiff: bool)
      ensures snapshots == map[] && diffFiles == map[] && this.baselineDiff == baselineDiff
      ensures Valid()
    {
      snapshots := map[];
      diffFiles := map[];
      this.baselineDiff := baselineDiff;
    }

    /** The state the store holds. */
    function State(): StoreState
      reads this
    {
      StoreState(snapshots, diffFiles)
    }

    /** `load_snapshot_lines`: the stored lines, or none when nothing is stored. */
    function Stored(key: string): seq<string>
      reads this
    {
      if key in snapshots then snapshots[key] else []
    }

    /**
     * `check_and_record_content_change` for the URL `url` whose host and path
     * are `hostPath`. `body` is the page text, None when the fetch raised;
     * `diff` is the unified diff of two line sequences; `ts` the timestamp.
     * A failed fetch changes nothing and yields None.
     */
    method CheckAndRecord(url: string, hostPath: string, body: Option<string>,
                          diff: (seq<string>, seq<string>) -> string, ts: string)
      returns (outcome: Option<Outcome>)
      requires Valid()
      modifies this
      ensures Valid()
      ensures body.None? ==> outcome.None? && snapshots == old(snapshots) && diffFiles == old(diffFiles)
      ensures body.Some? ==>
        var key := SafeFileName(hostPath, url);
        var prev := old(Stored(key));
        var cur := NormalizedLines(body.value);
        var st := Classify(prev, cur);
        var w := if WritesDiff(st, baselineDiff) then DiffWrite(key, ts, diff(prev, cur)) else None;
        && outcome == Some(Outcome(st, if w.Some? then Some(w.value.0) else None))
        && snapshots == (if st == Unchanged then old(snapshots) else old(snapshots)[key := cur])
        && diffFiles == (if w.Some? then old(diffFiles)[w.value.0 := w.value.1] else old(diffFiles))
      ensures (State(), outcome) == CheckIn(old(State()), baselineDiff, url, hostPath, body, diff, ts)
    {
      var key := SafeFileName(hostPath, url);
      var prev := Stored(key);
      if body.None? {
        return None;
      }
      var cur := NormalizeLines(body.value);

      if prev == cur {
        return Some(Outcome(Unchanged, None));
      }

      if prev == [] {
        snapshots := snapshots[key := cur];
        if baselineDiff {
          var diffRef := WriteDiffFile(key, ts, diff(prev, cur));
          return Some(Outcome(Baseline, diffRef));
        }
        return Some(Outcome(Baseline, None));
      }

      var diffRef := WriteDiffFile(key, ts, diff(prev, cur));
      snapshots := snapshots[key := cur];
      return Some(Outcome(Changed, diffRef));
    }

    /** `_write_diff_file`: records the diff file when the trimmed diff is non-empty and names it. */
    method WriteDiffFile(key: string, ts: string, diffText: string) returns (diffRef: Option<string>)
      modifies this
      ensures snapshots == old(snapshots)
      ensures var w := DiffWrite(key, ts, diffText);
        && diffRef == (if w.Some? then Some(w.value.0) else None)
        && diffFiles == (if w.Some? then old(diffFiles)[w.value.0 := w.value.1] else old(diffFiles))
    {
      var d := Strip(diffText);
      if d != "" {
        diffFiles := diffFiles[DiffFileName(key, ts) := d + "\n"];
        return Some(DiffFileName(key, ts));
      }
      return None;
    }
  }

  // ---------------------------------------------------------------------
  // The decision as a function of the stored state, and its properties
  // ---------------------------------------------------------------------

  /** The stored lines of a key in a snapshot map. */
  function StoredIn(snaps: map<string, seq<string>>, key: string): seq<string> {
    if key in snaps then snaps[key] else []
  }

  /** The snapshot map after a successful check of `cur` under `key`. */
  function Recorded(snaps: map<string, seq<string>>, key: string, cur: seq<string>): map<string, seq<string>> {
    if Classify(StoredIn(snaps, key), cur) == Unchanged then snaps else snaps[key := cur]
  }

  /**
   * After a successful check the key holds exactly the fetched lines, and no
   * other key changes.
   */
  lemma RecordedHoldsFetched(snaps: map<string, seq<string>>, key: string, cur: seq<string>)
    ensures StoredIn(Recorded(snaps, key, cur), key) == cur
    ensures forall other | other != key :: StoredIn(Recorded(snaps, key, cur), other) == StoredIn(snaps, other)
  {
  }

  /** Checking the same lines again reports "unchanged" and leaves the store as it is. */
  lemma CheckTwiceUnchanged(snaps: map<string, seq<string>>, key: string, cur: seq<string>)
    ensures var after := Recorded(snaps, key, cur);
      Classify(StoredIn(after, key), cur) == Unchanged && Recorded(after, key, cur) == after
  {
    RecordedHoldsFetched(snaps, key, cur);
  }

  /** A page with no lines against an empty store is "unchanged", not a baseline. */
  lemma EmptyPageUnchanged(snaps: map<string, seq<string>>, key: string)
    requires key !in snaps
    ensures Classify(StoredIn(snaps, key), []) == Unchanged && Recorded(snaps, key, []) == snaps
  {
  }

  /** A baseline is taken only once per key: after it, the same key never reports "baseline" for a non-empty page again. */
  lemma BaselineOnce(snaps: map<string, seq<string>>, key: string, cur: seq<string>, next: seq<string>)
    requires Classify(StoredIn(snaps, key), cur) == Baseline
    ensures Classify(StoredIn(Recorded(snaps, key, cur), key), next) != Baseline
  {
    RecordedHoldsFetched(snaps, key, cur);
  }
}
