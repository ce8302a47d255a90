/**
 * The row scraper of the sensor platform: `regex.findall` with the pattern
 *
 *     <tr>\s*<td[^>]*>([^<]+)</td>\s*<td[^>]*>([^<]+)</td>\s*</tr>     (IGNORECASE)
 *
 * followed by the loop that cleans every (label, value) pair into a dictionary.
 *
 * `RowAt` states declaratively what a match is and `Matches` what `findall`
 * reports. The pattern offers the regex engine no real choice: every `\s*` is
 * followed by `<`, every `[^>]*` by `>` and every `[^<]+` by `<`, so each
 * repetition must run to the end of its longest run. The methods `ScanRow`,
 * `FindAll` and `ParseHtml` are that greedy left-to-right scanner and are proved
 * to compute exactly what the declarative definitions describe.
 */
module HtmlRows {
  import opened Wrappers
  import opened Text

  /** Under `re.IGNORECASE` a pattern letter matches itself and its ASCII
      upper-case form (the letters t, r and d have no other case variants). */
  predicate Letter(c: char, lower: char, upper: char) {
    c == lower || c == upper
  }

  /** `<tr>` at `i`, in any case. */
  predicate OpenRowAt(s: string, i: nat) {
    i + 4 <= |s| && s[i] == '<' && Letter(s[i + 1], 't', 'T') && Letter(s[i + 2], 'r', 'R') && s[i + 3] == '>'
  }

  /** `<td` at `i`, in any case. */
  predicate OpenCellAt(s: string, i: nat) {
    i + 3 <= |s| && s[i] == '<' && Letter(s[i + 1], 't', 'T') && Letter(s[i + 2], 'd', 'D')
  }

  /** `</td>` at `i`, in any case. */
  predicate CloseCellAt(s: string, i: nat) {
    && i + 5 <= |s| && s[i] == '<' && s[i + 1] == '/'
    && Letter(s[i + 2], 't', 'T') && Letter(s[i + 3], 'd', 'D') && s[i + 4] == '>'
  }

  /** `</tr>` at `i`, in any case. */
  predicate CloseRowAt(s: string, i: nat) {
    && i + 5 <= |s| && s[i] == '<' && s[i + 1] == '/'
    && Letter(s[i + 2], 't', 'T') && Letter(s[i + 3], 'r', 'R') && s[i + 4] == '>'
  }

  // ---------------------------------------------------------------------------
  // What a match is
  // ---------------------------------------------------------------------------

  /** `s[i..j]` is matched by `\s*`: `AllSpace(s[i..j])` (see `BlankAllSpace`),
      written over the indices of `s` because the scanner's loop invariants and
      `BlankForced` reason about positions in the page, not in a slice. */
  ghost predicate Blank(s: string, i: nat, j: nat) {
    i <= j <= |s| && forall m | i <= m < j :: IsSpace(s[m])
  }

  /** `Blank` is `AllSpace` on the slice. */
  lemma BlankAllSpace(s: string, i: nat, j: nat)
    requires i <= j <= |s|
    ensures Blank(s, i, j) <==> AllSpace(s[i..j])
  {
    if Blank(s, i, j) {
      forall k | 0 <= k < j - i ensures IsSpace(s[i..j][k]) {
        assert s[i..j][k] == s[i + k];
      }
    } else {
      var m :| i <= m < j && !IsSpace(s[m]);
      assert s[i..j][m - i] == s[m];
    }
  }

  /** `<td[^>]*>([^<]+)</td>` matches at `i`, the tag ending just before `b` and
      the captured text being `s[b..c]`. */
  ghost predicate CellAt(s: string, i: nat, b: nat, c: nat) {
    && i + 4 <= b < c <= |s|
    && OpenCellAt(s, i)
    && (forall m | i + 3 <= m < b - 1 :: s[m] != '>')
    && s[b - 1] == '>'
    && (forall m | b <= m < c :: s[m] != '<')
    && CloseCellAt(s, c)
  }

  /** Where the pieces of one row match lie: the two `<td` tags, the two captured
      texts and the closing `</tr>`. */
  datatype Layout = Layout(
    labelCell: nat, labelStart: nat, labelEnd: nat,
    valueCell: nat, valueStart: nat, valueEnd: nat,
    close: nat)

  /** The whole pattern matches at `p`, its pieces lying as `w` says. */
  ghost predicate RowAt(s: string, p: nat, w: Layout) {
    && OpenRowAt(s, p)
    && Blank(s, p + 4, w.labelCell)
    && CellAt(s, w.labelCell, w.labelStart, w.labelEnd)
    && Blank(s, w.labelEnd + 5, w.valueCell)
    && CellAt(s, w.valueCell, w.valueStart, w.valueEnd)
    && Blank(s, w.valueEnd + 5, w.close)
    && CloseRowAt(s, w.close)
  }

  /** The pattern matches at `p` in some way. */
  ghost predicate RowStartsAt(s: string, p: nat) {
    exists w :: RowAt(s, p, w)
  }

  /** One match as `findall` reports it: its two groups, plus where it lies. */
  datatype Row = Row(start: nat, key: string, value: string, end: nat)

  /** The positions `RowOf` reads lie inside `s`, and the row ends after `p`. */
  predicate Fits(s: string, p: nat, w: Layout) {
    && p < w.close + 5 <= |s|
    && w.labelStart <= w.labelEnd <= |s|
    && w.valueStart <= w.valueEnd <= |s|
  }

  function RowOf(s: string, p: nat, w: Layout): Row
    requires Fits(s, p, w)
  {
    Row(p, s[w.labelStart..w.labelEnd], s[w.valueStart..w.valueEnd], w.close + 5)
  }

  /** `r` is a match of the pattern in `s`, with the groups and extent it reports. */
  ghost predicate IsMatch(s: string, r: Row) {
    exists w :: RowAt(s, r.start, w) && Fits(s, r.start, w) && r == RowOf(s, r.start, w)
  }

  // ---------------------------------------------------------------------------
  // A match at a position is unique
  // ---------------------------------------------------------------------------

  /** A `\s*` that stops at a non-space (or the end of `s`) ends before any `<`
      that a `\s*` from the same place can reach. */
  lemma BlankForced(s: string, i: nat, j: nat, k: nat)
    requires Blank(s, i, j) && (j == |s| || !IsSpace(s[j]))
    requires Blank(s, i, k) && k < |s| && s[k] == '<'
    ensures j == k
  {
  }

  /** A cell matches at a position in only one way: its tag ends at the first `>`
      and its text at the next `<`. */
  lemma CellForced(s: string, i: nat, b: nat, c: nat, b': nat, c': nat)
    requires CellAt(s, i, b, c) && CellAt(s, i, b', c')
    ensures b == b' && c == c'
  {
  }

  /** The pattern matches at a position in at most one way. */
  lemma RowAtUnique(s: string, p: nat, w: Layout, w': Layout)
    requires RowAt(s, p, w) && RowAt(s, p, w')
    ensures w == w'
  {
    BlankForced(s, p + 4, w.labelCell, w'.labelCell);
    CellForced(s, w.labelCell, w.labelStart, w.labelEnd, w'.labelStart, w'.labelEnd);
    BlankForced(s, w.labelEnd + 5, w.valueCell, w'.valueCell);
    CellForced(s, w.valueCell, w.valueStart, w.valueEnd, w'.valueStart, w'.valueEnd);
    BlankForced(s, w.valueEnd + 5, w.close, w'.close);
  }

  // ---------------------------------------------------------------------------
  // What `findall` reports
  // ---------------------------------------------------------------------------

  /** The row the pattern yields when tried at `p`, or `None` if it fails there. */
  ghost function MatchAt(s: string, p: nat): (r: Option<Row>)
    ensures r.Some? ==> r.value.start == p < r.value.end <= |s|
  {
    if RowStartsAt(s, p) then
      var w :| RowAt(s, p, w);
      Some(RowOf(s, p, w))
    else None
  }

  /** Whatever way the pattern is seen to match at `p`, `MatchAt` yields that row. */
  lemma MatchAtRow(s: string, p: nat, w: Layout)
    requires RowAt(s, p, w)
    ensures Fits(s, p, w) && MatchAt(s, p) == Some(RowOf(s, p, w))
  {
    var w' :| RowAt(s, p, w') && Fits(s, p, w') && MatchAt(s, p).value == RowOf(s, p, w');
    RowAtUnique(s, p, w, w');
  }

  /** `t[p]` is the outcome of trying the pattern at position `p`: a row found
      there starts at `p` and is not empty. */
  predicate Outcomes(t: seq<Option<Row>>) {
    forall p | 0 <= p < |t| :: t[p].Some? ==> t[p].value.start == p < t[p].value.end
  }

  /** The search loop of `findall` over a table of outcomes: from `pos`, take the
      row found there and resume where it ends, or move on by one. */
  function Walk(t: seq<Option<Row>>, pos: nat): seq<Row>
    requires Outcomes(t)
    decreases |t| - pos
  {
    if pos >= |t| then []
    else
      match t[pos]
      case Some(r) => [r] + Walk(t, r.end)
      case None => Walk(t, pos + 1)
  }

  /** Every row the walk reports is the outcome at its own start, at or after `pos`. */
  lemma {:induction false} WalkFound(t: seq<Option<Row>>, pos: nat)
    requires Outcomes(t)
    ensures forall i | 0 <= i < |Walk(t, pos)| ::
      pos <= Walk(t, pos)[i].start < |t| && t[Walk(t, pos)[i].start] == Some(Walk(t, pos)[i])
    decreases |t| - pos
  {
    if pos < |t| {
      match t[pos]
      case Some(r) => WalkFound(t, r.end);
      case None => WalkFound(t, pos + 1);
    }
  }

  /** The reported rows do not overlap and come in the order they appear. */
  lemma {:induction false} WalkOrdered(t: seq<Option<Row>>, pos: nat)
    requires Outcomes(t)
    ensures forall i | 0 <= i < |Walk(t, pos)| - 1 :: Walk(t, pos)[i].end <= Walk(t, pos)[i + 1].start
    decreases |t| - pos
  {
    if pos < |t| {
      match t[pos]
      case Some(r) =>
        WalkOrdered(t, r.end);
        WalkFound(t, r.end);
        assert Walk(t, pos) == [r] + Walk(t, r.end);
      case None => WalkOrdered(t, pos + 1);
    }
  }

  /** No successful position from `pos` on is passed over: it lies inside a
      reported row, so it either starts that row or overlaps it. */
  lemma {:induction false} WalkCovers(t: seq<Option<Row>>, pos: nat, q: nat)
    requires Outcomes(t) && pos <= q < |t| && t[q].Some?
    ensures exists i :: 0 <= i < |Walk(t, pos)| && Walk(t, pos)[i].start <= q < Walk(t, pos)[i].end
    decreases |t| - pos
  {
    match t[pos]
    case Some(r) =>
      if q < r.end {
        assert Walk(t, pos)[0] == r;
      } else {
        WalkCovers(t, r.end, q);
        var i :| 0 <= i < |Walk(t, r.end)| && Walk(t, r.end)[i].start <= q < Walk(t, r.end)[i].end;
        assert Walk(t, pos)[i + 1] == Walk(t, r.end)[i];
      }
    case None =>
      assert Walk(t, pos) == Walk(t, pos + 1);
      WalkCovers(t, pos + 1, q);
  }

  /** The outcomes of trying the pattern at each of the first `n` positions of `s`. */
  ghost function Attempts(s: string, n: nat): (t: seq<Option<Row>>)
    ensures |t| == n && Outcomes(t)
  {
    if n == 0 then [] else Attempts(s, n - 1) + [MatchAt(s, n - 1)]
  }

  lemma {:induction false} AttemptsAt(s: string, n: nat, p: nat)
    requires p < n
    ensures Attempts(s, n)[p] == MatchAt(s, p)
  {
    var t, m := Attempts(s, n - 1), MatchAt(s, n - 1);
    assert Attempts(s, n) == t + [m];
    if p < n - 1 {
      AttemptsAt(s, n - 1, p);
      assert (t + [m])[p] == t[p];
    }
  }

  /** What `regex.findall` reports on `s`. */
  ghost function Matches(s: string): seq<Row> {
    Walk(Attempts(s, |s|), 0)
  }

  /** Every row `findall` reports is a match of the pattern. */
  lemma MatchesSound(s: string)
    ensures forall i | 0 <= i < |Matches(s)| :: IsMatch(s, Matches(s)[i])
  {
    var t := Attempts(s, |s|);
    WalkFound(t, 0);
    forall i | 0 <= i < |Matches(s)| ensures IsMatch(s, Matches(s)[i]) {
      AttemptsAt(s, |s|, Matches(s)[i].start);
    }
  }

  /** The rows `findall` reports come in text order and do not overlap. */
  lemma MatchesOrdered(s: string)
    ensures forall i | 0 <= i < |Matches(s)| - 1 :: Matches(s)[i].end <= Matches(s)[i + 1].start
  {
    WalkOrdered(Attempts(s, |s|), 0);
  }

  /** `findall` passes over no position where the pattern matches: each such
      position starts a reported row or lies inside one. */
  lemma MatchesCover(s: string, q: nat)
    requires RowStartsAt(s, q)
    ensures exists i :: 0 <= i < |Matches(s)| && Matches(s)[i].start <= q < Matches(s)[i].end
  {
    ghost var t := Attempts(s, |s|);
    assert q < |s| && MatchAt(s, q).Some?;
    AttemptsAt(s, |s|, q);
    WalkCovers(t, 0, q);
    var i :| 0 <= i < |Walk(t, 0)| && Walk(t, 0)[i].start <= q < Walk(t, 0)[i].end;
    assert Matches(s)[i] == Walk(t, 0)[i];
  }

  /** `findall` returns nothing exactly when the pattern matches nowhere. */
  lemma MatchesEmpty(s: string)
    ensures Matches(s) == [] <==> forall q: nat :: !RowStartsAt(s, q)
  {
    if Matches(s) != [] {
      WalkFound(Attempts(s, |s|), 0);
      AttemptsAt(s, |s|, Matches(s)[0].start);
    }
    forall q: nat | RowStartsAt(s, q) ensures Matches(s) != [] {
      MatchesCover(s, q);
    }
  }

  // ---------------------------------------------------------------------------
  // The greedy scanner
  // ---------------------------------------------------------------------------

  /** `\s*` from `i`: skips the longest run of whitespace. */
  method SkipSpaces(s: string, i: nat) returns (j: nat)
    requires i <= |s|
    ensures Blank(s, i, j) && (j == |s| || !IsSpace(s[j]))
  {
    j := i;
    while j < |s| && IsSpace(s[j])
      invariant Blank(s, i, j)
    {
      j := j + 1;
    }
  }

  /** `[^stop]*` from `i`: skips to the first `stop` at or after `i`, or to the end. */
  method SkipUntil(s: string, i: nat, stop: char) returns (j: nat)
    requires i <= |s|
    ensures i <= j <= |s| && (j == |s| || s[j] == stop)
    ensures forall m | i <= m < j :: s[m] != stop
  {
    j := i;
    while j < |s| && s[j] != stop
      invariant i <= j <= |s|
      invariant forall m | i <= m < j :: s[m] != stop
    {
      j := j + 1;
    }
  }

  /** `<td[^>]*>([^<]+)</td>` at `i`: where the captured text lies, if it matches. */
  method ScanCell(s: string, i: nat) returns (r: Option<(nat, nat)>)
    requires i <= |s|
    ensures r.Some? ==> CellAt(s, i, r.value.0, r.value.1)
    ensures r.None? ==> forall b: nat, c: nat :: !CellAt(s, i, b, c)
  {
    if !OpenCellAt(s, i) {
      return None;
    }
    var gt := SkipUntil(s, i + 3, '>');
    if gt == |s| {
      return None;
    }
    var c := SkipUntil(s, gt + 1, '<');
    if c == gt + 1 || !CloseCellAt(s, c) {
      forall b: nat, c': nat | CellAt(s, i, b, c') ensures b == gt + 1 && c' == c {
      }
      return None;
    }
    return Some((gt + 1, c));
  }

  /** Tries the whole pattern at `p`, as the regex engine does. */
  method ScanRow(s: string, p: nat) returns (r: Option<Row>)
    requires p <= |s|
    ensures r == MatchAt(s, p)
  {
    if !OpenRowAt(s, p) {
      return None;
    }
    var a := SkipSpaces(s, p + 4);
    forall w | RowAt(s, p, w) ensures w.labelCell == a {
      BlankForced(s, p + 4, a, w.labelCell);
    }
    var first := ScanCell(s, a);
    if first.None? {
      return None;
    }
    var (b, c) := first.value;
    forall w | RowAt(s, p, w) ensures w.labelStart == b && w.labelEnd == c {
      CellForced(s, a, b, c, w.labelStart, w.labelEnd);
    }
    var d := SkipSpaces(s, c + 5);
    forall w | RowAt(s, p, w) ensures w.valueCell == d {
      BlankForced(s, c + 5, d, w.valueCell);
    }
    var second := ScanCell(s, d);
    if second.None? {
      return None;
    }
    var (f, g) := second.value;
    forall w | RowAt(s, p, w) ensures w.valueStart == f && w.valueEnd == g {
      CellForced(s, d, f, g, w.valueStart, w.valueEnd);
    }
    var h := SkipSpaces(s, g + 5);
    forall w | RowAt(s, p, w) ensures w.close == h {
      BlankForced(s, g + 5, h, w.close);
    }
    if !CloseRowAt(s, h) {
      return None;
    }
    var w := Layout(a, b, c, d, f, g, h);
    MatchAtRow(s, p, w);
    return Some(RowOf(s, p, w));
  }

  /** `regex.findall`: every match, left to right, none overlapping. */
  method FindAll(s: string) returns (rows: seq<Row>)
    ensures rows == Matches(s)
  {
    ghost var t := Attempts(s, |s|);
    rows := [];
    var pos := 0;
    while pos < |s|
      invariant pos <= |s|
      invariant rows + Walk(t, pos) == Walk(t, 0)
      decreases |s| - pos
    {
      var m := ScanRow(s, pos);
      AttemptsAt(s, |s|, pos);
      match m {
        case Some(r) =>
          assert Walk(t, pos) == [r] + Walk(t, r.end);
          rows := rows + [r];
          pos := r.end;
        case None =>
          pos := pos + 1;
      }
    }
  }

  // ---------------------------------------------------------------------------
  // The dictionary
  // ---------------------------------------------------------------------------

  /** The key a row is stored under: its label with whitespace and colons removed. */
  function KeyOf(r: Row): string {
    CleanLabel(r.key)
  }

  /** The text stored for a row: its value with surrounding whitespace stripped. */
  function TextOf(r: Row): string {
    Strip(r.value)
  }

  /** The (key, text) pair the loop stores for each row, in row order. */
  function Entries(rows: seq<Row>): (e: seq<(string, string)>)
    ensures |e| == |rows|
  {
    seq(|rows|, i requires 0 <= i < |rows| => (KeyOf(rows[i]), TextOf(rows[i])))
  }

  /** The dictionary built by assigning `pairs` in order: a later pair overwrites
      an earlier one with the same key. */
  function Assign<K(==), V>(pairs: seq<(K, V)>): map<K, V> {
    if pairs == [] then map[]
    else Assign(pairs[..|pairs| - 1])[pairs[|pairs| - 1].0 := pairs[|pairs| - 1].1]
  }

  /** The keys of the dictionary are exactly the keys of the pairs. */
  lemma {:induction false} AssignKeys<K, V>(pairs: seq<(K, V)>, k: K)
    ensures k in Assign(pairs) <==> exists i :: 0 <= i < |pairs| && pairs[i].0 == k
  {
    if pairs != [] {
      var init := pairs[..|pairs| - 1];
      AssignKeys(init, k);
      if exists i :: 0 <= i < |init| && init[i].0 == k {
        var i :| 0 <= i < |init| && init[i].0 == k;
        assert pairs[i].0 == k;
      }
      if exists i :: 0 <= i < |pairs| && pairs[i].0 == k {
        var i :| 0 <= i < |pairs| && pairs[i].0 == k;
        if i < |init| {
          assert init[i].0 == k;
        }
      }
    }
  }

  /** Every entry of the dictionary is one of the pairs. */
  lemma {:induction false} AssignEntries<K, V>(pairs: seq<(K, V)>, k: K)
    requires k in Assign(pairs)
    ensures exists i :: 0 <= i < |pairs| && pairs[i] == (k, Assign(pairs)[k])
  {
    var n := |pairs| - 1;
    if pairs[n].0 != k {
      AssignEntries(pairs[..n], k);
      var i :| 0 <= i < n && pairs[..n][i] == (k, Assign(pairs[..n])[k]);
      assert pairs[i] == (k, Assign(pairs)[k]);
    } else {
      assert pairs[n] == (k, Assign(pairs)[k]);
    }
  }

  /** A key holds the value of the last pair with that key. */
  lemma {:induction false} AssignLastWins<K, V>(pairs: seq<(K, V)>, i: nat)
    requires i < |pairs|
    requires forall j | i < j < |pairs| :: pairs[j].0 != pairs[i].0
    ensures pairs[i].0 in Assign(pairs) && Assign(pairs)[pairs[i].0] == pairs[i].1
  {
    if i < |pairs| - 1 {
      var init := pairs[..|pairs| - 1];
      forall j | i < j < |init| ensures init[j].0 != init[i].0 {
        assert init[j] == pairs[j];
      }
      AssignLastWins(init, i);
    }
  }

  /** What `_parse_html_data` returns for a page. */
  ghost function Scraped(html: string): map<string, string> {
    Assign(Entries(Matches(html)))
  }

  /** The keys of the page's dictionary are the cleaned labels of its rows. */
  lemma ScrapedKeys(html: string, k: string)
    ensures k in Scraped(html) <==> exists i :: 0 <= i < |Matches(html)| && KeyOf(Matches(html)[i]) == k
  {
    AssignKeys(Entries(Matches(html)), k);
    if exists i :: 0 <= i < |Matches(html)| && KeyOf(Matches(html)[i]) == k {
      var i :| 0 <= i < |Matches(html)| && KeyOf(Matches(html)[i]) == k;
      assert Entries(Matches(html))[i].0 == k;
    }
  }

  /** Of several rows whose labels clean to the same key, the last one wins. */
  lemma ScrapedLastWins(html: string, i: nat)
    requires i < |Matches(html)|
    requires forall j | i < j < |Matches(html)| :: KeyOf(Matches(html)[j]) != KeyOf(Matches(html)[i])
    ensures KeyOf(Matches(html)[i]) in Scraped(html)
    ensures Scraped(html)[KeyOf(Matches(html)[i])] == TextOf(Matches(html)[i])
  {
    var e := Entries(Matches(html));
    forall j | i < j < |e| ensures e[j].0 != e[i].0 {
    }
    AssignLastWins(e, i);
  }

  /** Keys carry no whitespace or colon, and stored texts no surrounding whitespace. */
  lemma ScrapedClean(html: string, k: string)
    requires k in Scraped(html)
    ensures CleanLabel(k) == k && Strip(Scraped(html)[k]) == Scraped(html)[k]
  {
    var e := Entries(Matches(html));
    AssignEntries(e, k);
    var i :| 0 <= i < |e| && e[i] == (k, Assign(e)[k]);
    CleanLabelIdempotent(Matches(html)[i].key);
    StripIdempotent(Matches(html)[i].value);
  }

  /** The page yields an empty dictionary exactly when no table row matches. */
  lemma ScrapedEmpty(html: string)
    ensures Scraped(html) == map[] <==> forall q: nat :: !RowStartsAt(html, q)
  {
    MatchesEmpty(html);
    var e := Entries(Matches(html));
    if e != [] {
      AssignKeys(e, e[0].0);
    }
  }

  /** `_parse_html_data`: scan the page for rows, then store each one's cleaned
      label and stripped value. */
  method ParseHtml(html: string) returns (data: map<string, string>)
    ensures data == Scraped(html)
  {
    var rows := FindAll(html);
    var pairs := Entries(rows);
    data := map[];
    var i := 0;
    while i < |pairs|
      invariant i <= |pairs|
      invariant data == Assign(pairs[..i])
    {
      assert pairs[..i + 1][..i] == pairs[..i];
      data := data[pairs[i].0 := pairs[i].1];
      i := i + 1;
    }
    assert pairs[..i] == pairs;
  }
}
