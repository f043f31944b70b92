/** Stage 4 (formatting): the final sheet. Each row gets an author column cut
    out of its citation by a regular expression; the rows whose download
    succeeded come first, then one separator row, then the rows that only
    have a link. */
module Formatting {
  import opened Values
  import opened Text
  import Citation
  import Download

  // ---------------------------------------------------------------------------
  // The author regex `^(.*?)\s*\((\d{4}|n\.d\.)\)`

  predicate AllDigits(s: string) {
    forall k | 0 <= k < |s| :: IsDigit(s[k])
  }

  /** A year text the regex accepts between the parentheses. */
  predicate YearMarkerText(y: string) {
    (|y| == 4 && AllDigits(y)) || y == "n.d."
  }

  /** `(dddd)` or `(n.d.)` starts at index `j`. */
  predicate MarkerAt(s: string, j: int) {
    0 <= j && j + 6 <= |s| && s[j] == '(' && s[j + 5] == ')' && YearMarkerText(s[j + 1..j + 5])
  }

  /** The length of the whitespace run that starts at `i`. */
  function SpaceRun(s: string, i: nat): (n: nat)
    requires i <= |s|
    ensures i + n <= |s|
    ensures forall k | i <= k < i + n :: IsSpace(s[k])
    ensures i + n == |s| || !IsSpace(s[i + n])
    decreases |s| - i
  {
    if i < |s| && IsSpace(s[i]) then 1 + SpaceRun(s, i + 1) else 0
  }

  /** With the lazy group ending at `i`, `\s*` takes the whole whitespace run
      (a shorter run leaves whitespace where `(` is needed) and the marker
      follows it. */
  predicate MatchAt(s: string, i: nat)
    requires i <= |s|
  {
    MarkerAt(s, i + SpaceRun(s, i))
  }

  /** `.` does not match a newline, so the group never extends over one. */
  predicate NoNewline(s: string) {
    forall k | 0 <= k < |s| :: s[k] != '\n'
  }

  /** The regex matches with its group ending at `i`, and at no earlier index. */
  predicate IsFirstMatch(s: string, i: nat) {
    i <= |s| && NoNewline(s[..i]) && MatchAt(s, i) && forall j | 0 <= j < i :: !MatchAt(s, j)
  }

  /** The leftmost end of the lazy group from `i` on, trying `i`, `i + 1`, ...
      until the group would have to cross a newline. */
  function FirstMatchFrom(s: string, i: nat): (r: Option<nat>)
    requires i <= |s|
    ensures r.Some? ==> i <= r.value <= |s| && NoNewline(s[i..r.value]) && MatchAt(s, r.value)
    ensures r.Some? ==> forall j | i <= j < r.value :: !MatchAt(s, j)
    ensures r.None? ==> forall j | i <= j <= |s| && NoNewline(s[i..j]) :: !MatchAt(s, j)
    decreases |s| - i
  {
    if MatchAt(s, i) then Some(i)
    else if i < |s| && s[i] != '\n' then
      var r := FirstMatchFrom(s, i + 1);
      assert forall j | i + 1 <= j <= |s| :: s[i..j] == [s[i]] + s[i + 1..j];
      r
    else None
  }

  /** `extract_auth_from_citation`: "Unknown" for a missing citation or one
      without a year marker; otherwise the stripped text before the first
      marker. */
  function ExtractAuth(citation: Option<string>): (r: string)
    ensures citation.None? ==> r == "Unknown"
    ensures citation.Some? ==>
              forall i: nat | IsFirstMatch(citation.value, i) :: r == Strip(citation.value[..i])
    ensures (citation.Some? && forall j | 0 <= j <= |citation.value| && NoNewline(citation.value[..j])
                                 :: !MatchAt(citation.value, j))
              ==> r == "Unknown"
  {
    match citation
    case None => "Unknown"
    case Some(s) =>
      match FirstMatchFrom(s, 0)
      case None =>
        assert forall j | 0 <= j <= |s| :: s[0..j] == s[..j];
        "Unknown"
      case Some(i) =>
        assert s[0..i] == s[..i];
        assert forall k | IsFirstMatch(s, k) :: k == i;
        Strip(s[..i])
  }

  // ---------------------------------------------------------------------------
  // Round trip with stage 1

  /** No year marker lies wholly inside `auth`. */
  predicate NoMarker(auth: string) {
    forall j | 0 <= j < |auth| :: !MarkerAt(auth, j)
  }

  /** A year marker holds no space. */
  lemma MarkerHasNoSpace(c: string, j: int)
    ensures MarkerAt(c, j) ==> forall d | j <= d < j + 6 :: c[d] != ' '
  {
    if MarkerAt(c, j) {
      var y := c[j + 1..j + 5];
      forall d | j < d < j + 5 ensures c[d] != ' ' {
        assert c[d] == y[d - j - 1];
      }
    }
  }

  /** A marker that starts at or before the end of `auth`, in a text that
      continues `auth` with a space, lies wholly inside `auth`. */
  lemma MarkerInsideAuthor(auth: string, c: string, j: int)
    ensures (|auth| + 1 <= |c| && c[..|auth|] == auth && c[|auth|] == ' ' && j <= |auth| && MarkerAt(c, j))
            ==> MarkerAt(auth, j)
  {
    if |auth| + 1 <= |c| && c[..|auth|] == auth && c[|auth|] == ' ' && j <= |auth| && MarkerAt(c, j) {
      MarkerHasNoSpace(c, j);
      assert j + 6 <= |auth|;
      assert auth[j..j + 6] == c[j..j + 6];
      assert auth[j + 1..j + 5] == c[j + 1..j + 5];
    }
  }

  /** The marker after the lazy group's end cannot start inside `auth`: the
      citation continues `auth` with a space, which no marker contains. */
  lemma MarkerAfterAuthor(auth: string, c: string, i: nat)
    requires |auth| + 1 <= |c| && c[..|auth|] == auth && c[|auth|] == ' '
    requires NoMarker(auth)
    requires i < |auth| && MatchAt(c, i)
    ensures i + SpaceRun(c, i) > |auth|
  {
    MarkerInsideAuthor(auth, c, i + SpaceRun(c, i));
  }

  /** The citation stage 1 composes: the author string, a space, then the
      year marker. */
  lemma ComposeShape(auth: string, year: string, title: string, journal: string)
    requires YearMarkerText(year)
    ensures var c := Citation.Compose(auth, year, title, journal);
            |auth| + 7 <= |c| && c[..|auth|] == auth && c[|auth|] == ' ' && MatchAt(c, |auth|)
  {
    var c := Citation.Compose(auth, year, title, journal);
    var n := |auth|;
    var tail := "). " + title + "." + (if journal != "" then " " + journal + "." else "");
    assert c == auth + (" (" + year + tail);
    assert c[..n] == auth && c[n] == ' ' && c[n + 1] == '(';
    assert c[n + 2..n + 6] == year && c[n + 6] == ')';
    assert SpaceRun(c, n + 1) == 0;
    assert SpaceRun(c, n) == 1;
  }

  /** When the regex can match with its group ending at `m`, the leftmost
      match ends at `m` or earlier. */
  lemma FirstMatchNoLater(s: string, m: nat)
    requires m <= |s| && NoNewline(s[..m]) && MatchAt(s, m)
    ensures FirstMatchFrom(s, 0).Some? && FirstMatchFrom(s, 0).value <= m
    ensures IsFirstMatch(s, FirstMatchFrom(s, 0).value)
  {
    assert s[0..m] == s[..m];
    var i := FirstMatchFrom(s, 0).value;
    assert s[0..i] == s[..i];
  }

  /** Extracting the author from any citation that starts with an author
      string, a space and a year marker gives back the author string,
      stripped, when that string holds no newline and no marker of its own. */
  lemma ExtractAuthPrefix(auth: string, c: string)
    requires |auth| + 1 <= |c| && c[..|auth|] == auth && c[|auth|] == ' ' && MatchAt(c, |auth|)
    requires NoNewline(auth) && NoMarker(auth)
    ensures ExtractAuth(Some(c)) == Strip(auth)
  {
    var n := |auth|;
    FirstMatchNoLater(c, n);
    var i := FirstMatchFrom(c, 0).value;
    assert c[..i] == auth[..i];
    if i < n {
      MarkerAfterAuthor(auth, c, i);
      var ws := auth[i..];
      assert AllSpace(ws) by {
        forall k | 0 <= k < |ws| ensures IsSpace(ws[k]) {
          assert ws[k] == c[i + k];
        }
      }
      assert auth == auth[..i] + ws;
      StripAppendSpaces(auth[..i], ws);
    }
  }

  /** Extracting the author from a citation built by stage 1 gives back the
      author string, stripped, when the year is four digits or "n.d." and the
      author string holds no newline and no year marker of its own. */
  lemma ExtractAuthRoundTrip(auth: string, year: string, title: string, journal: string)
    requires NoNewline(auth) && NoMarker(auth)
    requires YearMarkerText(year)
    ensures ExtractAuth(Some(Citation.Compose(auth, year, title, journal))) == Strip(auth)
  {
    ComposeShape(auth, year, title, journal);
    ExtractAuthPrefix(auth, Citation.Compose(auth, year, title, journal));
  }

  /** The round trip stated on stage 1's own output: for a work whose
      citation does not fall back, with a four-digit or missing year. */
  lemma FormattedCitationRoundTrip(w: Citation.Work)
    requires !Citation.CitationRaises(w)
    requires w.year.Missing? || (w.year.Present? && 1000 <= w.year.value <= 9999)
    requires NoNewline(Citation.AuthorString(w.authorships).value)
    requires NoMarker(Citation.AuthorString(w.authorships).value)
    ensures ExtractAuth(Some(Citation.FormatCitation(w))) == Strip(Citation.AuthorString(w.authorships).value)
  {
    var auth := Citation.AuthorString(w.authorships).value;
    var year := Citation.YearText(w.year);
    assert YearMarkerText(year);
    ExtractAuthRoundTrip(auth, year, Citation.TitleText(w.title), Citation.Journal(w.primaryLocation).value);
  }

  // ---------------------------------------------------------------------------
  // The sheet

  /** A row of the output: the six columns Full Citation, Link, Auth, Year,
      Full Abstract and Method. */
  datatype SheetRow = SheetRow(
    fullCitation: Option<string>,
    link: Option<string>,
    auth: Option<string>,
    year: Option<string>,
    fullAbstract: Option<string>,
    methodology: Option<string>)

  /** The mark that fills the separator row. */
  const SeparatorMark: string := "---"

  const SeparatorText: string := SeparatorMark + " END OF DOWNLOADED FILES --- (Manual Review Below)"

  /** The row between the two groups, "---" in every column but the first. */
  const Separator: SheetRow :=
    SheetRow(Some(SeparatorText), Some(SeparatorMark), Some(SeparatorMark), Some(SeparatorMark),
             Some(SeparatorMark), Some(SeparatorMark))

  /** The column selection for a data row; Method starts empty. */
  function ToSheetRow(t: Download.Triaged): (r: SheetRow)
    ensures r.methodology == Some("")
    ensures r.fullCitation == t.row.citation && r.link == t.row.pdfLink
    ensures r.auth == Some(ExtractAuth(t.row.citation))
    ensures r.year == t.row.year && r.fullAbstract == t.row.abstractText
  {
    SheetRow(t.row.citation, t.row.pdfLink, Some(ExtractAuth(t.row.citation)), t.row.year, t.row.abstractText, Some(""))
  }

  /** Group A: downloaded. */
  predicate InGroupA(t: Download.Triaged) {
    t.status == "Success"
  }

  /** Group B: not downloaded, but with a link. */
  predicate InGroupB(t: Download.Triaged) {
    t.status != "Success" && t.row.pdfLink.Some?
  }

  /** The indices, from `i` on and in order, of the rows that satisfy `p`. */
  function IndicesFrom(rows: seq<Download.Triaged>, p: Download.Triaged -> bool, i: nat): (ix: seq<nat>)
    requires i <= |rows|
    ensures forall k | 0 <= k < |ix| :: i <= ix[k] < |rows| && p(rows[ix[k]])
    ensures forall k, l | 0 <= k < l < |ix| :: ix[k] < ix[l]
    decreases |rows| - i
  {
    if i == |rows| then []
    else (if p(rows[i]) then [i] else []) + IndicesFrom(rows, p, i + 1)
  }

  /** No row from `i` on that satisfies `p` is missing from the indices. */
  lemma {:induction false} IndicesFromComplete(rows: seq<Download.Triaged>, p: Download.Triaged -> bool, i: nat)
    requires i <= |rows|
    ensures forall j | i <= j < |rows| && p(rows[j]) :: j in IndicesFrom(rows, p, i)
    decreases |rows| - i
  {
    if i < |rows| {
      IndicesFromComplete(rows, p, i + 1);
    }
  }

  /** The sheet rows of the input rows that satisfy `p`, in input order. */
  function Group(rows: seq<Download.Triaged>, p: Download.Triaged -> bool): (g: seq<SheetRow>)
    ensures |g| == |IndicesFrom(rows, p, 0)|
    ensures forall k | 0 <= k < |g| :: g[k] == ToSheetRow(rows[IndicesFrom(rows, p, 0)[k]])
    ensures forall k | 0 <= k < |g| :: g[k].methodology == Some("")
  {
    var ix := IndicesFrom(rows, p, 0);
    seq(|ix|, k requires 0 <= k < |ix| => ToSheetRow(rows[ix[k]]))
  }

  /** `pd.concat([df_downloaded, separator_row, df_links_only])`. */
  function Layout(rows: seq<Download.Triaged>): seq<SheetRow> {
    Group(rows, InGroupA) + [Separator] + Group(rows, InGroupB)
  }

  /** The sheet is group A, exactly one separator row, then group B; only
      the separator has "---" as its Method, since every data row's Method is
      empty. */
  lemma LayoutShape(rows: seq<Download.Triaged>)
    ensures var ga := Group(rows, InGroupA);
            var gb := Group(rows, InGroupB);
            var sheet := Layout(rows);
            && sheet == ga + [Separator] + gb
            && |sheet| == |ga| + 1 + |gb|
            && sheet[|ga|] == Separator
            && (forall k | 0 <= k < |sheet| :: sheet[k].methodology == Some("---") <==> k == |ga|)
  {
    var ga := Group(rows, InGroupA);
    var gb := Group(rows, InGroupB);
    var sheet := ga + [Separator] + gb;
    ConcatAround(ga, Separator, gb);
    forall k | 0 <= k < |sheet| ensures sheet[k].methodology == Some("---") <==> k == |ga| {
      if k < |ga| {
        assert sheet[k] == ga[k];
      } else if k > |ga| {
        assert sheet[k] == gb[k - |ga| - 1];
      }
    }
  }

  /** Indexing into `xs + [x] + ys`. */
  lemma ConcatAround<T>(xs: seq<T>, x: T, ys: seq<T>)
    ensures |xs + [x] + ys| == |xs| + 1 + |ys|
    ensures forall k | 0 <= k < |xs| :: (xs + [x] + ys)[k] == xs[k]
    ensures (xs + [x] + ys)[|xs|] == x
    ensures forall k | 0 <= k < |ys| :: (xs + [x] + ys)[|xs| + 1 + k] == ys[k]
  {
  }

  /** No input row is in both groups. */
  lemma GroupsDisjoint(rows: seq<Download.Triaged>)
    ensures var a := IndicesFrom(rows, InGroupA, 0);
            var b := IndicesFrom(rows, InGroupB, 0);
            forall k, l | 0 <= k < |a| && 0 <= l < |b| :: a[k] != b[l]
  {
  }

  /** One step of `IndicesFrom`, counted. */
  lemma IndicesFromStep(rows: seq<Download.Triaged>, p: Download.Triaged -> bool, i: nat)
    requires i < |rows|
    ensures |IndicesFrom(rows, p, i)| == (if p(rows[i]) then 1 else 0) + |IndicesFrom(rows, p, i + 1)|
  {
  }

  /** Left out of the sheet: not downloaded and no link. */
  predicate InNeither(t: Download.Triaged) {
    !InGroupA(t) && !InGroupB(t)
  }

  /** Every input row is in group A, in group B, or (no download and no
      link) in neither, and the three counts add up to the input's size. */
  lemma {:induction false} GroupsPartition(rows: seq<Download.Triaged>, i: nat)
    requires i <= |rows|
    ensures |IndicesFrom(rows, InGroupA, i)| + |IndicesFrom(rows, InGroupB, i)|
            + |IndicesFrom(rows, InNeither, i)| == |rows| - i
    decreases |rows| - i
  {
    if i < |rows| {
      GroupsPartition(rows, i + 1);
      IndicesFromStep(rows, InGroupA, i);
      IndicesFromStep(rows, InGroupB, i);
      IndicesFromStep(rows, InNeither, i);
    }
  }
}
