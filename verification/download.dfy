/** Stage 3 (download): deciding, row by row, whether a paper can be fetched,
    what it is saved as, and what status it ends with. The open-access lookup
    and the HTTP download are outside the model: each row comes with the
    lookup's answer and the download's outcome. */
module Download {
  import opened Values
  import opened Text

  const UnknownFile: string := "Unknown_File"
  const MaxNameLength: nat := 200

  /** The characters the regex substitution removes: backslash, slash, star,
      question mark, colon, double quote, angle brackets and bar. */
  const ForbiddenChars: string := "\\/*?:\"<>|"

  // ---------------------------------------------------------------------------
  // File names

  /** The characters `sanitize_filename` keeps and that survive into the name. */
  predicate SafeChar(c: char) {
    IsAscii(c) && c !in ForbiddenChars && c != '\n' && c != '\r'
  }

  /** `s.replace("\n", " ")`. */
  function NewlinesToSpaces(s: string): (r: string)
    ensures |r| == |s|
    ensures forall i | 0 <= i < |s| :: r[i] == (if s[i] == '\n' then ' ' else s[i])
  {
    seq(|s|, i requires 0 <= i < |s| => if s[i] == '\n' then ' ' else s[i])
  }

  /** Python's `s[:n]`. */
  function Take(s: string, n: nat): (r: string)
    ensures |r| <= n && |r| <= |s| && r == s[..|r|]
    ensures |s| <= n ==> r == s
  {
    if |s| <= n then s else s[..n]
  }

  /** The character transformations of `sanitize_filename`, in its order:
      drop non-ASCII, drop the forbidden characters, turn newlines into
      spaces, drop carriage returns. */
  function CleanChars(s: string): (r: string)
    ensures forall i | 0 <= i < |r| :: SafeChar(r[i])
    ensures (forall i | 0 <= i < |s| :: SafeChar(s[i])) ==> r == s
  {
    var ascii := Select(s, (c: char) => IsAscii(c));
    var allowed := Select(ascii, (c: char) => c !in ForbiddenChars);
    var spaced := NewlinesToSpaces(allowed);
    var r := Select(spaced, (c: char) => c != '\r');
    assert forall i | 0 <= i < |r| :: SafeChar(r[i]) by {
      forall i | 0 <= i < |r| ensures SafeChar(r[i]) {
        assert r[i] in r;
        var j :| 0 <= j < |spaced| && spaced[j] == r[i];
        if allowed[j] != '\n' {
          assert allowed[j] in allowed;
          assert allowed[j] in ascii;
        }
      }
    }
    r
  }

  /** `sanitize_filename`: a missing citation gives "Unknown_File"; otherwise
      the cleaned text cut to 200 characters and stripped. The name is ASCII,
      holds none of `\ / * ? : " < > |`, no newline or carriage return, at
      most 200 characters, and no surrounding whitespace. */
  function Sanitize(citation: Option<string>): (r: string)
    ensures citation.None? ==> r == UnknownFile
    ensures forall i | 0 <= i < |r| :: SafeChar(r[i])
    ensures |r| <= MaxNameLength
    ensures Stripped(r)
  {
    match citation
    case None => UnknownFile
    case Some(s) =>
      var clean := CleanChars(s);
      var cut := Take(clean, MaxNameLength);
      assert forall i | 0 <= i < |cut| :: cut[i] == clean[i];
      SafeStrip(cut);
      Strip(cut)
  }

  /** Stripping removes characters and adds none, so a safe string stays safe. */
  lemma SafeStrip(s: string)
    requires forall i | 0 <= i < |s| :: SafeChar(s[i])
    ensures forall i | 0 <= i < |Strip(s)| :: SafeChar(Strip(s)[i])
  {
    var l := TrimLeft(s);
    var off := |s| - |l|;
    forall i | 0 <= i < |l| ensures SafeChar(l[i]) {
      assert l[i] == s[off + i];
    }
    var r := TrimRight(l);
    forall i | 0 <= i < |r| ensures SafeChar(r[i]) {
      assert r[i] == l[i];
    }
    assert Strip(s) == r;
  }

  /** A sanitised name is its own sanitised name. */
  lemma SanitizeIdempotent(citation: Option<string>)
    ensures Sanitize(Some(Sanitize(citation))) == Sanitize(citation)
  {
    var r := Sanitize(citation);
    var clean := CleanChars(r);
    assert clean == r;
    var cut := Take(clean, MaxNameLength);
    assert cut == r;
    StripStripped(r);
    assert Sanitize(Some(r)) == Strip(cut);
  }

  // ---------------------------------------------------------------------------
  // One download

  /** An exception raised by the download: a timeout, or another exception
      named by its type. */
  datatype Failure = Timeout | OtherError(typeName: string)

  /** The outcome of the HTTP request: a response (its status code, its
      `Content-Type` header if any, and how saving the body went), or an
      exception before any response. */
  datatype Fetch =
    | Response(status: int, contentType: Option<string>, saving: Option<Failure>)
    | NoResponse(failure: Failure)

  datatype DownloadResult = DownloadResult(success: bool, reason: string)

  function FailureReason(f: Failure): string {
    match f
    case Timeout => "Server Timeout"
    case OtherError(name) => "Connection Error: " + name
  }

  /** `resp.headers.get('Content-Type', '').lower()`. */
  function ContentType(fetch: Fetch): string
    requires fetch.Response?
  {
    Lower(fetch.contentType.GetOr(""))
  }

  /** The body is taken as a PDF when the content type mentions "pdf" or the
      URL ends in ".pdf". */
  predicate LooksLikePdf(url: string, fetch: Fetch)
    requires fetch.Response?
  {
    Contains(ContentType(fetch), "pdf") || EndsWith(url, ".pdf")
  }

  /** `download_pdf`: the pure decision from the request's outcome to the
      success flag and the reason recorded for the row. */
  function DownloadPdf(url: string, fetch: Fetch): (r: DownloadResult)
    ensures r.success <==> fetch.Response? && fetch.status == 200 && LooksLikePdf(url, fetch) && fetch.saving.None?
    ensures r.success <==> r.reason == "Success"
    ensures (fetch.Response? && fetch.status == 200 && !LooksLikePdf(url, fetch))
              ==> r.reason == "Wrong Content-Type (HTML/Login Page?): " + ContentType(fetch)
    ensures (fetch.Response? && (fetch.status == 401 || fetch.status == 403))
              ==> r.reason == "HTTP " + IntToString(fetch.status) + ": Paywall or Automation Blocked"
    ensures fetch.Response? && fetch.status == 404 ==> r.reason == "HTTP 404: Dead Link"
    ensures (fetch.Response? && fetch.status !in {200, 401, 403, 404})
              ==> r.reason == "HTTP Error " + IntToString(fetch.status)
    ensures (fetch.Response? && fetch.status == 200 && LooksLikePdf(url, fetch) && fetch.saving.Some?)
              ==> r.reason == FailureReason(fetch.saving.value)
    ensures fetch.NoResponse? ==> r.reason == FailureReason(fetch.failure)
  {
    match fetch
    case NoResponse(f) => DownloadResult(false, FailureReason(f))
    case Response(status, _, saving) =>
      if status == 200 then
        if LooksLikePdf(url, fetch) then
          match saving
          case None => DownloadResult(true, "Success")
          case Some(f) => DownloadResult(false, FailureReason(f))
        else DownloadResult(false, "Wrong Content-Type (HTML/Login Page?): " + ContentType(fetch))
      else if status == 401 || status == 403 then
        DownloadResult(false, "HTTP " + IntToString(status) + ": Paywall or Automation Blocked")
      else if status == 404 then DownloadResult(false, "HTTP 404: Dead Link")
      else DownloadResult(false, "HTTP Error " + IntToString(status))
  }

  // ---------------------------------------------------------------------------
  // Row triage

  /** The columns of an input row that the stage reads or passes on. */
  datatype Row = Row(
    citation: Option<string>,
    title: Option<string>,
    year: Option<string>,
    abstractText: Option<string>,
    pdfLink: Option<string>,
    doi: Option<string>)

  /** What the outside world answers for one row: the open-access lookup's
      `url_for_pdf` (`None` when the lookup fails or has none) and the
      download's outcome. */
  datatype Env = Env(lookup: Option<string>, fetch: Fetch)

  /** A kept row with its `Local_PDF_Path`, `Download_Status` and `Error_Reason`. */
  datatype Triaged = Triaged(row: Row, localPath: string, status: string, errorReason: string)

  /** `pd.isna(v) or str(v) == "nan"`. */
  predicate Absent(v: Option<string>) {
    v.None? || v.value == "nan"
  }

  /** `check_unpaywall`: no request for a missing or empty DOI. */
  function CheckUnpaywall(doi: Option<string>, answer: Option<string>): Option<string> {
    if doi.None? || doi.value == "" then None else answer
  }

  /** The link after scavenging: a missing link is replaced by a non-empty
      lookup result when the row has a DOI. */
  function LinkAfterLookup(row: Row, env: Env): Option<string> {
    if Absent(row.pdfLink) && row.doi.Some? then
      var found := CheckUnpaywall(row.doi, env.lookup);
      if found.Some? && found.value != "" then found else row.pdfLink
    else row.pdfLink
  }

  /** A row with neither a link (after the lookup) nor a DOI is dropped. */
  predicate Dropped(row: Row, env: Env) {
    Absent(LinkAfterLookup(row, env)) && Absent(row.doi)
  }

  /** `if pdf_url and str(pdf_url) != "nan"`. */
  predicate Downloadable(link: Option<string>) {
    link.Some? && link.value != "" && link.value != "nan"
  }

  /** The citation, or the title when the citation is missing. */
  function CitationKey(row: Row): Option<string> {
    if row.citation.Some? then row.citation else row.title
  }

  /** `os.path.join(folder, name)` for a name without a leading slash. */
  function JoinPath(folder: string, name: string): string {
    if folder == [] || folder[|folder| - 1] == '/' then folder + name else folder + "/" + name
  }

  function PdfFileName(row: Row): string {
    Sanitize(CitationKey(row)) + ".pdf"
  }

  /** The decision for a row that is kept. */
  function TriageRow(row: Row, env: Env, folder: string): Triaged
    requires !Dropped(row, env)
  {
    var link := LinkAfterLookup(row, env);
    var updated := row.(pdfLink := link);
    if Downloadable(link) then
      var d := DownloadPdf(link.value, env.fetch);
      if d.success then Triaged(updated, JoinPath(folder, PdfFileName(row)), "Success", "")
      else Triaged(updated, "Not Downloaded", "Failed (Link Exists)", d.reason)
    else Triaged(updated, "Not Downloaded", "Link Only (No PDF URL)", "URL Missing entirely")
  }

  /** A kept row with a link ends "Success" exactly when its download
      succeeded and "Failed (Link Exists)" otherwise; a kept row without one
      ends "Link Only (No PDF URL)". Only the link column of the row changes,
      and only by the lookup. */
  lemma TriageStatus(row: Row, env: Env, folder: string)
    requires !Dropped(row, env)
    ensures var t := TriageRow(row, env, folder);
            var link := LinkAfterLookup(row, env);
            && t.row == row.(pdfLink := link)
            && (Downloadable(link) ==>
                  (t.status == "Success" <==> DownloadPdf(link.value, env.fetch).success)
                  && (t.status == "Success" || t.status == "Failed (Link Exists)"))
            && (!Downloadable(link) ==> t.status == "Link Only (No PDF URL)")
  {
  }

  /** The triage loop: `validIndices` lists, in order, the rows that are not
      dropped, and `kept` holds their decisions. */
  method Triage(rows: seq<Row>, envs: seq<Env>, folder: string) returns (kept: seq<Triaged>, validIndices: seq<nat>)
    requires |envs| == |rows|
    ensures |kept| == |validIndices|
    ensures forall k | 0 <= k < |validIndices| :: validIndices[k] < |rows|
    ensures forall k, l | 0 <= k < l < |validIndices| :: validIndices[k] < validIndices[l]
    ensures forall i | 0 <= i < |rows| :: i in validIndices <==> !Dropped(rows[i], envs[i])
    ensures forall k | 0 <= k < |kept| ::
              !Dropped(rows[validIndices[k]], envs[validIndices[k]])
              && kept[k] == TriageRow(rows[validIndices[k]], envs[validIndices[k]], folder)
  {
    kept := [];
    validIndices := [];
    var i := 0;
    while i < |rows|
      invariant 0 <= i <= |rows|
      invariant |kept| == |validIndices|
      invariant forall k | 0 <= k < |validIndices| :: validIndices[k] < i
      invariant forall k, l | 0 <= k < l < |validIndices| :: validIndices[k] < validIndices[l]
      invariant forall j | 0 <= j < i :: j in validIndices <==> !Dropped(rows[j], envs[j])
      invariant forall k | 0 <= k < |kept| ::
                  !Dropped(rows[validIndices[k]], envs[validIndices[k]])
                  && kept[k] == TriageRow(rows[validIndices[k]], envs[validIndices[k]], folder)
    {
      if !Dropped(rows[i], envs[i]) {
        kept := kept + [TriageRow(rows[i], envs[i], folder)];
        validIndices := validIndices + [i];
      }
      i := i + 1;
    }
  }
}
