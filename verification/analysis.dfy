/** Stage 5 (analysis): match each sheet row to a local PDF by fuzzy score,
    queue the rows that still need a methodology, send each queued paper to
    the language model, and write the answers back into the Method column.
    The similarity score and the model are parameters; the worker pool is a
    sequential fold over the completions in any order, which the lock around
    each write makes faithful. */
module Analysis {
  import opened Values
  import opened Text
  import Formatting
  import Download

  // ---------------------------------------------------------------------------
  // normalize_text

  predicate IsWordChar(c: char) {
    ('a' <= c <= 'z') || IsDigit(c)
  }

  /** `str.replace('.pdf', '')`: one left-to-right pass over non-overlapping
      occurrences. */
  function RemovePdf(s: string): (r: string)
    ensures |r| <= |s|
    ensures forall k | 0 <= k < |r| :: r[k] in s
    decreases |s|
  {
    if |s| >= 4 && s[..4] == ".pdf" then
      var r := RemovePdf(s[4..]);
      assert forall c | c in s[4..] :: c in s;
      r
    else if s == [] then []
    else
      var r := RemovePdf(s[1..]);
      assert forall c | c in s[1..] :: c in s;
      [s[0]] + r
  }

  /** A string without a '.' has nothing to remove. */
  lemma {:induction false} RemovePdfNoDot(s: string)
    requires '.' !in s
    ensures RemovePdf(s) == s
    decreases |s|
  {
    if s != [] {
      assert !(|s| >= 4 && s[..4] == ".pdf") by {
        if |s| >= 4 { assert s[..4][0] == s[0]; }
      }
      assert '.' !in s[1..] by {
        forall k | 0 <= k < |s| - 1 ensures s[1..][k] != '.' { assert s[1..][k] == s[k + 1]; }
      }
      RemovePdfNoDot(s[1..]);
    }
  }

  /** Every ".pdf" in the text is removed: a match never straddles the start
      of an occurrence, since ".pdf" overlaps itself nowhere. */
  lemma {:induction false} RemovePdfSplit(a: string, b: string)
    ensures RemovePdf(a + ".pdf" + b) == RemovePdf(a) + RemovePdf(b)
    decreases |a|
  {
    var s := a + ".pdf" + b;
    if a == [] {
      assert s[..4] == ".pdf" && s[4..] == b;
    } else if |a| >= 4 && a[..4] == ".pdf" {
      assert s[..4] == a[..4];
      assert s[4..] == a[4..] + ".pdf" + b;
      RemovePdfSplit(a[4..], b);
    } else {
      assert s[..4] != ".pdf" by {
        if |a| >= 4 {
          assert s[..4] == a[..4];
        } else if |a| == 1 {
          assert s[1] == '.';
        } else if |a| == 2 {
          assert s[2] == '.';
        } else {
          assert s[3] == '.';
        }
      }
      assert s[1..] == a[1..] + ".pdf" + b;
      RemovePdfSplit(a[1..], b);
      assert [a[0]] + (RemovePdf(a[1..]) + RemovePdf(b)) == ([a[0]] + RemovePdf(a[1..])) + RemovePdf(b);
      if |a| >= 4 {
        assert a[..4] != ".pdf";
      }
    }
  }

  /** `re.sub(r'[^a-z0-9\s]', ' ', ...)` on one character. */
  function KeepChar(c: char): (d: char)
    ensures IsWordChar(d) || IsSpace(d)
    ensures (IsWordChar(c) || IsSpace(c)) ==> d == c
  {
    if IsWordChar(c) || IsSpace(c) then c else ' '
  }

  function Filter(s: string): (r: string)
    ensures |r| == |s|
    ensures Filtered(r)
  {
    seq(|s|, k requires 0 <= k < |s| => KeepChar(s[k]))
  }

  /** The number of leading characters of `t` that are not whitespace. */
  function WordLength(t: string): (n: nat)
    ensures n <= |t|
    ensures forall k | 0 <= k < n :: !IsSpace(t[k])
    ensures n == |t| || IsSpace(t[n])
    decreases |t|
  {
    if t != [] && !IsSpace(t[0]) then 1 + WordLength(t[1..]) else 0
  }

  /** `s.split()`: the maximal runs of non-whitespace characters. */
  function Words(s: string): (ws: seq<string>)
    ensures forall i | 0 <= i < |ws| :: ws[i] != []
    decreases |s|
  {
    if s == [] then []
    else if IsSpace(s[0]) then Words(s[1..])
    else
      var n := WordLength(s);
      [s[..n]] + Words(s[n..])
  }

  /** Every character is a letter, a digit or whitespace. */
  predicate Filtered(s: string) {
    forall k | 0 <= k < |s| :: IsWordChar(s[k]) || IsSpace(s[k])
  }

  lemma FilteredSlice(s: string, a: nat, b: nat)
    requires Filtered(s) && a <= b <= |s|
    ensures Filtered(s[a..b])
  {
    forall k | 0 <= k < b - a ensures IsWordChar(s[a..b][k]) || IsSpace(s[a..b][k]) {
      assert s[a..b][k] == s[a + k];
    }
  }

  /** The words of a filtered string are letters and digits only. */
  lemma {:induction false} WordsOfFiltered(s: string)
    requires Filtered(s)
    ensures forall i | 0 <= i < |Words(s)| :: IsWord(Words(s)[i])
    decreases |s|
  {
    if s != [] {
      if IsSpace(s[0]) {
        FilteredSlice(s, 1, |s|);
        assert s[1..|s|] == s[1..];
        WordsOfFiltered(s[1..]);
      } else {
        var n := WordLength(s);
        FilteredSlice(s, n, |s|);
        assert s[n..|s|] == s[n..];
        WordsOfFiltered(s[n..]);
        assert IsWord(s[..n]) by {
          forall k | 0 <= k < n ensures IsWordChar(s[..n][k]) {
            assert s[..n][k] == s[k];
          }
        }
        AllWordsCons(s[..n], Words(s[n..]));
      }
    }
  }

  lemma AllWordsCons(w: string, ws: seq<string>)
    requires IsWord(w) && forall i | 0 <= i < |ws| :: IsWord(ws[i])
    ensures forall i | 0 <= i < |[w] + ws| :: IsWord(([w] + ws)[i])
  {
    forall i | 0 <= i < |[w] + ws| ensures IsWord(([w] + ws)[i]) {
      if i > 0 { assert ([w] + ws)[i] == ws[i - 1]; }
    }
  }

  lemma SplitAt(t: string, n: nat)
    requires n < |t|
    ensures t == t[..n] + [t[n]] + t[n + 1..]
  {
  }

  /** Words of a string that starts with a non-space character. */
  lemma WordsUnfold(t: string)
    requires t != [] && !IsSpace(t[0])
    ensures Words(t) == [t[..WordLength(t)]] + Words(t[WordLength(t)..])
  {
  }

  /** Leading whitespace does not change the words. */
  lemma WordsSkipSpace(t: string)
    requires t != [] && IsSpace(t[0])
    ensures Words(t) == Words(t[1..])
  {
  }

  lemma JoinCons(sep: string, w: string, ws: seq<string>)
    requires ws != []
    ensures Join(sep, [w] + ws) == w + sep + Join(sep, ws)
  {
    assert ([w] + ws)[1..] == ws;
  }

  /** The text after a space of a normal string is normal. */
  lemma NormalAfterSpace(t: string, m: nat)
    requires Normal(t) && 0 < m <= |t| && t[m - 1] == ' '
    ensures Normal(t[m..])
  {
    var u := t[m..];
    forall k | 0 <= k < |u| ensures u[k] == t[m + k] { }
    assert !DoubleSpaceAt(t, m - 1);
    forall k | 0 <= k < |u| ensures !DoubleSpaceAt(u, k) {
      assert !DoubleSpaceAt(t, m + k);
    }
  }

  /** The shape of `normalize_text`'s output: lower-case letters, digits and
      single spaces, with no space at either end. */
  predicate Normal(s: string) {
    && (forall k | 0 <= k < |s| :: IsWordChar(s[k]) || s[k] == ' ')
    && (s == [] || (s[0] != ' ' && s[|s| - 1] != ' '))
    && (forall k | 0 <= k < |s| :: !DoubleSpaceAt(s, k))
  }

  /** Two spaces in a row start at `k`. */
  predicate DoubleSpaceAt(s: string, k: int) {
    0 <= k && k + 1 < |s| && s[k] == ' ' && s[k + 1] == ' '
  }

  predicate IsWord(w: string) {
    w != [] && forall k | 0 <= k < |w| :: IsWordChar(w[k])
  }

  /** Joining words with single spaces gives a normal string. */
  lemma {:induction false} JoinNormal(ws: seq<string>)
    requires forall i | 0 <= i < |ws| :: IsWord(ws[i])
    ensures Normal(Join(" ", ws))
    ensures ws != [] ==> Join(" ", ws) != []
    decreases |ws|
  {
    if |ws| >= 2 {
      var w := ws[0];
      var rest := Join(" ", ws[1..]);
      JoinNormal(ws[1..]);
      var j := Join(" ", ws);
      assert j == w + " " + rest;
      forall k | 0 <= k < |j| ensures !DoubleSpaceAt(j, k) {
        if !(0 <= k < |j| - 1) {
        } else if k < |w| {
          assert j[k] == w[k];
        } else if k == |w| {
          assert j[k + 1] == rest[0];
        } else {
          assert j[k] == rest[k - |w| - 1] && j[k + 1] == rest[k - |w|];
          assert !DoubleSpaceAt(rest, k - |w| - 1);
        }
      }
      forall k | 0 <= k < |j| ensures IsWordChar(j[k]) || j[k] == ' ' {
        if k < |w| {
          assert j[k] == w[k];
        } else if k > |w| {
          assert j[k] == rest[k - |w| - 1];
        }
      }
      assert j[|j| - 1] == rest[|rest| - 1];
    }
  }

  /** `normalize_text`: lower-case, drop ".pdf", blank out everything but
      letters, digits and whitespace, and collapse whitespace. */
  function Normalize(s: string): (r: string)
    ensures Normal(r)
  {
    var filtered := Filter(RemovePdf(Lower(s)));
    var ws := Words(filtered);
    WordsOfFiltered(filtered);
    JoinNormal(ws);
    Join(" ", ws)
  }

  /** Splitting a normal string and joining it with single spaces gives it
      back. */
  lemma {:induction false} NormalJoinWords(t: string)
    requires Normal(t)
    ensures Join(" ", Words(t)) == t
    decreases |t|
  {
    if t != [] {
      var n := WordLength(t);
      if n < |t| {
        assert t[n] == ' ' && n + 1 < |t|;
        assert !DoubleSpaceAt(t, n);
        NormalAfterSpace(t, n + 1);
        NormalJoinWords(t[n + 1..]);
        JoinWordsStep(t, n);
      } else {
        assert !IsSpace(t[0]);
        WordsUnfold(t);
        assert t[..n] == t && t[n..] == [];
      }
    }
  }

  /** The induction step of `NormalJoinWords`: the first word, one space,
      and a rest that round-trips already. */
  lemma JoinWordsStep(t: string, n: nat)
    requires t != [] && !IsSpace(t[0]) && n == WordLength(t)
    requires n + 1 < |t| && t[n] == ' ' && !IsSpace(t[n + 1])
    requires Join(" ", Words(t[n + 1..])) == t[n + 1..]
    ensures Join(" ", Words(t)) == t
  {
    var w := t[..n];
    var u := t[n + 1..];
    WordsUnfold(t);
    assert t[n..][1..] == u;
    WordsSkipSpace(t[n..]);
    WordsUnfold(u);
    SplitAt(t, n);
    JoinCons(" ", w, Words(u));
  }

  /** Normalising twice is normalising once. */
  lemma NormalizeIdempotent(s: string)
    ensures Normalize(Normalize(s)) == Normalize(s)
  {
    var t := Normalize(s);
    assert Lower(t) == t by {
      forall k | 0 <= k < |t| ensures Lower(t)[k] == t[k] {
        assert IsWordChar(t[k]) || t[k] == ' ';
      }
    }
    assert RemovePdf(t) == t by {
      assert '.' !in t by {
        forall k | 0 <= k < |t| ensures t[k] != '.' {
          assert IsWordChar(t[k]) || t[k] == ' ';
        }
      }
      RemovePdfNoDot(t);
    }
    assert Filter(t) == t by {
      forall k | 0 <= k < |t| ensures Filter(t)[k] == t[k] {
        assert IsWordChar(t[k]) || t[k] == ' ';
      }
    }
    NormalJoinWords(t);
  }

  // ---------------------------------------------------------------------------
  // find_best_local_match

  /** A similarity score of the fuzzy-matching library. */
  type Score = x: int | 0 <= x <= 100

  /** The loop state after scanning `files` with strict `>`: the first file
      with the highest score, starting from `(None, -1)`. */
  function BestMatch(files: seq<string>, score: string -> Score): (r: (Option<string>, int))
    ensures files == [] <==> r == (None, -1)
    ensures files != [] ==> r.0.Some? && 0 <= r.1 <= 100
    ensures forall j | 0 <= j < |files| :: score(files[j]) <= r.1
    ensures r.0.Some? ==> r.0.value in files && r.1 == score(r.0.value)
    decreases |files|
  {
    if files == [] then (None, -1)
    else
      var prev := BestMatch(files[..|files| - 1], score);
      var last := files[|files| - 1];
      assert forall f | f in files[..|files| - 1] :: f in files;
      if score(last) > prev.1 then (Some(last), score(last)) else prev
  }

  /** The best match is the first file whose score is the maximum. */
  lemma {:induction false} BestMatchFirstMaximum(files: seq<string>, score: string -> Score, i: nat)
    requires i < |files|
    requires forall j | 0 <= j < |files| :: score(files[j]) <= score(files[i])
    requires forall j | 0 <= j < i :: score(files[j]) < score(files[i])
    ensures BestMatch(files, score) == (Some(files[i]), score(files[i]))
    decreases |files|
  {
    var init := files[..|files| - 1];
    if i < |files| - 1 {
      BestMatchFirstMaximum(init, score, i);
    } else {
      var prev := BestMatch(init, score);
      assert prev.1 < score(files[i]) by {
        if prev.0.Some? {
          var f := prev.0.value;
          var j :| 0 <= j < |init| && init[j] == f;
          assert files[j] == f;
        }
      }
    }
  }

  /** `find_best_local_match`: both sides are normalised, then scored. */
  function LocalMatch(citation: string, files: seq<string>, ratio: (string, string) -> Score): (r: (Option<string>, int))
    ensures files == [] ==> r == (None, -1)
    ensures files != [] ==> r.0.Some? && r.0.value in files && 0 <= r.1 <= 100
    ensures forall f | f in files :: ratio(Normalize(citation), Normalize(f)) <= r.1
    ensures r.0.Some? ==> r.1 == ratio(Normalize(citation), Normalize(r.0.value))
    ensures files != [] ==> exists i | 0 <= i < |files| ::
              && r.0 == Some(files[i])
              && forall k | 0 <= k < i :: ratio(Normalize(citation), Normalize(files[k])) < r.1
  {
    var score := f => ratio(Normalize(citation), Normalize(f));
    BestMatchFirst(files, score);
    BestMatch(files, score)
  }

  /** Ties go to the earliest file: the match sits at an index before which
      every file scores strictly less. */
  lemma {:induction false} BestMatchFirst(files: seq<string>, score: string -> Score)
    ensures files != [] ==> exists i | 0 <= i < |files| ::
              && BestMatch(files, score).0 == Some(files[i])
              && forall k | 0 <= k < i :: score(files[k]) < BestMatch(files, score).1
  {
    if files != [] {
      var r := BestMatch(files, score);
      var m := r.1;
      var j :| 0 <= j < |files| && files[j] == r.0.value;
      var i := 0;
      while score(files[i]) != m
        invariant i <= j
        invariant forall k | 0 <= k < i :: score(files[k]) < m
        decreases j - i
      {
        i := i + 1;
      }
      BestMatchFirstMaximum(files, score, i);
      assert r.0 == Some(files[i]);
    }
  }

  /** The local PDFs: the directory entries whose lower-cased name ends in
      ".pdf", in listing order. */
  function PdfFiles(listing: seq<string>): (r: seq<string>)
    ensures forall f :: f in r <==> f in listing && EndsWith(Lower(f), ".pdf")
    ensures multiset(r) <= multiset(listing)
  {
    SelectMultiset(listing, IsPdfName);
    Select(listing, IsPdfName)
  }

  predicate IsPdfName(f: string) {
    EndsWith(Lower(f), ".pdf")
  }

  /** The candidates of two listings are those of the first followed by
      those of the second: the listing order is kept. */
  lemma PdfFilesAppend(a: seq<string>, b: seq<string>)
    ensures PdfFiles(a + b) == PdfFiles(a) + PdfFiles(b)
  {
    SelectAppend(a, b, IsPdfName);
  }

  // ---------------------------------------------------------------------------
  // Resume and queueing

  /** The Method values that mean "not analysed yet". */
  predicate Unresolved(methodology: Option<string>) {
    CellText(methodology) in {"nan", "", "None", "Unknown"}
  }

  /** The row filters before matching: unresolved Method, a non-empty
      citation without "---", and a Link without "Online Link Only". */
  predicate Candidate(row: Formatting.SheetRow) {
    && Unresolved(row.methodology)
    && CellText(row.fullCitation) != ""
    && !Contains(CellText(row.fullCitation), "---")
    && !Contains(CellText(row.link), "Online Link Only")
  }

  /** The score a row must beat. */
  const MatchThreshold: int := 85

  predicate Queued(row: Formatting.SheetRow, files: seq<string>, ratio: (string, string) -> Score) {
    Candidate(row) && LocalMatch(CellText(row.fullCitation), files, ratio).1 > MatchThreshold
  }

  /** The file a row is queued with, when it is queued. */
  function Pick(row: Formatting.SheetRow, files: seq<string>, ratio: (string, string) -> Score): (r: Option<string>)
    ensures r.Some? <==> Queued(row, files, ratio)
    ensures r.Some? ==> r.value in files && r == LocalMatch(CellText(row.fullCitation), files, ratio).0
  {
    if Candidate(row) then
      var m := LocalMatch(CellText(row.fullCitation), files, ratio);
      if m.1 > MatchThreshold then m.0 else None
    else None
  }

  datatype Task = Task(row: nat, file: string)

  /** The rows of a task list, in order. */
  function Rows(tasks: seq<Task>): (rows: seq<nat>)
    ensures |rows| == |tasks| && forall k | 0 <= k < |tasks| :: rows[k] == tasks[k].row
  {
    seq(|tasks|, k requires 0 <= k < |tasks| => tasks[k].row)
  }

  /** The task list from row `i` on: the picked rows, in order, each with
      its pick. */
  function TasksFrom(table: seq<Formatting.SheetRow>, pick: Formatting.SheetRow -> Option<string>, i: nat)
    : (tasks: seq<Task>)
    requires i <= |table|
    ensures forall k | 0 <= k < |tasks| ::
              i <= tasks[k].row < |table| && pick(table[tasks[k].row]) == Some(tasks[k].file)
    ensures forall k, l | 0 <= k < l < |tasks| :: tasks[k].row < tasks[l].row
    decreases |table| - i
  {
    if i == |table| then []
    else
      var rest := TasksFrom(table, pick, i + 1);
      match pick(table[i])
      case None => rest
      case Some(f) => [Task(i, f)] + rest
  }

  /** No picked row from `i` on is left out of the task list. */
  lemma {:induction false} TasksFromComplete(table: seq<Formatting.SheetRow>,
                                             pick: Formatting.SheetRow -> Option<string>, i: nat)
    requires i <= |table|
    ensures forall j: nat | i <= j < |table| && pick(table[j]).Some? :: j in Rows(TasksFrom(table, pick, i))
    decreases |table| - i
  {
    if i < |table| {
      TasksFromComplete(table, pick, i + 1);
      var rest := TasksFrom(table, pick, i + 1);
      if pick(table[i]).Some? {
        var t := Task(i, pick(table[i]).value);
        assert TasksFrom(table, pick, i) == [t] + rest;
        assert Rows([t] + rest) == [i] + Rows(rest);
      }
    }
  }

  /** `tasks` in `run_fast_pipeline`: a row is queued exactly when it is a
      candidate whose best score beats the threshold. `files` is
      `local_pdfs`, that is `PdfFiles` of the folder listing. */
  function Tasks(table: seq<Formatting.SheetRow>, files: seq<string>, ratio: (string, string) -> Score): (tasks: seq<Task>)
    ensures forall k | 0 <= k < |tasks| ::
              && tasks[k].row < |table|
              && Queued(table[tasks[k].row], files, ratio)
              && LocalMatch(CellText(table[tasks[k].row].fullCitation), files, ratio).0 == Some(tasks[k].file)
    ensures forall k, l | 0 <= k < l < |tasks| :: tasks[k].row < tasks[l].row
    ensures forall j: nat | j < |table| :: j in Rows(tasks) <==> Queued(table[j], files, ratio)
  {
    var pick := row => Pick(row, files, ratio);
    TasksFromComplete(table, pick, 0);
    TasksFrom(table, pick, 0)
  }

  /** The separator row of stage 4 is never queued. */
  lemma SeparatorNeverQueued(files: seq<string>, ratio: (string, string) -> Score)
    ensures !Queued(Formatting.Separator, files, ratio)
  {
    assert Formatting.SeparatorText[0..3] == Formatting.SeparatorMark;
    assert OccursAt(Formatting.SeparatorText, "---", 0);
  }

  /** On a sheet fresh from stage 4 every data row has an unresolved Method,
      and the separator's does not count as unresolved. */
  lemma FreshSheetUnresolved(rows: seq<Download.Triaged>)
    ensures var ga := Formatting.Group(rows, Formatting.InGroupA);
            var sheet := Formatting.Layout(rows);
            forall k | 0 <= k < |sheet| :: Unresolved(sheet[k].methodology) <==> k != |ga|
  {
    Formatting.LayoutShape(rows);
  }

  // ---------------------------------------------------------------------------
  // analyze_single_paper

  /** What one analysis call ends in: the uploaded file fails processing, any
      step raises, or the model's reply parses to an object with the keys
      "methodology" and "reason" present, null or missing. */
  datatype AnalysisOutcome =
    | IngestFailed
    | Raised(message: string)
    | Replied(methodology: Field<string>, reason: Field<string>)

  /** The Method and reason `analyze_single_paper` returns; `None` is the
      Python null of a JSON `null` value. */
  datatype Analysed = Analysed(methodology: Option<string>, reason: Option<string>)

  function MapOutcome(o: AnalysisOutcome): (r: Analysed)
    ensures o.IngestFailed? ==> r == Analysed(Some("Error"), Some("File processing failed"))
    ensures o.Raised? ==> r == Analysed(Some("Error"), Some(o.message))
    ensures o.Replied? ==> r.methodology == JsonGet(o.methodology, "Unknown")
                           && r.reason == JsonGet(o.reason, "")
  {
    match o
    case IngestFailed => Analysed(Some("Error"), Some("File processing failed"))
    case Raised(m) => Analysed(Some("Error"), Some(m))
    case Replied(m, why) => Analysed(JsonGet(m, "Unknown"), JsonGet(why, ""))
  }

  /** Which outcomes leave their row eligible again on resume: failures never;
      replies exactly when the methodology is missing, null, or itself one of
      the "not analysed" texts. */
  lemma ResumeEligibility(o: AnalysisOutcome)
    ensures Unresolved(MapOutcome(o).methodology) <==>
              o.Replied? && (o.methodology.Missing? || o.methodology.Null?
                             || o.methodology.value in {"nan", "", "None", "Unknown"})
  {
  }

  // ---------------------------------------------------------------------------
  // Writing completions back

  datatype Completion = Completion(row: nat, methodology: Option<string>)

  /** `df.at[row_idx, "Method"] = method` under the lock. */
  function Apply(table: seq<Formatting.SheetRow>, c: Completion): (r: seq<Formatting.SheetRow>)
    requires c.row < |table|
    ensures |r| == |table|
    ensures r[c.row].methodology == c.methodology
    ensures forall j | 0 <= j < |r| :: r[j] == table[j].(methodology := r[j].methodology)
    ensures forall j | 0 <= j < |r| && j != c.row :: r[j] == table[j]
  {
    table[c.row := table[c.row].(methodology := c.methodology)]
  }

  predicate InTable(table: seq<Formatting.SheetRow>, cs: seq<Completion>) {
    forall c | c in cs :: c.row < |table|
  }

  /** The completions in the order the pool hands them over. */
  function ApplyAll(table: seq<Formatting.SheetRow>, cs: seq<Completion>): (r: seq<Formatting.SheetRow>)
    requires InTable(table, cs)
    ensures |r| == |table|
    ensures forall j | 0 <= j < |r| :: r[j] == table[j].(methodology := r[j].methodology)
    decreases |cs|
  {
    if cs == [] then table
    else ApplyAll(Apply(table, cs[0]), cs[1..])
  }

  /** No two different completions name the same row. */
  predicate Consistent(cs: seq<Completion>) {
    forall c, d | c in cs && d in cs && c.row == d.row :: c == d
  }

  /** With consistent completions, each named row ends with its completion's
      Method and every other row is untouched, whatever the order. */
  lemma {:induction false} ApplyAllEffect(table: seq<Formatting.SheetRow>, cs: seq<Completion>)
    requires InTable(table, cs) && Consistent(cs)
    ensures forall c | c in cs :: ApplyAll(table, cs)[c.row] == table[c.row].(methodology := c.methodology)
    ensures forall j | 0 <= j < |table| && (forall c | c in cs :: c.row != j) :: ApplyAll(table, cs)[j] == table[j]
    decreases |cs|
  {
    if cs != [] {
      var c0 := cs[0];
      var rest := cs[1..];
      var t1 := Apply(table, c0);
      assert forall c | c in rest :: c in cs;
      ApplyAllEffect(t1, rest);
      assert ApplyAll(table, cs) == ApplyAll(t1, rest);
      forall c | c in cs
        ensures ApplyAll(table, cs)[c.row] == table[c.row].(methodology := c.methodology)
      {
        if c !in rest {
          assert c == c0;
          assert forall d | d in rest :: d.row != c.row;
        }
      }
    }
  }

  /** The final table does not depend on the order in which the completions
      arrive. */
  lemma CompletionOrderIrrelevant(table: seq<Formatting.SheetRow>, cs1: seq<Completion>, cs2: seq<Completion>)
    requires InTable(table, cs1) && Consistent(cs1)
    requires multiset(cs1) == multiset(cs2)
    ensures InTable(table, cs2)
    ensures ApplyAll(table, cs1) == ApplyAll(table, cs2)
  {
    assert forall c :: c in cs1 <==> c in cs2 by {
      forall c ensures c in cs1 <==> c in cs2 {
        assert c in cs1 <==> c in multiset(cs1);
        assert c in cs2 <==> c in multiset(cs2);
      }
    }
    ApplyAllEffect(table, cs1);
    ApplyAllEffect(table, cs2);
  }

  /** The completions of a task list, in task order. */
  function Completions(tasks: seq<Task>, outcomes: seq<AnalysisOutcome>): (cs: seq<Completion>)
    requires |outcomes| == |tasks|
    ensures |cs| == |tasks|
    ensures forall k | 0 <= k < |cs| :: cs[k].row == tasks[k].row
    ensures forall k | 0 <= k < |cs| :: cs[k].methodology == MapOutcome(outcomes[k]).methodology
  {
    seq(|tasks|, k requires 0 <= k < |tasks| => Completion(tasks[k].row, MapOutcome(outcomes[k]).methodology))
  }

  /** A whole run: whatever order the completions arrive in, every queued row
      ends with the Method its own outcome maps to, only the Method column
      changes, and rows that were not queued are untouched. */
  lemma RunEffect(table: seq<Formatting.SheetRow>, tasks: seq<Task>, outcomes: seq<AnalysisOutcome>,
                  arrived: seq<Completion>)
    requires |outcomes| == |tasks|
    requires forall k | 0 <= k < |tasks| :: tasks[k].row < |table|
    requires forall k, l | 0 <= k < l < |tasks| :: tasks[k].row < tasks[l].row
    requires multiset(arrived) == multiset(Completions(tasks, outcomes))
    ensures InTable(table, arrived)
    ensures var r := ApplyAll(table, arrived);
            && (forall k | 0 <= k < |tasks| ::
                  r[tasks[k].row] == table[tasks[k].row].(methodology := MapOutcome(outcomes[k]).methodology))
            && (forall j | 0 <= j < |table| && (forall k | 0 <= k < |tasks| :: tasks[k].row != j) :: r[j] == table[j])
  {
    var done := Completions(tasks, outcomes);
    assert Consistent(done) by {
      forall c, d | c in done && d in done && c.row == d.row ensures c == d {
        var x :| 0 <= x < |done| && done[x] == c;
        var y :| 0 <= y < |done| && done[y] == d;
        assert x == y;
      }
    }
    assert InTable(table, done);
    CompletionOrderIrrelevant(table, done, arrived);
    ApplyAllEffect(table, done);
    assert forall k | 0 <= k < |tasks| :: done[k] in done;
  }

  // ---------------------------------------------------------------------------
  // Resuming

  /** A second run over the table a first run left behind queues exactly the
      first run's rows whose new Method still reads as unresolved; every
      other row is skipped. So resuming repeats no finished analysis, but it
      does repeat one whose reply lacked a usable methodology. */
  lemma {:induction false} ResumeRequeues(table: seq<Formatting.SheetRow>, files: seq<string>,
                                          ratio: (string, string) -> Score,
                                          outcomes: seq<AnalysisOutcome>, arrived: seq<Completion>)
    requires |outcomes| == |Tasks(table, files, ratio)|
    requires multiset(arrived) == multiset(Completions(Tasks(table, files, ratio), outcomes))
    ensures InTable(table, arrived)
    ensures var tasks := Tasks(table, files, ratio);
            var next := ApplyAll(table, arrived);
            forall j: nat | j < |table| ::
              j in Rows(Tasks(next, files, ratio)) <==> j in Rows(tasks) && Unresolved(next[j].methodology)
    ensures var tasks := Tasks(table, files, ratio);
            (forall k | 0 <= k < |tasks| :: !Unresolved(MapOutcome(outcomes[k]).methodology))
              ==> Tasks(ApplyAll(table, arrived), files, ratio) == []
  {
    var tasks := Tasks(table, files, ratio);
    RunEffect(table, tasks, outcomes, arrived);
    var next := ApplyAll(table, arrived);
    RequeuedRows(table, files, ratio, tasks, outcomes, next);
    var again := Tasks(next, files, ratio);
    if forall k | 0 <= k < |tasks| :: !Unresolved(MapOutcome(outcomes[k]).methodology) {
      forall j: nat | j < |table| ensures j !in Rows(again) {
        if j in Rows(tasks) {
          var k :| 0 <= k < |tasks| && Rows(tasks)[k] == j;
        }
      }
      FirstRowListed(again);
    }
  }

  /** The row-by-row half of `ResumeRequeues`, given the effect of the run. */
  lemma RequeuedRows(table: seq<Formatting.SheetRow>, files: seq<string>, ratio: (string, string) -> Score,
                     tasks: seq<Task>, outcomes: seq<AnalysisOutcome>, next: seq<Formatting.SheetRow>)
    requires tasks == Tasks(table, files, ratio) && |outcomes| == |tasks| && |next| == |table|
    requires forall k | 0 <= k < |tasks| ::
               next[tasks[k].row] == table[tasks[k].row].(methodology := MapOutcome(outcomes[k]).methodology)
    requires forall j | 0 <= j < |table| && (forall k | 0 <= k < |tasks| :: tasks[k].row != j) :: next[j] == table[j]
    ensures forall j: nat | j < |table| ::
              j in Rows(Tasks(next, files, ratio)) <==> j in Rows(tasks) && Unresolved(next[j].methodology)
  {
    var again := Tasks(next, files, ratio);
    forall j: nat | j < |table|
      ensures j in Rows(again) <==> j in Rows(tasks) && Unresolved(next[j].methodology)
    {
      if j in Rows(tasks) {
        var k :| 0 <= k < |tasks| && Rows(tasks)[k] == j;
        assert next[j] == table[j].(methodology := MapOutcome(outcomes[k]).methodology);
        assert Queued(table[j], files, ratio);
      } else {
        assert forall k | 0 <= k < |tasks| :: tasks[k].row != j by {
          forall k | 0 <= k < |tasks| ensures tasks[k].row != j {
            assert Rows(tasks)[k] == tasks[k].row;
          }
        }
        assert next[j] == table[j];
      }
    }
  }

  lemma FirstRowListed(tasks: seq<Task>)
    ensures tasks != [] ==> tasks[0].row in Rows(tasks)
  {
    if tasks != [] {
      assert Rows(tasks)[0] == tasks[0].row;
    }
  }
}
