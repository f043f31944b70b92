/** Stage 2 (relevance screening): the bookkeeping around the classification
    service. Every paper gets a pre-flight check; the papers that pass are cut
    into consecutive batches of 20; each batch is sent to the service with at
    most three attempts; the decisions that come back are merged into the table
    by temporary id; and only the rows marked included are written out. The
    service itself is a parameter: per batch, the outcomes its successive
    calls would have. */
module Screening {
  import opened Values
  import opened Text

  const BatchSize: nat := 20
  const MinAbstractLength: nat := 50
  const RequireDoi: bool := false
  const MaxAttempts: nat := 3

  /** Lower-case phrases that mark a placeholder instead of a real abstract. */
  const PlaceholderPhrases: seq<string> := ["no abstract", "abstract available", "see full text"]

  // ---------------------------------------------------------------------------
  // Data model

  /** The columns of an input row that the stage reads. */
  datatype Paper = Paper(title: Option<string>, abstractText: Option<string>, doi: Option<string>)

  /** A row of the working table: `Temp_ID`, the paper, `Included` and
      `Rejection_Reason`. The last two are `None` once a `null` from the
      service has been written into them. */
  datatype Row = Row(tempId: nat, paper: Paper, included: Option<bool>, reason: Option<string>)

  /** One object of the service's JSON reply. `id` is the integer that the
      `ID` value equals under Python's `==` (so `5.0` counts as 5 and `true`
      as 1), or `None` when the key is absent or `null`, or holds a string
      or a number equal to no integer (such as "5" or 5.5); such an id
      matches no row. An `ID` that is a list or an object cannot be a dict
      key: storing it raises and ends the run, which is not modelled.
      `Included` and `Reason` keep an absent key and a `null` apart. */
  datatype Decision = Decision(id: Option<int>, included: Field<bool>, reason: Field<string>)

  /** What one call to the service produced: a parsed list of decisions, or an
      exception (transport, service or JSON-decoding) with its message. A
      reply that parses to an empty object or an empty string iterates like
      an empty list, so it is `Reply([])`. */
  datatype CallOutcome = Reply(decisions: seq<Decision>) | Failure(message: string)

  datatype Verdict = Verdict(passed: bool, reason: string)

  // ---------------------------------------------------------------------------
  // Pre-flight

  /** `str(paper.get('Abstract', ''))`: a missing abstract reads "nan". */
  function AbstractText(p: Paper): string {
    CellText(p.abstractText)
  }

  predicate HasPlaceholder(text: string) {
    exists i | 0 <= i < |PlaceholderPhrases| :: Contains(Lower(text), PlaceholderPhrases[i])
  }

  /** `pre_flight_check`: the length test runs first, then the placeholder
      test, then (switched off) the DOI test. */
  function PreFlight(p: Paper): (v: Verdict)
    ensures |AbstractText(p)| < MinAbstractLength ==> v == Verdict(false, "Abstract too short")
    ensures (|AbstractText(p)| >= MinAbstractLength && HasPlaceholder(AbstractText(p)))
              ==> v == Verdict(false, "Placeholder text")
    ensures v.passed <==> |AbstractText(p)| >= MinAbstractLength && !HasPlaceholder(AbstractText(p))
    ensures v.passed ==> v.reason == "Passed"
  {
    var text := AbstractText(p);
    if |text| < MinAbstractLength then Verdict(false, "Abstract too short")
    else if HasPlaceholder(text) then Verdict(false, "Placeholder text")
    else if RequireDoi && p.doi.None? then Verdict(false, "Missing DOI")
    else Verdict(true, "Passed")
  }

  // ---------------------------------------------------------------------------
  // The retry policy of one batch

  predicate IsRateLimited(message: string) {
    Contains(message, "429") || Contains(message, "RESOURCE_EXHAUSTED")
  }

  /** An outcome after which the batch is tried again. */
  predicate Retryable(o: CallOutcome) {
    o.Failure? && IsRateLimited(o.message)
  }

  /** The decisions a batch yields, and how many service calls it took. */
  datatype BatchResult = BatchResult(decisions: seq<Decision>, calls: nat)

  /** The attempts from `attempt` on. A reply ends the batch with its
      decisions; a rate-limit failure moves on to the next attempt, or gives
      up with no decisions after the last one; any other failure gives up at
      once. */
  function Attempt(outcomes: seq<CallOutcome>, attempt: nat): (r: BatchResult)
    requires attempt < MaxAttempts <= |outcomes|
    ensures attempt < r.calls <= MaxAttempts
    ensures forall k | attempt <= k < r.calls - 1 :: Retryable(outcomes[k])
    ensures r.calls < MaxAttempts ==> !Retryable(outcomes[r.calls - 1])
    ensures r.decisions == (if outcomes[r.calls - 1].Reply? then outcomes[r.calls - 1].decisions else [])
    decreases MaxAttempts - attempt
  {
    match outcomes[attempt]
    case Reply(ds) => BatchResult(ds, attempt + 1)
    case Failure(message) =>
      if !IsRateLimited(message) then BatchResult([], attempt + 1)
      else if attempt + 1 < MaxAttempts then Attempt(outcomes, attempt + 1)
      else BatchResult([], MaxAttempts)
  }

  /** `screen_batch`, with `outcomes[k]` the result of the k-th call. At most
      three calls are made; every call but the last hit the rate limit; the
      last is a reply, a failure of another kind, or the third rate-limit
      failure; and only a reply yields decisions. */
  function ScreenBatch(outcomes: seq<CallOutcome>): (r: BatchResult)
    requires |outcomes| >= MaxAttempts
    ensures 1 <= r.calls <= MaxAttempts
    ensures forall k | 0 <= k < r.calls - 1 :: Retryable(outcomes[k])
    ensures r.calls < MaxAttempts ==> !Retryable(outcomes[r.calls - 1])
    ensures r.decisions == (if outcomes[r.calls - 1].Reply? then outcomes[r.calls - 1].decisions else [])
  {
    Attempt(outcomes, 0)
  }

  /** A service that is rate-limited on every call is called exactly three
      times and the batch yields nothing. */
  lemma RateLimitExhaustion(outcomes: seq<CallOutcome>)
    requires |outcomes| >= MaxAttempts
    requires forall k | 0 <= k < MaxAttempts :: Retryable(outcomes[k])
    ensures ScreenBatch(outcomes) == BatchResult([], MaxAttempts)
  {
  }

  /** A failure that is not a rate limit stops the batch after that call. */
  lemma OtherFailureStops(outcomes: seq<CallOutcome>, k: nat)
    requires |outcomes| >= MaxAttempts && k < MaxAttempts
    requires forall j | 0 <= j < k :: Retryable(outcomes[j])
    requires outcomes[k].Failure? && !IsRateLimited(outcomes[k].message)
    ensures ScreenBatch(outcomes) == BatchResult([], k + 1)
  {
  }

  // ---------------------------------------------------------------------------
  // Batching

  function Min(a: int, b: int): int {
    if a <= b then a else b
  }

  /** `ceil(n / BatchSize)`. */
  function BatchCountFor(n: nat): nat {
    (n + BatchSize - 1) / BatchSize
  }

  /** `xs[i : i + BatchSize]` for `i` in `range(0, len(xs), BatchSize)`. */
  function Batches<T>(xs: seq<T>): (bs: seq<seq<T>>)
    ensures |bs| == BatchCountFor(|xs|)
  {
    seq(BatchCountFor(|xs|), b requires 0 <= b < BatchCountFor(|xs|) =>
      xs[b * BatchSize .. Min(b * BatchSize + BatchSize, |xs|)])
  }

  function Concat<T>(bs: seq<seq<T>>): seq<T> {
    if bs == [] then [] else bs[0] + Concat(bs[1..])
  }

  /** After the first batch, the batches are those of the rest of the list. */
  lemma BatchesUnfold<T>(xs: seq<T>)
    requires |xs| > 0
    ensures Batches(xs) == [xs[..Min(BatchSize, |xs|)]] + Batches(xs[Min(BatchSize, |xs|)..])
  {
    var bs := Batches(xs);
    var rest := xs[Min(BatchSize, |xs|)..];
    var tail := Batches(rest);
    assert |bs| == |tail| + 1;
    forall b | 1 <= b < |bs| ensures bs[b] == tail[b - 1] {
      assert (b - 1) * BatchSize + BatchSize == b * BatchSize;
    }
  }

  /** The batches are non-empty, hold at most twenty items each, and
      concatenate back to the list in order. */
  lemma {:induction false} BatchesPartition<T>(xs: seq<T>)
    ensures forall b | 0 <= b < |Batches(xs)| :: 0 < |Batches(xs)[b]| <= BatchSize
    ensures Concat(Batches(xs)) == xs
    decreases |xs|
  {
    if xs != [] {
      BatchesUnfold(xs);
      BatchesPartition(xs[Min(BatchSize, |xs|)..]);
    }
  }

  lemma {:induction false} ConcatMember<T>(bs: seq<seq<T>>, b: nat, j: nat)
    requires b < |bs| && j < |bs[b]|
    ensures bs[b][j] in Concat(bs)
    decreases b
  {
    if b > 0 {
      ConcatMember(bs[1..], b - 1, j);
    }
  }

  // ---------------------------------------------------------------------------
  // The table

  /** `df['Temp_ID'] = range(len(df))`, `Included` False and an empty reason. */
  function InitialRows(papers: seq<Paper>): (rows: seq<Row>)
    ensures |rows| == |papers|
  {
    seq(|papers|, i requires 0 <= i < |papers| => Row(i, papers[i], Some(false), Some("")))
  }

  /** A row whose paper fails pre-flight is marked "Auto-Reject: {reason}". */
  function PreFlightRow(r: Row): Row {
    var v := PreFlight(r.paper);
    if v.passed then r else r.(included := Some(false), reason := Some("Auto-Reject: " + v.reason))
  }

  function PreFlightAll(rows: seq<Row>): (out: seq<Row>)
    ensures |out| == |rows|
  {
    seq(|rows|, i requires 0 <= i < |rows| => PreFlightRow(rows[i]))
  }

  /** The papers queued for the service, in table order. */
  function Queue(rows: seq<Row>): (q: seq<Row>)
    ensures forall r :: r in q <==> r in rows && PreFlight(r.paper).passed
    ensures IncreasingIds(rows) ==> IncreasingIds(q)
  {
    SelectIncreasing(rows, Passes);
    Select(rows, Passes)
  }

  predicate Passes(r: Row) {
    PreFlight(r.paper).passed
  }

  /** Papers that fail pre-flight never reach a batch, and every paper that
      passes sits in some batch. */
  lemma BatchesHoldOnlyPassing(rows: seq<Row>)
    ensures forall b, j | 0 <= b < |Batches(Queue(rows))| && 0 <= j < |Batches(Queue(rows))[b]| ::
              Batches(Queue(rows))[b][j] in rows && PreFlight(Batches(Queue(rows))[b][j].paper).passed
    ensures forall r | r in rows && PreFlight(r.paper).passed :: r in Concat(Batches(Queue(rows)))
  {
    var q := Queue(rows);
    BatchesPartition(q);
    forall b, j | 0 <= b < |Batches(q)| && 0 <= j < |Batches(q)[b]|
      ensures Batches(q)[b][j] in rows && PreFlight(Batches(q)[b][j].paper).passed
    {
      ConcatMember(Batches(q), b, j);
    }
  }

  // ---------------------------------------------------------------------------
  // Merging the decisions

  /** `results_map`: each decision stored under its `ID`, a later one
      replacing an earlier one. A decision without an integer id is dropped
      here; the source stores it under `None`, which no row's id equals. */
  function ResultsMap(ds: seq<Decision>): (m: map<int, Decision>)
    ensures forall id | id in m :: m[id].id == Some(id) && m[id] in ds
  {
    if ds == [] then map[]
    else
      var m := ResultsMap(ds[..|ds| - 1]);
      var d := ds[|ds| - 1];
      if d.id.Some? then m[d.id.value := d] else m
  }

  /** Every id some decision carries is a key, and it maps to the last
      decision that carries it. */
  lemma {:induction false} ResultsMapLatest(ds: seq<Decision>, k: nat)
    requires k < |ds| && ds[k].id.Some?
    ensures ds[k].id.value in ResultsMap(ds)
    ensures (forall l | k < l < |ds| :: ds[l].id != ds[k].id) ==> ResultsMap(ds)[ds[k].id.value] == ds[k]
    decreases |ds|
  {
    if k < |ds| - 1 {
      ResultsMapLatest(ds[..|ds| - 1], k);
    }
  }

  /** The row after the merge: a row whose id has a decision takes its
      `Included` (False when absent, `None` when null) and `Reason`
      ("Unknown" when absent, `None` when null); any other row keeps what it
      had. The row counts as included exactly when the reply said `true`. */
  function MergeRow(r: Row, m: map<int, Decision>): (out: Row)
    ensures out.tempId == r.tempId && out.paper == r.paper
    ensures r.tempId !in m ==> out == r
    ensures r.tempId in m ==> (out.included == Some(true) <==> m[r.tempId].included == Present(true))
    ensures r.tempId in m ==> out.included == JsonGet(m[r.tempId].included, false)
    ensures r.tempId in m ==> out.reason == JsonGet(m[r.tempId].reason, "Unknown")
  {
    if r.tempId in m then
      var d := m[r.tempId];
      r.(included := JsonGet(d.included, false), reason := JsonGet(d.reason, "Unknown"))
    else r
  }

  function Merge(rows: seq<Row>, m: map<int, Decision>): (out: seq<Row>)
    ensures |out| == |rows|
  {
    seq(|rows|, i requires 0 <= i < |rows| => MergeRow(rows[i], m))
  }

  /** The decisions of all batches in batch order, each batch screened with
      its own service outcomes. */
  function AllDecisions(outcomes: seq<seq<CallOutcome>>): seq<Decision>
    requires forall b | 0 <= b < |outcomes| :: |outcomes[b]| >= MaxAttempts
  {
    if outcomes == [] then []
    else ScreenBatch(outcomes[0]).decisions + AllDecisions(outcomes[1..])
  }

  function BatchCount(papers: seq<Paper>): nat {
    |Batches(Queue(PreFlightAll(InitialRows(papers))))|
  }

  /** The whole table after pre-flight, batching and merge; `outcomes[b]`
      holds the outcomes of the calls made for batch `b`. */
  function ScreenTable(papers: seq<Paper>, outcomes: seq<seq<CallOutcome>>): (table: seq<Row>)
    requires |outcomes| == BatchCount(papers)
    requires forall b | 0 <= b < |outcomes| :: |outcomes[b]| >= MaxAttempts
    ensures |table| == |papers|
    ensures forall i | 0 <= i < |table| :: table[i].tempId == i && table[i].paper == papers[i]
  {
    Merge(PreFlightAll(InitialRows(papers)), ResultsMap(AllDecisions(outcomes)))
  }

  /** How a row ends up: a paper that failed pre-flight carries the
      auto-rejection unless the service returned a decision for its id; a
      paper no decision mentions stays unresolved (not included, empty
      reason); a decided paper takes the latest decision for its id. */
  lemma ScreenTableRows(papers: seq<Paper>, outcomes: seq<seq<CallOutcome>>, i: nat)
    requires |outcomes| == BatchCount(papers)
    requires forall b | 0 <= b < |outcomes| :: |outcomes[b]| >= MaxAttempts
    requires i < |papers|
    ensures var m := ResultsMap(AllDecisions(outcomes));
            var row := ScreenTable(papers, outcomes)[i];
            && (i !in m && !PreFlight(papers[i]).passed ==>
                  row.included == Some(false) && row.reason == Some("Auto-Reject: " + PreFlight(papers[i]).reason))
            && (i !in m && PreFlight(papers[i]).passed ==> row.included == Some(false) && row.reason == Some(""))
            && (i in m ==> (row.included == JsonGet(m[i].included, false)
                            && row.reason == JsonGet(m[i].reason, "Unknown")))
  {
  }

  lemma {:induction false} AllDecisionsAppend(a: seq<seq<CallOutcome>>, b: seq<seq<CallOutcome>>)
    requires forall c | 0 <= c < |a| :: |a[c]| >= MaxAttempts
    requires forall c | 0 <= c < |b| :: |b[c]| >= MaxAttempts
    ensures AllDecisions(a + b) == AllDecisions(a) + AllDecisions(b)
    decreases |a|
  {
    if a != [] {
      assert (a + b)[1..] == a[1..] + b;
      AllDecisionsAppend(a[1..], b);
    } else {
      assert a + b == b;
    }
  }

  /** A batch whose every call is rate-limited contributes no decision. */
  lemma ExhaustedBatchContributesNothing(outcomes: seq<seq<CallOutcome>>, b: nat)
    requires forall c | 0 <= c < |outcomes| :: |outcomes[c]| >= MaxAttempts
    requires b < |outcomes|
    requires forall k | 0 <= k < MaxAttempts :: Retryable(outcomes[b][k])
    ensures AllDecisions(outcomes) == AllDecisions(outcomes[..b]) + AllDecisions(outcomes[b + 1..])
  {
    var pre := outcomes[..b];
    var mid := [outcomes[b]];
    var post := outcomes[b + 1..];
    assert AllDecisions(mid) == [] by {
      RateLimitExhaustion(outcomes[b]);
      assert mid[1..] == [];
    }
    assert outcomes == pre + (mid + post);
    assert forall c | 0 <= c < |pre| :: pre[c] == outcomes[c];
    assert forall c | 0 <= c < |post| :: post[c] == outcomes[b + 1 + c];
    AllDecisionsAppend(mid, post);
    assert AllDecisions(mid + post) == AllDecisions(post);
    AllDecisionsAppend(pre, mid + post);
  }

  // ---------------------------------------------------------------------------
  // The output

  predicate IncreasingIds(rows: seq<Row>) {
    forall i, j | 0 <= i < j < |rows| :: rows[i].tempId < rows[j].tempId
  }

  /** `df[df["Included"] == True]`: the included rows, in table order. */
  function IncludedRows(table: seq<Row>): (out: seq<Row>)
    ensures forall r :: r in out <==> r in table && r.included == Some(true)
    ensures IncreasingIds(table) ==> IncreasingIds(out)
  {
    SelectIncreasing(table, IsIncluded);
    Select(table, IsIncluded)
  }

  predicate IsIncluded(r: Row) {
    r.included == Some(true)
  }

  /** Selecting rows keeps them in their order, so ids stay increasing. */
  lemma {:induction false} SelectIncreasing(rows: seq<Row>, keep: Row -> bool)
    ensures IncreasingIds(rows) ==> IncreasingIds(Select(rows, keep))
    decreases |rows|
  {
    if rows != [] && IncreasingIds(rows) {
      var rest := Select(rows[1..], keep);
      IncreasingTail(rows);
      SelectIncreasing(rows[1..], keep);
      forall r | r in rest ensures rows[0].tempId < r.tempId {
        var k :| 0 <= k < |rows| - 1 && rows[1..][k] == r;
        assert rows[k + 1] == r;
      }
      if keep(rows[0]) {
        IncreasingCons(rows[0], rest);
      }
    }
  }

  lemma IncreasingTail(rows: seq<Row>)
    requires rows != [] && IncreasingIds(rows)
    ensures IncreasingIds(rows[1..])
  {
    forall i, j | 0 <= i < j < |rows| - 1 ensures rows[1..][i].tempId < rows[1..][j].tempId {
      assert rows[1..][i] == rows[i + 1] && rows[1..][j] == rows[j + 1];
    }
  }

  lemma IncreasingCons(x: Row, rows: seq<Row>)
    requires IncreasingIds(rows) && forall r | r in rows :: x.tempId < r.tempId
    ensures IncreasingIds([x] + rows)
  {
    var s := [x] + rows;
    forall i, j | 0 <= i < j < |s| ensures s[i].tempId < s[j].tempId {
      assert s[j] == rows[j - 1];
      if i > 0 {
        assert s[i] == rows[i - 1];
      }
    }
  }

  /** The screened output holds exactly the included rows, ordered by
      `Temp_ID`, which is their position in the input. */
  lemma ScreenedOutput(papers: seq<Paper>, outcomes: seq<seq<CallOutcome>>)
    requires |outcomes| == BatchCount(papers)
    requires forall b | 0 <= b < |outcomes| :: |outcomes[b]| >= MaxAttempts
    ensures var table := ScreenTable(papers, outcomes);
            var out := IncludedRows(table);
            && IncreasingIds(out)
            && (forall r | r in out :: r.tempId < |papers| && r == table[r.tempId] && r.included == Some(true))
            && (forall i | 0 <= i < |table| && table[i].included == Some(true) :: table[i] in out)
  {
  }
}
