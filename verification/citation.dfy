/** Stage 1 (keyword search): turning one OpenAlex work into a search record.
    The kernels are the APA-like citation that later stages use as the paper's
    permanent key, the abstract rebuilt from OpenAlex's inverted index, and the
    cap on how many works are collected. The search client and its paging are
    outside the model: the pages it returns are a parameter. */
module Citation {
  import opened Values
  import opened Text

  // ---------------------------------------------------------------------------
  // Data model: the parts of an OpenAlex work the stage reads

  /** One element of `authorships`: the `author` key may be absent (read as
      `{}`), null (the lookup on it raises), or an object whose `display_name`
      is itself absent, null or present. */
  datatype Authorship = NoAuthorKey | NullAuthor | Author(displayName: Field<string>)

  /** `primary_location.source`: only its `display_name` is read. */
  datatype Source = Source(displayName: Field<string>)

  datatype Location = Location(source: Field<Source>)

  /** An OpenAlex work. `abstractIndex` is the inverted index as its
      (word, positions) items in dictionary order; `oaUrl` is
      `open_access.oa_url` when both are present. */
  datatype Work = Work(
    id: Field<string>,
    authorships: Field<seq<Authorship>>,
    year: Field<int>,
    title: Field<string>,
    primaryLocation: Field<Location>,
    doi: Option<string>,
    abstractIndex: Option<seq<(string, seq<int>)>>,
    oaUrl: Option<string>)

  /** A lookup either returns a value or raises; every exception inside
      `format_citation` ends in the same fallback. */
  datatype Outcome<+T> = Returned(value: T) | Raised

  // ---------------------------------------------------------------------------
  // Author string

  /** The display name of one authorship, `None` for a null name. */
  function DisplayName(a: Authorship): Option<string>
    requires !a.NullAuthor?
  {
    match a
    case NoAuthorKey => Some("Unknown")
    case Author(Missing) => Some("Unknown")
    case Author(Null) => None
    case Author(Present(s)) => Some(s)
  }

  /** `f"{name}"`: a null name prints as "None". */
  function NameText(n: Option<string>): string {
    n.GetOr("None")
  }

  predicate HasNullAuthor(a: seq<Authorship>) {
    exists i | 0 <= i < |a| :: a[i].NullAuthor?
  }

  predicate HasNullName(a: seq<Authorship>)
    requires !HasNullAuthor(a)
  {
    exists i | 0 <= i < |a| :: DisplayName(a[i]).None?
  }

  /** `" & ".join(names)` over names known to be non-null. */
  function JoinNames(a: seq<Authorship>): string
    requires !HasNullAuthor(a) && !HasNullName(a)
  {
    Join(" & ", seq(|a|, i requires 0 <= i < |a| => DisplayName(a[i]).value))
  }

  /** The author part of the citation. No authorships gives "Unknown Author";
      one gives that name; two or three give the names joined by " & "; more
      than three give the first name and " et al.". Building the name list
      raises on a null author object, and joining raises on a null name. */
  function AuthorString(authorships: Field<seq<Authorship>>): (r: Outcome<string>)
    ensures (!authorships.Present? || authorships.value == []) ==> r == Returned("Unknown Author")
    ensures (authorships.Present? && HasNullAuthor(authorships.value)) ==> r.Raised?
    ensures (authorships.Present? && |authorships.value| == 1 && !HasNullAuthor(authorships.value))
              ==> r == Returned(NameText(DisplayName(authorships.value[0])))
    ensures (authorships.Present? && 2 <= |authorships.value| <= 3 && !HasNullAuthor(authorships.value))
              ==> (r.Raised? <==> HasNullName(authorships.value))
    ensures (authorships.Present? && 2 <= |authorships.value| <= 3 && !HasNullAuthor(authorships.value)
             && !HasNullName(authorships.value))
              ==> r == Returned(JoinNames(authorships.value))
    ensures (authorships.Present? && |authorships.value| > 3 && !HasNullAuthor(authorships.value))
              ==> r == Returned(NameText(DisplayName(authorships.value[0])) + " et al.")
  {
    if !authorships.Present? || authorships.value == [] then Returned("Unknown Author")
    else
      var a := authorships.value;
      if HasNullAuthor(a) then Raised
      else if |a| > 3 then Returned(NameText(DisplayName(a[0])) + " et al.")
      else if |a| > 1 then (if HasNullName(a) then Raised else Returned(JoinNames(a)))
      else Returned(NameText(DisplayName(a[0])))
  }

  // ---------------------------------------------------------------------------
  // Citation

  /** The journal name; `""` when there is no source or no name, and a raise
      when `primary_location` is null. */
  function Journal(loc: Field<Location>): Outcome<string> {
    match loc
    case Null => Raised
    case Missing => Returned("")
    case Present(Location(src)) =>
      match src
      case Present(Source(Present(name))) => Returned(name)
      case _ => Returned("")
  }

  function YearText(year: Field<int>): string {
    match year
    case Missing => "n.d."
    case Null => "None"
    case Present(y) => IntToString(y)
  }

  function TitleText(title: Field<string>): string {
    FieldText(title, "Untitled")
  }

  /** The citation up to and including the title's full stop. */
  function CitationHead(auth: string, year: string, title: string): string {
    auth + " (" + year + "). " + title + "."
  }

  /** `f"{auth} ({year}). {title}."`, followed by `f" {journal}."` when the
      journal is non-empty. */
  function Compose(auth: string, year: string, title: string, journal: string): string {
    CitationHead(auth, year, title) + (if journal != "" then " " + journal + "." else "")
  }

  predicate CitationRaises(w: Work) {
    AuthorString(w.authorships).Raised? || Journal(w.primaryLocation).Raised?
  }

  /** `format_citation`: the citation string that identifies the paper in
      every later stage. */
  function FormatCitation(w: Work): (r: string)
    ensures CitationRaises(w) ==> r == "Unknown Paper (" + FieldText(w.id, "None") + ")"
    ensures !CitationRaises(w) ==>
              var head := CitationHead(AuthorString(w.authorships).value, YearText(w.year), TitleText(w.title));
              var journal := Journal(w.primaryLocation).value;
              && |head| <= |r| && r[..|head|] == head
              && (journal == "" ==> r == head)
              && (journal != "" ==> EndsWith(r, " " + journal + ".") && |r| == |head| + |journal| + 2)
  {
    match (AuthorString(w.authorships), Journal(w.primaryLocation))
    case (Returned(auth), Returned(journal)) =>
      Compose(auth, YearText(w.year), TitleText(w.title), journal)
    case _ =>
      "Unknown Paper (" + FieldText(w.id, "None") + ")"
  }

  /** A citation of a work with no year and no title reads
      "<authors> (n.d.). Untitled." up to the journal. */
  lemma CitationDefaults(w: Work)
    requires !CitationRaises(w)
    requires w.year.Missing? && w.title.Missing?
    ensures var head := AuthorString(w.authorships).value + " (n.d.). Untitled.";
            |head| <= |FormatCitation(w)| && FormatCitation(w)[..|head|] == head
  {
  }

  // ---------------------------------------------------------------------------
  // Abstract from the inverted index

  /** A (position, word) pair of the inverted index. */
  type Entry = (int, string)

  /** The pairs in the order `reconstruct_abstract` appends them: dictionary
      order of the words, then list order of each word's positions. */
  function Entries(index: seq<(string, seq<int>)>): (es: seq<Entry>)
    ensures |es| == PositionCount(index)
  {
    if index == [] then []
    else
      var (word, positions) := index[0];
      seq(|positions|, i requires 0 <= i < |positions| => (positions[i], word)) + Entries(index[1..])
  }

  function PositionCount(index: seq<(string, seq<int>)>): nat {
    if index == [] then 0 else |index[0].1| + PositionCount(index[1..])
  }

  /** Python's `<=` on strings: lexicographic by code point, a proper prefix first. */
  predicate StrLe(a: string, b: string)
    decreases |a|
  {
    a == [] || (b != [] && (a[0] < b[0] || (a[0] == b[0] && StrLe(a[1..], b[1..]))))
  }

  /** Python's `<=` on the (position, word) tuples that `list.sort` compares. */
  predicate EntryLe(x: Entry, y: Entry) {
    x.0 < y.0 || (x.0 == y.0 && StrLe(x.1, y.1))
  }

  lemma {:induction false} StrLeTotal(a: string, b: string)
    ensures StrLe(a, b) || StrLe(b, a)
    decreases |a|
  {
    if a != [] && b != [] && a[0] == b[0] {
      StrLeTotal(a[1..], b[1..]);
    }
  }

  lemma {:induction false} StrLeAntisymmetric(a: string, b: string)
    requires StrLe(a, b) && StrLe(b, a)
    ensures a == b
    decreases |a|
  {
    if a != [] {
      StrLeAntisymmetric(a[1..], b[1..]);
    }
  }

  lemma EntryLeTotal(x: Entry, y: Entry)
    ensures EntryLe(x, y) || EntryLe(y, x)
  {
    StrLeTotal(x.1, y.1);
  }

  predicate Sorted(s: seq<Entry>) {
    forall i | 0 <= i < |s| - 1 :: EntryLe(s[i], s[i + 1])
  }

  /** Insertion of one pair into a sorted list. */
  function Insert(x: Entry, s: seq<Entry>): (r: seq<Entry>)
    ensures multiset(r) == multiset(s) + multiset{x}
    ensures |r| == |s| + 1
    ensures r[0] == x || (s != [] && r[0] == s[0])
    ensures Sorted(s) ==> Sorted(r)
  {
    if s == [] then [x]
    else if EntryLe(x, s[0]) then [x] + s
    else
      EntryLeTotal(x, s[0]);
      assert s == [s[0]] + s[1..];
      [s[0]] + Insert(x, s[1..])
  }

  /** `word_list.sort()`: the pairs in ascending (position, word) order. */
  function Sort(s: seq<Entry>): (r: seq<Entry>)
    ensures multiset(r) == multiset(s)
    ensures |r| == |s|
    ensures Sorted(r)
  {
    if s == [] then []
    else
      assert s == [s[0]] + s[1..];
      Insert(s[0], Sort(s[1..]))
  }

  lemma {:induction false} StrLeReflexive(a: string)
    ensures StrLe(a, a)
    decreases |a|
  {
    if a != [] {
      StrLeReflexive(a[1..]);
    }
  }

  lemma {:induction false} StrLeTransitive(a: string, b: string, c: string)
    requires StrLe(a, b) && StrLe(b, c)
    ensures StrLe(a, c)
    decreases |a|
  {
    if a != [] && a[0] == b[0] && b[0] == c[0] {
      StrLeTransitive(a[1..], b[1..], c[1..]);
    }
  }

  lemma EntryLeTransitive(x: Entry, y: Entry, z: Entry)
    requires EntryLe(x, y) && EntryLe(y, z)
    ensures EntryLe(x, z)
  {
    if x.0 == y.0 && y.0 == z.0 {
      StrLeTransitive(x.1, y.1, z.1);
    }
  }

  /** The head of a sorted list is at most each of its elements. */
  lemma {:induction false} SortedHeadLeast(s: seq<Entry>, k: nat)
    requires Sorted(s) && k < |s|
    ensures EntryLe(s[0], s[k])
    decreases k
  {
    if k == 0 {
      StrLeReflexive(s[0].1);
    } else {
      SortedHeadLeast(s, k - 1);
      EntryLeTransitive(s[0], s[k - 1], s[k]);
    }
  }

  /** Two sorted arrangements of the same pairs start with the same pair. */
  lemma SortedHeadsEqual(a: seq<Entry>, b: seq<Entry>)
    requires Sorted(a) && Sorted(b) && multiset(a) == multiset(b) && a != []
    ensures b != [] && a[0] == b[0]
  {
    assert a[0] in multiset(b);
    var k :| 0 <= k < |b| && b[k] == a[0];
    assert b[0] in multiset(a);
    var l :| 0 <= l < |a| && a[l] == b[0];
    SortedHeadLeast(b, k);
    SortedHeadLeast(a, l);
    StrLeAntisymmetric(a[0].1, b[0].1);
  }

  lemma SortedTail(s: seq<Entry>)
    requires Sorted(s) && s != []
    ensures Sorted(s[1..])
  {
    forall i | 0 <= i < |s| - 2 ensures EntryLe(s[1..][i], s[1..][i + 1]) {
      assert EntryLe(s[i + 1], s[i + 2]);
    }
  }

  /** Two sorted arrangements of the same pairs are the same list. */
  lemma {:induction false} SortedUnique(a: seq<Entry>, b: seq<Entry>)
    requires Sorted(a) && Sorted(b) && multiset(a) == multiset(b)
    ensures a == b
    decreases |a|
  {
    if a == [] {
      assert |b| == |multiset(b)| == 0;
    } else {
      SortedHeadsEqual(a, b);
      assert a == [a[0]] + a[1..] && b == [b[0]] + b[1..];
      assert multiset(a[1..]) == multiset(b[1..]) by {
        assert multiset(a) == multiset{a[0]} + multiset(a[1..]);
        assert multiset(b) == multiset{b[0]} + multiset(b[1..]);
        assert multiset(a[1..]) == multiset(a) - multiset{a[0]};
        assert multiset(b[1..]) == multiset(b) - multiset{b[0]};
      }
      SortedTail(a);
      SortedTail(b);
      SortedUnique(a[1..], b[1..]);
    }
  }

  /** Any sorted rearrangement of the pairs, such as the one `list.sort`
      produces, is `Sort`'s result: the model's choice of sorting algorithm
      does not matter. */
  lemma SortIsUnique(s: seq<Entry>, t: seq<Entry>)
    requires Sorted(t) && multiset(t) == multiset(s)
    ensures t == Sort(s)
  {
    SortedUnique(t, Sort(s));
  }

  /** The words of the rebuilt abstract, one per (word, position) pair. */
  function AbstractWords(index: seq<(string, seq<int>)>): seq<string> {
    var sorted := Sort(Entries(index));
    seq(|sorted|, i requires 0 <= i < |sorted| => sorted[i].1)
  }

  /** `reconstruct_abstract`: `None` for an absent or empty index, otherwise
      the words joined by single spaces in ascending position order. */
  function ReconstructAbstract(index: Option<seq<(string, seq<int>)>>): (r: Option<string>)
    ensures r.None? <==> index.None? || index.value == []
    ensures r.Some? ==> r.value == Join(" ", AbstractWords(index.value))
  {
    match index
    case None => None
    case Some(items) => if items == [] then None else Some(Join(" ", AbstractWords(items)))
  }

  /** The abstract holds exactly one word per (word, position) pair, and the
      words appear in ascending position order. */
  lemma AbstractWordsOrdered(index: seq<(string, seq<int>)>)
    ensures |AbstractWords(index)| == PositionCount(index)
    ensures var sorted := Sort(Entries(index));
            && multiset(sorted) == multiset(Entries(index))
            && (forall i | 0 <= i < |sorted| - 1 :: sorted[i].0 <= sorted[i + 1].0)
            && (forall i | 0 <= i < |sorted| :: AbstractWords(index)[i] == sorted[i].1)
  {
  }

  /** The positions of an index that lists every position 0..n-1 exactly once. */
  predicate Dense(es: seq<Entry>) {
    && (forall k | 0 <= k < |es| :: 0 <= es[k].0 < |es|)
    && DistinctPositions(es)
  }

  predicate DistinctPositions(es: seq<Entry>) {
    forall k, l | 0 <= k < l < |es| :: es[k].0 != es[l].0
  }

  lemma {:induction false} InsertDistinct(x: Entry, s: seq<Entry>)
    requires DistinctPositions(s)
    requires forall k | 0 <= k < |s| :: s[k].0 != x.0
    ensures DistinctPositions(Insert(x, s))
    decreases |s|
  {
    if s != [] && !EntryLe(x, s[0]) {
      var t := Insert(x, s[1..]);
      InsertDistinct(x, s[1..]);
      forall l | 0 <= l < |t| ensures t[l].0 != s[0].0 {
        assert t[l] in multiset(t);
        assert t[l] == x || t[l] in multiset(s[1..]);
      }
    }
  }

  lemma {:induction false} SortDistinct(s: seq<Entry>)
    requires DistinctPositions(s)
    ensures DistinctPositions(Sort(s))
    decreases |s|
  {
    if s != [] {
      var t := Sort(s[1..]);
      SortDistinct(s[1..]);
      forall k | 0 <= k < |t| ensures t[k].0 != s[0].0 {
        assert t[k] in multiset(t);
        var j :| 0 <= j < |s[1..]| && s[1..][j] == t[k];
        assert s[j + 1] == t[k];
      }
      InsertDistinct(s[0], t);
    }
  }

  /** In a sorted list with distinct positions, positions rise by at least one per step. */
  lemma {:induction false} RisingPositions(s: seq<Entry>, k: nat, l: nat)
    requires Sorted(s) && DistinctPositions(s)
    requires k <= l < |s|
    ensures s[l].0 - s[k].0 >= l - k
    decreases l - k
  {
    if k < l {
      RisingPositions(s, k, l - 1);
      assert EntryLe(s[l - 1], s[l]);
    }
  }

  /** A sorted list of n pairs whose distinct positions lie in 0..n-1 has
      position j at index j. */
  lemma SortedDensePositions(s: seq<Entry>)
    requires Sorted(s) && DistinctPositions(s)
    requires forall k | 0 <= k < |s| :: 0 <= s[k].0 < |s|
    ensures forall j | 0 <= j < |s| :: s[j].0 == j
  {
    forall j | 0 <= j < |s| ensures s[j].0 == j {
      RisingPositions(s, 0, j);
      RisingPositions(s, j, |s| - 1);
    }
  }

  /** When the positions are a permutation of 0..n-1, word i of the abstract is
      the word listed at position i. */
  lemma DenseAbstract(index: seq<(string, seq<int>)>)
    requires Dense(Entries(index))
    ensures forall k | 0 <= k < |Entries(index)| ::
              var (p, w) := Entries(index)[k];
              0 <= p < |AbstractWords(index)| && AbstractWords(index)[p] == w
  {
    var es := Entries(index);
    var sorted := Sort(es);
    SortDistinct(es);
    forall j | 0 <= j < |sorted| ensures 0 <= sorted[j].0 < |sorted| {
      assert sorted[j] in multiset(es);
    }
    SortedDensePositions(sorted);
    forall k | 0 <= k < |es|
      ensures 0 <= es[k].0 < |AbstractWords(index)| && AbstractWords(index)[es[k].0] == es[k].1
    {
      assert es[k] in multiset(sorted);
      var j :| 0 <= j < |sorted| && sorted[j] == es[k];
    }
  }

  // ---------------------------------------------------------------------------
  // Collecting the search results

  /** One row of the stage's output table. */
  datatype SearchRecord = SearchRecord(
    id: Option<string>,
    generatedCitation: string,
    title: Option<string>,
    year: Option<int>,
    doi: Option<string>,
    abstractText: Option<string>,
    pdfLink: Option<string>,
    source: string)

  function FieldValue<T>(f: Field<T>): Option<T> {
    if f.Present? then Some(f.value) else None
  }

  function ToRecord(w: Work): SearchRecord {
    SearchRecord(
      FieldValue(w.id), FormatCitation(w), FieldValue(w.title), FieldValue(w.year),
      w.doi, ReconstructAbstract(w.abstractIndex), w.oaUrl, "OpenAlex")
  }

  /** The works of all pages, in paging order. */
  function Flatten(pages: seq<seq<Work>>): seq<Work> {
    if pages == [] then [] else Flatten(pages[..|pages| - 1]) + pages[|pages| - 1]
  }

  lemma {:induction false} FlattenAppend(a: seq<seq<Work>>, b: seq<seq<Work>>)
    ensures Flatten(a + b) == Flatten(a) + Flatten(b)
    decreases |b|
  {
    if b == [] {
      assert a + b == a;
    } else {
      assert (a + b)[..|a + b| - 1] == a + b[..|b| - 1];
      FlattenAppend(a, b[..|b| - 1]);
    }
  }

  /** How many works the collection loop keeps: none when the cap is not
      positive, otherwise the cap or every work, whichever is fewer. */
  function CapCount(total: nat, maxResults: int): nat {
    if maxResults <= 0 then 0 else if maxResults < total then maxResults else total
  }

  lemma FlattenStep(pages: seq<seq<Work>>, p: nat)
    requires p < |pages|
    ensures Flatten(pages[..p + 1]) == Flatten(pages[..p]) + pages[p]
  {
    assert pages[..p + 1][..p] == pages[..p];
  }

  /** The works collected so far always form a prefix of all works. */
  lemma FlattenPrefix(pages: seq<seq<Work>>, p: nat)
    requires p <= |pages|
    ensures Flatten(pages) == Flatten(pages[..p]) + Flatten(pages[p..])
  {
    FlattenAppend(pages[..p], pages[p..]);
    assert pages[..p] + pages[p..] == pages;
  }

  function Records(ws: seq<Work>): (rs: seq<SearchRecord>)
    ensures |rs| == |ws|
  {
    seq(|ws|, i requires 0 <= i < |ws| => ToRecord(ws[i]))
  }

  /** The paging loop: works are taken in order and the loop stops as soon as
      `maxResults` works have been collected. */
  method CollectResults(pages: seq<seq<Work>>, maxResults: int) returns (results: seq<SearchRecord>)
    ensures |results| == CapCount(|Flatten(pages)|, maxResults)
    ensures maxResults >= 0 ==> |results| <= maxResults
    ensures results == Records(Flatten(pages)[..|results|])
  {
    results := [];
    var count := 0;
    var p := 0;
    ghost var taken: seq<Work> := [];
    while p < |pages|
      invariant 0 <= p <= |pages|
      invariant taken == Flatten(pages[..p])
      invariant count == |results| == |taken|
      invariant p > 0 ==> count < maxResults
      invariant results == Records(taken)
    {
      var page := pages[p];
      var j := 0;
      while j < |page|
        invariant 0 <= j <= |page|
        invariant taken == Flatten(pages[..p]) + page[..j]
        invariant count == |results| == |taken|
        invariant count <= maxResults || count == 0
        invariant results == Records(taken)
      {
        if count >= maxResults {
          break;
        }
        assert page[..j + 1] == page[..j] + [page[j]];
        results := results + [ToRecord(page[j])];
        taken := taken + [page[j]];
        count := count + 1;
        j := j + 1;
      }
      FlattenStep(pages, p);
      FlattenPrefix(pages, p + 1);
      if count >= maxResults {
        assert taken == Flatten(pages)[..count];
        return;
      }
      assert page[..j] == page;
      p := p + 1;
    }
    assert pages[..p] == pages;
    assert taken == Flatten(pages)[..count];
  }
}
