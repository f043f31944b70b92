/** Value shapes shared by every stage of the pipeline: optional table cells
    and the three ways a JSON object can answer a key lookup. */
module Values {

  /** A table cell or an optional result; `None` stands for pandas' NaN or Python's `None`. */
  datatype Option<+T> = None | Some(value: T) {

    /** The value, or `default` when there is none. */
    function GetOr(default: T): T {
      match this
      case Some(v) => v
      case None => default
    }
  }

  /** The answer of `obj.get(key, default)` on a JSON object: the key may be
      absent (the default is used), present with `null` (Python's `None`),
      or present with a value. */
  datatype Field<+T> = Missing | Null | Present(value: T)

  /** What `obj.get(key, default)` hands back: the default when the key is
      absent, Python's `None` when the value is `null`. */
  function JsonGet<T>(f: Field<T>, default: T): (r: Option<T>)
    ensures f.Missing? ==> r == Some(default)
    ensures f.Null? ==> r == None
    ensures f.Present? ==> r == Some(f.value)
  {
    match f
    case Missing => Some(default)
    case Null => None
    case Present(v) => Some(v)
  }

  /** The elements of `s` that satisfy `keep`, in their order: a list
      comprehension with an `if`, or a character-dropping substitution. */
  function Select<T(!new)>(s: seq<T>, keep: T -> bool): (r: seq<T>)
    ensures |r| <= |s|
    ensures forall x :: x in r <==> x in s && keep(x)
    ensures (forall i | 0 <= i < |s| :: keep(s[i])) ==> r == s
    decreases |s|
  {
    if s == [] then []
    else (if keep(s[0]) then [s[0]] else []) + Select(s[1..], keep)
  }

  /** Selection takes each element at most as often as it occurs. */
  lemma {:induction false} SelectMultiset<T(!new)>(s: seq<T>, keep: T -> bool)
    ensures multiset(Select(s, keep)) <= multiset(s)
    decreases |s|
  {
    if s != [] {
      assert s == [s[0]] + s[1..];
      SelectMultiset(s[1..], keep);
    }
  }

  /** Selecting from a concatenation selects from each part, so the
      selection keeps the order of its input. */
  lemma {:induction false} SelectAppend<T(!new)>(a: seq<T>, b: seq<T>, keep: T -> bool)
    ensures Select(a + b, keep) == Select(a, keep) + Select(b, keep)
    decreases |a|
  {
    if a != [] {
      assert (a + b)[1..] == a[1..] + b;
      SelectAppend(a[1..], b, keep);
    } else {
      assert a + b == b;
    }
  }

  /** `str(cell)` for a cell read back from CSV: a missing cell prints as "nan". */
  function CellText(c: Option<string>): (r: string)
    ensures c.Some? ==> r == c.value
    ensures c.None? ==> r == "nan"
  {
    match c
    case Some(s) => s
    case None => "nan"
  }

  /** `f"{x}"` of a JSON string field that was read with a default:
      the default when the key is absent, "None" when it is null. */
  function FieldText(f: Field<string>, default: string): (r: string)
    ensures f.Missing? ==> r == default
    ensures f.Null? ==> r == "None"
    ensures f.Present? ==> r == f.value
  {
    match f
    case Missing => default
    case Null => "None"
    case Present(s) => s
  }
}
