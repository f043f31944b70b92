/** The handful of Python string operations the pipeline relies on, over
    `string` (a sequence of Unicode scalar values): whitespace as Python's
    `str.isspace` and the regex class `\s` see it, `strip`, substring `in`,
    ASCII lower-casing, `join` and decimal rendering of integers. */
module Text {

  /** Python's `str.isspace()` (which `str.split()`, `str.strip()` and the regex
      class `\s` also use): the ASCII controls 9-13 and 28-31, the space, and
      the Unicode space separators. */
  predicate IsSpace(c: char) {
    || ('\t' <= c <= '\r')
    || ('\U{1C}' <= c <= ' ')
    || c == '\U{85}' || c == '\U{A0}' || c == '\U{1680}'
    || ('\U{2000}' <= c <= '\U{200A}')
    || c == '\U{2028}' || c == '\U{2029}' || c == '\U{202F}'
    || c == '\U{205F}' || c == '\U{3000}'
  }

  predicate IsDigit(c: char) {
    '0' <= c <= '9'
  }

  predicate IsAscii(c: char) {
    c as int < 128
  }

  predicate AllSpace(s: string) {
    forall i | 0 <= i < |s| :: IsSpace(s[i])
  }

  // ---------------------------------------------------------------------------
  // strip

  /** `s.lstrip()`: the longest suffix of `s` that does not start with whitespace. */
  function TrimLeft(s: string): (r: string)
    ensures |r| <= |s| && r == s[|s| - |r|..]
    ensures r == [] || !IsSpace(r[0])
  {
    if s != [] && IsSpace(s[0]) then TrimLeft(s[1..]) else s
  }

  /** `s.rstrip()`: the longest prefix of `s` that does not end with whitespace. */
  function TrimRight(s: string): (r: string)
    ensures |r| <= |s| && r == s[..|r|]
    ensures r == [] || !IsSpace(r[|r| - 1])
  {
    if s != [] && IsSpace(s[|s| - 1]) then TrimRight(s[..|s| - 1]) else s
  }

  /** What `lstrip` removes is whitespace. */
  lemma {:induction false} TrimLeftRemovesSpace(s: string)
    ensures AllSpace(s[..|s| - |TrimLeft(s)|])
    decreases |s|
  {
    if s != [] && IsSpace(s[0]) {
      var t := s[1..];
      TrimLeftRemovesSpace(t);
      var n := |s| - |TrimLeft(s)|;
      var m := |t| - |TrimLeft(t)|;
      assert TrimLeft(s) == TrimLeft(t);
      assert m == n - 1;
      forall k | 0 <= k < n ensures IsSpace(s[..n][k]) {
        assert s[..n][k] == s[k];
        if k > 0 {
          assert s[k] == t[k - 1] == t[..m][k - 1];
        }
      }
    }
  }

  /** What `rstrip` removes is whitespace. */
  lemma {:induction false} TrimRightRemovesSpace(s: string)
    ensures AllSpace(s[|TrimRight(s)|..])
    decreases |s|
  {
    if s != [] && IsSpace(s[|s| - 1]) {
      var t := s[..|s| - 1];
      TrimRightRemovesSpace(t);
      var n := |TrimRight(s)|;
      assert TrimRight(s) == TrimRight(t);
      forall k | 0 <= k < |s| - n ensures IsSpace(s[n..][k]) {
        if n + k < |s| - 1 {
          assert s[n..][k] == t[n..][k];
        }
      }
    }
  }

  /** `s.strip()`. */
  function Strip(s: string): (r: string)
    ensures |r| <= |s|
    ensures Stripped(r)
  {
    TrimRight(TrimLeft(s))
  }

  /** No whitespace at either end. */
  predicate Stripped(s: string) {
    s == [] || (!IsSpace(s[0]) && !IsSpace(s[|s| - 1]))
  }

  /** Stripping is the identity on a string that is already stripped. */
  lemma StripStripped(s: string)
    requires Stripped(s)
    ensures Strip(s) == s
  {
  }

  /** Trailing whitespace never survives `rstrip`. */
  lemma {:induction false} TrimRightSpaces(s: string, ws: string)
    requires AllSpace(ws)
    ensures TrimRight(s + ws) == TrimRight(s)
    decreases |ws|
  {
    if ws != [] {
      var w' := ws[..|ws| - 1];
      assert (s + ws)[..|s + ws| - 1] == s + w';
      TrimRightSpaces(s, w');
    } else {
      assert s + ws == s;
    }
  }

  /** Whitespace appended after a string with some non-whitespace character is
      kept by `lstrip`; after an all-whitespace string, everything goes. */
  lemma {:induction false} TrimLeftAppend(s: string, ws: string)
    requires AllSpace(ws)
    ensures !AllSpace(s) ==> TrimLeft(s + ws) == TrimLeft(s) + ws
    ensures AllSpace(s) ==> TrimLeft(s + ws) == []
    decreases |s|
  {
    if s == [] {
      assert s + ws == ws;
      AllSpaceTrimLeft(ws);
    } else if IsSpace(s[0]) {
      var t := s[1..];
      assert (s + ws)[1..] == t + ws;
      assert TrimLeft(s + ws) == TrimLeft(t + ws);
      assert TrimLeft(s) == TrimLeft(t);
      TrimLeftAppend(t, ws);
      assert AllSpace(s) <==> AllSpace(t) by {
        if AllSpace(t) {
          forall i | 0 <= i < |s| ensures IsSpace(s[i]) {
            if i > 0 { assert s[i] == t[i - 1]; }
          }
        }
        if AllSpace(s) {
          forall i | 0 <= i < |t| ensures IsSpace(t[i]) {
            assert t[i] == s[i + 1];
          }
        }
      }
    } else {
      assert (s + ws)[0] == s[0];
      assert !AllSpace(s);
    }
  }

  lemma {:induction false} AllSpaceTrimLeft(s: string)
    requires AllSpace(s)
    ensures TrimLeft(s) == []
    decreases |s|
  {
    if s != [] {
      AllSpaceTrimLeft(s[1..]);
    }
  }

  /** Whitespace appended to a string does not change what `strip` returns. */
  lemma StripAppendSpaces(s: string, ws: string)
    requires AllSpace(ws)
    ensures Strip(s + ws) == Strip(s)
  {
    TrimLeftAppend(s, ws);
    if AllSpace(s) {
      AllSpaceTrimLeft(s);
    } else {
      TrimRightSpaces(TrimLeft(s), ws);
    }
  }

  // ---------------------------------------------------------------------------
  // substrings

  /** `t` occurs in `s` starting at index `i`. */
  predicate OccursAt(s: string, t: string, i: int) {
    0 <= i <= |s| - |t| && s[i..i + |t|] == t
  }

  /** Python's `t in s` for strings. */
  predicate Contains(s: string, t: string) {
    exists i | 0 <= i <= |s| - |t| :: OccursAt(s, t, i)
  }

  /** Python's `s.endswith(t)`. */
  predicate EndsWith(s: string, t: string) {
    |t| <= |s| && s[|s| - |t|..] == t
  }

  // ---------------------------------------------------------------------------
  // case

  function LowerChar(c: char): char {
    if 'A' <= c <= 'Z' then (c as int + 32) as char else c
  }

  /** `s.lower()` restricted to ASCII letters. */
  function Lower(s: string): (r: string)
    ensures |r| == |s|
  {
    seq(|s|, i requires 0 <= i < |s| => LowerChar(s[i]))
  }

  // ---------------------------------------------------------------------------
  // join and numbers

  /** `sep.join(ws)`. */
  function Join(sep: string, ws: seq<string>): string
    decreases |ws|
  {
    if |ws| == 0 then ""
    else if |ws| == 1 then ws[0]
    else ws[0] + sep + Join(sep, ws[1..])
  }

  function DigitChar(d: nat): (c: char)
    requires d < 10
    ensures IsDigit(c)
  {
    "0123456789"[d]
  }

  /** `str(n)` for a natural number. */
  function NatToString(n: nat): (r: string)
    ensures |r| >= 1
    ensures forall i | 0 <= i < |r| :: IsDigit(r[i])
    ensures n < 10 ==> |r| == 1
    ensures 10 <= n < 100 ==> |r| == 2
    ensures 100 <= n < 1000 ==> |r| == 3
    ensures 1000 <= n < 10000 ==> |r| == 4
    ensures 10000 <= n ==> |r| > 4
  {
    if n < 10 then [DigitChar(n)] else NatToString(n / 10) + [DigitChar(n % 10)]
  }

  /** `str(i)` for an integer. */
  function IntToString(i: int): (r: string)
    ensures |r| >= 1
    ensures 0 <= i ==> forall k | 0 <= k < |r| :: IsDigit(r[k])
    ensures i < 0 ==> r[0] == '-'
  {
    if i < 0 then "-" + NatToString(-i) else NatToString(i)
  }
}
