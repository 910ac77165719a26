/** The handful of Python string primitives the assembler relies on:
`str.isspace`, `str.strip`, `str.split()`, `str.split(sep)`, `str.rfind`
and `int()` on a decimal literal.
 */
module Text {
  import opened Errors

  /** Python's `str.isspace` for one character. */
  predicate IsSpace(c: char) {
    || ('\t' <= c <= '\r')
    || ('\U{1C}' <= c <= '\U{1F}')
    || c == ' '
    || c == '\U{85}'
    || c == '\U{A0}'
    || c == '\U{1680}'
    || ('\U{2000}' <= c <= '\U{200A}')
    || c == '\U{2028}'
    || c == '\U{2029}'
    || c == '\U{202F}'
    || c == '\U{205F}'
    || c == '\U{3000}'
  }

  predicate NoSpace(s: string) {
    forall i :: 0 <= i < |s| ==> !IsSpace(s[i])
  }

  /** A whitespace-free, non-empty piece, as `str.split()` yields them. */
  predicate IsToken(s: string) {
    s != [] && NoSpace(s)
  }

  /** Length of the longest whitespace-free prefix of `s`. */
  function TokenLen(s: string): (n: nat)
    ensures n <= |s|
    ensures forall i :: 0 <= i < n ==> !IsSpace(s[i])
    ensures n < |s| ==> IsSpace(s[n])
  {
    if s == [] || IsSpace(s[0]) then 0 else 1 + TokenLen(s[1..])
  }

  /** The first index at or after `i` that does not hold whitespace, or `|s|`. */
  function SkipSpaces(s: string, i: nat): (j: nat)
    requires i <= |s|
    ensures i <= j <= |s|
    ensures forall k :: i <= k < j ==> IsSpace(s[k])
    ensures j < |s| ==> !IsSpace(s[j])
    decreases |s| - i
  {
    if i == |s| || !IsSpace(s[i]) then i else SkipSpaces(s, i + 1)
  }

  /** The end of `s[lo..hi]` once its trailing whitespace is dropped. */
  function TrimEnd(s: string, lo: nat, hi: nat): (e: nat)
    requires lo <= hi <= |s|
    ensures lo <= e <= hi
    ensures forall k :: e <= k < hi ==> IsSpace(s[k])
    ensures e > lo ==> !IsSpace(s[e - 1])
    decreases hi
  {
    if hi == lo || !IsSpace(s[hi - 1]) then hi else TrimEnd(s, lo, hi - 1)
  }

  /** Python's `str.strip()`: the slice of `s` between its leading and its
      trailing whitespace. */
  function Strip(s: string): (r: string)
    ensures r == [] || (!IsSpace(r[0]) && !IsSpace(r[|r| - 1]))
    ensures exists lo :: StrippedAt(s, lo, r)
  {
    var lo := SkipSpaces(s, 0);
    var r := s[lo..TrimEnd(s, lo, |s|)];
    assert StrippedAt(s, lo, r);
    r
  }

  /** `r` is `s` with only whitespace removed before index `lo` and after
      `r` ends. */
  predicate StrippedAt(s: string, lo: nat, r: string) {
    && lo + |r| <= |s|
    && r == s[lo..lo + |r|]
    && (forall k :: 0 <= k < lo ==> IsSpace(s[k]))
    && (forall k :: lo + |r| <= k < |s| ==> IsSpace(s[k]))
  }

  /** A string with no whitespace at either end is its own strip. */
  lemma StripNoEdges(s: string)
    requires s == [] || (!IsSpace(s[0]) && !IsSpace(s[|s| - 1]))
    ensures Strip(s) == s
  {
  }

  /** Python's `str.split()` with no argument: the maximal whitespace-free
      runs of `s`, in order. */
  function Words(s: string): (ws: seq<string>)
    ensures forall i :: 0 <= i < |ws| ==> IsToken(ws[i])
    decreases |s|
  {
    if s == [] then []
    else if IsSpace(s[0]) then Words(s[1..])
    else
      var n := TokenLen(s);
      [s[..n]] + Words(s[n..])
  }

  /** The inverse of `Words` on tokens: the pieces joined by single spaces. */
  function Unwords(ws: seq<string>): string {
    if ws == [] then ""
    else if |ws| == 1 then ws[0]
    else ws[0] + " " + Unwords(ws[1..])
  }

  lemma TokenLenOf(w: string, rest: string)
    requires IsToken(w)
    requires rest == [] || IsSpace(rest[0])
    ensures TokenLen(w + rest) == |w|
  {
    assert forall i :: 0 <= i < |w| ==> (w + rest)[i] == w[i];
    assert rest != [] ==> (w + rest)[|w|] == rest[0];
  }

  /** Splitting tokens joined by single spaces gives the tokens back. */
  lemma {:induction false} WordsUnwords(ws: seq<string>)
    requires forall i :: 0 <= i < |ws| ==> IsToken(ws[i])
    ensures Words(Unwords(ws)) == ws
  {
    if ws == [] {
    } else {
      var w := ws[0];
      var rest := if |ws| == 1 then "" else " " + Unwords(ws[1..]);
      assert Unwords(ws) == w + rest;
      TokenLenOf(w, rest);
      var s := w + rest;
      assert s[..|w|] == w;
      assert s[|w|..] == rest;
      if |ws| > 1 {
        assert rest[1..] == Unwords(ws[1..]);
        WordsUnwords(ws[1..]);
      }
    }
  }

  predicate AllSpace(s: string) {
    forall i :: 0 <= i < |s| ==> IsSpace(s[i])
  }

  /** Tokens `ws` laid out with the whitespace runs `gaps` around and
      between them: `gaps[0] + ws[0] + gaps[1] + … + ws[k] + gaps[k + 1]`. */
  function Spaced(ws: seq<string>, gaps: seq<string>): string
    requires |gaps| == |ws| + 1
  {
    if ws == [] then gaps[0]
    else gaps[0] + (ws[0] + Spaced(ws[1..], gaps[1..]))
  }

  /** Whitespace around the tokens may be empty, whitespace between two
      tokens may not. */
  predicate Gaps(ws: seq<string>, gaps: seq<string>) {
    && |gaps| == |ws| + 1
    && (forall i :: 0 <= i < |gaps| ==> AllSpace(gaps[i]))
    && (forall i :: 0 < i < |ws| ==> gaps[i] != [])
  }

  /** `Words` finds exactly the maximal whitespace-free runs of a line, in
      order, whatever whitespace (spaces, tabs, a final newline) lies
      around and between them. */
  lemma {:induction false} WordsSpaced(ws: seq<string>, gaps: seq<string>)
    requires forall i :: 0 <= i < |ws| ==> IsToken(ws[i])
    requires Gaps(ws, gaps)
    ensures Words(Spaced(ws, gaps)) == ws
  {
    WordsOfSpaces(gaps[0]);
    if ws != [] {
      var w, rest := ws[0], Spaced(ws[1..], gaps[1..]);
      assert Words(rest) == ws[1..] by {
        assert Gaps(ws[1..], gaps[1..]);
        WordsSpaced(ws[1..], gaps[1..]);
      }
      assert Words(w + rest) == [w] + ws[1..] by {
        assert Gaps(ws[1..], gaps[1..]);
        SpacedStart(ws[1..], gaps[1..]);
        WordsUnwords([w]);
        WordsAppend(w, rest);
      }
      WordsAppend(gaps[0], w + rest);
    }
  }

  /** Text laid out by `Spaced` starts with whitespace unless it is empty. */
  lemma SpacedStart(ws: seq<string>, gaps: seq<string>)
    requires Gaps(ws, gaps)
    requires ws == [] || gaps[0] != []
    ensures var s := Spaced(ws, gaps); s == [] || IsSpace(s[0])
  {
  }

  /** A token that ends before the end of `a` is not extended by text after `a`. */
  lemma {:induction false} TokenLenPrefix(a: string, b: string)
    requires TokenLen(a) < |a|
    ensures TokenLen(a + b) == TokenLen(a)
    decreases |a|
  {
    if !IsSpace(a[0]) {
      assert (a + b)[0] == a[0];
      assert (a + b)[1..] == a[1..] + b;
      TokenLenPrefix(a[1..], b);
    }
  }

  /** Whitespace alone holds no pieces. */
  lemma {:induction false} WordsOfSpaces(s: string)
    requires forall i :: 0 <= i < |s| ==> IsSpace(s[i])
    ensures Words(s) == []
    decreases |s|
  {
    if s != [] {
      WordsOfSpaces(s[1..]);
    }
  }

  /** Splitting two texts that whitespace separates (or one of which is
      empty) gives the pieces of the first followed by those of the second,
      whatever whitespace surrounds them. */
  lemma {:induction false} WordsAppend(a: string, b: string)
    requires a == [] || b == [] || IsSpace(a[|a| - 1]) || IsSpace(b[0])
    ensures Words(a + b) == Words(a) + Words(b)
    decreases |a|
  {
    if a == [] {
      assert a + b == b;
    } else if IsSpace(a[0]) {
      WordsAppend(a[1..], b);
      WordsAppendSpace(a, b);
    } else {
      WordsAppend(a[TokenLen(a)..], b);
      WordsAppendToken(a, b);
    }
  }

  /** The step of `WordsAppend` past a leading whitespace character. */
  lemma {:induction false} WordsAppendSpace(a: string, b: string)
    requires a != [] && IsSpace(a[0])
    requires Words(a[1..] + b) == Words(a[1..]) + Words(b)
    ensures Words(a + b) == Words(a) + Words(b)
  {
    assert (a + b)[0] == a[0];
    assert (a + b)[1..] == a[1..] + b;
  }

  /** The step of `WordsAppend` past a leading piece. */
  lemma {:induction false} WordsAppendToken(a: string, b: string)
    requires a != [] && !IsSpace(a[0])
    requires b == [] || IsSpace(a[|a| - 1]) || IsSpace(b[0])
    requires Words(a[TokenLen(a)..] + b) == Words(a[TokenLen(a)..]) + Words(b)
    ensures Words(a + b) == Words(a) + Words(b)
  {
    WordsAfterToken(a, b);
  }

  /** The first piece of `a + b`, when `a` starts with one and `b` does not
      extend it, is the first piece of `a`. */
  lemma {:induction false} WordsAfterToken(a: string, b: string)
    requires a != [] && !IsSpace(a[0])
    requires b == [] || IsSpace(a[|a| - 1]) || IsSpace(b[0])
    ensures Words(a + b) == [a[..TokenLen(a)]] + Words(a[TokenLen(a)..] + b)
  {
    var n := TokenLen(a);
    if n < |a| {
      TokenLenPrefix(a, b);
    } else {
      TokenLenOf(a, b);
    }
    assert (a + b)[0] == a[0];
    assert (a + b)[..n] == a[..n];
    assert (a + b)[n..] == a[n..] + b;
  }

  /** Index of the first `c` in `s`. */
  function IndexOf(s: string, c: char): (r: Option<nat>)
    ensures r.None? <==> c !in s
    ensures r.Some? ==> r.value < |s| && s[r.value] == c && c !in s[..r.value]
  {
    if s == [] then None
    else if s[0] == c then Some(0)
    else match IndexOf(s[1..], c)
      case None => None
      case Some(k) =>
        assert s[..k + 1] == [s[0]] + s[1..][..k];
        Some(k + 1)
  }

  /** Index of the first line break of `s`, or `|s|`: the regular
      expression's `.` never crosses one. */
  function LineEnd(s: string): (n: nat)
    ensures n <= |s| && '\n' !in s[..n]
    ensures n < |s| ==> s[n] == '\n'
  {
    match IndexOf(s, '\n')
    case None => |s|
    case Some(k) => k
  }

  /** The last index below `j` holding `c`, if any. */
  function LastIndexBefore(s: string, c: char, j: nat): (r: Option<nat>)
    requires j <= |s|
    ensures r.Some? ==> r.value < j && s[r.value] == c && forall i :: r.value < i < j ==> s[i] != c
    ensures r.None? ==> forall i :: 0 <= i < j ==> s[i] != c
    decreases j
  {
    if j == 0 then None
    else if s[j - 1] == c then Some(j - 1)
    else LastIndexBefore(s, c, j - 1)
  }

  /** Python's `str.rfind`: index of the last `c` in `s`. */
  function LastIndexOf(s: string, c: char): (r: Option<nat>)
    ensures r.None? <==> c !in s
    ensures r.Some? ==> r.value < |s| && s[r.value] == c && forall i :: r.value < i < |s| ==> s[i] != c
  {
    LastIndexBefore(s, c, |s|)
  }

  /** The last `c` of `a + [c] + b` is the one between them when `b` holds
      none. */
  lemma LastOccurrence(a: string, c: char, b: string)
    requires c !in b
    ensures LastIndexOf(a + [c] + b, c) == Some(|a|)
  {
    var s := a + [c] + b;
    assert s[|a|] == c;
    assert forall i :: |a| < i < |s| ==> s[i] == b[i - |a| - 1];
  }

  /** The pieces joined back with the separator between them. */
  function Join(parts: seq<string>, c: char): string
    requires parts != []
  {
    if |parts| == 1 then parts[0] else parts[0] + [c] + Join(parts[1..], c)
  }

  /** Python's `str.split(sep)` for a one-character separator. */
  function Split(s: string, c: char): (parts: seq<string>)
    ensures parts != []
    ensures forall i :: 0 <= i < |parts| ==> c !in parts[i]
    ensures Join(parts, c) == s
    decreases |s|
  {
    match IndexOf(s, c)
    case None => [s]
    case Some(k) =>
      var rest := Split(s[k + 1..], c);
      assert s == s[..k] + [c] + s[k + 1..];
      [s[..k]] + rest
  }

  /** Splitting pieces that hold no separator, once joined, gives them back. */
  lemma {:induction false} SplitJoin(parts: seq<string>, c: char)
    requires parts != []
    requires forall i :: 0 <= i < |parts| ==> c !in parts[i]
    ensures Split(Join(parts, c), c) == parts
  {
    var s := Join(parts, c);
    if |parts| == 1 {
      assert IndexOf(s, c).None?;
    } else {
      var p := parts[0];
      var rest := Join(parts[1..], c);
      assert s == p + [c] + rest;
      var k := |p|;
      assert s[k] == c && s[..k] == p;
      assert IndexOf(s, c) == Some(k);
      assert s[k + 1..] == rest;
      SplitJoin(parts[1..], c);
    }
  }

  /** A string holding exactly one separator splits into the two sides of it. */
  lemma SplitOnce(s: string, k: nat, c: char)
    requires k < |s| && s[k] == c
    requires c !in s[..k] && c !in s[k + 1..]
    ensures Split(s, c) == [s[..k], s[k + 1..]]
  {
    var parts := [s[..k], s[k + 1..]];
    assert Join(parts[1..], c) == parts[1];
    assert s == s[..k] + [c] + s[k + 1..];
    SplitJoin(parts, c);
  }

  predicate IsDigit(c: char) {
    '0' <= c <= '9'
  }

  predicate AllDigits(s: string) {
    forall i :: 0 <= i < |s| ==> IsDigit(s[i])
  }

  /** Value of a string of ASCII decimal digits, most significant first. */
  function DigitsValue(s: string): nat
    requires AllDigits(s)
  {
    if s == [] then 0 else 10 * DigitsValue(s[..|s| - 1]) + (s[|s| - 1] as int - '0' as int)
  }

  function DigitChar(d: nat): (c: char)
    requires d < 10
    ensures IsDigit(c) && c as int - '0' as int == d
  {
    ('0' as int + d) as char
  }

  /** Shortest decimal spelling of `n`. */
  function NatToDecimal(n: nat): (s: string)
    ensures s != [] && AllDigits(s)
    ensures DigitsValue(s) == n
  {
    if n < 10 then [DigitChar(n)]
    else
      var prefix := NatToDecimal(n / 10);
      var s := prefix + [DigitChar(n % 10)];
      assert s[..|s| - 1] == prefix;
      s
  }

  /** Decimal spelling of an integer, with a leading `-` when negative. */
  function IntToDecimal(i: int): (s: string)
    ensures s != []
    ensures forall k :: 0 <= k < |s| ==> IsDigit(s[k]) || s[k] == '-'
  {
    if i < 0 then "-" + NatToDecimal(-i) else NatToDecimal(i)
  }

  /** Value of an optionally signed run of digits (no whitespace). */
  function SignedValue(t: string): Option<int> {
    if t != [] && (t[0] == '+' || t[0] == '-') then
      var d := t[1..];
      if d != [] && AllDigits(d) then
        var v: int := DigitsValue(d);
        Some(if t[0] == '-' then -v else v)
      else None
    else if t != [] && AllDigits(t) then Some(DigitsValue(t))
    else None
  }

  /** Python's `int()` applied to a string: surrounding whitespace is
      ignored, then an optional sign and at least one ASCII digit.  The
      strings it is applied to are pieces of a split on `_`, so Python's
      digit-grouping underscores never occur. */
  function ParseInt(s: string): (r: Option<int>)
    ensures AllDigits(s) && s != [] ==> r == Some(DigitsValue(s))
    ensures r.Some? <==>
      var t := Strip(s);
      t != [] && (IsDigit(t[0]) || ((t[0] == '+' || t[0] == '-') && |t| > 1)) && AllDigits(t[1..])
    ensures r.Some? ==>
      var t := Strip(s);
      t != [] && AllDigits(t[1..])
      && r.value == (if t[0] == '-' then -(DigitsValue(t[1..]) as int)
                     else if t[0] == '+' then DigitsValue(t[1..])
                     else DigitsValue(t))
  {
    var t := Strip(s);
    assert AllDigits(s) && s != [] ==> t == s by {
      if AllDigits(s) && s != [] {
        StripNoEdges(s);
      }
    }
    SignedValue(t)
  }

  /** Reading back the decimal spelling of an integer gives the integer. */
  lemma ParseIntDecimal(i: int)
    ensures ParseInt(IntToDecimal(i)) == Some(i)
  {
    var s := IntToDecimal(i);
    StripNoEdges(s);
    if i < 0 {
      assert s[1..] == NatToDecimal(-i);
    }
  }
}
