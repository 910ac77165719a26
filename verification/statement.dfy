/** One line of FASM input: comment removal and the statement grammar
`TILE.NAME[ VALUE]` (tools/fasm2frame.py, the loop body of `run`).
 */
module Statements {
  import opened Errors
  import opened Text

  /** Everything from the last `#` on is dropped, then surrounding
      whitespace. */
  function CleanLine(l: string): (r: string)
    ensures r == [] || (!IsSpace(r[0]) && !IsSpace(r[|r| - 1]))
  {
    match LastIndexOf(l, '#')
    case None => Strip(l)
    case Some(i) => Strip(l[..i])
  }

  /** A line without `#` is only stripped. */
  lemma NoComment(l: string)
    requires '#' !in l
    ensures CleanLine(l) == Strip(l)
  {
  }

  /** A comment that holds no further `#` is dropped together with its `#`. */
  lemma CommentDropped(code: string, comment: string)
    requires '#' !in comment
    ensures CleanLine(code + "#" + comment) == Strip(code)
  {
    var l := code + "#" + comment;
    assert l == code + ['#'] + comment;
    LastOccurrence(code, '#', comment);
    assert l[..|code|] == code;
  }

  /** `[a-zA-Z0-9_]`, the characters of a tile name. */
  predicate IsTileChar(c: char) {
    || ('a' <= c <= 'z')
    || ('A' <= c <= 'Z')
    || ('0' <= c <= '9')
    || c == '_'
  }

  /** `[a-zA-Z0-9_.\[\]]`, the characters of a feature name. */
  predicate IsNameChar(c: char) {
    IsTileChar(c) || c == '.' || c == '[' || c == ']'
  }

  predicate IsTile(s: string) {
    s != [] && forall i :: 0 <= i < |s| ==> IsTileChar(s[i])
  }

  predicate IsName(s: string) {
    s != [] && forall i :: 0 <= i < |s| ==> IsNameChar(s[i])
  }

  /** Length of the longest prefix of `s` whose characters satisfy `p`. */
  function RunLen(s: string, p: char -> bool): (n: nat)
    ensures n <= |s|
    ensures forall i :: 0 <= i < n ==> p(s[i])
    ensures n < |s| ==> !p(s[n])
  {
    if s == [] || !p(s[0]) then 0 else 1 + RunLen(s[1..], p)
  }

  /** Length of the longest prefix of tile characters. */
  function TileLen(s: string): (n: nat)
    ensures n <= |s|
    ensures forall i :: 0 <= i < n ==> IsTileChar(s[i])
    ensures n < |s| ==> !IsTileChar(s[n])
  {
    RunLen(s, IsTileChar)
  }

  /** Length of the longest prefix of name characters. */
  function NameLen(s: string): (n: nat)
    ensures n <= |s|
    ensures forall i :: 0 <= i < n ==> IsNameChar(s[i])
    ensures n < |s| ==> !IsNameChar(s[n])
  {
    RunLen(s, IsNameChar)
  }

  /** A statement: `tile.name`, with the value when one is given. */
  datatype Statement = Statement(tile: string, name: string, value: Option<string>)

  /** The optional `([ ](.+))?` after the name: a space followed by at least
      one character, running up to the first line break.  Anything else
      after the name is not part of the match and is ignored. */
  function TrailingValue(rest: string): (r: Option<string>)
    ensures r.Some? ==> r.value != [] && '\n' !in r.value
    ensures r.Some? ==> 1 + |r.value| <= |rest| && rest[..1 + |r.value|] == " " + r.value
  {
    if |rest| >= 2 && rest[0] == ' ' && rest[1] != '\n' then
      var v := rest[1..][..LineEnd(rest[1..])];
      assert rest[..1 + |v|] == " " + v;
      Some(v)
    else None
  }

  /** `re.match` of the statement pattern: it is anchored at the start of the
      line only.  The tile is the maximal run of tile characters and must be
      followed by `.`; the name is the maximal run of name characters after
      it, and must not be empty. */
  function MatchStatement(l: string): (r: Option<Statement>)
    ensures r.Some? ==> IsTile(r.value.tile) && IsName(r.value.name)
    ensures r.Some? ==> r.value.tile + "." + r.value.name <= l
  {
    var t := TileLen(l);
    if t == 0 || t == |l| || l[t] != '.' then None
    else
      var rest := l[t + 1..];
      var n := NameLen(rest);
      if n == 0 then None
      else Some(Statement(l[..t], rest[..n], TrailingValue(rest[n..])))
  }

  /** `l` is a tile, a `.`, a name, and text that cannot extend the name. */
  predicate Decomposes(l: string, tile: string, name: string, rest: string) {
    && IsTile(tile)
    && IsName(name)
    && (rest == [] || !IsNameChar(rest[0]))
    && l == tile + "." + name + rest
  }

  /** What a match returns is a prefix decomposition of the line. */
  lemma MatchSound(l: string)
    requires MatchStatement(l).Some?
    ensures
      var st := MatchStatement(l).value;
      var rest := l[|st.tile| + 1 + |st.name|..];
      Decomposes(l, st.tile, st.name, rest) && st.value == TrailingValue(rest)
  {
    var t := TileLen(l);
    var n := NameLen(l[t + 1..]);
    MatchParts(l);
    PartsDecompose(l, t, n);
  }

  /** Where a match cuts the line. */
  lemma MatchParts(l: string)
    requires MatchStatement(l).Some?
    ensures 0 < TileLen(l) < |l| && l[TileLen(l)] == '.'
    ensures
      var t := TileLen(l);
      var n := NameLen(l[t + 1..]);
      && 0 < n
      && MatchStatement(l) == Some(Statement(l[..t], l[t + 1..][..n], TrailingValue(l[t + 1..][n..])))
  {
  }

  /** The cuts of a match split the line into a tile, a `.`, a name and a
      rest that cannot extend the name. */
  lemma PartsDecompose(l: string, t: nat, n: nat)
    requires 0 < t < |l| && l[t] == '.' && t == TileLen(l)
    requires 0 < n && n == NameLen(l[t + 1..])
    ensures Decomposes(l, l[..t], l[t + 1..][..n], l[t + 1..][n..])
    ensures l[t + 1..][n..] == l[t + 1 + n..]
  {
    var after := l[t + 1..];
    var tile, name, rest := l[..t], after[..n], after[n..];
    assert IsTile(tile) by {
      assert forall i :: 0 <= i < |tile| ==> tile[i] == l[i];
    }
    assert IsName(name) by {
      assert forall i :: 0 <= i < |name| ==> name[i] == after[i];
    }
    assert rest == [] || !IsNameChar(rest[0]) by {
      assert rest != [] ==> rest[0] == after[n];
    }
    JoinAtDot(l, t, n);
  }

  /** A line cut at a `.` and again after it is the concatenation of the
      pieces. */
  lemma JoinAtDot(l: string, t: nat, n: nat)
    requires t < |l| && l[t] == '.' && n <= |l| - (t + 1)
    ensures l == l[..t] + "." + l[t + 1..][..n] + l[t + 1..][n..]
    ensures l[t + 1..][n..] == l[t + 1 + n..]
  {
    assert l == l[..t] + "." + l[t + 1..];
    assert l[t + 1..] == l[t + 1..][..n] + l[t + 1..][n..];
  }

  /** Every prefix decomposition is found, so a line matches exactly when it
      has one. */
  lemma MatchComplete(tile: string, name: string, rest: string)
    requires Decomposes(tile + "." + name + rest, tile, name, rest)
    ensures MatchStatement(tile + "." + name + rest) == Some(Statement(tile, name, TrailingValue(rest)))
  {
    var l := tile + "." + name + rest;
    var after := name + rest;
    SplitAtDot(tile, after);
    assert l == tile + "." + after;
    TileRun(tile, "." + after);
    NameRun(name, rest);
    assert after[..|name|] == name && after[|name|..] == rest;
  }

  lemma SplitAtDot(tile: string, after: string)
    ensures (tile + "." + after)[..|tile|] == tile
    ensures (tile + "." + after)[|tile|] == '.'
    ensures (tile + "." + after)[|tile| + 1..] == after
    ensures tile + "." + after == tile + ("." + after)
  {
  }

  lemma TileRun(tile: string, rest: string)
    requires IsTile(tile)
    requires rest == [] || !IsTileChar(rest[0])
    ensures TileLen(tile + rest) == |tile|
  {
    assert forall i :: 0 <= i < |tile| ==> (tile + rest)[i] == tile[i];
    assert rest != [] ==> (tile + rest)[|tile|] == rest[0];
  }

  lemma NameRun(name: string, rest: string)
    requires IsName(name)
    requires rest == [] || !IsNameChar(rest[0])
    ensures NameLen(name + rest) == |name|
  {
    assert forall i :: 0 <= i < |name| ==> (name + rest)[i] == name[i];
    assert rest != [] ==> (name + rest)[|name|] == rest[0];
  }

  predicate WellFormed(st: Statement) {
    && IsTile(st.tile)
    && IsName(st.name)
    && (st.value.Some? ==> st.value.value != [] && '\n' !in st.value.value)
  }

  /** The canonical spelling of a statement. */
  function FormatStatement(st: Statement): string {
    st.tile + "." + st.name + match st.value
      case None => ""
      case Some(v) => " " + v
  }

  /** A space and a value are read back as that value. */
  lemma TrailingValueOf(v: string)
    requires v != [] && '\n' !in v
    ensures TrailingValue(" " + v) == Some(v)
  {
    var rest := " " + v;
    assert rest[1..] == v;
    assert rest[1] == v[0] && v[0] in v;
    assert forall i :: 0 <= i < |v| ==> v[i] != '\n';
    assert LineEnd(v) == |v|;
    assert v[..|v|] == v;
  }

  /** Reading back a formatted statement gives the statement. */
  lemma MatchFormat(st: Statement)
    requires WellFormed(st)
    ensures MatchStatement(FormatStatement(st)) == Some(st)
  {
    match st.value
    case None =>
      assert FormatStatement(st) == st.tile + "." + st.name + "";
      MatchComplete(st.tile, st.name, "");
    case Some(v) =>
      TrailingValueOf(v);
      assert FormatStatement(st) == st.tile + "." + st.name + (" " + v);
      MatchComplete(st.tile, st.name, " " + v);
  }

  /** Text after the name that does not start with a space is ignored: the
      statement carries no value. */
  lemma TrailingIgnored(tile: string, name: string, junk: string)
    requires IsTile(tile) && IsName(name)
    requires junk != [] && junk[0] != ' ' && !IsNameChar(junk[0])
    ensures MatchStatement(tile + "." + name + junk) == Some(Statement(tile, name, None))
  {
    MatchComplete(tile, name, junk);
  }
}
