/** Bit tokens of the segment-bit database: `[!]COL_BIT`, as read by
`parsebit` (tools/fasm2frame.py).
 */
module BitToken {
  import opened Errors
  import opened Text

  /** One entry of a bit pattern: the frame column relative to the segment's
      base address, the bit position relative to the segment's first word,
      and whether the bit is to be set (true) or cleared (false). */
  datatype Bit = Bit(column: int, position: int, isSet: bool)

  /** The token without its leading `!`, when it has one. */
  function Unmarked(tok: string): string
    requires tok != []
  {
    if tok[0] == '!' then tok[1..] else tok
  }

  /** `tok` spells `b` with its only `_` at index `k` of the unmarked body:
      a leading `!` exactly when the bit is cleared, and integer literals on
      both sides of the `_`. */
  predicate SpellsAt(tok: string, k: nat, b: Bit) {
    && tok != []
    && (b.isSet <==> tok[0] != '!')
    && var u := Unmarked(tok);
       && k < |u|
       && u[k] == '_'
       && '_' !in u[..k]
       && '_' !in u[k + 1..]
       && ParseInt(u[..k]) == Some(b.column)
       && ParseInt(u[k + 1..]) == Some(b.position)
  }

  ghost predicate Spells(tok: string, b: Bit) {
    exists k :: SpellsAt(tok, k, b)
  }

  /** `parsebit`: an empty token, a body that does not split into exactly two
      pieces at `_`, or a piece that is not an integer is malformed. */
  function ParseBit(tok: string): (r: Result<Bit>)
    ensures r.Ok? ==> tok != [] && (r.value.isSet <==> tok[0] != '!')
    ensures r.Err? ==> r.error == MalformedBit(tok)
  {
    if tok == [] then Err(MalformedBit(tok))
    else
      var u := Unmarked(tok);
      var parts := Split(u, '_');
      if |parts| != 2 then Err(MalformedBit(tok))
      else
        match (ParseInt(parts[0]), ParseInt(parts[1]))
        case (Some(column), Some(position)) => Ok(Bit(column, position, tok[0] != '!'))
        case _ => Err(MalformedBit(tok))
  }

  /** A token is read only as the bit it spells. */
  lemma ParseBitSound(tok: string)
    requires ParseBit(tok).Ok?
    ensures Spells(tok, ParseBit(tok).value)
  {
    var u := Unmarked(tok);
    var parts := Split(u, '_');
    assert Join(parts[1..], '_') == parts[1];
    var k := |parts[0]|;
    assert u[..k] == parts[0] && u[k + 1..] == parts[1];
    assert SpellsAt(tok, k, ParseBit(tok).value);
  }

  /** Every token that spells a bit is read as exactly that bit. */
  lemma ParseBitComplete(tok: string, b: Bit)
    requires Spells(tok, b)
    ensures ParseBit(tok) == Ok(b)
  {
    var k: nat :| SpellsAt(tok, k, b);
    var u := Unmarked(tok);
    SplitOnce(u, k, '_');
    ReadParts(tok, u[..k], u[k + 1..], b);
  }

  /** A token whose body splits at `_` into the spellings of the bit's
      column and position is read as that bit. */
  lemma ReadParts(tok: string, c: string, p: string, b: Bit)
    requires tok != [] && (b.isSet <==> tok[0] != '!')
    requires Split(Unmarked(tok), '_') == [c, p]
    requires ParseInt(c) == Some(b.column) && ParseInt(p) == Some(b.position)
    ensures ParseBit(tok) == Ok(b)
  {
  }

  /** The canonical spelling of a bit. */
  function FormatBit(b: Bit): string {
    var body := IntToDecimal(b.column) + "_" + IntToDecimal(b.position);
    if b.isSet then body else "!" + body
  }

  /** Reading a formatted bit gives the bit back. */
  lemma ParseFormatBit(b: Bit)
    ensures ParseBit(FormatBit(b)) == Ok(b)
  {
    var c := IntToDecimal(b.column);
    var p := IntToDecimal(b.position);
    var u := c + "_" + p;
    assert u[..|c|] == c && u[|c|] == '_' && u[|c| + 1..] == p;
    assert '_' !in c && '_' !in p;
    ParseIntDecimal(b.column);
    ParseIntDecimal(b.position);
    var tok := FormatBit(b);
    assert tok[0] == '!' <==> !b.isSet by {
      assert b.isSet ==> tok[0] == c[0];
    }
    assert Unmarked(tok) == u;
    assert SpellsAt(tok, |c|, b);
    ParseBitComplete(tok, b);
  }

  /** The list comprehension `[parsebit(x) for x in bit_vals]`: every token
      is read in order, and any malformed one makes the whole list fail. */
  function ParseBits(toks: seq<string>): (r: Result<seq<Bit>>)
    ensures r.Ok? <==> forall i :: 0 <= i < |toks| ==> ParseBit(toks[i]).Ok?
    ensures r.Ok? ==> |r.value| == |toks|
    ensures r.Ok? ==> forall i :: 0 <= i < |toks| ==> ParseBit(toks[i]) == Ok(r.value[i])
    ensures r.Err? ==> exists i :: 0 <= i < |toks| && ParseBit(toks[i]).Err? && r.error == MalformedBit(toks[i])
                                   && forall j :: 0 <= j < i ==> ParseBit(toks[j]).Ok?
  {
    MapAll(ParseBit, toks)
  }
}
