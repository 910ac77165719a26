/** The assembler proper: each FASM line is resolved against the tile grid
and the segment-bit tables and applied to the frame image, in input order
(tools/fasm2frame.py, `run`).
 */
module Assembler {
  import opened Errors
  import opened Text
  import opened BitToken
  import opened SegBits
  import opened Layout
  import opened Word32
  import opened Frames
  import opened Statements
  import opened Runs

  /** A (tile, feature name) pair, which a run may assign only once. */
  type Key = (string, string)

  /** What a run carries from line to line: the frame image, the line number
      at which each pair was assigned, and the table cache. */
  datatype State = State(frames: FrameMap, used: map<Key, nat>, cache: Cache)

  /** The value a statement asks for: the one given, or `1` for a feature
      whose variants are exactly `0` and `1`. */
  function RequestedValue(variants: Variants, name: string, value: Option<string>): (r: Result<string>)
    ensures value.Some? ==> r == Ok(value.value)
    ensures value.None? ==> (r.Ok? <==> variants.Keys == {"0", "1"})
    ensures value.None? && r.Ok? ==> r.value == "1" && r.value in variants
    ensures value.None? && r.Err? ==> r.error == MissingValue(name)
  {
    match value
    case Some(v) => Ok(v)
    case None => if variants.Keys == {"0", "1"} then Ok("1") else Err(MissingValue(name))
  }

  /** The variant a statement selects; it must be one of the feature's. */
  function ChooseVariant(variants: Variants, name: string, value: Option<string>): (r: Result<string>)
    ensures r.Ok? ==> r.value in variants
    ensures r.Ok? && value.Some? ==> r.value == value.value
    ensures r.Ok? && value.None? ==> r.value == "1" && variants.Keys == {"0", "1"}
    ensures value.Some? ==> (r.Ok? <==> value.value in variants)
    ensures value.Some? && r.Err? ==> r.error == InvalidVariant(value.value, variants.Keys)
    ensures value.None? ==> (r.Ok? <==> variants.Keys == {"0", "1"})
    ensures value.None? && r.Err? ==> r.error == MissingValue(name)
  {
    var v :- RequestedValue(variants, name, value);
    if v in variants then Ok(v) else Err(InvalidVariant(v, variants.Keys))
  }

  /** A single-bit feature used without a value sets its bit. */
  lemma BinaryDefaultSets(b: Bit, name: string)
    ensures ChooseVariant(BinaryVariants(b), name, None) == Ok("1")
    ensures BinaryVariants(b)["1"] == [b.(isSet := true)]
  {
  }

  /** The pattern a statement selects from a segment table: the table key
      is the tile's type, a `.`, and the feature name. */
  function SelectPattern(db: SegmentDb, tile: Tile, seg: Segment, st: Statement): (r: Result<Pattern>)
    ensures r.Ok? ==> tile.tileType + "." + st.name in db
    ensures tile.tileType + "." + st.name !in db ==> r == Err(UnknownFeature(seg.segType, tile.tileType + "." + st.name))
    ensures tile.tileType + "." + st.name in db ==>
      var variants := db[tile.tileType + "." + st.name];
      && (st.value.Some? && st.value.value in variants ==> r == Ok(variants[st.value.value]))
      && (st.value.Some? && st.value.value !in variants ==> r == Err(InvalidVariant(st.value.value, variants.Keys)))
      && (st.value.None? && variants.Keys == {"0", "1"} ==> r == Ok(variants["1"]))
      && (st.value.None? && variants.Keys != {"0", "1"} ==> r == Err(MissingValue(st.name)))
  {
    var key := tile.tileType + "." + st.name;
    if key !in db then Err(UnknownFeature(seg.segType, key))
    else
      var v :- ChooseVariant(db[key], st.name, st.value);
      Ok(db[key][v])
  }

  /** Everything a statement needs before a bit is written: the tile's
      segment, the selected pattern, and the cache after the table lookup. */
  function Resolve(grid: Grid, files: Files, cache: Cache, st: Statement): (r: Result<(Segment, Pattern, Cache)>)
    ensures LookupTile(grid, st.tile).Err? ==> r == Err(LookupTile(grid, st.tile).error)
    ensures LookupTile(grid, st.tile).Ok? ==>
      var (tile, seg) := LookupTile(grid, st.tile).value;
      var got := GetDatabase(cache, files, seg.segType);
      && (got.Err? ==> r == Err(got.error))
      && (got.Ok? ==> r == match SelectPattern(got.value.0, tile, seg, st)
                           case Err(e) => Err(e)
                           case Ok(p) => Ok((seg, p, got.value.1)))
  {
    var ts :- LookupTile(grid, st.tile);
    var dc :- GetDatabase(cache, files, ts.1.segType);
    var pattern :- SelectPattern(dc.0, ts.0, ts.1, st);
    Ok((ts.1, pattern, dc.1))
  }

  /** The statement a line holds after comment removal, if it is not blank
      and matches the grammar. */
  function LineStatement(line: string): (r: Option<Statement>)
    ensures CleanLine(line) == [] ==> r.None?
    ensures r.Some? ==> IsTile(r.value.tile) && IsName(r.value.name)
    ensures r.Some? ==> r.value.tile + "." + r.value.name <= CleanLine(line)
  {
    var l := CleanLine(line);
    if l == [] then None else MatchStatement(l)
  }

  /** The pair a line assigns, if it holds a statement. */
  function LineKey(line: string): Option<Key> {
    match LineStatement(line)
    case None => None
    case Some(st) => Some((st.tile, st.name))
  }

  /** Pre-touching the segment's frames, then writing the pattern. */
  function Write(frames: FrameMap, seg: Segment, pattern: Pattern): (r: Result<FrameMap>)
    ensures r.Ok? ==> r.value.Keys == frames.Keys + SegmentAddresses(seg)
  {
    ApplyPattern(InitRange(frames, seg.baseAddr, seg.frames), seg, pattern)
  }

  /** A statement line: a pair assigned before is rejected with both line
      numbers; otherwise the pair is recorded, and the selected pattern is
      written into the segment's frames. */
  function Assign(grid: Grid, files: Files, s: State, lineNo: nat, st: Statement): (r: Result<State>)
    ensures r.Ok? ==> s.frames.Keys <= r.value.frames.Keys
    ensures r.Ok? ==> (st.tile, st.name) !in s.used && r.value.used == s.used[(st.tile, st.name) := lineNo]
    ensures (st.tile, st.name) in s.used ==> r == Err(DuplicateName(s.used[(st.tile, st.name)], lineNo))
    ensures (st.tile, st.name) !in s.used && LookupTile(grid, st.tile).Err? ==> r == Err(LookupTile(grid, st.tile).error)
    ensures (st.tile, st.name) !in s.used && Resolve(grid, files, s.cache, st).Err? ==> r == Err(Resolve(grid, files, s.cache, st).error)
    ensures (st.tile, st.name) !in s.used && Resolve(grid, files, s.cache, st).Ok? ==>
      var res := Resolve(grid, files, s.cache, st).value;
      && (r.Ok? <==> Write(s.frames, res.0, res.1).Ok?)
      && (r.Ok? ==> r.value.frames == Write(s.frames, res.0, res.1).value && r.value.cache == res.2)
      && (r.Err? ==> r.error == Write(s.frames, res.0, res.1).error)
  {
    var key := (st.tile, st.name);
    if key in s.used then Err(DuplicateName(s.used[key], lineNo))
    else
      var res :- Resolve(grid, files, s.cache, st);
      var frames :- Write(s.frames, res.0, res.1);
      Ok(State(frames, s.used[key := lineNo], res.2))
  }

  /** One iteration of the loop in `run`: a blank line changes nothing, a
      line that does not match is a syntax error, and a statement is
      assigned. */
  function Step(grid: Grid, files: Files, s: State, lineNo: nat, line: string): (r: Result<State>)
    ensures r.Ok? ==> s.frames.Keys <= r.value.frames.Keys
    ensures r.Ok? ==> forall k :: k in s.used ==> k in r.value.used && r.value.used[k] == s.used[k]
  {
    match LineStatement(line)
    case Some(st) => Assign(grid, files, s, lineNo, st)
    case None => if CleanLine(line) == [] then Ok(s) else Err(SyntaxError(lineNo))
  }

  /** A line that is blank once its comment is dropped changes nothing. */
  lemma BlankLineSkipped(grid: Grid, files: Files, s: State, lineNo: nat, line: string)
    requires CleanLine(line) == []
    ensures Step(grid, files, s, lineNo, line) == Ok(s)
    ensures LineKey(line).None?
  {
  }

  /** A line holding only whitespace and a comment changes nothing. */
  lemma CommentLineSkipped(grid: Grid, files: Files, s: State, lineNo: nat, code: string, comment: string)
    requires Strip(code) == [] && '#' !in comment
    ensures Step(grid, files, s, lineNo, code + "#" + comment) == Ok(s)
  {
    CommentDropped(code, comment);
  }

  /** A line that is neither blank nor a statement is a syntax error. */
  lemma BadLineRejected(grid: Grid, files: Files, s: State, lineNo: nat, line: string)
    requires CleanLine(line) != [] && LineStatement(line).None?
    ensures Step(grid, files, s, lineNo, line) == Err(SyntaxError(lineNo))
  {
  }

  /** A successful step records the line's pair, which was not assigned
      before, with its line number; a line without a statement changes
      nothing. */
  lemma StepRecordsKey(grid: Grid, files: Files, s: State, lineNo: nat, line: string)
    requires Step(grid, files, s, lineNo, line).Ok?
    ensures LineKey(line).None? ==> Step(grid, files, s, lineNo, line).value == s
    ensures LineKey(line).Some? ==>
      && LineKey(line).value !in s.used
      && Step(grid, files, s, lineNo, line).value.used == s.used[LineKey(line).value := lineNo]
  {
  }

  /** A pair assigned before is rejected, reporting the earlier line number
      and this one. */
  lemma StepRejectsDuplicate(grid: Grid, files: Files, s: State, lineNo: nat, line: string)
    requires LineKey(line).Some? && LineKey(line).value in s.used
    ensures Step(grid, files, s, lineNo, line) == Err(DuplicateName(s.used[LineKey(line).value], lineNo))
  {
  }

  /** The frames and bits after a statement: the segment's frames exist
      afterwards, frames that existed keep every bit the pattern does not
      write, frames that were created hold only the bits the pattern sets,
      and a bit the pattern writes holds the polarity of its last entry. */
  lemma StepBits(grid: Grid, files: Files, s: State, lineNo: nat, line: string, loc: Loc)
    requires Step(grid, files, s, lineNo, line).Ok?
    requires LineStatement(line).Some?
    ensures Resolve(grid, files, s.cache, LineStatement(line).value).Ok?
    ensures
      var res := Resolve(grid, files, s.cache, LineStatement(line).value).value;
      var r := Step(grid, files, s, lineNo, line).value;
      && r.frames.Keys == s.frames.Keys + SegmentAddresses(res.0)
      && (InImage(r.frames, loc) ==>
            BitAt(r.frames, loc) ==
              match LastWrite(res.0, res.1, loc)
              case Some(v) => v
              case None => InImage(s.frames, loc) && BitAt(s.frames, loc))
  {
    var st := LineStatement(line).value;
    var res := Resolve(grid, files, s.cache, st).value;
    var seg := res.0;
    var init := InitRange(s.frames, seg.baseAddr, seg.frames);
    assert Step(grid, files, s, lineNo, line).value.frames == ApplyPattern(init, seg, res.1).value;
    if InImage(init, loc) {
      LastWriterWins(init, seg, res.1, loc);
      if loc.frame !in s.frames {
        ZeroHasNoBits(loc.bit);
      }
    }
  }

  /** The loop of `run` from line number `first` on: lines are applied in
      order and the first failing line aborts the run. */
  function RunFrom(grid: Grid, files: Files, s: State, lines: seq<string>, first: nat): (r: Result<State>)
    ensures r.Ok? ==> s.frames.Keys <= r.value.frames.Keys
    ensures r.Ok? ==> forall k :: k in s.used ==> k in r.value.used && r.value.used[k] == s.used[k]
    decreases |lines|
  {
    if lines == [] then Ok(s)
    else
      var next :- Step(grid, files, s, first, lines[0]);
      RunFrom(grid, files, next, lines[1..], first + 1)
  }

  /** `run`: unless `sparse`, every frame of every segment is created zero
      first; lines are numbered from 1.  The result is the frame image and
      the cache as left behind. */
  function Run(grid: Grid, files: Files, cache: Cache, lines: seq<string>, sparse: bool): (r: Result<(FrameMap, Cache)>)
    ensures r.Ok? && !sparse ==> DenseFrames(grid).Keys <= r.value.0.Keys
  {
    var init := if sparse then map[] else DenseFrames(grid);
    var s :- RunFrom(grid, files, State(init, map[], cache), lines, 1);
    Ok((s.frames, s.cache))
  }

  /** The first failing line decides the run: if the lines before line `j`
      ran, reaching `mid`, and line `j` fails from there with `e`, the run
      fails with `e`. */
  lemma RunFromStops(grid: Grid, files: Files, s: State, lines: seq<string>, first: nat, j: nat, mid: State, e: Error)
    requires j < |lines|
    requires RunFrom(grid, files, s, lines[..j], first) == Ok(mid)
    requires StepOf(grid, files)(mid, first + j, lines[j]) == Err(e)
    ensures RunFrom(grid, files, s, lines, first) == Err(e)
  {
    RunFromIsFold(grid, files, s, lines[..j], first);
    RunFromIsFold(grid, files, s, lines, first);
    FoldStopsAt(StepOf(grid, files), s, lines, first, j, mid, e);
  }

  /** A successful run records every assigned pair with the number of the
      line that assigned it; no pair was assigned before the run, and no
      two lines assign the same pair. */
  lemma RunRecordsKeys(grid: Grid, files: Files, s: State, lines: seq<string>, first: nat)
    requires RunFrom(grid, files, s, lines, first).Ok?
    ensures forall i :: 0 <= i < |lines| && LineKey(lines[i]).Some? ==>
      && LineKey(lines[i]).value !in s.used
      && LineKey(lines[i]).value in RunFrom(grid, files, s, lines, first).value.used
      && RunFrom(grid, files, s, lines, first).value.used[LineKey(lines[i]).value] == first + i
    ensures forall i, j :: 0 <= i < j < |lines| && LineKey(lines[i]).Some? ==> LineKey(lines[j]) != LineKey(lines[i])
  {
    StepGuards(grid, files);
    RunFromIsFold(grid, files, s, lines, first);
    FoldRecordsKeys(StepOf(grid, files), LineKey, UsedOf, s, lines, first);
  }

  /** The step of `run` over a fixed grid and database, as a value. */
  function StepOf(grid: Grid, files: Files): (State, nat, string) -> Result<State> {
    (s: State, n: nat, line: string) => Step(grid, files, s, n, line)
  }

  /** The assignments a state records. */
  function UsedOf(s: State): map<Key, nat> {
    s.used
  }

  /** The step rejects a pair assigned before and records the pair of every
      line it accepts. */
  lemma StepGuards(grid: Grid, files: Files)
    ensures Guards(StepOf(grid, files), LineKey, UsedOf)
  {
    forall s: State, n: nat, line: string | LineKey(line).Some? && LineKey(line).value in s.used
      ensures StepOf(grid, files)(s, n, line) == Err(DuplicateName(s.used[LineKey(line).value], n))
    {
      StepRejectsDuplicate(grid, files, s, n, line);
    }
    forall s: State, n: nat, line: string | StepOf(grid, files)(s, n, line).Ok?
      ensures LineKey(line).Some? ==> LineKey(line).value !in s.used
      ensures StepOf(grid, files)(s, n, line).value.used == Record(s.used, LineKey(line), n)
    {
      StepRecordsKey(grid, files, s, n, line);
    }
  }

  /** `RunFrom` is the fold of the step over the lines. */
  lemma {:induction false} RunFromIsFold(grid: Grid, files: Files, s: State, lines: seq<string>, first: nat)
    ensures RunFrom(grid, files, s, lines, first) == Fold(StepOf(grid, files), s, lines, first)
    decreases |lines|
  {
    if lines != [] {
      var r := Step(grid, files, s, first, lines[0]);
      assert StepOf(grid, files)(s, first, lines[0]) == r;
      if r.Ok? {
        RunFromIsFold(grid, files, r.value, lines[1..], first + 1);
      }
    }
  }

  /** If every line before line `j` ran, and line `j` assigns a pair
      assigned before the run, the run fails there, reporting the earlier
      line number and `j`'s. */
  lemma RunRejectsReassigned(grid: Grid, files: Files, s: State, lines: seq<string>, first: nat, j: nat)
    requires j < |lines|
    requires LineKey(lines[j]).Some? && LineKey(lines[j]).value in s.used
    requires RunFrom(grid, files, s, lines[..j], first).Ok?
    ensures RunFrom(grid, files, s, lines, first) == Err(DuplicateName(s.used[LineKey(lines[j]).value], first + j))
  {
    var key := LineKey(lines[j]).value;
    StepGuards(grid, files);
    RunFromIsFold(grid, files, s, lines[..j], first);
    RunFromIsFold(grid, files, s, lines, first);
    FoldRejectsReassigned(StepOf(grid, files), LineKey, UsedOf, s, lines, first, j, key, s.used[key]);
  }

  /** If every line before the second assignment of a pair ran, the run
      fails at that line, reporting the line of the first assignment and
      its own. */
  lemma DuplicateReportsBothLines(grid: Grid, files: Files, s: State, lines: seq<string>, first: nat, i: nat, j: nat)
    requires i < j < |lines|
    requires LineKey(lines[i]).Some? && LineKey(lines[j]) == LineKey(lines[i])
    requires RunFrom(grid, files, s, lines[..j], first).Ok?
    ensures RunFrom(grid, files, s, lines, first) == Err(DuplicateName(first + i, first + j))
  {
    StepGuards(grid, files);
    RunFromIsFold(grid, files, s, lines[..j], first);
    RunFromIsFold(grid, files, s, lines, first);
    FoldReportsBothLines(StepOf(grid, files), LineKey, UsedOf, s, lines, first, i, j);
  }

  /** Two results that differ at most in the cache. */
  predicate SameOutcome(r1: Result<State>, r2: Result<State>) {
    && (r1.Ok? <==> r2.Ok?)
    && (r1.Err? ==> r1.error == r2.error)
    && (r1.Ok? ==> r1.value.frames == r2.value.frames && r1.value.used == r2.value.used)
  }

  /** Resolution without a cache: the table is loaded afresh. */
  function ResolveFresh(grid: Grid, files: Files, st: Statement): Result<(Segment, Pattern)> {
    var ts :- LookupTile(grid, st.tile);
    var db :- LoadSegmentType(files, ts.1.segType);
    var pattern :- SelectPattern(db, ts.0, ts.1, st);
    Ok((ts.1, pattern))
  }

  /** From a faithful cache, resolution gives what a fresh load gives, and
      leaves a faithful cache. */
  lemma ResolveMatchesFresh(grid: Grid, files: Files, cache: Cache, st: Statement)
    requires Faithful(cache, files)
    ensures Resolve(grid, files, cache, st).Ok? <==> ResolveFresh(grid, files, st).Ok?
    ensures Resolve(grid, files, cache, st).Err? ==> Resolve(grid, files, cache, st).error == ResolveFresh(grid, files, st).error
    ensures Resolve(grid, files, cache, st).Ok? ==>
      && (Resolve(grid, files, cache, st).value.0, Resolve(grid, files, cache, st).value.1) == ResolveFresh(grid, files, st).value
      && Faithful(Resolve(grid, files, cache, st).value.2, files)
  {
    if LookupTile(grid, st.tile).Ok? {
      CacheTransparent(cache, files, LookupTile(grid, st.tile).value.1.segType);
    }
  }

  /** A statement that resolves writes the pattern the database files give
      its tile type, feature and value: the value named, or `1` when a
      binary feature is used without one. */
  lemma ResolveSelectsVariant(grid: Grid, files: Files, cache: Cache, st: Statement)
    requires Faithful(cache, files)
    requires Resolve(grid, files, cache, st).Ok?
    ensures st.tile in grid.tiles && grid.tiles[st.tile].segment in grid.segments
    ensures
      var tile := grid.tiles[st.tile];
      var seg := grid.segments[tile.segment];
      var key := tile.tileType + "." + st.name;
      var loaded := LoadSegmentType(files, seg.segType);
      var res := Resolve(grid, files, cache, st).value;
      && res.0 == seg
      && loaded.Ok? && key in loaded.value
      && (st.value.Some? ==> st.value.value in loaded.value[key] && res.1 == loaded.value[key][st.value.value])
      && (st.value.None? ==> loaded.value[key].Keys == {"0", "1"} && res.1 == loaded.value[key]["1"])
  {
    ResolveMatchesFresh(grid, files, cache, st);
  }

  /** A statement does not depend on what a faithful cache holds. */
  lemma AssignCacheTransparent(grid: Grid, files: Files, s: State, c: Cache, lineNo: nat, st: Statement)
    requires Faithful(s.cache, files) && Faithful(c, files)
    ensures SameOutcome(Assign(grid, files, s, lineNo, st), Assign(grid, files, s.(cache := c), lineNo, st))
    ensures Assign(grid, files, s, lineNo, st).Ok? ==> Faithful(Assign(grid, files, s, lineNo, st).value.cache, files)
    ensures Assign(grid, files, s.(cache := c), lineNo, st).Ok? ==>
      Faithful(Assign(grid, files, s.(cache := c), lineNo, st).value.cache, files)
  {
    ResolveMatchesFresh(grid, files, s.cache, st);
    ResolveMatchesFresh(grid, files, c, st);
  }

  /** A step does not depend on what a faithful cache holds. */
  lemma StepCacheTransparent(grid: Grid, files: Files, s: State, c: Cache, lineNo: nat, line: string)
    requires Faithful(s.cache, files) && Faithful(c, files)
    ensures SameOutcome(Step(grid, files, s, lineNo, line), Step(grid, files, s.(cache := c), lineNo, line))
    ensures Step(grid, files, s, lineNo, line).Ok? ==> Faithful(Step(grid, files, s, lineNo, line).value.cache, files)
    ensures Step(grid, files, s.(cache := c), lineNo, line).Ok? ==>
      Faithful(Step(grid, files, s.(cache := c), lineNo, line).value.cache, files)
  {
    if LineStatement(line).Some? {
      AssignCacheTransparent(grid, files, s, c, lineNo, LineStatement(line).value);
    }
  }

  /** A run does not depend on what a faithful cache holds. */
  lemma {:induction false} RunFromCacheTransparent(grid: Grid, files: Files, s: State, c: Cache, lines: seq<string>, first: nat)
    requires Faithful(s.cache, files) && Faithful(c, files)
    ensures SameOutcome(RunFrom(grid, files, s, lines, first), RunFrom(grid, files, s.(cache := c), lines, first))
    decreases |lines|
  {
    if lines != [] {
      StepCacheTransparent(grid, files, s, c, first, lines[0]);
      var r1 := Step(grid, files, s, first, lines[0]);
      var r2 := Step(grid, files, s.(cache := c), first, lines[0]);
      if r1.Ok? {
        assert r2.value == r1.value.(cache := r2.value.cache);
        RunFromCacheTransparent(grid, files, r1.value, r2.value.cache, lines[1..], first + 1);
      }
    }
  }

  /** Memoizing tables across runs changes nothing: a run from a faithful
      cache gives the frames, or the error, of a run from an empty one. */
  lemma RunCacheTransparent(grid: Grid, files: Files, cache: Cache, lines: seq<string>, sparse: bool)
    requires Faithful(cache, files)
    ensures Run(grid, files, cache, lines, sparse).Ok? <==> Run(grid, files, map[], lines, sparse).Ok?
    ensures Run(grid, files, cache, lines, sparse).Err? ==>
      Run(grid, files, cache, lines, sparse).error == Run(grid, files, map[], lines, sparse).error
    ensures Run(grid, files, cache, lines, sparse).Ok? ==>
      Run(grid, files, cache, lines, sparse).value.0 == Run(grid, files, map[], lines, sparse).value.0
  {
    var init := if sparse then map[] else DenseFrames(grid);
    RunFromCacheTransparent(grid, files, State(init, map[], cache), map[], lines, 1);
  }
}
