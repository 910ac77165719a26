/** The frame image under construction: a map from frame address to a frame
of 101 32-bit words, with `frame_init`, `frames_init`, `frame_set`,
`frame_clear` and the address arithmetic of `update_segbit`
(tools/fasm2frame.py).
 */
module Frames {
  import opened Errors
  import opened BitToken
  import opened Layout
  import opened Word32

  /** Words per configuration frame. */
  const FrameWords: nat := 101

  type Frame = f: seq<bv32> | |f| == FrameWords witness seq(FrameWords, i => 0)

  /** The frame `frame_init` creates: 101 zero words. */
  function ZeroFrame(): (f: Frame)
    ensures forall k :: 0 <= k < FrameWords ==> f[k] == 0
  {
    seq(FrameWords, i => 0)
  }

  type FrameMap = map<int, Frame>

  /** The addresses `base + 0 .. base + n - 1`; none when `n <= 0`, as with
      Python's `range(n)`. */
  function Addresses(base: int, n: int): (r: set<int>)
    ensures forall a :: a in r <==> base <= a < base + n
    decreases n
  {
    if n <= 0 then {} else Addresses(base, n - 1) + {base + n - 1}
  }

  /** `frame_init`: a zero frame at `addr`, unless a frame is already there. */
  function FrameInit(fm: FrameMap, addr: int): (r: FrameMap)
    ensures r.Keys == fm.Keys + {addr}
    ensures forall a :: a in fm ==> r[a] == fm[a]
    ensures addr !in fm ==> r[addr] == ZeroFrame()
  {
    if addr in fm then fm else fm[addr := ZeroFrame()]
  }

  /** `for coli in range(n): frame_init(base + coli)`: every address of the
      range holds a frame afterwards, frames already present keep their
      contents, and every frame that was added is zero. */
  function InitRange(fm: FrameMap, base: int, n: int): (r: FrameMap)
    ensures r.Keys == fm.Keys + Addresses(base, n)
    ensures forall a :: a in fm ==> r[a] == fm[a]
    ensures forall a :: a in r && a !in fm ==> r[a] == ZeroFrame()
    decreases n
  {
    if n <= 0 then fm else FrameInit(InitRange(fm, base, n - 1), base + n - 1)
  }

  /** Initialising a range a second time changes nothing. */
  lemma InitRangeIdempotent(fm: FrameMap, base: int, n: int)
    ensures InitRange(InitRange(fm, base, n), base, n) == InitRange(fm, base, n)
  {
    var once := InitRange(fm, base, n);
    var twice := InitRange(once, base, n);
    assert twice.Keys == once.Keys;
  }

  /** The frame addresses a segment spans. */
  function SegmentAddresses(s: Segment): set<int> {
    Addresses(s.baseAddr, s.frames)
  }

  /** The addresses spanned by the named segments of the grid. */
  function SpannedBy(grid: Grid, names: set<string>): set<int> {
    set name, a | name in names && name in grid.segments && a in SegmentAddresses(grid.segments[name]) :: a
  }

  lemma SpannedByInsert(grid: Grid, names: set<string>, name: string)
    requires name in grid.segments
    ensures SpannedBy(grid, names + {name}) == SpannedBy(grid, names) + SegmentAddresses(grid.segments[name])
  {
    var s := grid.segments[name];
    forall a | a in SpannedBy(grid, names + {name})
      ensures a in SpannedBy(grid, names) + SegmentAddresses(s)
    {
      var n, a' :| n in names + {name} && n in grid.segments && a' in SegmentAddresses(grid.segments[n]) && a == a';
      if n != name {
        assert a in SpannedBy(grid, names);
      }
    }
  }

  /** The image `frames_init` builds: a zero frame at every address of every
      segment of the grid. */
  function DenseFrames(grid: Grid): (r: map<int, Frame>)
    ensures forall a :: a in r <==> exists name :: name in grid.segments && a in SegmentAddresses(grid.segments[name])
    ensures forall a :: a in r ==> r[a] == ZeroFrame()
  {
    map a | a in SpannedBy(grid, grid.segments.Keys) :: ZeroFrame()
  }

  /** A zero image over exactly the spanned addresses is the dense image. */
  lemma DenseFramesUnique(grid: Grid, fm: FrameMap)
    requires fm.Keys == SpannedBy(grid, grid.segments.Keys)
    requires forall a :: a in fm ==> fm[a] == ZeroFrame()
    ensures fm == DenseFrames(grid)
  {
  }

  /** One segment more initialised keeps the image zero over exactly the
      addresses spanned so far. */
  lemma InitSegmentStep(grid: Grid, done: set<string>, name: string, fm: FrameMap)
    requires name in grid.segments
    requires fm.Keys == SpannedBy(grid, done)
    requires forall a :: a in fm ==> fm[a] == ZeroFrame()
    ensures
      var s := grid.segments[name];
      var r := InitRange(fm, s.baseAddr, s.frames);
      && r.Keys == SpannedBy(grid, done + {name})
      && forall a :: a in r ==> r[a] == ZeroFrame()
  {
    SpannedByInsert(grid, done, name);
  }

  /** `frames_init`, segment by segment: the result is exactly the dense
      image, one zero frame per address some segment spans. */
  method FramesInit(grid: Grid) returns (fm: FrameMap)
    ensures fm.Keys == SpannedBy(grid, grid.segments.Keys)
    ensures forall a :: a in fm ==> fm[a] == ZeroFrame()
    ensures fm == DenseFrames(grid)
  {
    fm := map[];
    var todo := grid.segments.Keys;
    assert SpannedBy(grid, grid.segments.Keys - todo) == {};
    while todo != {}
      invariant todo <= grid.segments.Keys
      invariant fm.Keys == SpannedBy(grid, grid.segments.Keys - todo)
      invariant forall a :: a in fm ==> fm[a] == ZeroFrame()
      decreases |todo|
    {
      var name :| name in todo;
      var s := grid.segments[name];
      InitSegmentStep(grid, grid.segments.Keys - todo, name, fm);
      fm := InitRange(fm, s.baseAddr, s.frames);
      assert grid.segments.Keys - (todo - {name}) == (grid.segments.Keys - todo) + {name};
      todo := todo - {name};
    }
    DenseFramesUnique(grid, fm);
  }

  /** Python list indexing into a frame: `-101 .. -1` count from the end,
      anything else outside `0 .. 100` raises. */
  function WordIndex(w: int): (r: Option<nat>)
    ensures r.Some? <==> -(FrameWords as int) <= w < FrameWords
    ensures r.Some? ==> r.value < FrameWords && r.value % FrameWords == w % FrameWords
  {
    if 0 <= w < FrameWords then Some(w)
    else if -(FrameWords as int) <= w < 0 then Some(w + FrameWords)
    else None
  }

  /** A single bit of the image: frame, word within the frame, bit within
      the word. */
  datatype Loc = Loc(frame: int, word: nat, bit: bv5)

  predicate InImage(fm: FrameMap, loc: Loc) {
    loc.frame in fm && loc.word < FrameWords
  }

  predicate BitAt(fm: FrameMap, loc: Loc)
    requires InImage(fm, loc)
  {
    BitOf(fm[loc.frame][loc.word], loc.bit)
  }

  /** `update_segbit`'s arithmetic: the frame is the segment base plus the
      column, the word is the segment's first word plus `position // 32`, and
      the bit is `position % 32`. */
  function FrameOf(seg: Segment, b: Bit): int {
    seg.baseAddr + b.column
  }

  function WordOf(seg: Segment, b: Bit): int {
    seg.wordBase + b.position / 32
  }

  function BitIndex(b: Bit): bv5 {
    (b.position % 32) as bv5
  }

  /** The image with one bit written. */
  function WriteBit(fm: FrameMap, loc: Loc, v: bool): (r: FrameMap)
    requires InImage(fm, loc)
    ensures r.Keys == fm.Keys
  {
    var frame := fm[loc.frame];
    fm[loc.frame := frame[loc.word := WordWrite(frame[loc.word], loc.bit, v)]]
  }

  /** The bit of the image an entry addresses, when its word index is one a
      frame list accepts. */
  function Target(seg: Segment, b: Bit): (r: Option<Loc>)
    ensures r.Some? <==> WordIndex(WordOf(seg, b)).Some?
    ensures r.Some? ==> r.value.frame == seg.baseAddr + b.column
    ensures r.Some? ==> r.value.word < FrameWords
    ensures r.Some? ==> r.value.word % FrameWords == (seg.wordBase + b.position / 32) % FrameWords
    ensures r.Some? ==> r.value.bit as int == b.position % 32
  {
    match WordIndex(WordOf(seg, b))
    case None => None
    case Some(k) => Some(Loc(FrameOf(seg, b), k, BitIndex(b)))
  }

  /** Whether `update_segbit` can write the entry without raising. */
  predicate Writable(fm: FrameMap, seg: Segment, b: Bit) {
    FrameOf(seg, b) in fm && Target(seg, b).Some?
  }

  /** `update_segbit`: set or clear the one addressed bit.  A frame address
      with no frame raises, and so does a word index outside the frame; on
      success no frame appears or disappears, and only the addressed word of
      the addressed frame changes, in the addressed bit only. */
  function ApplyBit(fm: FrameMap, seg: Segment, b: Bit): (r: Result<FrameMap>)
    ensures r.Ok? <==> Writable(fm, seg, b)
    ensures FrameOf(seg, b) !in fm ==> r == Err(NoSuchFrame(FrameOf(seg, b)))
    ensures FrameOf(seg, b) in fm && Target(seg, b).None? ==> r == Err(WordOutOfRange(WordOf(seg, b)))
    ensures r.Ok? ==> r.value.Keys == fm.Keys
    ensures r.Ok? ==> forall a :: a in fm && a != FrameOf(seg, b) ==> r.value[a] == fm[a]
    ensures r.Ok? ==>
      var t := Target(seg, b).value;
      && (forall k :: 0 <= k < FrameWords && k != t.word ==> r.value[t.frame][k] == fm[t.frame][k])
      && BitOf(r.value[t.frame][t.word], t.bit) == b.isSet
      && AgreeOutside(r.value[t.frame][t.word], fm[t.frame][t.word], t.bit)
  {
    var f := FrameOf(seg, b);
    if f !in fm then Err(NoSuchFrame(f))
    else match Target(seg, b)
      case None => Err(WordOutOfRange(WordOf(seg, b)))
      case Some(t) =>
        Ok(WriteBit(fm, t, b.isSet))
  }

  /** Bit by bit: the addressed bit takes the entry's polarity and every other
      bit of the image keeps its value. */
  lemma ApplyBitBits(fm: FrameMap, seg: Segment, b: Bit, loc: Loc)
    requires ApplyBit(fm, seg, b).Ok?
    requires InImage(fm, loc)
    ensures InImage(ApplyBit(fm, seg, b).value, loc)
    ensures BitAt(ApplyBit(fm, seg, b).value, loc) == if Target(seg, b) == Some(loc) then b.isSet else BitAt(fm, loc)
  {
    var r := ApplyBit(fm, seg, b).value;
    var t := Target(seg, b).value;
    if loc.frame == t.frame && loc.word == t.word && loc.bit != t.bit {
      SameOutside(r[t.frame][t.word], fm[t.frame][t.word], t.bit, loc.bit);
    }
  }

  /** `for ... in db_vals: update_segbit(...)`: the entries are applied in
      order, and the first one that cannot be written aborts the pattern. */
  function ApplyPattern(fm: FrameMap, seg: Segment, p: seq<Bit>): (r: Result<FrameMap>)
    ensures r.Ok? <==> forall i :: 0 <= i < |p| ==> Writable(fm, seg, p[i])
    ensures r.Ok? ==> r.value.Keys == fm.Keys
    decreases |p|
  {
    if p == [] then Ok(fm)
    else
      var init := p[..|p| - 1];
      assert forall i :: 0 <= i < |init| ==> init[i] == p[i];
      var prior :- ApplyPattern(fm, seg, init);
      ApplyBit(prior, seg, p[|p| - 1])
  }

  /** A pattern that cannot be applied fails exactly as its first unwritable
      entry does. */
  lemma {:induction false} PatternFailsAtFirst(fm: FrameMap, seg: Segment, p: seq<Bit>, i: nat)
    requires i < |p| && !Writable(fm, seg, p[i])
    requires forall j :: 0 <= j < i ==> Writable(fm, seg, p[j])
    ensures ApplyPattern(fm, seg, p) == ApplyBit(fm, seg, p[i])
    decreases |p|
  {
    var init := p[..|p| - 1];
    if i < |p| - 1 {
      PatternFailsAtFirst(fm, seg, init, i);
    } else {
      assert forall j :: 0 <= j < |init| ==> init[j] == p[j];
      var prior := ApplyPattern(fm, seg, init).value;
      assert prior.Keys == fm.Keys;
    }
  }

  /** The polarity of the last entry of `p` aimed at `loc`, if any. */
  function LastWrite(seg: Segment, p: seq<Bit>, loc: Loc): Option<bool>
    decreases |p|
  {
    if p == [] then None
    else if Target(seg, p[|p| - 1]) == Some(loc) then Some(p[|p| - 1].isSet)
    else LastWrite(seg, p[..|p| - 1], loc)
  }

  /** After a pattern is applied, every bit of the image holds the polarity
      of the last entry aimed at it; bits no entry aims at keep their value.
      Later entries of a pattern therefore override earlier ones. */
  lemma {:induction false} LastWriterWins(fm: FrameMap, seg: Segment, p: seq<Bit>, loc: Loc)
    requires ApplyPattern(fm, seg, p).Ok?
    requires InImage(fm, loc)
    ensures InImage(ApplyPattern(fm, seg, p).value, loc)
    ensures BitAt(ApplyPattern(fm, seg, p).value, loc) ==
      match LastWrite(seg, p, loc)
      case Some(v) => v
      case None => BitAt(fm, loc)
    decreases |p|
  {
    if p != [] {
      var init := p[..|p| - 1];
      LastWriterWins(fm, seg, init, loc);
      var prior := ApplyPattern(fm, seg, init).value;
      ApplyBitBits(prior, seg, p[|p| - 1], loc);
    }
  }

  /** Two entries aimed at different bits can be applied in either order:
      both orders give the same frames holding the same bits. */
  lemma ApplyBitCommute(fm: FrameMap, s1: Segment, b1: Bit, s2: Segment, b2: Bit, loc: Loc)
    requires Writable(fm, s1, b1) && Writable(fm, s2, b2)
    requires Target(s1, b1) != Target(s2, b2)
    requires InImage(fm, loc)
    ensures ApplyBit(fm, s1, b1).Ok? && ApplyBit(fm, s2, b2).Ok?
    ensures
      var one := ApplyBit(ApplyBit(fm, s1, b1).value, s2, b2);
      var two := ApplyBit(ApplyBit(fm, s2, b2).value, s1, b1);
      && one.Ok? && two.Ok?
      && one.value.Keys == two.value.Keys == fm.Keys
      && BitAt(one.value, loc) == BitAt(two.value, loc)
  {
    var r1 := ApplyBit(fm, s1, b1).value;
    var r2 := ApplyBit(fm, s2, b2).value;
    ApplyBitBits(fm, s1, b1, loc);
    ApplyBitBits(fm, s2, b2, loc);
    ApplyBitBits(r1, s2, b2, loc);
    ApplyBitBits(r2, s1, b1, loc);
  }
}
