/** The segment-bit database: `get_database` and its inner `process`
(tools/fasm2frame.py).  Each record line `NAME BIT...` is folded into a table
feature name -> variant key -> bit pattern; the two files consulted for a
segment type are folded in order into the same table, and tables are
memoized per segment type in an explicit cache.
 */
module SegBits {
  import opened Errors
  import opened Text
  import opened BitToken

  type Pattern = seq<Bit>

  /** Variant key -> bit pattern, for one feature. */
  type Variants = map<string, Pattern>

  /** Feature name -> variants, for one segment type. */
  type SegmentDb = map<string, Variants>

  /** The database files available, by file name, as lines. */
  type Files = map<string, seq<string>>

  /** The two variants a single-bit record stands for: `"0"` clears the bit
      and `"1"` sets it. */
  function BinaryVariants(b: Bit): (vs: Variants)
    ensures vs.Keys == {"0", "1"}
    ensures vs["0"] == [b.(isSet := false)] && vs["1"] == [b.(isSet := true)]
  {
    map["0" := [b.(isSet := false)], "1" := [b.(isSet := true)]]
  }

  /** The largest index `i` with `1 <= i < j` and `s[i] == '.'`, if any. */
  function LastDotBefore(s: string, j: nat): (r: Option<nat>)
    requires j <= |s|
    ensures r.Some? ==> 1 <= r.value < j && s[r.value] == '.'
    ensures r.Some? ==> forall i :: r.value < i < j ==> s[i] != '.'
    ensures r.None? ==> forall i :: 1 <= i < j ==> s[i] != '.'
    decreases j
  {
    if j <= 1 then None
    else if s[j - 1] == '.' then Some(j - 1)
    else LastDotBefore(s, j - 1)
  }

  /** `re.match(r'(.+)[.](.+)', name)`: the feature is everything before
      the last `.` that has a character on each side of it, the variant
      everything after it, both within the first line of `name`. */
  function SplitVariant(name: string): (r: Option<(string, string)>)
    ensures r.Some? ==>
      var (f, v) := r.value;
      var line := name[..LineEnd(name)];
      && f != [] && v != []
      && line == f + "." + v
      && '.' !in v[..|v| - 1]
    ensures r.None? <==> forall i :: 1 <= i < LineEnd(name) - 1 ==> name[i] != '.'
  {
    var line := name[..LineEnd(name)];
    if line == [] then None
    else match LastDotBefore(line, |line| - 1)
      case None => None
      case Some(i) =>
        var f, v := line[..i], line[i + 1..];
        assert line == f + "." + v;
        assert forall k :: 0 <= k < |v| - 1 ==> v[k] == line[i + 1 + k];
        Some((f, v))
  }

  /** A feature and a variant joined by a dot split back into the two, as
      long as the variant has no dot before its last character. */
  lemma SplitVariantJoin(f: string, v: string)
    requires f != [] && v != []
    requires '\n' !in f && '\n' !in v
    requires '.' !in v[..|v| - 1]
    ensures SplitVariant(f + "." + v) == Some((f, v))
  {
    var name := f + "." + v;
    assert '\n' !in name by {
      assert forall k :: 0 <= k < |name| ==> name[k] == (if k < |f| then f[k] else if k == |f| then '.' else v[k - |f| - 1]);
    }
    assert LineEnd(name) == |name|;
    assert name[..|name|] == name;
    var r := LastDotBefore(name, |name| - 1);
    assert name[|f|] == '.';
    assert forall k :: |f| < k < |name| - 1 ==> name[k] == v[..|v| - 1][k - |f| - 1];
    assert r == Some(|f|);
    assert name[..|f|] == f && name[|f| + 1..] == v;
  }

  /** A single-bit record for `name`: the name becomes a binary feature,
      whatever it held before (a plain dictionary assignment). */
  function AddBinary(db: SegmentDb, name: string, b: Bit): (r: SegmentDb)
    ensures r.Keys == db.Keys + {name}
    ensures r[name].Keys == {"0", "1"}
    ensures r[name]["0"] == [b.(isSet := false)] && r[name]["1"] == [b.(isSet := true)]
    ensures forall n :: n in db && n != name ==> r[n] == db[n]
  {
    db[name := BinaryVariants(b)]
  }

  /** An enumerated record: the variant `v` of feature `f` gets the pattern,
      and the feature's other variants stay (`setdefault` then assignment). */
  function AddVariant(db: SegmentDb, f: string, v: string, pattern: Pattern): (r: SegmentDb)
    ensures r.Keys == db.Keys + {f}
    ensures forall n :: n in db && n != f ==> r[n] == db[n]
    ensures f in db ==> r[f].Keys == db[f].Keys + {v}
    ensures f !in db ==> r[f].Keys == {v}
    ensures r[f][v] == pattern
    ensures f in db ==> forall k :: k in db[f] && k != v ==> r[f][k] == db[f][k]
  {
    var before := if f in db then db[f] else map[];
    db[f := before[v := pattern]]
  }

  /** `process`: adds one database record line to the table.  A line with
      no token fails; a line with exactly one bit token is a binary feature,
      whose bit must not be marked `!`; any other line (zero bit tokens
      included) is one variant of an enumerated feature. */
  function LoadRecord(db: SegmentDb, line: string): (r: Result<SegmentDb>)
    ensures Words(line) == [] ==> r == Err(EmptyRecord)
    ensures r.Ok? ==> db.Keys <= r.value.Keys
  {
    var parts := Words(line);
    if parts == [] then Err(EmptyRecord)
    else
      var name := parts[0];
      if |parts| == 2 then
        var b :- ParseBit(parts[1]);
        if !b.isSet then Err(ClearSingleBit(name))
        else Ok(AddBinary(db, name, b))
      else
        match SplitVariant(name)
        case None => Err(NoVariantSplit(name))
        case Some((f, v)) =>
          var pattern :- ParseBits(parts[1..]);
          Ok(AddVariant(db, f, v, pattern))
  }

  /** A record with exactly one bit token loads exactly when that token is a
      set bit, and then binds its name to the two binary variants. */
  lemma LoadSingleBit(db: SegmentDb, line: string)
    requires |Words(line)| == 2
    ensures var name, tok := Words(line)[0], Words(line)[1];
      && (ParseBit(tok).Err? ==> LoadRecord(db, line) == Err(MalformedBit(tok)))
      && (ParseBit(tok).Ok? && !ParseBit(tok).value.isSet ==> LoadRecord(db, line) == Err(ClearSingleBit(name)))
      && (ParseBit(tok).Ok? && ParseBit(tok).value.isSet ==>
            LoadRecord(db, line) == Ok(AddBinary(db, name, ParseBit(tok).value)))
  {
  }

  /** Any other record loads exactly when its name splits into feature and
      variant and all its tokens are bits, and then sets that one variant. */
  lemma LoadEnumerated(db: SegmentDb, line: string)
    requires Words(line) != [] && |Words(line)| != 2
    ensures var name, toks := Words(line)[0], Words(line)[1..];
      && (SplitVariant(name).None? ==> LoadRecord(db, line) == Err(NoVariantSplit(name)))
      && (SplitVariant(name).Some? && ParseBits(toks).Err? ==> LoadRecord(db, line) == Err(ParseBits(toks).error))
      && (SplitVariant(name).Some? && ParseBits(toks).Ok? ==>
            LoadRecord(db, line) == Ok(AddVariant(db, SplitVariant(name).value.0, SplitVariant(name).value.1, ParseBits(toks).value)))
  {
  }

  /** Folds record lines into the table, stopping at the first bad one. */
  function LoadLines(db: SegmentDb, lines: seq<string>): (r: Result<SegmentDb>)
    ensures r.Ok? ==> db.Keys <= r.value.Keys
    decreases |lines|
  {
    if lines == [] then Ok(db)
    else
      var db' :- LoadRecord(db, lines[0]);
      LoadLines(db', lines[1..])
  }

  /** Folding two files in turn is folding their concatenation. */
  lemma {:induction false} LoadLinesAppend(db: SegmentDb, a: seq<string>, b: seq<string>)
    ensures LoadLines(db, a + b) == match LoadLines(db, a)
                                    case Err(e) => Err(e)
                                    case Ok(d) => LoadLines(d, b)
    decreases |a|
  {
    if a == [] {
      assert a + b == b;
    } else {
      assert (a + b)[1..] == a[1..] + b;
      match LoadRecord(db, a[0])
      case Err(_) =>
      case Ok(d) => LoadLinesAppend(d, a[1..], b);
    }
  }

  /** A record line that makes `f` a binary feature (and so drops the
      variants it had). */
  predicate RebindsBinary(line: string, f: string) {
    |Words(line)| == 2 && Words(line)[0] == f
  }

  lemma RecordKeepsVariants(db: SegmentDb, line: string, f: string)
    requires f in db
    requires LoadRecord(db, line).Ok?
    requires !RebindsBinary(line, f)
    ensures f in LoadRecord(db, line).value
    ensures db[f].Keys <= LoadRecord(db, line).value[f].Keys
  {
    if |Words(line)| == 2 {
      LoadSingleBit(db, line);
    } else {
      LoadEnumerated(db, line);
    }
  }

  /** Variants of a feature accumulate: unless a single-bit record rebinds
      it, every variant a feature had is still there afterwards. */
  lemma {:induction false} VariantsAccumulate(db: SegmentDb, lines: seq<string>, f: string)
    requires f in db
    requires LoadLines(db, lines).Ok?
    requires forall i :: 0 <= i < |lines| ==> !RebindsBinary(lines[i], f)
    ensures f in LoadLines(db, lines).value
    ensures db[f].Keys <= LoadLines(db, lines).value[f].Keys
    decreases |lines|
  {
    if lines != [] {
      RecordKeepsVariants(db, lines[0], f);
      var d := LoadRecord(db, lines[0]).value;
      VariantsAccumulate(d, lines[1..], f);
    }
  }

  /** `segbits_<type>.db`: the architecture-wide records of a segment type. */
  function TypeFile(segType: string): string {
    "segbits_" + segType + ".db"
  }

  /** `segbits_int_<c>.db`, where `c` is the last character of the segment
      type: the interconnect records it shares with every type ending in `c`. */
  function InterconnectFile(segType: string): string
    requires segType != []
  {
    "segbits_int_" + [segType[|segType| - 1]] + ".db"
  }

  /** Two segment types share an interconnect file exactly when they end in
      the same character. */
  lemma InterconnectShared(a: string, b: string)
    requires a != [] && b != []
    ensures InterconnectFile(a) == InterconnectFile(b) <==> a[|a| - 1] == b[|b| - 1]
  {
    assert InterconnectFile(a)[12] == a[|a| - 1];
    assert InterconnectFile(b)[12] == b[|b| - 1];
  }

  /** Loads the table of one segment type from the available database files
      (file name -> lines).  The type file is read first; only then is the
      interconnect file chosen, which an empty segment type cannot do. */
  function LoadSegmentType(files: Files, segType: string): (r: Result<SegmentDb>)
    ensures TypeFile(segType) !in files ==> r == Err(MissingDatabaseFile(TypeFile(segType)))
    ensures TypeFile(segType) in files && LoadLines(map[], files[TypeFile(segType)]).Err? ==>
              r == LoadLines(map[], files[TypeFile(segType)])
    ensures TypeFile(segType) in files && LoadLines(map[], files[TypeFile(segType)]).Ok? && segType == [] ==>
              r == Err(EmptySegmentType)
    ensures TypeFile(segType) in files && LoadLines(map[], files[TypeFile(segType)]).Ok? && segType != []
            && InterconnectFile(segType) !in files ==>
              r == Err(MissingDatabaseFile(InterconnectFile(segType)))
    ensures r.Ok? ==> segType != [] && TypeFile(segType) in files && InterconnectFile(segType) in files
    ensures segType != [] && TypeFile(segType) in files && InterconnectFile(segType) in files ==>
              r == LoadLines(map[], files[TypeFile(segType)] + files[InterconnectFile(segType)])
  {
    if TypeFile(segType) !in files then Err(MissingDatabaseFile(TypeFile(segType)))
    else
      var first := files[TypeFile(segType)];
      assert segType != [] && InterconnectFile(segType) in files ==>
        var second := files[InterconnectFile(segType)];
        LoadLines(map[], first + second) == match LoadLines(map[], first)
                                           case Err(e) => Err(e)
                                           case Ok(d) => LoadLines(d, second)
      by {
        if segType != [] && InterconnectFile(segType) in files {
          LoadLinesAppend(map[], first, files[InterconnectFile(segType)]);
        }
      }
      match LoadLines(map[], first)
      case Err(e) => Err(e)
      case Ok(db) =>
        if segType == [] then Err(EmptySegmentType)
        else if InterconnectFile(segType) !in files then Err(MissingDatabaseFile(InterconnectFile(segType)))
        else
          LoadLines(db, files[InterconnectFile(segType)])
  }

  /** Loaded tables by segment type. */
  type Cache = map<string, SegmentDb>

  /** Every cached table is the one a fresh load would give. */
  ghost predicate Faithful(cache: Cache, files: Files) {
    forall t :: t in cache ==> LoadSegmentType(files, t) == Ok(cache[t])
  }

  /** `get_database`: a cached table is returned as is; otherwise the table
      is loaded and remembered. */
  function GetDatabase(cache: Cache, files: Files, segType: string): (r: Result<(SegmentDb, Cache)>)
    ensures segType in cache ==> r == Ok((cache[segType], cache))
    ensures r.Ok? ==> r.value.1.Keys == cache.Keys + {segType}
    ensures r.Ok? ==> forall t :: t in cache ==> r.value.1[t] == cache[t]
    ensures r.Ok? ==> r.value.1[segType] == r.value.0
  {
    if segType in cache then Ok((cache[segType], cache))
    else
      var db :- LoadSegmentType(files, segType);
      Ok((db, cache[segType := db]))
  }

  /** Memoization is invisible: from a faithful cache, the table returned is
      the one a fresh load gives (or the same error), and the cache stays
      faithful. */
  lemma CacheTransparent(cache: Cache, files: Files, segType: string)
    requires Faithful(cache, files)
    ensures GetDatabase(cache, files, segType).Ok? <==> LoadSegmentType(files, segType).Ok?
    ensures GetDatabase(cache, files, segType).Err? ==>
              GetDatabase(cache, files, segType).error == LoadSegmentType(files, segType).error
    ensures GetDatabase(cache, files, segType).Ok? ==>
              && GetDatabase(cache, files, segType).value.0 == LoadSegmentType(files, segType).value
              && Faithful(GetDatabase(cache, files, segType).value.1, files)
  {
  }
}
