/** Optional values, results that carry an `Error`, and the one error type
of the assembler.

Every `raise`, every failed dictionary lookup and every failed list index of
fasm2frame.py becomes one variant of `Error`; a run that meets any of
them aborts as a whole, so no partial frame map is ever produced.
 */
module Errors {

  datatype Option<+T> = None | Some(value: T)

  datatype Error =
      /** A database line holding no token at all (nothing to take as the name). */
    | EmptyRecord
      /** A bit token that is not `[!]COL_BIT` with two integer parts. */
    | MalformedBit(token: string)
      /** A single-bit database record whose bit is marked `!`. */
    | ClearSingleBit(name: string)
      /** A record that is not single-bit and has no `feature.variant` split. */
    | NoVariantSplit(name: string)
      /** A database file that is not available. */
    | MissingDatabaseFile(file: string)
      /** An empty segment type has no last character to select its interconnect file. */
    | EmptySegmentType
      /** A FASM line that does not match the statement grammar. */
    | SyntaxError(line: nat)
      /** The same (tile, feature) pair assigned on two lines. */
    | DuplicateName(first: nat, second: nat)
    | UnknownTile(tile: string)
    | UnknownSegment(segment: string)
    | UnknownFeature(segmentType: string, key: string)
      /** An enumerated feature used without a value. */
    | MissingValue(name: string)
      /** A value that is not among the feature's variants. */
    | InvalidVariant(value: string, valid: set<string>)
      /** A bit aimed at a frame address that holds no frame. */
    | NoSuchFrame(address: int)
      /** A bit aimed at a word index outside the frame. */
    | WordOutOfRange(word: int)

  datatype Result<+T> = Ok(value: T) | Err(error: Error) {

    predicate IsFailure() {
      Err?
    }

    function PropagateFailure<U>(): Result<U>
      requires Err?
    {
      Err(error)
    }

    function Extract(): T
      requires Ok?
    {
      value
    }
  }

  /** `f` applied to every element in order; the first failure, if any, is
      the result. */
  function MapAll<A, B>(f: A -> Result<B>, xs: seq<A>): (r: Result<seq<B>>)
    ensures r.Ok? <==> forall i :: 0 <= i < |xs| ==> f(xs[i]).Ok?
    ensures r.Ok? ==> |r.value| == |xs| && forall i :: 0 <= i < |xs| ==> f(xs[i]) == Ok(r.value[i])
    ensures r.Err? ==> exists i :: 0 <= i < |xs| && f(xs[i]) == Err(r.error) && forall j :: 0 <= j < i ==> f(xs[j]).Ok?
  {
    if xs == [] then Ok([])
    else
      var y :- f(xs[0]);
      var ys :- MapAll(f, xs[1..]);
      assert forall i :: 1 <= i < |xs| ==> xs[i] == xs[1..][i - 1];
      Ok([y] + ys)
  }
}
