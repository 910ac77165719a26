/** The shape of the loop in `run` (tools/fasm2frame.py), apart from what a
single line does: lines are fed in order to a step function, numbered from
`first`, and the first failing line aborts the run.  The facts about
duplicate assignments hold of every step that guards and records keys the
way the assembler's step does, so they are proved here once, for any such
step.
 */
module Runs {
  import opened Errors

  /** Feed `lines` to `step` from state `s`, numbering them from `first`. */
  function Fold<S>(step: (S, nat, string) -> Result<S>, s: S, lines: seq<string>, first: nat): Result<S>
    decreases |lines|
  {
    if lines == [] then Ok(s)
    else
      match step(s, first, lines[0])
      case Err(e) => Err(e)
      case Ok(next) => Fold(step, next, lines[1..], first + 1)
  }

  /** The assignments after a line with key `key` ran as line `n`. */
  function Record<K>(used: map<K, nat>, key: Option<K>, n: nat): map<K, nat> {
    match key
    case None => used
    case Some(k) => used[k := n]
  }

  /** `step` rejects a key assigned before, reporting both line numbers, and
      otherwise records the line's key, if it has one, with its number. */
  ghost predicate Guards<S(!new), K>(step: (S, nat, string) -> Result<S>, keyOf: string -> Option<K>, used: S -> map<K, nat>) {
    && (forall s, n, line ::
          keyOf(line).Some? && keyOf(line).value in used(s) ==>
            step(s, n, line) == Err(DuplicateName(used(s)[keyOf(line).value], n)))
    && (forall s, n, line ::
          step(s, n, line).Ok? ==>
            (keyOf(line).Some? ==> keyOf(line).value !in used(s))
            && used(step(s, n, line).value) == Record(used(s), keyOf(line), n))
  }

  /** A run past a successful first line is the run of the rest. */
  lemma FoldStep<S>(step: (S, nat, string) -> Result<S>, s: S, lines: seq<string>, first: nat)
    requires lines != [] && step(s, first, lines[0]).Ok?
    ensures Fold(step, s, lines, first) == Fold(step, step(s, first, lines[0]).value, lines[1..], first + 1)
  {
  }

  /** The lines before `j` ran, so the first of them did, and so did the
      ones after it up to `j`. */
  lemma PrefixRan<S>(step: (S, nat, string) -> Result<S>, s: S, lines: seq<string>, first: nat, j: nat)
    requires 0 < j <= |lines|
    requires Fold(step, s, lines[..j], first).Ok?
    ensures step(s, first, lines[0]).Ok?
    ensures Fold(step, step(s, first, lines[0]).value, lines[1..][..j - 1], first + 1).Ok?
  {
    assert lines[..j][0] == lines[0];
    assert lines[..j][1..] == lines[1..][..j - 1];
  }

  /** If the lines before line `j` ran, reaching `mid`, and line `j` fails
      from there, the run fails with that line's error. */
  lemma {:induction false} FoldStopsAt<S>(step: (S, nat, string) -> Result<S>, s: S, lines: seq<string>, first: nat,
                                          j: nat, mid: S, e: Error)
    requires j < |lines|
    requires Fold(step, s, lines[..j], first) == Ok(mid)
    requires step(mid, first + j, lines[j]) == Err(e)
    ensures Fold(step, s, lines, first) == Err(e)
    decreases j
  {
    if j == 0 {
      assert lines[..0] == [];
    } else {
      PrefixRan(step, s, lines, first, j);
      var next := step(s, first, lines[0]).value;
      FoldStep(step, s, lines, first);
      assert lines[..j][0] == lines[0];
      assert lines[..j][1..] == lines[1..][..j - 1];
      assert lines[1..][j - 1] == lines[j];
      assert first + 1 + (j - 1) == first + j;
      FoldStopsAt(step, next, lines[1..], first + 1, j - 1, mid, e);
    }
  }

  /** A key assigned once keeps its line number through every later line
      that runs. */
  lemma {:induction false} KeptThrough<S(!new), K>(step: (S, nat, string) -> Result<S>, keyOf: string -> Option<K>, used: S -> map<K, nat>,
                                                 s: S, lines: seq<string>, first: nat, key: K)
    requires Guards(step, keyOf, used)
    requires Fold(step, s, lines, first).Ok? && key in used(s)
    ensures key in used(Fold(step, s, lines, first).value)
    ensures used(Fold(step, s, lines, first).value)[key] == used(s)[key]
    decreases |lines|
  {
    if lines != [] {
      var next := step(s, first, lines[0]).value;
      assert used(next) == Record(used(s), keyOf(lines[0]), first);
      KeptThrough(step, keyOf, used, next, lines[1..], first + 1, key);
    }
  }

  /** A successful run records the key of every line with the line's
      number; no key was assigned before the run, and no two lines carry
      the same key. */
  lemma {:induction false} FoldRecordsKeys<S(!new), K>(step: (S, nat, string) -> Result<S>, keyOf: string -> Option<K>, used: S -> map<K, nat>,
                                                      s: S, lines: seq<string>, first: nat)
    requires Guards(step, keyOf, used)
    requires Fold(step, s, lines, first).Ok?
    ensures forall i :: 0 <= i < |lines| && keyOf(lines[i]).Some? ==>
      && keyOf(lines[i]).value !in used(s)
      && keyOf(lines[i]).value in used(Fold(step, s, lines, first).value)
      && used(Fold(step, s, lines, first).value)[keyOf(lines[i]).value] == first + i
    ensures forall i, j :: 0 <= i < j < |lines| && keyOf(lines[i]).Some? ==> keyOf(lines[j]) != keyOf(lines[i])
    decreases |lines|
  {
    if lines != [] {
      var next := step(s, first, lines[0]).value;
      var rest := lines[1..];
      var last := Fold(step, s, lines, first).value;
      FoldStep(step, s, lines, first);
      assert last == Fold(step, next, rest, first + 1).value;
      assert used(next) == Record(used(s), keyOf(lines[0]), first);
      FoldRecordsKeys(step, keyOf, used, next, rest, first + 1);
      assert forall i :: 1 <= i < |lines| ==> lines[i] == rest[i - 1];
      if keyOf(lines[0]).Some? {
        KeptThrough(step, keyOf, used, next, rest, first + 1, keyOf(lines[0]).value);
      }
    }
  }

  /** If every line before line `j` ran, and line `j` carries a key
      assigned at line `prev` before the run, the run fails at line `j`,
      reporting `prev` and `j`'s number. */
  lemma {:induction false} FoldRejectsReassigned<S(!new), K>(step: (S, nat, string) -> Result<S>, keyOf: string -> Option<K>, used: S -> map<K, nat>,
                                                          s: S, lines: seq<string>, first: nat, j: nat, key: K, prev: nat)
    requires Guards(step, keyOf, used)
    requires j < |lines| && keyOf(lines[j]) == Some(key)
    requires key in used(s) && used(s)[key] == prev
    requires Fold(step, s, lines[..j], first).Ok?
    ensures Fold(step, s, lines, first) == Err(DuplicateName(prev, first + j))
    decreases j
  {
    if j == 0 {
      assert step(s, first, lines[0]) == Err(DuplicateName(prev, first));
    } else {
      PrefixRan(step, s, lines, first, j);
      var next := step(s, first, lines[0]).value;
      FoldStep(step, s, lines, first);
      assert used(next) == Record(used(s), keyOf(lines[0]), first);
      assert lines[1..][j - 1] == lines[j];
      FoldRejectsReassigned(step, keyOf, used, next, lines[1..], first + 1, j - 1, key, prev);
    }
  }

  /** If every line before line `j` ran, and line `j` carries the key line
      `i` carries, the run fails at line `j`, reporting `i`'s number and
      `j`'s. */
  lemma {:induction false} FoldReportsBothLines<S(!new), K>(step: (S, nat, string) -> Result<S>, keyOf: string -> Option<K>, used: S -> map<K, nat>,
                                                         s: S, lines: seq<string>, first: nat, i: nat, j: nat)
    requires Guards(step, keyOf, used)
    requires i < j < |lines| && keyOf(lines[i]).Some? && keyOf(lines[j]) == keyOf(lines[i])
    requires Fold(step, s, lines[..j], first).Ok?
    ensures Fold(step, s, lines, first) == Err(DuplicateName(first + i, first + j))
    decreases i
  {
    PrefixRan(step, s, lines, first, j);
    var next := step(s, first, lines[0]).value;
    var rest := lines[1..];
    FoldStep(step, s, lines, first);
    assert rest[j - 1] == lines[j];
    if i == 0 {
      var key := keyOf(lines[0]).value;
      assert key in used(next) && used(next)[key] == first by {
        assert used(next) == Record(used(s), keyOf(lines[0]), first);
      }
      FoldRejectsReassigned(step, keyOf, used, next, rest, first + 1, j - 1, key, first);
    } else {
      assert rest[i - 1] == lines[i];
      FoldReportsBothLines(step, keyOf, used, next, rest, first + 1, i - 1, j - 1);
    }
    assert first + 1 + (i - 1) == first + i && first + 1 + (j - 1) == first + j;
  }
}
