/**
 * SequenceGeneratorService and the DatabaseSequence counters it keeps: one
 * findAndModify call increments the named counter, creating it at 0 first,
 * and yields the new value as an `int`.
 */
module Sequences {

  import opened Outcomes
  import opened JavaText

  /** One document of the counter collection: the counter's name and its `long` value. */
  datatype DatabaseSequence = DatabaseSequence(id: string, value: int)

  /** The counter collection, from counter name to value. */
  type SequenceTable = map<string, int>

  /** The counter's value; an absent counter reads as the 0 the upsert starts from. */
  function Current(t: SequenceTable, seqName: string): int {
    if seqName in t then t[seqName] else 0
  }

  /**
   * findAndModify with `$inc: {seq: 1}`, `upsert(true)` and `returnNew(true)`:
   * the table afterwards, and the document as it is after the increment.
   */
  function FindAndModify(t: SequenceTable, seqName: string): (r: (SequenceTable, DatabaseSequence))
    ensures r.1 == DatabaseSequence(seqName, Current(t, seqName) + 1)
    ensures r.0.Keys == t.Keys + {seqName}
    ensures r.0[seqName] == Current(t, seqName) + 1
    ensures forall n :: n in t && n != seqName ==> r.0[n] == t[n]
  {
    var next := Current(t, seqName) + 1;
    (t[seqName := next], DatabaseSequence(seqName, next))
  }

  /**
   * The value line 41 returns, as written: positive values go through the
   * narrowing `(int)` cast, anything else becomes 1.
   */
  function ReturnedValueAsWritten(counter: DatabaseSequence): (r: int)
    ensures IsInt(r)
    ensures 0 < counter.value <= MaxInt ==> r == counter.value
    ensures counter.value <= 0 ==> r == 1
    ensures counter.value > 0 ==> (counter.value - r) % TwoTo32 == 0
  {
    if counter.value > 0 then LongToInt(counter.value) else 1
  }

  /** Past the `int` range the cast wraps: a negative id, and after 2^32 + 1 calls the id 1 again. */
  lemma AsWrittenWrapsPastMaxInt()
    ensures ReturnedValueAsWritten(DatabaseSequence("workers_sequence", MaxInt + 1)) == MinInt
    ensures ReturnedValueAsWritten(DatabaseSequence("workers_sequence", TwoTo32 + 1)) == 1
  {
    assert LongToInt(MaxInt + 1) == MinInt;
    assert LongToInt(TwoTo32 + 1) == 1;
  }

  /**
   * The value returned with the range check the clamp evidently intends
   * (`Math.toIntExact` in place of the cast): a counter beyond the `int`
   * range is reported instead of being wrapped.
   */
  function ReturnedValue(counter: DatabaseSequence): (r: Result<int>)
    ensures r.Ok? <==> counter.value <= MaxInt
    ensures r.Ok? ==> 1 <= r.value <= MaxInt
    ensures r.Ok? && counter.value > 0 ==> r.value == counter.value
    ensures r.Err? ==> r.error == SequenceOverflow(counter.id, counter.value)
  {
    if counter.value > MaxInt then Err(SequenceOverflow(counter.id, counter.value))
    else if counter.value > 0 then Ok(counter.value)
    else Ok(1)
  }

  /** Wherever the cast cannot wrap, the checked value is the value the code returns. */
  lemma ReturnedValueAgreesInRange(counter: DatabaseSequence)
    requires counter.value <= MaxInt
    ensures ReturnedValue(counter) == Ok(ReturnedValueAsWritten(counter))
  {
  }

  /** The first call on an unknown name creates the counter at 1 and returns 1. */
  lemma FirstCallCreatesCounter(t: SequenceTable, seqName: string)
    requires seqName !in t
    ensures FindAndModify(t, seqName).0[seqName] == 1
    ensures ReturnedValue(FindAndModify(t, seqName).1) == Ok(1)
  {
  }

  /** A non-positive counter still moves up by one, and the caller gets 1. */
  lemma NonPositiveCounterYieldsOne(t: SequenceTable, seqName: string)
    requires Current(t, seqName) < 0
    ensures FindAndModify(t, seqName).0[seqName] == Current(t, seqName) + 1
    ensures ReturnedValue(FindAndModify(t, seqName).1) == Ok(1)
  {
  }

  /** From a negative counter the clamp hands out the id 1 on every call until the counter is positive. */
  lemma NegativeCounterRepeatsOne()
    ensures Calls(map["x" := -2], "x", 3).1 == [Ok(1), Ok(1), Ok(1)]
  {
    var t0 := map["x" := -2];
    var s1 := FindAndModify(t0, "x");
    var s2 := FindAndModify(s1.0, "x");
    var s3 := FindAndModify(s2.0, "x");
    assert s1.1.value == -1 && s2.1.value == 0 && s3.1.value == 1;
    assert Calls(s3.0, "x", 0).1 == [];
    assert Calls(s2.0, "x", 1).1 == [Ok(1)];
    assert Calls(s1.0, "x", 2).1 == [Ok(1), Ok(1)];
  }

  /** The table and the returned values after `n` successive calls on `seqName`. */
  function Calls(t: SequenceTable, seqName: string, n: nat): (r: (SequenceTable, seq<Result<int>>))
    ensures |r.1| == n
    ensures r.0.Keys == if n == 0 then t.Keys else t.Keys + {seqName}
    decreases n
  {
    if n == 0 then (t, [])
    else
      var step := FindAndModify(t, seqName);
      var rest := Calls(step.0, seqName, n - 1);
      (rest.0, [ReturnedValue(step.1)] + rest.1)
  }

  /**
   * From a counter at c >= 0, n calls that stay within the `int` range return
   * c + 1, ..., c + n in that order and leave the counter at c + n; every
   * other counter is untouched.
   */
  lemma {:induction false} CallsCountUp(t: SequenceTable, seqName: string, n: nat)
    requires 0 <= Current(t, seqName) && Current(t, seqName) + n <= MaxInt
    ensures Current(Calls(t, seqName, n).0, seqName) == Current(t, seqName) + n
    ensures forall i :: 0 <= i < n ==> Calls(t, seqName, n).1[i] == Ok(Current(t, seqName) + i + 1)
    ensures forall m :: m != seqName ==> Current(Calls(t, seqName, n).0, m) == Current(t, m)
    decreases n
  {
    if n > 0 {
      var step := FindAndModify(t, seqName);
      CallsCountUp(step.0, seqName, n - 1);
      var rest := Calls(step.0, seqName, n - 1);
      forall i | 0 <= i < n ensures Calls(t, seqName, n).1[i] == Ok(Current(t, seqName) + i + 1) {
        if i > 0 { assert Calls(t, seqName, n).1[i] == rest.1[i - 1]; }
      }
    }
  }

  /** Successive calls within the `int` range return strictly increasing, hence distinct, values. */
  lemma CallsStrictlyIncrease(t: SequenceTable, seqName: string, n: nat, i: nat, j: nat)
    requires 0 <= Current(t, seqName) && Current(t, seqName) + n <= MaxInt
    requires i < j < n
    ensures Calls(t, seqName, n).1[i].Ok? && Calls(t, seqName, n).1[j].Ok?
    ensures Calls(t, seqName, n).1[i].value < Calls(t, seqName, n).1[j].value
  {
    CallsCountUp(t, seqName, n);
  }

  /** From a fresh name, n calls return 1, ..., n: the largest value returned is n. */
  lemma CallsFromFreshName(t: SequenceTable, seqName: string, n: nat)
    requires seqName !in t && 0 < n <= MaxInt
    ensures Calls(t, seqName, n).1[n - 1] == Ok(n)
    ensures forall i :: 0 <= i < n ==> Calls(t, seqName, n).1[i] == Ok(i + 1)
  {
    CallsCountUp(t, seqName, n);
  }

  /** SequenceGeneratorService over its counter collection. */
  class SequenceGeneratorService {

    var sequences: SequenceTable

    constructor (sequences: SequenceTable)
      ensures this.sequences == sequences
    {
      this.sequences := sequences;
    }

    /** generateSequence: one findAndModify step, then the value it yields to the caller. */
    method GenerateSequence(seqName: string) returns (r: Result<int>)
      modifies this
      ensures sequences == FindAndModify(old(sequences), seqName).0
      ensures r == ReturnedValue(DatabaseSequence(seqName, sequences[seqName]))
      ensures r.Ok? ==> r.value > Current(old(sequences), seqName) || Current(old(sequences), seqName) < 0
    {
      var step := FindAndModify(sequences, seqName);
      sequences := step.0;
      r := ReturnedValue(step.1);
    }
  }
}
