/** Selecting the senior-level ("SE") records and projecting each to
    (work year, job title, rounded salary in USD). */
module FilterConvert {
  import opened SalaryRecords
  import opened Rounding

  predicate IsSenior(rec: SalaryRecord)
  {
    rec.experienceLevel == "SE"
  }

  /** The tuple a selected record becomes. */
  function Convert(rec: SalaryRecord): (int, string, int)
  {
    (rec.workYear, rec.jobTitle, RoundHalfAwayFromZero(rec.salaryInUsd))
  }

  /** The senior records of `dataset`, in order, each converted to a tuple. */
  function FilterAndConvert(dataset: seq<SalaryRecord>): (rows: seq<(int, string, int)>)
    ensures |rows| <= |dataset|
    ensures forall row :: row in rows ==> exists rec :: rec in dataset && IsSenior(rec) && row == Convert(rec)
  {
    if dataset == [] then []
    else if IsSenior(dataset[0]) then [Convert(dataset[0])] + FilterAndConvert(dataset[1..])
    else FilterAndConvert(dataset[1..])
  }

  /** `idx` lists positions of a sequence of length `n`, strictly increasing. */
  ghost predicate IncreasingIndices(idx: seq<nat>, n: nat)
  {
    (forall k :: 0 <= k < |idx| ==> idx[k] < n)
    && (forall k, l :: 0 <= k < l < |idx| ==> idx[k] < idx[l])
  }

  /** Every position in `idx`, moved one place to the right. */
  ghost function Shift(idx: seq<nat>): (shifted: seq<nat>)
  {
    seq(|idx|, k requires 0 <= k < |idx| => idx[k] + 1)
  }

  lemma ShiftIndices(idx: seq<nat>, n: nat)
    requires IncreasingIndices(idx, n)
    ensures IncreasingIndices(Shift(idx), n + 1)
    ensures 0 !in Shift(idx)
    ensures forall i :: 1 <= i <= n ==> (i in Shift(idx) <==> i - 1 in idx)
  {
    var shifted := Shift(idx);
    forall i | 1 <= i <= n ensures i in shifted <==> i - 1 in idx {
      if i - 1 in idx {
        var k :| 0 <= k < |idx| && idx[k] == i - 1;
        assert shifted[k] == i;
      }
    }
  }

  /** Row k of `rows` is record `idx[k]` of `dataset`, converted. */
  ghost predicate RowsFrom(rows: seq<(int, string, int)>, dataset: seq<SalaryRecord>, idx: seq<nat>)
  {
    && |rows| == |idx|
    && (forall k :: 0 <= k < |idx| ==> idx[k] < |dataset|)
    && (forall k :: 0 <= k < |idx| ==> rows[k] == Convert(dataset[idx[k]]))
  }

  lemma RowsFromShift(rows: seq<(int, string, int)>, dataset: seq<SalaryRecord>, tail: seq<nat>)
    requires dataset != []
    requires RowsFrom(rows, dataset[1..], tail)
    ensures RowsFrom(rows, dataset, Shift(tail))
  {
    forall k | 0 <= k < |tail| ensures dataset[Shift(tail)[k]] == dataset[1..][tail[k]] {
    }
  }

  lemma RowsFromCons(rows: seq<(int, string, int)>, dataset: seq<SalaryRecord>, idx: seq<nat>)
    requires dataset != []
    requires RowsFrom(rows, dataset, idx)
    ensures RowsFrom([Convert(dataset[0])] + rows, dataset, [0] + idx)
  {
  }

  lemma PrependZero(idx: seq<nat>, n: nat)
    requires 0 < n
    requires IncreasingIndices(idx, n)
    requires 0 !in idx
    ensures IncreasingIndices([0] + idx, n)
    ensures forall i :: i in [0] + idx <==> i == 0 || i in idx
  {
    forall k | 0 <= k < |idx| ensures 0 < idx[k] {
      assert idx[k] in idx;
    }
  }

  lemma {:induction false} SeniorIndices(dataset: seq<SalaryRecord>) returns (idx: seq<nat>)
    ensures IncreasingIndices(idx, |dataset|)
    ensures forall i :: 0 <= i < |dataset| ==> (IsSenior(dataset[i]) <==> i in idx)
    ensures RowsFrom(FilterAndConvert(dataset), dataset, idx)
  {
    if dataset == [] {
      idx := [];
    } else {
      var rest := dataset[1..];
      var tail := SeniorIndices(rest);
      ShiftIndices(tail, |rest|);
      RowsFromShift(FilterAndConvert(rest), dataset, tail);
      var shifted := Shift(tail);
      assert forall i :: 1 <= i < |dataset| ==> (IsSenior(dataset[i]) <==> i in shifted) by {
        forall i | 1 <= i < |dataset| ensures IsSenior(dataset[i]) <==> i in shifted {
          assert dataset[i] == rest[i - 1];
        }
      }
      if IsSenior(dataset[0]) {
        idx := [0] + shifted;
        PrependZero(shifted, |dataset|);
        RowsFromCons(FilterAndConvert(rest), dataset, shifted);
      } else {
        idx := shifted;
      }
    }
  }

  /** The output is exactly the senior records, each once and in their
      original order: there is an increasing list of positions that holds
      every senior position and no other, and output row k is record
      `idx[k]` with its year and title copied and its salary rounded. */
  lemma SeniorSelection(dataset: seq<SalaryRecord>) returns (idx: seq<nat>)
    ensures IncreasingIndices(idx, |dataset|)
    ensures forall i :: 0 <= i < |dataset| ==> (IsSenior(dataset[i]) <==> i in idx)
    ensures |FilterAndConvert(dataset)| == |idx|
    ensures forall k :: 0 <= k < |idx| ==>
      && FilterAndConvert(dataset)[k].0 == dataset[idx[k]].workYear
      && FilterAndConvert(dataset)[k].1 == dataset[idx[k]].jobTitle
      && FilterAndConvert(dataset)[k].2 == RoundHalfAwayFromZero(dataset[idx[k]].salaryInUsd)
  {
    idx := SeniorIndices(dataset);
  }

  /** Nothing selected gives an empty result and not an error; the result is
      empty exactly when no record is senior. */
  lemma {:induction false} FilterAndConvertEmpty(dataset: seq<SalaryRecord>)
    ensures FilterAndConvert(dataset) == [] <==> forall i :: 0 <= i < |dataset| ==> !IsSenior(dataset[i])
  {
    if dataset != [] {
      FilterAndConvertEmpty(dataset[1..]);
      assert forall i :: 1 <= i < |dataset| ==> dataset[i] == dataset[1..][i - 1];
    }
  }

  /** Filtering a concatenation filters each part and keeps them in order. */
  lemma {:induction false} FilterAndConvertAppend(a: seq<SalaryRecord>, b: seq<SalaryRecord>)
    ensures FilterAndConvert(a + b) == FilterAndConvert(a) + FilterAndConvert(b)
  {
    if a == [] {
      assert a + b == b;
    } else {
      assert (a + b)[1..] == a[1..] + b;
      FilterAndConvertAppend(a[1..], b);
    }
  }
}
