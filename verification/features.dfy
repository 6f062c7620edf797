/** Feature engineering over the job-title and company-location columns:
    the job-title index map, the one-hot encoding built on it, and the
    US-based indicator. */
module Features {
  import opened SalaryRecords

  // ---------------------------------------------------------------------
  // Job-title index map
  // ---------------------------------------------------------------------

  /** The distinct job titles of `dataset` (the set the source collects). */
  function JobTitleSet(dataset: seq<SalaryRecord>): (titles: set<string>)
    ensures forall t :: t in titles <==> exists i :: 0 <= i < |dataset| && dataset[i].jobTitle == t
  {
    if dataset == [] then {}
    else
      var rest := JobTitleSet(dataset[1..]);
      assert forall t :: t in rest ==> exists i :: 0 <= i < |dataset| && dataset[i].jobTitle == t by {
        forall t | t in rest ensures exists i :: 0 <= i < |dataset| && dataset[i].jobTitle == t {
          var i :| 0 <= i < |dataset[1..]| && dataset[1..][i].jobTitle == t;
          assert dataset[i + 1].jobTitle == t;
        }
      }
      {dataset[0].jobTitle} + rest
  }

  /** `mapping` numbers the titles of `keys` densely: its keys are exactly
      `keys`, no two titles share an index, every index is below the number
      of titles, and every index below it is used. */
  ghost predicate IsDenseIndex(mapping: map<string, nat>, keys: set<string>)
  {
    && mapping.Keys == keys
    && (forall a, b :: a in mapping && b in mapping && a != b ==> mapping[a] != mapping[b])
    && (forall t :: t in mapping ==> mapping[t] < |keys|)
    && (forall j: nat :: j < |keys| ==> j in mapping.Values)
  }

  /** `mapping` numbers its keys with exactly the indices 0 .. i-1, one index each. */
  ghost predicate NumbersBelow(mapping: map<string, nat>, i: nat)
  {
    && |mapping| == i
    && (forall a, b :: a in mapping && b in mapping && a != b ==> mapping[a] != mapping[b])
    && (forall t :: t in mapping ==> mapping[t] < i)
    && (forall j: nat :: j < i ==> j in mapping.Values)
  }

  /** Giving a new key the next index keeps the numbering dense. */
  lemma NumberNext(mapping: map<string, nat>, t: string, i: nat)
    requires NumbersBelow(mapping, i)
    requires t !in mapping
    ensures NumbersBelow(mapping[t := i], i + 1)
  {
    var after := mapping[t := i];
    forall j: nat | j < i + 1 ensures j in after.Values {
      if j < i {
        assert j in mapping.Values;
        var u :| u in mapping && mapping[u] == j;
        assert after[u] == j;
      } else {
        assert after[t] == j;
      }
    }
  }

  /** Drains `titles`, giving each the next index in the order the set hands
      them out; that order is not specified, so each step takes any title not
      yet numbered. */
  method NumberTitles(titles: set<string>) returns (mapping: map<string, nat>)
    ensures IsDenseIndex(mapping, titles)
  {
    var remaining := titles;
    mapping := map[];
    var i := 0;
    while remaining != {}
      invariant remaining <= titles
      invariant mapping.Keys == titles - remaining
      invariant NumbersBelow(mapping, i)
      decreases |remaining|
    {
      var t :| t in remaining;
      NumberNext(mapping, t, i);
      mapping := mapping[t := i];
      remaining := remaining - {t};
      i := i + 1;
    }
    assert mapping.Keys == titles;
  }

  /** The job-title map: the distinct titles of `dataset`, numbered 0 .. k-1. */
  method CreateJobTitleMap(dataset: seq<SalaryRecord>) returns (mapping: map<string, nat>)
    ensures forall t :: t in mapping <==> exists i :: 0 <= i < |dataset| && dataset[i].jobTitle == t
    ensures IsDenseIndex(mapping, JobTitleSet(dataset))
    ensures dataset == [] ==> mapping == map[]
  {
    mapping := NumberTitles(JobTitleSet(dataset));
  }

  /** In a dense index map over `keys`, each index below `|keys|` belongs to
      exactly one title: the map is a bijection from the titles onto 0 .. k-1.
      This restates two conjuncts of `IsDenseIndex` in the form callers use. */
  lemma DenseIndexIsBijection(mapping: map<string, nat>, keys: set<string>, j: nat)
    requires IsDenseIndex(mapping, keys)
    requires j < |keys|
    ensures exists t :: t in keys && mapping[t] == j
    ensures forall a, b :: a in keys && b in keys && mapping[a] == j && mapping[b] == j ==> a == b
  {
    assert j in mapping.Values;
  }

  // ---------------------------------------------------------------------
  // One-hot encoding
  // ---------------------------------------------------------------------

  /** `v` is 0 everywhere except for a single 1 at `index`. */
  ghost predicate IsOneHot(v: seq<int>, index: nat)
  {
    index < |v| && forall j :: 0 <= j < |v| ==> v[j] == (if j == index then 1 else 0)
  }

  /** The number of entries of `v` that are 1. */
  function CountOnes(v: seq<int>): nat
  {
    if v == [] then 0 else (if v[0] == 1 then 1 else 0) + CountOnes(v[1..])
  }

  /** A one-hot vector has exactly one 1, and its position is determined:
      no other index makes the same vector one-hot. */
  lemma {:induction false} OneHotHasSingleOne(v: seq<int>, index: nat)
    requires IsOneHot(v, index)
    ensures CountOnes(v) == 1
    ensures forall k: nat :: IsOneHot(v, k) ==> k == index
  {
    ZerosCountNone(v[index + 1..]);
    OnesCountSplit(v[..index], v[index..]);
    OnesCountSplit([v[index]], v[index + 1..]);
    ZerosCountNone(v[..index]);
    assert v[..index] + v[index..] == v;
    assert [v[index]] + v[index + 1..] == v[index..];
  }

  lemma {:induction false} ZerosCountNone(v: seq<int>)
    requires forall j :: 0 <= j < |v| ==> v[j] == 0
    ensures CountOnes(v) == 0
  {
    if v != [] {
      ZerosCountNone(v[1..]);
    }
  }

  lemma {:induction false} OnesCountSplit(a: seq<int>, b: seq<int>)
    ensures CountOnes(a + b) == CountOnes(a) + CountOnes(b)
  {
    if a == [] {
      assert a + b == b;
    } else {
      assert (a + b)[1..] == a[1..] + b;
      OnesCountSplit(a[1..], b);
    }
  }

  /** A record can be encoded when its title is a key of `mapping` and its
      index fits in a vector of length `|mapping|`. */
  ghost predicate Encodable(rec: SalaryRecord, mapping: map<string, nat>)
  {
    rec.jobTitle in mapping && mapping[rec.jobTitle] < |mapping|
  }

  /** Why a record cannot be encoded: the title lookup or the vector index fails. */
  datatype EncodeError = UnknownJobTitle(title: string) | IndexOutOfBounds(index: nat, len: nat)

  function FailureOf(rec: SalaryRecord, mapping: map<string, nat>): EncodeError
  {
    if rec.jobTitle !in mapping then UnknownJobTitle(rec.jobTitle)
    else IndexOutOfBounds(mapping[rec.jobTitle], |mapping|)
  }

  /** Encodes one record: a zero vector of length `|mapping|` with its
      job title's slot set to 1. */
  method EncodeJobTitle(rec: SalaryRecord, mapping: map<string, nat>) returns (r: Result<seq<int>, EncodeError>)
    ensures r.Ok? <==> Encodable(rec, mapping)
    ensures r.Ok? ==> |r.value| == |mapping| && IsOneHot(r.value, mapping[rec.jobTitle])
    ensures r.Err? ==> r.error == FailureOf(rec, mapping)
  {
    var encoding := new int[|mapping|](_ => 0);
    if rec.jobTitle !in mapping {
      return Err(UnknownJobTitle(rec.jobTitle));
    }
    var index := mapping[rec.jobTitle];
    if index >= encoding.Length {
      return Err(IndexOutOfBounds(index, encoding.Length));
    }
    encoding[index] := 1;
    r := Ok(encoding[..]);
  }

  /** Encodes every record, in order; the first record that cannot be
      encoded stops the whole encoding. */
  method OneHotEncodeJobTitles(dataset: seq<SalaryRecord>, mapping: map<string, nat>)
    returns (r: Result<seq<seq<int>>, EncodeError>)
    ensures r.Ok? <==> forall i :: 0 <= i < |dataset| ==> Encodable(dataset[i], mapping)
    ensures r.Ok? ==> |r.value| == |dataset|
    ensures r.Ok? ==> forall i :: 0 <= i < |dataset| ==>
      Encodable(dataset[i], mapping) && |r.value[i]| == |mapping| && IsOneHot(r.value[i], mapping[dataset[i].jobTitle])
    ensures r.Err? ==> exists i :: (0 <= i < |dataset| && !Encodable(dataset[i], mapping)
      && (forall k :: 0 <= k < i ==> Encodable(dataset[k], mapping))
      && r.error == FailureOf(dataset[i], mapping))
  {
    var encoded: seq<seq<int>> := [];
    for i := 0 to |dataset|
      invariant |encoded| == i
      invariant forall k :: 0 <= k < i ==>
        Encodable(dataset[k], mapping) && |encoded[k]| == |mapping| && IsOneHot(encoded[k], mapping[dataset[k].jobTitle])
    {
      var one := EncodeJobTitle(dataset[i], mapping);
      if one.Err? {
        return Err(one.error);
      }
      encoded := encoded + [one.value];
    }
    r := Ok(encoded);
  }

  /** A map built from the dataset itself encodes every record of it. */
  lemma JobTitleMapEncodesDataset(dataset: seq<SalaryRecord>, mapping: map<string, nat>)
    requires IsDenseIndex(mapping, JobTitleSet(dataset))
    ensures forall i :: 0 <= i < |dataset| ==> Encodable(dataset[i], mapping)
  {
    forall i | 0 <= i < |dataset| ensures Encodable(dataset[i], mapping) {
      assert dataset[i].jobTitle in JobTitleSet(dataset);
    }
  }

  /** Under a dense index map, two records get the same one-hot vector
      exactly when they have the same job title. */
  lemma OneHotSeparatesTitles(a: SalaryRecord, b: SalaryRecord, mapping: map<string, nat>, keys: set<string>,
                              va: seq<int>, vb: seq<int>)
    requires IsDenseIndex(mapping, keys)
    requires Encodable(a, mapping) && Encodable(b, mapping)
    requires IsOneHot(va, mapping[a.jobTitle]) && IsOneHot(vb, mapping[b.jobTitle])
    requires |va| == |vb|
    ensures va == vb <==> a.jobTitle == b.jobTitle
  {
    if va == vb {
      OneHotHasSingleOne(va, mapping[a.jobTitle]);
    }
  }

  // ---------------------------------------------------------------------
  // US-based indicator
  // ---------------------------------------------------------------------

  /** 1 for every record whose company is located in the US, 0 otherwise,
      in record order. */
  function CreateUsBasedFeature(dataset: seq<SalaryRecord>): (feature: seq<nat>)
    ensures |feature| == |dataset|
    ensures forall i :: 0 <= i < |dataset| ==>
      (feature[i] == 1 <==> dataset[i].companyLocation == "US")
      && (feature[i] == 0 <==> dataset[i].companyLocation != "US")
  {
    if dataset == [] then []
    else [if dataset[0].companyLocation == "US" then 1 else 0] + CreateUsBasedFeature(dataset[1..])
  }

  /** The indicator of a concatenation is the concatenation of the
      indicators: each record's value depends on that record alone. */
  lemma {:induction false} UsBasedFeatureAppend(a: seq<SalaryRecord>, b: seq<SalaryRecord>)
    ensures CreateUsBasedFeature(a + b) == CreateUsBasedFeature(a) + CreateUsBasedFeature(b)
  {
    if a == [] {
      assert a + b == b;
    } else {
      assert (a + b)[1..] == a[1..] + b;
      UsBasedFeatureAppend(a[1..], b);
    }
  }
}
