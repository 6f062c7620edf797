# Salary survey feature pipeline, modelled in Dafny

This project models the feature-engineering steps of the `rust_stats` salary
examples. The pipeline works on a sequence of parsed salary-survey rows
(`SalaryRecord`, eleven columns). It:

- builds a job-title → index map (`create_job_title_map`);
- one-hot encodes each record's job title against that map (`one_hot_encode_job_titles`);
- derives a 0/1 "company is in the US" indicator (`create_us_based_feature`);
- keeps the senior-level (`"SE"`) rows and projects them to
  `(work_year, job_title, round(salary_in_usd))` (`filter_and_convert`, present
  in both `examples/ex03.rs` and `examples/ex01.rs`);
- computes the median of a column by sorting the caller's vector in place (`calc_median`).

Files and modules:

- `records.dfy` (`SalaryRecords`): the record datatype and a `Result` type.
- `rounding.dfy` (`Rounding`): round-half-away-from-zero on reals.
- `features.dfy` (`Features`): the job-title map, the one-hot encoder and the US indicator.
- `filter_convert.dfy` (`FilterConvert`): the senior filter and projection.
- `median.dfy` (`Median`): the in-place sort and the median.

Modelling choices:

- Floating-point columns are exact `real`s, and `round` is a function from `real` to `int`.
- The Rust functions that always return `Ok` (`create_job_title_map`,
  `create_us_based_feature`, `filter_and_convert`) return their value directly.
- Where the Rust code panics, the model returns `Err`:
  - a job title missing from the map, or an index past the vector's end, in the one-hot encoder;
  - the lower middle index `len / 2 - 1` of an empty vector in `calc_median`.
- The `HashSet` is drained in an unspecified order. `Features.NumberTitles` models this with a
  nondeterministic choice of the next title, so its contract holds for every drain order.
- `sort_unstable_by` is modelled by an insertion sort. Its contract is the sort's contract:
  sorted, and a permutation of the input. `Median.SortedPermutationUnique` shows that this
  contract fixes the result, so the choice of algorithm does not change the median.
- The closure of `one_hot_encode_job_titles` fills a mutable vector. It becomes the method
  `Features.EncodeJobTitle` over an `array`. The surrounding `map`/`collect` becomes the loop
  of `Features.OneHotEncodeJobTitles`, so the model can call that method.
- The model follows the code in four places where other designs were possible:
  - `calc_median` sorts the caller's vector in place. It does not sort a copy.
  - The job-title map of an empty dataset is an empty map. It is not an error.
  - Index order comes from set iteration. The titles are not sorted first.
  - An unknown title panics (examples/ex03.rs:108). In the model, `Err(UnknownJobTitle …)`
    stands for that panic. The source never returns an error value from this function, so its
    caller cannot recover.

## Model

| member | source | states |
|---|---|---|
| `Rounding.RoundHalfAwayFromZero` | examples/ex01.rs:52 | the result is within 1/2 of the salary, and on an exact half it is the integer farther from zero |
| `Rounding.RoundIsNearest` | examples/ex03.rs:135 | no integer is closer to the value than its rounding |
| `Rounding.RoundUnique` | examples/ex03.rs:135 | any integer that is within 1/2 and breaks ties away from zero is the rounding, so those two properties define `round` |
| `Rounding.RoundOdd` | examples/ex01.rs:52 | rounding is symmetric: round(-x) = -round(x) |
| `Features.JobTitleSet` | examples/ex03.rs:88-91 | the collected set holds a title exactly when some record has that job title |
| `Features.NumberTitles` | examples/ex03.rs:93-96 | for any drain order, the resulting map has exactly the set's titles as keys, gives distinct titles distinct indices, uses only indices below the title count, and uses every one of them |
| `Features.CreateJobTitleMap` | examples/ex03.rs:87-98 | the map's keys are exactly the dataset's distinct job titles; the indices form a bijection onto 0..k-1; an empty dataset gives an empty map |
| `Features.DenseIndexIsBijection` | examples/ex03.rs:93-97 | in such a map, every index below k belongs to exactly one title (a restatement of the dense-index definition as a bijection, for callers) |
| `Features.EncodeJobTitle` | examples/ex03.rs:106-111 | succeeds exactly when the title is a key whose index is below the map's size; the vector then has the map's length and a single 1 at the title's index; otherwise the error names the failing lookup or index |
| `Features.OneHotEncodeJobTitles` | examples/ex03.rs:100-114 | succeeds exactly when every record is encodable; the result then has one vector per record, in record order, each of length `mapping.len()` and one-hot at its record's title index; on failure the error is that of the first record that cannot be encoded |
| `Features.OneHotHasSingleOne` | examples/ex03.rs:107-109 | a one-hot vector holds exactly one 1, and no other index makes the same vector one-hot |
| `Features.JobTitleMapEncodesDataset` | examples/ex03.rs:107-108 | with a map built from the same dataset, every record is encodable, so the lookup and the index never fail |
| `Features.OneHotSeparatesTitles` | examples/ex03.rs:107-110 | under such a map, two records get equal vectors exactly when they have the same job title |
| `Features.CreateUsBasedFeature` | examples/ex03.rs:116-128 | one entry per record, in order; entry i is 1 exactly when record i's company location is "US", and 0 exactly when it is not |
| `Features.UsBasedFeatureAppend` | examples/ex03.rs:117-126 | the indicator of a concatenation is the concatenation of the indicators: each entry depends on its own record only |
| `FilterConvert.FilterAndConvert` | examples/ex03.rs:130-144 | the output is no longer than the input, and every row is the conversion of some senior record |
| `FilterConvert.SeniorSelection` | examples/ex01.rs:48-59 | there is a strictly increasing list of positions that contains exactly the senior records; output row k comes from the k-th of them, with work year and job title copied and the USD salary rounded |
| `FilterConvert.FilterAndConvertEmpty` | examples/ex01.rs:47-60 | the output is empty exactly when no record is senior; that case is an empty result, not an error |
| `FilterConvert.FilterAndConvertAppend` | examples/ex03.rs:131-142 | filtering a concatenation gives the two filtered parts in their original order |
| `Median.SortInPlace` | examples/ex03.rs:55 | afterwards the array is sorted ascending and holds the same multiset of values |
| `Median.CalcMedian` | examples/ex03.rs:54-64 | sorts the caller's array in place (sorted, same multiset); an empty array is an error; otherwise the result is the middle element for odd length, or the mean of the two middle elements for even length |
| `Median.MiddleSplitsSorted` | examples/ex03.rs:56-63 | in a sorted sequence, the first ceil(n/2) entries are at most the median and the last ceil(n/2) are at least it; the median lies between the minimum and the maximum |
| `Median.SortedPermutationUnique` | examples/ex03.rs:55 | two sorted sequences with the same multiset of values are equal, so the order left by an unstable sort cannot matter |
| `Median.MedianDependsOnlyOnValues` | examples/ex03.rs:54-64 | two sorted arrangements of the same values have the same middle; with `CalcMedian`'s sorted-permutation ensures, the median of an input depends only on its values |

## Left out

- `fetch_dataset` (examples/ex03.rs:25-32, examples/ex01.rs:23-32) is HTTP I/O.
- `load_dataset` (examples/ex03.rs:34-45, examples/ex01.rs:34-45) is CSV parsing done by the `csv`
  crate and serde. That library is not part of this model, and neither is its `dbg!` output.
- `calc_mean`, `calc_std` and `standardize_salary` (examples/ex03.rs:47-52, 66-85) are left out.
  They are `f32` summation, powers and square roots, which `real` arithmetic does not reproduce.
- The `main` functions are left out; they only print.
- examples/ex02.rs, examples/ex05.rs, examples/ex06.rs, examples/ex07.rs and src/main.rs are not
  part of this model. They hold I/O, plotting, or thin wrappers over the `statrs` library.
- `Median.CalcMedian` does not model NaN. The source's `partial_cmp(..).unwrap()` panics on a NaN,
  but reals have none.
- `Median.CalcMedian` does not model `f32` rounding of `(mid1 + mid2) / 2.0`.
- `Rounding.RoundHalfAwayFromZero` gives an unbounded integer. The source gives an `f32`/`f64`
  holding that integer, and floats above 2^23 (`f32`) or 2^52 (`f64`) are already integral there.
- `Rounding.RoundHalfAwayFromZero` has no NaN or infinite input. The source's `round` (examples/ex01.rs:52,
  examples/ex03.rs:135) returns NaN and ±inf unchanged; reals have no such values.
- `work_year` is an unbounded `int`, not an `i32`. It is only copied, so no wrap-around arises.
- The `usize` indices of the job-title map and the `usize`/`i32` vector entries are unbounded
  naturals and integers.
- `ex01.rs`'s `filter_and_convert` differs from `ex03.rs`'s only in using `f64` instead of `f32`.
  With exact reals both are the one function `FilterConvert.FilterAndConvert`.
