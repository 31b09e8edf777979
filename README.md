# DogMoveData step-count explorer: the data core

The explorer is a dashboard over a table of dog movement recordings. This
project models the pure part of it:

- **Record derivation** (`load_data`). Every row gets two derived columns:
  - the trial key `DogID_TestNum`, the decimal text of `DogID` followed by
    that of `TestNum`, read back as an integer into an int64 column;
  - the combined `Behavior` label, the three label fields joined with `_`.
- **The option lists** for the selected trial:
  - the trial ids offered by the slider;
  - the trial's behaviour labels, sorted, for the plot;
  - `gait_behaviors`, the trial's distinct labels containing one of
    `Walking`, `Trotting`, `Pacing` or `Galloping`, offered sorted.
- **Segment isolation** in `calc_steps`. It keeps the rows of the selected
  trial whose label is exactly the selected gait, and returns their time
  and neck-acceleration-magnitude columns re-indexed from 0. The peak
  detector appears only as a function parameter.

The modules:

- `Decimal`: Python's `str` and `int` on integers.
- `Seqs`: boolean masks as `Filter` and pandas' `unique()` as `Unique`.
- `Sorting`: Python's string order and `sorted`.
- `Records`: `load_data`.
- `Gaits`: the option lists and the gait filter.
- `Steps`: `calc_steps`.

Everything is pure: tables are sequences of rows.

## Model

| member | source | states |
|---|---|---|
| Decimal.NatToString | app.py:11 | `str(n)` of a non-negative integer is non-empty, all digits, without a leading zero, and has value `n` |
| Decimal.IntToString | app.py:11 | `str(i)` starts with `-` exactly when `i` is negative; the digits after any sign have no leading zero and their value is the magnitude of `i` |
| Decimal.ParseInt | app.py:11 | `int(s)` succeeds exactly on one or more digits, optionally after one sign character |
| Records.TrialKeyText | app.py:11 | the concatenated id text has at least two characters, is all digits for non-negative ids, and carries a `-` right after the `DogID` text when `TestNum` is negative |
| Records.TrialKey | app.py:11 | an accepted key lies in the int64 range; which ids give which key or error is stated by `TrialKeyOfValue`, `TrialKeyOfNaturals`, `TrialKeyNegativeDog` and `TrialKeyNegativeTestRejected` |
| Records.TrialKeyOfValue | app.py:11 | a key text that reads as `v` converts to `v` inside the int64 range and is an overflow error outside it |
| Records.TrialKeyOfNaturals | app.py:11 | for non-negative ids the key is `DogID * 10^len(str(TestNum)) + TestNum`, or an overflow error when that exceeds the int64 maximum |
| Records.TrialKeyDigits | app.py:11 | for a positive `DogID` and a key in range, `str(key)` is `str(DogID) + str(TestNum)` |
| Records.TrialKeyNegativeDog | app.py:11 | a negative `DogID` gives the negated shifted key, or an overflow error when that is below the int64 minimum |
| Records.TrialKeyNegativeTestRejected | app.py:11 | a negative `TestNum` leaves a minus sign inside the text, so the conversion fails with an invalid-literal error |
| Records.TrialKeyCollision | app.py:11 | the key is not injective: (1, 23) and (12, 3) both give 123 |
| Records.TrialKeyInjectiveSameWidth | app.py:11 | non-negative pairs whose `TestNum` has the same number of digits and that get the same key are equal |
| Records.JoinLabels | app.py:12 | the label length is the sum of the three field lengths plus 2 |
| Records.SplitJoinLabels | app.py:12 | when the first two fields have no underscore, splitting the joined label at its first two underscores gives the three fields back |
| Records.JoinSplitLabels | app.py:12 | every label with two underscores is the join of its split parts |
| Records.DeriveRecord | app.py:11-12 | a derived row keeps the original row, carries the converted key and the joined label, and fails exactly when the key conversion fails |
| Records.LoadData | app.py:11-12 | loading succeeds exactly when every row's key converts; each record then keeps its row, carries the converted key and the joined label; otherwise the error is the first failing row's key error |
| Decimal.ParseIntToString | app.py:11 | `int(str(i)) == i` for every integer |
| Decimal.DigitsValueAppend | app.py:11 | the value of concatenated digit strings is the left value shifted by the right length, plus the right value |
| Decimal.CanonicalDigits | app.py:11 | digits without a leading zero are exactly what `str` writes for their value |
| Decimal.DigitsValueInjective | app.py:11 | two digit strings of the same length and value are equal |
| Seqs.Filter | app.py:43 | a boolean mask or conditional comprehension keeps at most the input's elements, each of them passing the test |
| Seqs.Unique | app.py:41 | `unique()` has no duplicates and holds exactly the values of its input |
| Gaits.TrialRows | app.py:41 | the rows selected for a trial number at most the table's rows and all carry that trial key |
| Gaits.TrialBehaviors | app.py:41 | the trial's label list has no duplicates and holds only labels of the trial's rows |
| Gaits.TrialOptions | app.py:30 | the slider ids have no duplicates and are exactly the keys that occur in the table |
| Gaits.TrialBehaviorsExact | app.py:41 | the trial's label list has no duplicates and holds exactly the labels observed in the trial |
| Seqs.UniqueFirstAppearanceOrder | app.py:41 | `unique()` lists values in the order of their first appearance |
| Seqs.UniqueMembership | app.py:41 | `unique()` keeps exactly the values of its input |
| Gaits.Contains | app.py:43 | substring search succeeds if and only if the name occurs at some position of the label |
| Gaits.AnyOccurs | app.py:43 | `any(xb in b for xb in names)` holds if and only if some name occurs in the label |
| Gaits.IsGait | app.py:42-43 | a label passes the gait test exactly when one of the four gait names occurs in it |
| Gaits.GaitBehaviors | app.py:43 | `gait_behaviors` is no longer than the trial's label list and holds only gait labels |
| Gaits.GaitBehaviorsMembership | app.py:41-43 | a label is in `gait_behaviors` if and only if the trial shows it and it contains one of the four gait names |
| Gaits.GaitBehaviorsOrdered | app.py:41-43 | `gait_behaviors` is an order-preserving subsequence of the trial's unique labels and has no duplicates |
| Gaits.GaitFilterIdempotent | app.py:43 | filtering `gait_behaviors` again by the gait test changes nothing |
| Seqs.FilterMembership | app.py:43 | an element survives a filter if and only if it is in the input and passes the test |
| Seqs.FilterIdempotent | app.py:43 | filtering twice by the same test is filtering once |
| Gaits.GaitOptions | app.py:61 | the gait select box is ascending and a permutation of `gait_behaviors` |
| Gaits.BehaviorOptions | app.py:32 | the behaviour select box is ascending and a permutation of the trial's label list |
| Gaits.GaitOptionsSortedPermutation | app.py:61 | the gait select box is ascending, a permutation of `gait_behaviors`, duplicate-free, and the only ascending permutation |
| Gaits.BehaviorOptionsExact | app.py:32 | the behaviour select box is ascending, duplicate-free, and holds exactly the labels observed in the trial |
| Gaits.GaitOptionsExample | app.py:41-43 | of the labels `Walking_Sniffing_X`, `Standing_Idle_Y` and `Trotting_Z`, the two gait labels are offered, `Trotting_Z` first |
| Sorting.Sort | app.py:61 | the result is ascending in Python's string order and a permutation of the input |
| Sorting.SortedPermutationUnique | app.py:61 | two ascending permutations of the same list are equal, so `Sort` is what `sorted` returns |
| Steps.IsIn | app.py:46 | `isin` with a one-element list holds exactly when the label equals that element |
| Steps.InSegment | app.py:46 | the row mask holds exactly for rows with the selected trial key and exactly the selected label |
| Steps.SegmentRows | app.py:46 | the selected rows number at most the table's rows and all carry the selected key and label |
| Steps.Isolate | app.py:46-49 | the time and signal columns have as many entries as there are selected rows |
| Steps.IsolateExact | app.py:46-49 | position `k` of the segment comes from an increasing table row `idx[k]` with the selected key and exactly the selected label; every such row has a position |
| Steps.IsolateEmpty | app.py:46-49 | when no row matches, the time and signal sequences are empty |
| Steps.CalcSteps | app.py:45-51 | with no gait selected (`None`) `x` and `y` are empty; otherwise `x` and `y` are the time and magnitude of the selected rows, position by position; `p` is what the detector returns on `y` |
| Steps.CalcStepsIgnoresDogArgument | app.py:45-46 | the result does not depend on the `dog` argument |
| Steps.PeakPositionsSelectRows | app.py:48-51 | a peak position inside the signal implies a gait was selected and picks the time and magnitude of one selected table row |
| Steps.CalcStepsEmpty | app.py:46-51 | no gait selected, or a trial and label with no rows, give empty `x` and `y`, and the detector runs on the empty signal |

## What the code does not guarantee

- Any three strings are joined into a behaviour label; no label is rejected.
- Distinct (DogID, TestNum) pairs can get the same trial key
  (`Records.TrialKeyCollision`).

## Left out

- Reading the CSV file and its fixed path: file I/O. The model starts from the rows.
- `@st.cache`: process-level memoisation, with no effect on the values.
- The Streamlit widgets and text output, and the Plotly figures: UI and
  charting. The option lists they are given are modelled.
- The selected trial, label and distance are parameters. The script reads
  them from widgets.
- `find_peaks` with `distance` and `prominence=y.std()`: a library call
  whose behaviour is not visible. It is a function parameter of
  `Steps.CalcSteps`, so its own errors, such as a distance below 1, are
  not modelled. The same goes for the standard deviation it is given.
- The RMS magnitude columns: floating-point square roots. `ANeck_RMS` is
  carried in each row as a given `real`. `t_sec` is a `real` too, and
  `GNeck_RMS` is not read by the core.
- `load_data` assigns whole columns one after another. The model derives
  each row's columns at once, which yields the same table, because every
  derived column is computed row by row.
- Records.LoadData: does not model pandas' exact exception text. The error
  it reports is the first failing row's.
- Decimal.ParseInt: does not accept surrounding blanks or `_` between
  digits, as Python's `int` does. Text built by `str` from integers never
  contains either.
- Sorting.Sort: is insertion sort, not Python's sorting algorithm.
  `Sorting.SortedPermutationUnique` shows that both give the same list.
- Missing labels (NaN in a behaviour field) are not modelled. Every label
  is a string.
- The gait select box returns `None` when the trial has no gait label.
  `Steps.CalcSteps` takes the selection as an `Option`, and `None` selects
  no row, as `isin([None])` does on a column of strings.
- Steps.CalcSteps: takes the trial id the script holds globally
  (`sessionDogID`). It keeps the `dog` argument only to show that the
  argument is unused.
