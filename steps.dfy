/** `calc_steps` without the peak detector: isolate the rows of one trial and
    one gait label, and hand their magnitude signal to the detector. */
module Steps {
  import opened Options
  import opened Seqs
  import opened Records

  /** `Series.isin(values)` for one value: membership in the list. */
  function IsIn(x: string, values: seq<string>): (b: bool)
    ensures |values| == 1 ==> (b <==> x == values[0])
  {
    x in values
  }

  /** The row mask of `calc_steps`: `(DogID_TestNum == id) & Behavior.isin([gait])`. */
  function InSegment(id: int, gait: string): (p: Record -> bool)
    ensures forall rec :: p(rec) <==> Matches(rec, id, gait)
  {
    (rec: Record) => rec.trialKey == id && IsIn(rec.behavior, [gait])
  }

  /** `data.loc[mask]`: the selected rows in table order. */
  function SegmentRows(table: seq<Record>, id: int, gait: string): (rows: seq<Record>)
    ensures |rows| <= |table|
    ensures forall k :: 0 <= k < |rows| ==> Matches(rows[k], id, gait)
  {
    Filter(InSegment(id, gait), table)
  }

  /** The time column and the `ANeck_RMS` column of the isolated rows, with the
      index reset: position `k` holds the `k`-th isolated row. */
  datatype Segment = Segment(times: seq<real>, signal: seq<real>)

  function Isolate(table: seq<Record>, id: int, gait: string): (seg: Segment)
    ensures |seg.times| == |seg.signal| == |SegmentRows(table, id, gait)|
  {
    var rows := SegmentRows(table, id, gait);
    Segment(seq(|rows|, k requires 0 <= k < |rows| => rows[k].row.tSec),
            seq(|rows|, k requires 0 <= k < |rows| => rows[k].row.aNeckRms))
  }

  /** The isolated segment holds exactly the selected rows, in table order,
      at positions 0 to n - 1: position `k` comes from table row `idx[k]`, the
      row numbers increase, and every selected row has a position. */
  lemma IsolateExact(table: seq<Record>, id: int, gait: string)
    ensures var seg, idx := Isolate(table, id, gait), FilterIndices(InSegment(id, gait), table);
      && |seg.times| == |seg.signal| == |idx|
      && (forall k :: 0 <= k < |idx| ==>
            && idx[k] < |table| && Matches(table[idx[k]], id, gait)
            && seg.times[k] == table[idx[k]].row.tSec
            && seg.signal[k] == table[idx[k]].row.aNeckRms)
      && (forall k, l :: 0 <= k < l < |idx| ==> idx[k] < idx[l])
      && (forall i :: 0 <= i < |table| && Matches(table[i], id, gait) ==> i in idx)
  {
    var p := InSegment(id, gait);
    var rows := SegmentRows(table, id, gait);
    var idx := FilterIndices(p, table);
    forall k | 0 <= k < |idx| ensures Matches(table[idx[k]], id, gait) {
      assert p(rows[k]);
    }
    forall i | 0 <= i < |table| && Matches(table[i], id, gait) ensures i in idx {
      assert p(table[i]);
    }
  }

  /** No selected row: the time and signal sequences are empty. */
  lemma IsolateEmpty(table: seq<Record>, id: int, gait: string)
    requires forall i :: 0 <= i < |table| ==> !Matches(table[i], id, gait)
    ensures Isolate(table, id, gait) == Segment([], [])
  {
    var p := InSegment(id, gait);
    forall i | 0 <= i < |table| ensures !p(table[i]) {
      assert !Matches(table[i], id, gait);
    }
    FilterNone(p, table);
  }

  /** What `calc_steps` returns: times, magnitudes and the detected peak positions. */
  datatype Steps = Steps(x: seq<real>, y: seq<real>, peaks: seq<int>)

  /** `calc_steps(data, dog, gaits, distance)`. The rows are selected by the
      script-level `dogID` (`sessionDogID` here), not by the `dog` argument.
      `gait` is the select box's value: `None` when the trial has no gait
      label, and then `isin([None])` selects no row. `findPeaks` stands for
      the peak detector: it receives the isolated signal and the minimum
      distance and returns positions in that signal. */
  function CalcSteps(table: seq<Record>, sessionDogID: int, dog: int, gait: Option<string>, distance: int,
                     findPeaks: (seq<real>, int) -> seq<int>): (r: Steps)
    ensures gait.None? ==> r.x == [] && r.y == []
    ensures gait.Some? ==> |r.x| == |r.y| == |SegmentRows(table, sessionDogID, gait.value)|
    ensures gait.Some? ==> forall k :: 0 <= k < |r.x| ==>
      r.x[k] == SegmentRows(table, sessionDogID, gait.value)[k].row.tSec &&
      r.y[k] == SegmentRows(table, sessionDogID, gait.value)[k].row.aNeckRms
    ensures r.peaks == findPeaks(r.y, distance)
  {
    match gait
    case None => Steps([], [], findPeaks([], distance))
    case Some(g) =>
      var seg := Isolate(table, sessionDogID, g);
      Steps(seg.times, seg.signal, findPeaks(seg.signal, distance))
  }

  /** The `dog` argument has no effect on the result. */
  lemma CalcStepsIgnoresDogArgument(table: seq<Record>, sessionDogID: int, dog1: int, dog2: int,
                                    gait: Option<string>, distance: int, findPeaks: (seq<real>, int) -> seq<int>)
    ensures CalcSteps(table, sessionDogID, dog1, gait, distance, findPeaks)
         == CalcSteps(table, sessionDogID, dog2, gait, distance, findPeaks)
  {
  }

  /** Because the index is reset, a peak position `p` found in the signal
      picks out the time and magnitude of one selected table row. */
  lemma PeakPositionsSelectRows(table: seq<Record>, sessionDogID: int, dog: int, gait: Option<string>,
                                distance: int, findPeaks: (seq<real>, int) -> seq<int>, p: int)
    requires var r := CalcSteps(table, sessionDogID, dog, gait, distance, findPeaks);
      p in r.peaks && 0 <= p < |r.y|
    ensures gait.Some?
    ensures var r := CalcSteps(table, sessionDogID, dog, gait, distance, findPeaks);
      exists i :: 0 <= i < |table| && Matches(table[i], sessionDogID, gait.value) &&
        r.x[p] == table[i].row.tSec && r.y[p] == table[i].row.aNeckRms
  {
    var g := gait.value;
    IsolateExact(table, sessionDogID, g);
    var idx := FilterIndices(InSegment(sessionDogID, g), table);
    assert Matches(table[idx[p]], sessionDogID, g);
  }

  /** No selected gait, or a trial and label with no rows, give empty time and
      signal sequences; the detector is then run on the empty signal. */
  lemma CalcStepsEmpty(table: seq<Record>, sessionDogID: int, dog: int, gait: Option<string>,
                       distance: int, findPeaks: (seq<real>, int) -> seq<int>)
    requires gait.Some? ==> forall i :: 0 <= i < |table| ==> !Matches(table[i], sessionDogID, gait.value)
    ensures var r := CalcSteps(table, sessionDogID, dog, gait, distance, findPeaks);
      r.x == [] && r.y == [] && r.peaks == findPeaks([], distance)
  {
    if gait.Some? {
      IsolateEmpty(table, sessionDogID, gait.value);
    }
  }
}
