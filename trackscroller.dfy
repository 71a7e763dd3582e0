/**
 * The track browser's cursor: the tracks of a dataset that pass the
 * road/type/stops filter, and an index that `next` and `prev` move one
 * step at a time between the first and the last of them.
 */
module Scrolling {
  import opened Wrappers
  import opened Sequences
  import opened TrackManager

  /** The user's choice of roads, vehicle types and stop states; each is a list of labels. */
  datatype FilterState = FilterState(roads: seq<string>, types: seq<string>, stops: seq<string>)

  function Max(a: int, b: int): int
  {
    if a < b then b else a
  }

  /** A track "with" stops has at least one idle sample; otherwise it is "without". */
  function StopsLabel(t: TrackRecord): (stops: string)
    ensures stops == "with" <==> t.idleCount > 0
    ensures stops == "with" || stops == "without"
  {
    if t.idleCount > 0 then "with" else "without"
  }

  /** `is_valid_track`: the three early rejections, in the order the browser checks them. */
  function IsValidTrack(fs: FilterState, t: TrackRecord): (ok: bool)
    ensures ok <==> t.road in fs.roads && t.vehicleType in fs.types
                    && (t.idleCount > 0 ==> "with" in fs.stops)
                    && (t.idleCount == 0 ==> "without" in fs.stops)
  {
    if t.road !in fs.roads then false
    else if t.vehicleType !in fs.types then false
    else if StopsLabel(t) !in fs.stops then false
    else true
  }

  /** The list comprehension that builds `filtered_dataset`. */
  function FilteredTracks(fs: FilterState, dataset: seq<TrackRecord>): (r: seq<TrackRecord>)
    ensures |r| <= |dataset|
    ensures forall t :: t in r <==> t in dataset && IsValidTrack(fs, t)
  {
    Filter(t => IsValidTrack(fs, t), dataset)
  }

  /**
   * With both stop states selected and every road and type of the dataset
   * listed (the browser's default stops are "with" and "without"), the
   * filter keeps the whole dataset, in order.
   */
  lemma {:induction false} AllSelectedKeepsAll(fs: FilterState, dataset: seq<TrackRecord>)
    requires "with" in fs.stops && "without" in fs.stops
    requires forall t | t in dataset :: t.road in fs.roads && t.vehicleType in fs.types
    ensures FilteredTracks(fs, dataset) == dataset
  {
    if dataset != [] {
      AllSelectedKeepsAll(fs, dataset[1..]);
      assert IsValidTrack(fs, dataset[0]);
    }
  }

  /** Tracks before a track are filtered independently of it: the filter works element by element. */
  lemma {:induction false} FilteredAppend(fs: FilterState, a: seq<TrackRecord>, b: seq<TrackRecord>)
    ensures FilteredTracks(fs, a + b) == FilteredTracks(fs, a) + FilteredTracks(fs, b)
  {
    if a != [] {
      assert (a + b)[1..] == a[1..] + b;
      FilteredAppend(fs, a[1..], b);
    } else {
      assert a + b == b;
    }
  }

  /** `next`'s index step: one forward while below `iMax`, else stay. */
  function NextIndex(i: int, iMax: int): (j: int)
    ensures i < iMax ==> j == i + 1
    ensures i >= iMax ==> j == i
  {
    if i < iMax then i + 1 else i
  }

  /** `prev`'s index step: one back while above `iMin`, else stay. */
  function PrevIndex(i: int, iMin: int): (j: int)
    ensures i > iMin ==> j == i - 1
    ensures i <= iMin ==> j == i
  {
    if i > iMin then i - 1 else i
  }

  /** Both steps keep the cursor within `iMin <= i <= max(iMin, iMax)`. */
  lemma StepsStayInBounds(i: int, iMin: int, iMax: int)
    requires iMin <= i <= Max(iMin, iMax)
    ensures iMin <= NextIndex(i, iMax) <= Max(iMin, iMax)
    ensures iMin <= PrevIndex(i, iMin) <= Max(iMin, iMax)
  {
  }

  /** A step that moved is undone by the opposite step. */
  lemma StepsUndo(i: int, iMin: int, iMax: int)
    requires iMin <= i <= Max(iMin, iMax)
    ensures i < iMax ==> PrevIndex(NextIndex(i, iMax), iMin) == i
    ensures i > iMin ==> NextIndex(PrevIndex(i, iMin), iMax) == i
  {
  }

  /** From the first track, `n` presses of `next` reach track `n`, and never pass the last. */
  function NextTimes(i: int, iMax: int, n: nat): int
  {
    if n == 0 then i else NextIndex(NextTimes(i, iMax, n - 1), iMax)
  }

  lemma {:induction false} NextTimesReaches(i: int, iMax: int, n: nat)
    requires i <= iMax
    ensures NextTimes(i, iMax, n) == if i + n <= iMax then i + n else iMax
  {
    if n > 0 {
      NextTimesReaches(i, iMax, n - 1);
    }
  }

  class TrackScroller {
    var dataset: seq<TrackRecord>
    var filterState: FilterState
    var filteredDataset: seq<TrackRecord>
    var i: int
    var iMin: int
    var iMax: int

    /** The browser's invariant: the filtered list is fixed and the cursor lies within its bounds. */
    ghost predicate Valid()
      reads this
    {
      filteredDataset == FilteredTracks(filterState, dataset)
      && iMin == 0 && iMax == |filteredDataset| - 1
      && iMin <= i <= Max(iMin, iMax)
    }

    /** The track under the cursor is in bounds whenever there is a track at all. */
    lemma CursorInBounds()
      requires Valid() && filteredDataset != []
      ensures 0 <= i < |filteredDataset|
    {
    }

    constructor (dataset: seq<TrackRecord>, filterState: FilterState)
      ensures Valid()
      ensures this.dataset == dataset && this.filterState == filterState
      ensures i == 0 && iMin == 0 && iMax == |FilteredTracks(filterState, dataset)| - 1
    {
      this.dataset := dataset;
      this.i := 0;
      this.iMin := 0;
      this.filterState := filterState;
      var filtered := FilteredTracks(filterState, dataset);
      this.filteredDataset := filtered;
      this.iMax := |filtered| - 1;
    }

    /** `next`: steps forward and returns the track now shown, if the cursor moved. */
    method Next() returns (shown: Option<TrackRecord>)
      requires Valid()
      modifies this`i
      ensures Valid()
      ensures i == NextIndex(old(i), iMax)
      ensures shown.Some? <==> old(i) < iMax
      ensures shown.Some? ==> shown.value == filteredDataset[i]
    {
      if i < iMax {
        i := i + 1;
        var track := filteredDataset[i];
        shown := Some(track);
      } else {
        shown := None;
      }
    }

    /** `prev`: steps back and returns the track now shown, if the cursor moved. */
    method Prev() returns (shown: Option<TrackRecord>)
      requires Valid()
      modifies this`i
      ensures Valid()
      ensures i == PrevIndex(old(i), iMin)
      ensures shown.Some? <==> old(i) > iMin
      ensures shown.Some? ==> shown.value == filteredDataset[i]
    {
      if i > iMin {
        i := i - 1;
        var track := filteredDataset[i];
        shown := Some(track);
      } else {
        shown := None;
      }
    }
  }
}
