/** fonts/text_shaper.py, contiguous_ranges: the ranges behind ARABIC_SHAPER_RANGE. */
module ContiguousRanges {
  import opened Runes
  import opened Results
  import opened RtlRanges
  import opened Sorting

  /** sorted(vals): the values in ascending order. */
  function SortedValues(vals: seq<uint16>): (r: seq<uint16>)
    ensures |r| == |vals|
  {
    var s := SortByKey(Keys(vals));
    seq(|vals|, i requires 0 <= i < |vals| == |s| => s[i].1)
  }

  function Keys(vals: seq<uint16>): (r: seq<Keyed<uint16>>)
    ensures |r| == |vals|
  {
    seq(|vals|, i requires 0 <= i < |vals| => (vals[i] as nat, vals[i]))
  }

  ghost predicate Ascending(vals: seq<uint16>) {
    forall i, j :: 0 <= i < j < |vals| ==> vals[i] <= vals[j]
  }

  ghost predicate StrictlyAscending(vals: seq<uint16>) {
    forall i, j :: 0 <= i < j < |vals| ==> vals[i] < vals[j]
  }

  ghost predicate Distinct(vals: seq<uint16>) {
    forall i, j :: 0 <= i < j < |vals| ==> vals[i] != vals[j]
  }

  /** A gap of at least one codepoint lies between each range and the next. */
  ghost predicate Separated(ranges: Ranges) {
    forall i, j :: 0 <= i < j < |ranges| ==> ranges[i].1 as int + 1 < ranges[j].0 as int
  }

  ghost predicate Proper(ranges: Ranges) {
    forall i :: 0 <= i < |ranges| ==> ranges[i].0 <= ranges[i].1
  }

  lemma SortedKey(vals: seq<uint16>, i: nat)
    requires i < |vals|
    ensures SortByKey(Keys(vals))[i].0 == SortedValues(vals)[i] as nat
  {
    var s := SortByKey(Keys(vals));
    SortHolds(Keys(vals), s[i]);
    var k :| 0 <= k < |vals| && Keys(vals)[k] == s[i];
  }

  /** Sorting gives the same values, in order, and hides no repetition. */
  lemma SortedHolds(vals: seq<uint16>)
    ensures Ascending(SortedValues(vals))
    ensures StrictlyAscending(SortedValues(vals)) <==> Distinct(vals)
    ensures forall v: uint16 :: v in SortedValues(vals) <==> v in vals
  {
    hide SortByKey, Keys, SortedValues;
    forall i, j | 0 <= i < j < |vals| ensures SortedValues(vals)[i] <= SortedValues(vals)[j] {
      SortSorts(Keys(vals));
      SortedAt(SortByKey(Keys(vals)), i, j);
      SortedKey(vals, i);
      SortedKey(vals, j);
    }
    KeysDistinct(vals);
    StrictIfDistinct(vals);
    forall v: uint16 ensures v in SortedValues(vals) <==> v in vals {
      SortedSame(vals, v);
    }
  }

  lemma SortedSame(vals: seq<uint16>, v: uint16)
    ensures v in SortedValues(vals) <==> v in vals
  {
    hide SortByKey;
    var e: Keyed<uint16> := (v as nat, v);
    var s := SortByKey(Keys(vals));
    SortHolds(Keys(vals), e);
    if i :| 0 <= i < |vals| && SortedValues(vals)[i] == v {
      SortHolds(Keys(vals), s[i]);
      var k :| 0 <= k < |vals| && Keys(vals)[k] == s[i];
      assert vals[k] == v;
    }
    if k :| 0 <= k < |vals| && vals[k] == v {
      assert Keys(vals)[k] == e;
      var i :| 0 <= i < |s| && s[i] == e;
      assert SortedValues(vals)[i] == v;
    }
  }

  lemma KeysDistinct(vals: seq<uint16>)
    ensures DistinctKeys(SortByKey(Keys(vals))) <==> Distinct(vals)
  {
    hide SortByKey;
    SortDistinct(Keys(vals));
    if DistinctKeys(Keys(vals)) {
      forall i, j | 0 <= i < j < |vals| ensures vals[i] != vals[j] {
        assert Keys(vals)[i].0 != Keys(vals)[j].0;
      }
    }
  }

  lemma StrictIfDistinct(vals: seq<uint16>)
    requires Ascending(SortedValues(vals))
    ensures StrictlyAscending(SortedValues(vals)) <==> DistinctKeys(SortByKey(Keys(vals)))
  {
    hide SortByKey, Keys, SortedValues;
    var s, r := SortByKey(Keys(vals)), SortedValues(vals);
    forall i | 0 <= i < |vals| ensures s[i].0 == r[i] as nat {
      SortedKey(vals, i);
    }
  }

  /** An empty list makes run_range[0] fail; a value given twice opens a range of its own. */
  method Compute(vals: seq<uint16>) returns (r: Result<Ranges>)
    ensures r.Ok? <==> vals != []
    ensures r.Ok? ==> forall cp: uint16 :: InRanges(r.value, cp) <==> cp in vals
    ensures r.Ok? ==> Proper(r.value)
    ensures r.Ok? ==> (Separated(r.value) <==> Distinct(vals))
  {
    hide SortedValues, Separated, StrictlyAscending, InRanges, Distinct;
    var sorted := SortedValues(vals);
    SortedHolds(vals);
    var out: Ranges := [];
    var runRange: seq<uint16> := [];
    var lastVal := -1;
    NothingYet();
    for n := 0 to |sorted|
      invariant lastVal == -1 <==> n == 0
      invariant n > 0 ==> lastVal == sorted[n - 1] as int
      invariant n > 0 ==> IsRun(runRange) && runRange[|runRange| - 1] == sorted[n - 1]
      invariant n == 0 ==> runRange == [] && out == []
      invariant Proper(out)
      invariant n > 0 ==> (Apart(out, runRange[0]) <==> StrictlyAscending(sorted[..n]))
      invariant forall cp: uint16 :: cp in sorted[..n] <==> InRanges(out, cp) || cp in runRange
    {
      var val := sorted[n];
      assert sorted[..n + 1] == sorted[..n] + [val];
      if n > 0 {
        assert sorted[..n][n - 1] == sorted[n - 1];
        StrictSnoc(sorted, n);
      } else {
        assert sorted[..1] == [val];
        FirstStrict(val);
      }
      if lastVal != -1 && lastVal + 1 != val {
        ghost var was, run := out, runRange;
        out := out + [(runRange[0], runRange[|runRange| - 1])];
        forall cp: uint16 ensures InRanges(out, cp) <==> InRanges(was, cp) || cp in run {
          RangeAdded(was, run, cp);
        }
        ApartSnoc(was, run[0], run[|run| - 1], val);
        runRange := [];
      }
      runRange := runRange + [val];
      lastVal := val as int;
    }
    if |sorted| == 0 {
      return Err("IndexError: list index out of range");
    }
    assert sorted[..|sorted|] == sorted;
    var last := (runRange[0], runRange[|runRange| - 1]);
    forall cp: uint16 ensures InRanges(out + [last], cp) <==> InRanges(out, cp) || cp in runRange {
      RangeAdded(out, runRange, cp);
    }
    SeparatedSnoc(out, last.0, last.1);
    return Ok(out + [last]);
  }

  ghost predicate IsRun(run: seq<uint16>) {
    run != [] && forall k :: 0 <= k < |run| ==> run[k] == run[0] + k
  }

  /** Separated, and also from a range that begins at `x`. */
  ghost predicate Apart(ranges: Ranges, x: uint16) {
    Separated(ranges) && (ranges != [] ==> ranges[|ranges| - 1].1 as int + 1 < x as int)
  }

  lemma NothingYet()
    ensures forall cp: uint16 :: !InRanges([], cp)
  {}

  lemma FirstStrict(x: uint16)
    ensures StrictlyAscending([x]) && Apart([], x)
  {}

  /** One more value of an ascending list. */
  lemma StrictSnoc(s: seq<uint16>, n: nat)
    requires Ascending(s) && 0 < n < |s|
    ensures StrictlyAscending(s[..n + 1]) <==> StrictlyAscending(s[..n]) && s[n - 1] < s[n]
  {
    var a, b := s[..n], s[..n + 1];
    assert forall i :: 0 <= i < n ==> a[i] == b[i];
    if StrictlyAscending(b) {
      assert b[n - 1] < b[n];
    }
    if StrictlyAscending(a) && s[n - 1] < s[n] {
      forall i, j | 0 <= i < j < |b| ensures b[i] < b[j] {
        assert j == n && i < n - 1 ==> a[i] < a[n - 1];
      }
    }
  }

  lemma SeparatedSnoc(ranges: Ranges, x: uint16, y: uint16)
    requires Proper(ranges)
    ensures Separated(ranges + [(x, y)]) <==> Apart(ranges, x)
  {
    var s := ranges + [(x, y)];
    assert forall i :: 0 <= i < |ranges| ==> s[i] == ranges[i];
    if Separated(s) && ranges != [] {
      assert s[|ranges| - 1].1 as int + 1 < s[|ranges|].0 as int;
    }
    if Apart(ranges, x) {
      NextSeparated(ranges, x, y);
    }
  }

  lemma ApartSnoc(ranges: Ranges, x: uint16, y: uint16, z: uint16)
    requires Proper(ranges)
    ensures Apart(ranges + [(x, y)], z) <==> Apart(ranges, x) && y as int + 1 < z as int
  {
    SeparatedSnoc(ranges, x, y);
  }

  lemma NextSeparated(ranges: Ranges, x: uint16, y: uint16)
    requires Separated(ranges) && Proper(ranges)
    requires ranges != [] ==> ranges[|ranges| - 1].1 as int + 1 < x as int
    ensures Separated(ranges + [(x, y)])
  {
    var s := ranges + [(x, y)];
    forall i, j | 0 <= i < j < |s| ensures s[i].1 as int + 1 < s[j].0 as int {
      if j == |ranges| && i < j - 1 {
        assert ranges[i].1 as int + 1 < ranges[j - 1].0 as int;
      }
    }
  }

  lemma RangeAdded(out: Ranges, run: seq<uint16>, cp: uint16)
    requires IsRun(run)
    ensures InRanges(out + [(run[0], run[|run| - 1])], cp) <==> InRanges(out, cp) || cp in run
  {
    var o := out + [(run[0], run[|run| - 1])];
    if InRanges(out, cp) {
      var i :| 0 <= i < |out| && out[i].0 <= cp <= out[i].1;
      assert o[i] == out[i];
    }
    assert o[|out|] == (run[0], run[|run| - 1]);
    if run[0] <= cp <= run[|run| - 1] {
      assert run[cp - run[0]] == cp;
    }
  }
}
