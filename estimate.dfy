/**
 * The integer part of the size estimate: a running longest and shortest
 * name length over the full list, the per-record formula
 * `longest + 2 * shortest + 7`, and its product with the row count.
 */
module Estimate {
  import opened Decimal
  import opened Stations

  const UsizeMax: int := 0xffff_ffff_ffff_ffff

  /** Rust caps the length of any allocation, hence of any `String`, at `isize::MAX` bytes. */
  const IsizeMax: int := 0x7fff_ffff_ffff_ffff

  /** The length in bytes of the longest name of a non-empty list. */
  function Longest(names: seq<Name>): (longest: nat)
    requires |names| > 0
    ensures forall k :: 0 <= k < |names| ==> |names[k]| <= longest
    ensures exists k :: 0 <= k < |names| && |names[k]| == longest
    decreases |names|
  {
    if |names| == 1 then |names[0]|
    else
      var last := |names[|names| - 1]|;
      var before := Longest(names[..|names| - 1]);
      assert forall k :: 0 <= k < |names| - 1 ==> names[..|names| - 1][k] == names[k];
      if last > before then last else before
  }

  /** The length in bytes of the shortest name of a non-empty list. */
  function Shortest(names: seq<Name>): (shortest: nat)
    requires |names| > 0
    ensures forall k :: 0 <= k < |names| ==> shortest <= |names[k]|
    ensures exists k :: 0 <= k < |names| && |names[k]| == shortest
    decreases |names|
  {
    if |names| == 1 then |names[0]|
    else
      var last := |names[|names| - 1]|;
      var before := Shortest(names[..|names| - 1]);
      assert forall k :: 0 <= k < |names| - 1 ==> names[..|names| - 1][k] == names[k];
      if last < before then last else before
  }

  /** The loop of `estimate_file_size`: the `per_record_size` left by the last iteration. */
  method PerRecordSize(names: seq<Name>) returns (perRecord: nat)
    requires forall k :: 0 <= k < |names| ==> |names[k]| <= IsizeMax
    ensures |names| == 0 ==> perRecord == 0
    ensures |names| > 0 ==> perRecord == Longest(names) + 2 * Shortest(names) + 7
  {
    var maxString := 0;
    var minString := UsizeMax;
    perRecord := 0;
    for n := 0 to |names|
      invariant n == 0 ==> maxString == 0 && minString == UsizeMax && perRecord == 0
      invariant n > 0 ==> maxString == Longest(names[..n]) && minString == Shortest(names[..n])
      invariant n > 0 ==> perRecord == maxString + 2 * minString + 7
    {
      assert names[..n + 1][..n] == names[..n];
      var stationLen := |names[n]|;
      if stationLen > maxString {
        maxString := stationLen;
      }
      if stationLen < minString {
        minString := stationLen;
      }
      perRecord := maxString + minString * 2 + 7;
    }
    assert names[..|names|] == names;
  }

  /**
   * `estimate_file_size` up to the float conversion: the worst-case byte
   * count. A non-positive row count gives 0, as the saturating cast of a
   * negative float product to `u64` does.
   */
  method EstimateFileSize(names: seq<Name>, rows: int) returns (totalBytes: nat)
    requires IsI32(rows)
    requires forall k :: 0 <= k < |names| ==> |names[k]| <= IsizeMax
    ensures |names| == 0 || rows <= 0 ==> totalBytes == 0
    ensures |names| > 0 && rows > 0 ==> totalBytes == rows * (Longest(names) + 2 * Shortest(names) + 7)
  {
    var perRecord := PerRecordSize(names);
    totalBytes := if rows > 0 then rows * perRecord else 0;
  }
}
