/**
 * The scroll loop of the scraper: scroll to the bottom, read the page height,
 * count consecutive reads that find the height unchanged (any change, up or
 * down, resets the count), and stop after five of them.
 * The heights the browser reports are a scripted input: `h0` is the height read
 * before the loop, `hs[j]` the height read after the (j+1)-th scroll.
 */
module Pagination {

  /** Consecutive unchanged reads after which scrolling stops. */
  const StallThreshold: nat := 5

  /** The height the read `j` is compared with: the previous read, or `h0` for the first. */
  function HeightBefore(h0: int, hs: seq<int>, j: nat): int
    requires j < |hs|
  {
    if j == 0 then h0 else hs[j - 1]
  }

  /** After `e` scroll cycles, the last StallThreshold reads all repeated the height before them. */
  predicate StalledAfter(h0: int, hs: seq<int>, e: nat)
  {
    StallThreshold <= e <= |hs| &&
    forall j :: e - StallThreshold <= j < e ==> hs[j] == HeightBefore(h0, hs, j)
  }

  /** The scripted height stays unchanged long enough for the loop to end within the script. */
  predicate Settles(h0: int, hs: seq<int>)
  {
    exists e :: 0 <= e <= |hs| && StalledAfter(h0, hs, e)
  }

  /**
   * The `while scroll_attempts < 5` loop. Returns the number of scroll cycles done,
   * which is the first point at which five consecutive reads found the height unchanged.
   */
  method ScrollUntilStalled(h0: int, hs: seq<int>) returns (cycles: nat)
    requires Settles(h0, hs)
    ensures StalledAfter(h0, hs, cycles)
    ensures forall e :: 0 <= e < cycles ==> !StalledAfter(h0, hs, e)
  {
    var lastHeight := h0;
    var attempts := 0;
    cycles := 0;
    while attempts < StallThreshold
      invariant 0 <= attempts <= StallThreshold
      invariant attempts <= cycles <= |hs|
      invariant cycles > 0 ==> lastHeight == hs[cycles - 1]
      invariant cycles == 0 ==> lastHeight == h0
      // the counter is the length of the current run of unchanged reads
      invariant forall j :: cycles - attempts <= j < cycles ==> hs[j] == HeightBefore(h0, hs, j)
      invariant attempts < cycles ==> hs[cycles - attempts - 1] != HeightBefore(h0, hs, cycles - attempts - 1)
      invariant attempts == StallThreshold <==> StalledAfter(h0, hs, cycles)
      invariant forall e :: 0 <= e < cycles ==> !StalledAfter(h0, hs, e)
      decreases |hs| - cycles
    {
      assert cycles < |hs| by {
        var e :| 0 <= e <= |hs| && StalledAfter(h0, hs, e);
        assert e != cycles;
      }
      var newHeight := hs[cycles];
      if newHeight == lastHeight {
        attempts := attempts + 1;
      } else {
        attempts := 0;
      }
      lastHeight := newHeight;
      cycles := cycles + 1;
    }
  }

  /**
   * A feed whose height changes on each of its first k reads and then repeats
   * its height five times is first seen as stalled after exactly k + 5 scroll cycles.
   */
  lemma ChangeThenSettle(h0: int, hs: seq<int>, k: nat)
    requires k + StallThreshold <= |hs|
    requires forall j :: 0 <= j < k ==> hs[j] != HeightBefore(h0, hs, j)
    requires forall j :: k <= j < k + StallThreshold ==> hs[j] == HeightBefore(h0, hs, j)
    ensures StalledAfter(h0, hs, k + StallThreshold)
    ensures forall e :: 0 <= e < k + StallThreshold ==> !StalledAfter(h0, hs, e)
  {
    forall e | 0 <= e < k + StallThreshold
      ensures !StalledAfter(h0, hs, e)
    {
      if StallThreshold <= e {
        var grew := if e <= k then e - 1 else k - 1;
        assert e - StallThreshold <= grew < e && hs[grew] != HeightBefore(h0, hs, grew);
      }
    }
  }

  /** A page whose height never changes is left after exactly five scroll cycles. */
  lemma FlatPageStopsAfterThreshold(h0: int, hs: seq<int>)
    requires |hs| >= StallThreshold
    requires forall j :: 0 <= j < |hs| ==> hs[j] == h0
    ensures Settles(h0, hs)
    ensures StalledAfter(h0, hs, StallThreshold)
    ensures forall e :: 0 <= e < StallThreshold ==> !StalledAfter(h0, hs, e)
  {
    ChangeThenSettle(h0, hs, 0);
  }
}
