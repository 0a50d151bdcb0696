/**
 * Compositing a decoder result onto the mask canvas
 * (`updateMaskOverlay` in src/lib/segmentation.svelte.ts).
 */
module MaskOverlay {
  import opened Pixels

  /** A mask as `RawImage.fromTensor` gives it: its size and a flat array of per-channel values. */
  datatype MaskImage = MaskImage(width: nat, height: nat, data: seq<int>)

  /**
   * `k` is the first index of a greatest score. For no scores the source
   * keeps its initial `bestIndex = 0`.
   */
  predicate IsFirstMax(scores: seq<real>, k: nat)
  {
    if |scores| == 0 then k == 0
    else
      k < |scores|
      && (forall i :: 0 <= i < |scores| ==> scores[i] <= scores[k])
      && (forall i :: 0 <= i < k ==> scores[i] < scores[k])
  }

  /** The index the selection scan ends on: a later score replaces the best only when strictly greater. */
  function FirstMaxIndex(scores: seq<real>): (k: nat)
    ensures IsFirstMax(scores, k)
  {
    if |scores| <= 1 then 0
    else
      var b := FirstMaxIndex(scores[..|scores| - 1]);
      if scores[|scores| - 1] > scores[b] then |scores| - 1 else b
  }

  /** The selection loop of lines 131-137. */
  method BestIndex(scores: seq<real>) returns (bestIndex: nat)
    ensures bestIndex == FirstMaxIndex(scores)
    ensures IsFirstMax(scores, bestIndex)
  {
    bestIndex := 0;
    var i := 1;
    while i < |scores|
      invariant 1 <= i
      invariant |scores| == 0 ==> bestIndex == 0
      invariant |scores| > 0 ==> i <= |scores| && bestIndex == FirstMaxIndex(scores[..i])
    {
      assert scores[..i + 1][..i] == scores[..i];
      if scores[i] > scores[bestIndex] {
        bestIndex := i;
      }
      i := i + 1;
    }
    if |scores| > 0 {
      assert scores[..i] == scores;
    }
  }

  /** `mask.data[k] === 1`; a read past the end gives `undefined`, which is not 1. */
  predicate MaskBit(mask: seq<int>, k: int)
  {
    0 <= k < |mask| && mask[k] == 1
  }

  /** The overlay colour (100, 0, 0, 100), channel by channel. */
  function OverlayColour(channel: nat): byte
  {
    if channel == 0 || channel == 3 then 100 else 0
  }

  /**
   * The `n`-byte buffer the compositing produces: byte `k` belongs to pixel
   * `k / 4`, which takes the overlay colour exactly when its bit in channel
   * `best` of the `numMasks`-channel mask is 1 and stays transparent black
   * otherwise.
   */
  function Overlay(mask: seq<int>, numMasks: nat, best: nat, n: nat): (buf: seq<byte>)
    ensures |buf| == n
  {
    seq(n, k requires 0 <= k < n =>
      if MaskBit(mask, numMasks * (k / 4) + best) then OverlayColour(k % 4) else 0)
  }

  /** Pixel `i` of the overlay is (100, 0, 0, 100) when its mask bit is set and (0, 0, 0, 0) otherwise. */
  lemma OverlayPixel(mask: seq<int>, numMasks: nat, best: nat, n: nat, i: nat)
    requires 4 * i + 3 < n
    ensures var buf := Overlay(mask, numMasks, best, n);
      if MaskBit(mask, numMasks * i + best)
      then buf[4 * i] == 100 && buf[4 * i + 1] == 0 && buf[4 * i + 2] == 0 && buf[4 * i + 3] == 100
      else buf[4 * i] == 0 && buf[4 * i + 1] == 0 && buf[4 * i + 2] == 0 && buf[4 * i + 3] == 0
  {
    DivModFour(i, 0); DivModFour(i, 1); DivModFour(i, 2); DivModFour(i, 3);
  }

  /** Byte `4 * i + c` lies in pixel `i`, channel `c`. */
  lemma DivModFour(i: nat, c: nat)
    requires c < 4
    ensures (4 * i + c) / 4 == i && (4 * i + c) % 4 == c
  {
  }

  /**
   * Lines 124-149: a fresh zero buffer of `n` bytes, painted pixel by pixel.
   * The loop runs to the buffer's length in bytes, not in pixels, so later
   * iterations address bytes past the end; a typed array ignores those writes.
   */
  method PaintOverlay(mask: seq<int>, numMasks: nat, best: nat, n: nat) returns (pixelData: array<byte>)
    ensures fresh(pixelData)
    ensures pixelData[..] == Overlay(mask, numMasks, best, n)
  {
    pixelData := new byte[n](_ => 0);
    var i := 0;
    while i < pixelData.Length
      invariant 0 <= i <= n && pixelData.Length == n
      invariant forall k :: 0 <= k < n ==>
        pixelData[k] == if k < 4 * i then Overlay(mask, numMasks, best, n)[k] else 0
    {
      if MaskBit(mask, numMasks * i + best) {
        var offset := 4 * i;
        if offset < n { pixelData[offset] := 100; }
        if offset + 1 < n { pixelData[offset + 1] := 0; }
        if offset + 2 < n { pixelData[offset + 2] := 0; }
        if offset + 3 < n { pixelData[offset + 3] := 100; }
      }
      DivModFour(i, 0); DivModFour(i, 1); DivModFour(i, 2); DivModFour(i, 3);
      i := i + 1;
    }
  }
}
