/**
 * Extracting the masked region of the mask canvas as an opaque cut-out
 * (`createCutOut` in src/lib/segmentation.svelte.ts, lines 160-215).
 */
module CutOut {
  import opened Pixels
  import opened Wrappers
  import MaskOverlay

  /** Pixel `i` of an RGBA buffer has a non-zero alpha byte. */
  predicate Masked(buf: seq<byte>, i: int)
  {
    0 <= i && 4 * i + 3 < |buf| && buf[4 * i + 3] > 0
  }

  /** `imagePixelData[k]`; a read past the end gives `undefined`, which a clamped byte array stores as 0. */
  function SourceByte(src: seq<byte>, k: int): byte
  {
    if 0 <= k < |src| then src[k] else 0
  }

  /**
   * The buffer after the first loop: every masked pixel `i` holds the RGB
   * source bytes `3 * i .. 3 * i + 2` and alpha 255; every other byte is
   * unchanged.
   */
  function Scanned(buf: seq<byte>, src: seq<byte>): (r: seq<byte>)
    ensures |r| == |buf|
  {
    seq(|buf|, k requires 0 <= k < |buf| =>
      if Masked(buf, k / 4) then (if k % 4 == 3 then 255 else SourceByte(src, 3 * (k / 4) + k % 4))
      else buf[k])
  }

  /** Column and row ranges of masked pixels, as the running minima and maxima hold them. */
  datatype Box = Box(minX: nat, minY: nat, maxX: nat, maxY: nat)

  /** Every masked pixel among the first `n` of a `w`-wide image lies inside `b`. */
  predicate Encloses(buf: seq<byte>, w: nat, n: nat, b: Box)
    requires w > 0
  {
    forall i :: 0 <= i < n && Masked(buf, i) ==>
      b.minX <= i % w <= b.maxX && b.minY <= i / w <= b.maxY
  }

  /** `b` is the smallest such box: each of its four edges is reached by a masked pixel. */
  predicate IsBoundingBox(buf: seq<byte>, w: nat, n: nat, b: Box)
  {
    w > 0
    && Encloses(buf, w, n, b)
    && (exists i :: 0 <= i < n && Masked(buf, i) && i % w == b.minX)
    && (exists i :: 0 <= i < n && Masked(buf, i) && i / w == b.minY)
    && (exists i :: 0 <= i < n && Masked(buf, i) && i % w == b.maxX)
    && (exists i :: 0 <= i < n && Masked(buf, i) && i / w == b.maxY)
  }

  /** The bounding box after pixel `i` at column `x`, row `y`, is found masked (`Math.min`/`Math.max`). */
  function Extend(box: Option<Box>, x: nat, y: nat): (b: Box)
    ensures b.minX <= x <= b.maxX && b.minY <= y <= b.maxY
    ensures box.Some? ==>
      b.minX <= box.value.minX && b.minY <= box.value.minY
      && box.value.maxX <= b.maxX && box.value.maxY <= b.maxY
    ensures box.Some? ==>
      (b.minX == x || b.minX == box.value.minX) && (b.minY == y || b.minY == box.value.minY)
      && (b.maxX == x || b.maxX == box.value.maxX) && (b.maxY == y || b.maxY == box.value.maxY)
    ensures box.None? ==> b == Box(x, y, x, y)
  {
    match box
    case None => Box(x, y, x, y)
    case Some(b) =>
      Box(if x < b.minX then x else b.minX, if y < b.minY then y else b.minY,
          if x > b.maxX then x else b.maxX, if y > b.maxY then y else b.maxY)
  }

  /** Each edge of `b` is reached by a masked pixel below `i`, whose index `at` records. */
  ghost predicate EdgesAt(buf: seq<byte>, w: nat, i: nat, b: Box, at: Box)
    requires w > 0
  {
    at.minX < i && Masked(buf, at.minX) && at.minX % w == b.minX
    && at.minY < i && Masked(buf, at.minY) && at.minY / w == b.minY
    && at.maxX < i && Masked(buf, at.maxX) && at.maxX % w == b.maxX
    && at.maxY < i && Masked(buf, at.maxY) && at.maxY / w == b.maxY
  }

  /**
   * The loop state of lines 173-187 after `i` pixels: `box` is `None` while no
   * pixel is masked, and otherwise encloses the masked pixels so far, each edge
   * reached by the pixel whose index `at` records.
   */
  ghost predicate BoxSoFar(buf: seq<byte>, w: nat, i: nat, box: Option<Box>, at: Box)
  {
    (box.None? <==> forall j :: 0 <= j < i ==> !Masked(buf, j))
    && (box.Some? ==> w > 0 && Encloses(buf, w, i, box.value) && EdgesAt(buf, w, i, box.value, at))
  }

  /** The running box after pixel `i`: extended by the pixel's column and row when it is masked. */
  function NextBox(buf: seq<byte>, w: nat, i: nat, box: Option<Box>): Option<Box>
    requires w > 0
  {
    if Masked(buf, i) then Some(Extend(box, i % w, i / w)) else box
  }

  /** One iteration of the bounding-box update keeps `BoxSoFar`. */
  lemma BoxStep(buf: seq<byte>, w: nat, i: nat, box: Option<Box>, at: Box) returns (at': Box)
    requires w > 0 && BoxSoFar(buf, w, i, box, at)
    ensures BoxSoFar(buf, w, i + 1, NextBox(buf, w, i, box), at')
  {
    if !Masked(buf, i) {
      at' := at;
      StepUnmasked(buf, w, i, box, at);
    } else if box.None? {
      at' := Box(i, i, i, i);
      StepFirst(buf, w, i);
    } else {
      at' := StepExtend(buf, w, i, box.value, at);
      EnclosesStep(buf, w, i, box.value, Extend(box, i % w, i / w));
    }
  }

  /** An unmasked pixel leaves the box and its witnesses as they are. */
  lemma StepUnmasked(buf: seq<byte>, w: nat, i: nat, box: Option<Box>, at: Box)
    requires BoxSoFar(buf, w, i, box, at) && !Masked(buf, i)
    ensures BoxSoFar(buf, w, i + 1, box, at)
  {
    if box.Some? {
      EnclosesStep(buf, w, i, box.value, box.value);
      assert EdgesAt(buf, w, i + 1, box.value, at);
    } else {
      forall j | 0 <= j < i + 1 ensures !Masked(buf, j) {
      }
    }
  }

  /** The first masked pixel starts the box at its own column and row. */
  lemma StepFirst(buf: seq<byte>, w: nat, i: nat)
    requires w > 0 && Masked(buf, i) && forall j :: 0 <= j < i ==> !Masked(buf, j)
    ensures BoxSoFar(buf, w, i + 1, Some(Box(i % w, i / w, i % w, i / w)), Box(i, i, i, i))
  {
    forall j | 0 <= j < i + 1 && Masked(buf, j) ensures j == i {
    }
  }

  /** A later masked pixel widens each edge it lies beyond and becomes that edge's witness. */
  lemma StepExtend(buf: seq<byte>, w: nat, i: nat, b: Box, at: Box) returns (at': Box)
    requires w > 0 && EdgesAt(buf, w, i, b, at) && Masked(buf, i)
    ensures EdgesAt(buf, w, i + 1, Extend(Some(b), i % w, i / w), at')
  {
    var x, y := i % w, i / w;
    at' := Box(
      if x < b.minX then i else at.minX,
      if y < b.minY then i else at.minY,
      if x > b.maxX then i else at.maxX,
      if y > b.maxY then i else at.maxY);
  }

  /** Growing an enclosing box so that it covers pixel `i` when masked encloses the first `i + 1` pixels. */
  lemma EnclosesStep(buf: seq<byte>, w: nat, i: nat, b: Box, b': Box)
    requires w > 0 && Encloses(buf, w, i, b)
    requires b'.minX <= b.minX && b'.minY <= b.minY && b.maxX <= b'.maxX && b.maxY <= b'.maxY
    requires Masked(buf, i) ==> b'.minX <= i % w <= b'.maxX && b'.minY <= i / w <= b'.maxY
    ensures Encloses(buf, w, i + 1, b')
  {
    forall j | 0 <= j < i + 1 && Masked(buf, j)
      ensures b'.minX <= j % w <= b'.maxX && b'.minY <= j / w <= b'.maxY
    {
      if j < i {
        assert b.minX <= j % w <= b.maxX && b.minY <= j / w <= b.maxY;
      }
    }
  }

  /** At the end of the scan, `BoxSoFar` is the exact bounding box. */
  lemma BoxDone(buf: seq<byte>, w: nat, n: nat, b: Box, at: Box)
    requires BoxSoFar(buf, w, n, Some(b), at)
    ensures IsBoundingBox(buf, w, n, b)
  {
    assert Masked(buf, at.minX) && Masked(buf, at.minY) && Masked(buf, at.maxX) && Masked(buf, at.maxY);
  }

  /** The box the loop of lines 177-197 holds after its first `i` pixels; `None` while none is masked. */
  function BoxUpTo(buf: seq<byte>, w: nat, i: nat): Option<Box>
  {
    if i == 0 || w == 0 then None else NextBox(buf, w, i - 1, BoxUpTo(buf, w, i - 1))
  }

  /** `BoxStep` on the running box. */
  lemma BoxUpToStep(buf: seq<byte>, w: nat, i: nat, at: Box) returns (at': Box)
    requires i > 0 && w > 0 && BoxSoFar(buf, w, i - 1, BoxUpTo(buf, w, i - 1), at)
    ensures BoxSoFar(buf, w, i, BoxUpTo(buf, w, i), at')
  {
    at' := BoxStep(buf, w, i - 1, BoxUpTo(buf, w, i - 1), at);
  }

  /** The running box keeps `BoxSoFar` at every step. */
  lemma {:induction false} BoxUpToSoFar(buf: seq<byte>, w: nat, i: nat) returns (at: Box)
    requires w > 0
    ensures BoxSoFar(buf, w, i, BoxUpTo(buf, w, i), at)
  {
    if i == 0 {
      at := Box(0, 0, 0, 0);
    } else {
      var at0 := BoxUpToSoFar(buf, w, i - 1);
      at := BoxUpToStep(buf, w, i, at0);
    }
  }

  /** After `n` pixels the running box is `None` exactly when none is masked, and otherwise their exact bounding box. */
  lemma BoxUpToIsBoundingBox(buf: seq<byte>, w: nat, n: nat)
    requires w > 0
    ensures BoxUpTo(buf, w, n).None? <==> forall i :: 0 <= i < n ==> !Masked(buf, i)
    ensures BoxUpTo(buf, w, n).Some? ==> IsBoundingBox(buf, w, n, BoxUpTo(buf, w, n).value)
  {
    var at := BoxUpToSoFar(buf, w, n);
    if BoxUpTo(buf, w, n).Some? {
      BoxDone(buf, w, n, BoxUpTo(buf, w, n).value, at);
    }
  }

  /** `buf` with pixel `i` given the RGB source bytes `3 * i .. 3 * i + 2` and alpha 255. */
  function MakeOpaqueAt(buf: seq<byte>, src: seq<byte>, i: nat): (r: seq<byte>)
    requires 4 * i + 3 < |buf|
    ensures |r| == |buf|
  {
    buf[4 * i := SourceByte(src, 3 * i)][4 * i + 1 := SourceByte(src, 3 * i + 1)]
       [4 * i + 2 := SourceByte(src, 3 * i + 2)][4 * i + 3 := 255]
  }

  /** Lines 190-195 on one masked pixel. */
  method MakeOpaque(buf: array<byte>, src: seq<byte>, i: nat)
    requires 4 * i + 3 < buf.Length
    modifies buf
    ensures buf[..] == MakeOpaqueAt(old(buf[..]), src, i)
  {
    var sourceOffset := 3 * i;
    var targetOffset := 4 * i;
    for j := 0 to 3
      invariant forall k :: 0 <= k < buf.Length ==>
        buf[k] == if k < 4 * i || 4 * i + j <= k then old(buf[k]) else SourceByte(src, 3 * i + (k - 4 * i))
    {
      buf[targetOffset + j] := SourceByte(src, sourceOffset + j);
    }
    buf[targetOffset + 3] := 255;
  }

  /** The buffer after the first loop has handled pixels `0 .. i - 1`. */
  function ScannedUpTo(buf: seq<byte>, src: seq<byte>, i: nat): (r: seq<byte>)
    ensures |r| == |buf|
  {
    seq(|buf|, k requires 0 <= k < |buf| => if k < 4 * i then Scanned(buf, src)[k] else buf[k])
  }

  /** One iteration of the first loop: pixel `i` is made opaque exactly when it is masked. */
  lemma ScanStep(buf: seq<byte>, src: seq<byte>, i: nat)
    requires 4 * i + 3 < |buf|
    ensures ScannedUpTo(buf, src, i + 1) ==
      if Masked(buf, i) then MakeOpaqueAt(ScannedUpTo(buf, src, i), src, i) else ScannedUpTo(buf, src, i)
  {
    var before := ScannedUpTo(buf, src, i);
    var after := ScannedUpTo(buf, src, i + 1);
    var expected := if Masked(buf, i) then MakeOpaqueAt(before, src, i) else before;
    forall k | 0 <= k < |buf| ensures after[k] == expected[k] {
      ScanStepAt(buf, src, i, k);
    }
    assert after == expected;
  }

  /** `ScanStep` at byte `k`. */
  lemma ScanStepAt(buf: seq<byte>, src: seq<byte>, i: nat, k: nat)
    requires 4 * i + 3 < |buf| && k < |buf|
    ensures ScannedUpTo(buf, src, i + 1)[k] ==
      (if Masked(buf, i) then MakeOpaqueAt(ScannedUpTo(buf, src, i), src, i) else ScannedUpTo(buf, src, i))[k]
  {
    if 4 * i <= k < 4 * i + 4 {
      ScanPixelAt(buf, src, i, k - 4 * i);
    }
  }

  /** `ScanStep` at channel `c` of pixel `i`, one channel at a time. */
  lemma ScanPixelAt(buf: seq<byte>, src: seq<byte>, i: nat, c: nat)
    requires 4 * i + 3 < |buf| && c < 4
    ensures ScannedUpTo(buf, src, i + 1)[4 * i + c] ==
      (if Masked(buf, i) then MakeOpaqueAt(ScannedUpTo(buf, src, i), src, i) else ScannedUpTo(buf, src, i))[4 * i + c]
  {
    ScannedByte(buf, src, i, c);
    var before := ScannedUpTo(buf, src, i);
    assert before[4 * i + c] == buf[4 * i + c];
    if c == 0 {
      assert MakeOpaqueAt(before, src, i)[4 * i] == SourceByte(src, 3 * i);
    } else if c == 1 {
      assert MakeOpaqueAt(before, src, i)[4 * i + 1] == SourceByte(src, 3 * i + 1);
    } else if c == 2 {
      assert MakeOpaqueAt(before, src, i)[4 * i + 2] == SourceByte(src, 3 * i + 2);
    } else {
      assert MakeOpaqueAt(before, src, i)[4 * i + 3] == 255;
    }
  }

  /** Lines 178-195 on pixel `i`: a masked pixel widens the box and is made opaque from the source. */
  method ScanPixel(buf: array<byte>, src: seq<byte>, w: nat, i: nat, box: Option<Box>) returns (box': Option<Box>)
    requires w > 0 && 4 * i + 3 < buf.Length
    modifies buf
    ensures box' == NextBox(old(buf[..]), w, i, box)
    ensures buf[..] == if Masked(old(buf[..]), i) then MakeOpaqueAt(old(buf[..]), src, i) else old(buf[..])
  {
    var x := i % w;
    var y := i / w;
    box' := box;
    if buf[4 * i + 3] > 0 {
      box' := Some(Extend(box, x, y));
      MakeOpaque(buf, src, i);
    }
  }

  /**
   * Lines 177-197: colour every masked pixel from the source and make it
   * opaque, tracking its column and row range. `None` stands for the
   * initial infinities: no pixel was masked.
   */
  method ScanMask(buf: array<byte>, src: seq<byte>, w: nat, h: nat) returns (box: Option<Box>)
    requires buf.Length == 4 * (w * h)
    modifies buf
    ensures buf[..] == Scanned(old(buf[..]), src)
    ensures box.None? <==> forall i :: 0 <= i < w * h ==> !Masked(old(buf[..]), i)
    ensures box.Some? ==> IsBoundingBox(old(buf[..]), w, w * h, box.value)
  {
    ghost var orig := buf[..];
    var n := w * h;
    box := None;
    var i := 0;
    while i < n
      invariant 0 <= i <= n && buf.Length == 4 * n
      invariant n > 0 ==> w > 0
      invariant buf[..] == ScannedUpTo(orig, src, i)
      invariant box == BoxUpTo(orig, w, i)
    {
      ScanStep(orig, src, i);
      UnscannedAt(orig, src, i, 4 * i + 3);
      assert Masked(buf[..], i) == Masked(orig, i);
      box := ScanPixel(buf, src, w, i, box);
      i := i + 1;
    }
    ScanDone(orig, src, n);
    assert i == n && box == BoxUpTo(orig, w, n);
    if n > 0 {
      BoxUpToIsBoundingBox(orig, w, n);
    }
  }

  /** Bytes from pixel `i` on are untouched by the first `i` iterations. */
  lemma UnscannedAt(buf: seq<byte>, src: seq<byte>, i: nat, k: nat)
    requires 4 * i <= k < |buf|
    ensures ScannedUpTo(buf, src, i)[k] == buf[k]
  {
  }

  /** After all `n` pixels the first loop has produced `Scanned`. */
  lemma ScanDone(buf: seq<byte>, src: seq<byte>, n: nat)
    requires |buf| == 4 * n
    ensures ScannedUpTo(buf, src, n) == Scanned(buf, src)
  {
  }

  /** Byte `c` of pixel `i` in `Scanned`. */
  lemma ScannedByte(buf: seq<byte>, src: seq<byte>, i: nat, c: nat)
    requires 4 * i + 3 < |buf| && c < 4
    ensures Scanned(buf, src)[4 * i + c] ==
      if Masked(buf, i) then (if c == 3 then 255 else SourceByte(src, 3 * i + c)) else buf[4 * i + c]
  {
    assert (4 * i + c) / 4 == i && (4 * i + c) % 4 == c;
  }

  /**
   * The buffer after the second loop (lines 200-206): byte `k` takes byte
   * `k + d` when that exists; the top `d` bytes keep their value.
   */
  function Shifted(buf: seq<byte>, d: nat): (r: seq<byte>)
    ensures |r| == |buf|
  {
    seq(|buf|, k requires 0 <= k < |buf| => if k + d < |buf| then buf[k + d] else buf[k])
  }

  /**
   * Lines 200-206: move the whole buffer down by `d` bytes in ascending order.
   * Each byte is read before anything overwrites it, because every write goes
   * `d` bytes below the read; writes to negative indices are ignored.
   */
  method ShiftDown(buf: array<byte>, n: nat, d: nat)
    requires buf.Length == 4 * n
    modifies buf
    ensures buf[..] == Shifted(old(buf[..]), d)
  {
    ghost var orig := buf[..];
    var i := 0;
    while i < n
      invariant 0 <= i <= n
      invariant buf[..] == ShiftedUpTo(orig, d, 4 * i)
    {
      var targetOffset := 4 * i;
      for j := 0 to 4
        invariant buf[..] == ShiftedUpTo(orig, d, targetOffset + j)
      {
        ShiftStep(orig, d, targetOffset + j);
        var dst := targetOffset + j - d;
        if dst >= 0 {
          buf[dst] := buf[targetOffset + j];
        }
      }
      i := i + 1;
    }
    assert ShiftedUpTo(orig, d, 4 * n) == Shifted(orig, d);
  }

  /** The buffer once the second loop has read bytes `0 .. t - 1`. */
  function ShiftedUpTo(buf: seq<byte>, d: nat, t: nat): (r: seq<byte>)
    ensures |r| == |buf|
  {
    seq(|buf|, k requires 0 <= k < |buf| => if k + d < t && k + d < |buf| then buf[k + d] else buf[k])
  }

  /** Reading byte `t` finds it untouched, and writing it `d` bytes lower extends the shifted part by one. */
  lemma ShiftStep(buf: seq<byte>, d: nat, t: nat)
    requires t < |buf|
    ensures ShiftedUpTo(buf, d, t)[t] == buf[t]
    ensures ShiftedUpTo(buf, d, t + 1) ==
      if t >= d then ShiftedUpTo(buf, d, t)[t - d := buf[t]] else ShiftedUpTo(buf, d, t)
  {
  }

  /** `minOffset` (line 202): the byte index of the box's top-left pixel. */
  function Offset(b: Box, w: nat): (d: nat)
    ensures d % 4 == 0
    ensures b.minX < w ==> (d / 4) % w == b.minX && (d / 4) / w == b.minY
  {
    var d := (b.minY * w + b.minX) * 4;
    if b.minX < w then RowColumn(b.minX, b.minY, w); d else d
  }

  /** Pixel `y * w + x` of a `w`-wide image lies in column `x` and row `y`. */
  lemma RowColumn(x: nat, y: nat, w: nat)
    requires x < w
    ensures (y * w + x) % w == x && (y * w + x) / w == y
  {
    var i := y * w + x;
    var q, r := i / w, i % w;
    assert q * w + r == y * w + x;
    if q > y {
      MulMonotone(q, y + 1, w);
      Distribute(y, 1, w);
    } else if q < y {
      MulMonotone(y, q + 1, w);
      Distribute(q, 1, w);
    }
  }

  /**
   * Lines 173-206 on the working buffer: scan, then, when some pixel is
   * masked, shift the buffer to the bounding box's top-left corner.
   */
  method ExtractCutOut(buf: array<byte>, src: seq<byte>, w: nat, h: nat) returns (box: Option<Box>)
    requires buf.Length == 4 * (w * h)
    modifies buf
    ensures box.None? <==> forall i :: 0 <= i < w * h ==> !Masked(old(buf[..]), i)
    ensures box.Some? ==>
      IsBoundingBox(old(buf[..]), w, w * h, box.value)
      && box.value.minX <= box.value.maxX < w && box.value.minY <= box.value.maxY < h
      && buf[..] == Shifted(Scanned(old(buf[..]), src), Offset(box.value, w))
  {
    ghost var orig := buf[..];
    box := ScanMask(buf, src, w, h);
    if box.Some? {
      BoundingBoxInImage(orig, w, h, box.value);
      ShiftDown(buf, w * h, Offset(box.value, w));
    }
  }

  /** The as-written size of the cut-out canvas (lines 207-208): the maximum column and row are excluded. */
  function CutOutSize(b: Box): (size: (nat, nat))
    requires b.minX <= b.maxX && b.minY <= b.maxY
    ensures size.0 == 0 <==> b.minX == b.maxX
    ensures size.1 == 0 <==> b.minY == b.maxY
    ensures size.0 < InclusiveCutOutSize(b).0 && size.1 < InclusiveCutOutSize(b).1
  {
    (b.maxX - b.minX, b.maxY - b.minY)
  }

  /** The size that includes every masked pixel. */
  function InclusiveCutOutSize(b: Box): (nat, nat)
    requires b.minX <= b.maxX && b.minY <= b.maxY
  {
    (b.maxX - b.minX + 1, b.maxY - b.minY + 1)
  }

  /** A pixel index below `w * h` has its row below `h`. */
  lemma RowInImage(j: nat, w: nat, h: nat)
    requires w > 0 && j < w * h
    ensures j / w < h
  {
    if j / w >= h {
      MulMonotone(j / w, h, w);
    }
  }

  /** `a >= b` implies `a * w >= b * w` for a non-negative `w`. */
  lemma MulMonotone(a: nat, b: nat, w: nat)
    requires a >= b
    ensures a * w >= b * w
  {
    assert a * w == b * w + (a - b) * w;
  }

  /** A bounding box lies inside the `w`-wide, `h`-high image and has `min <= max`. */
  lemma BoundingBoxInImage(buf: seq<byte>, w: nat, h: nat, b: Box)
    requires IsBoundingBox(buf, w, w * h, b)
    ensures b.minX <= b.maxX < w && b.minY <= b.maxY < h
  {
    var i :| 0 <= i < w * h && Masked(buf, i) && i % w == b.maxX;
    var j :| 0 <= j < w * h && Masked(buf, j) && j / w == b.maxY;
    RowInImage(j, w, h);
  }

  /** Pixel (`x`, `y`) of a `w`-wide, `h`-high image has index `y * w + x < w * h`. */
  lemma IndexInImage(x: nat, y: nat, w: nat, h: nat)
    requires x < w && y < h
    ensures y * w + x < w * h
  {
    MulMonotone(h - 1, y, w);
    Distribute(h - 1, 1, w);
  }

  /** `(a + b) * w == a * w + b * w`. */
  lemma Distribute(a: nat, b: nat, w: nat)
    ensures (a + b) * w == a * w + b * w
  {
  }

  /**
   * The cut-out as the source exports it: the top-left `width` x `height`
   * region of the shifted buffer, read with the mask canvas's row stride
   * (`putImageData` of the full buffer onto the smaller canvas, line 210).
   */
  datatype CutOutImage = CutOutImage(data: seq<byte>, stride: nat, width: nat, height: nat)

  /**
   * The cut-out of a canvas buffer `orig` whose masked pixels have bounding
   * box `b`: byte `c` of cut-out pixel (`x`, `y`) is byte `c` of image pixel
   * (`b.minX + x`, `b.minY + y`) after the first loop. A masked pixel shows
   * the source's RGB bytes, fully opaque; any other pixel keeps the canvas's
   * bytes. This holds over the inclusive box, so in particular over the
   * as-written, smaller one.
   */
  lemma {:induction false} CutOutPixel(orig: seq<byte>, src: seq<byte>, w: nat, h: nat, b: Box,
                                       x: nat, y: nat, c: nat)
    requires |orig| == 4 * (w * h)
    requires IsBoundingBox(orig, w, w * h, b)
    requires x <= b.maxX - b.minX && y <= b.maxY - b.minY && c < 4
    ensures var out := Shifted(Scanned(orig, src), Offset(b, w));
            var i := (b.minY + y) * w + (b.minX + x);
            i < w * h && 4 * (y * w + x) + c < |out|
            && out[4 * (y * w + x) + c] ==
               if Masked(orig, i) then (if c == 3 then 255 else SourceByte(src, 3 * i + c))
               else orig[4 * i + c]
  {
    BoundingBoxInImage(orig, w, h, b);
    CropPixel(orig, src, w, h, b, x, y, c);
  }

  /**
   * Pixel (`x`, `y`) of the shifted buffer, read with stride `w`, is image
   * pixel (`b.minX + x`, `b.minY + y`) after the scan, for any box corner
   * inside the image.
   */
  lemma CropPixel(orig: seq<byte>, src: seq<byte>, w: nat, h: nat, b: Box, x: nat, y: nat, c: nat)
    requires |orig| == 4 * (w * h)
    requires b.minX + x < w && b.minY + y < h && c < 4
    ensures var out := Shifted(Scanned(orig, src), Offset(b, w));
            var i := (b.minY + y) * w + (b.minX + x);
            i < w * h && 4 * (y * w + x) + c < |out|
            && out[4 * (y * w + x) + c] ==
               if Masked(orig, i) then (if c == 3 then 255 else SourceByte(src, 3 * i + c))
               else orig[4 * i + c]
  {
    var i := (b.minY + y) * w + (b.minX + x);
    CropIndex(b.minX, b.minY, x, y, w, h, c);
    ShiftScanAt(orig, src, Offset(b, w), 4 * (y * w + x) + c, i, c);
  }

  /** Byte `k` of the scanned buffer shifted by `d` is byte `c` of scanned pixel `i` when `k + d == 4 * i + c`. */
  lemma ShiftScanAt(orig: seq<byte>, src: seq<byte>, d: nat, k: nat, i: nat, c: nat)
    requires 4 * i + 3 < |orig| && c < 4 && k + d == 4 * i + c
    ensures var out := Shifted(Scanned(orig, src), d);
      k < |out|
      && out[k] == if Masked(orig, i) then (if c == 3 then 255 else SourceByte(src, 3 * i + c)) else orig[4 * i + c]
  {
    ScannedByte(orig, src, i, c);
    ShiftedAt(Scanned(orig, src), d, k);
  }

  /**
   * The index arithmetic of the crop: cut-out byte `c` of pixel (`x`, `y`),
   * moved up by the offset of corner (`minX`, `minY`), is byte `c` of image
   * pixel (`minX + x`, `minY + y`), which lies inside the image.
   */
  lemma CropIndex(minX: nat, minY: nat, x: nat, y: nat, w: nat, h: nat, c: nat)
    requires minX + x < w && minY + y < h && c < 4
    ensures var i := (minY + y) * w + (minX + x);
      i < w * h && 4 * (y * w + x) + c + (minY * w + minX) * 4 == 4 * i + c && 4 * i + 3 < 4 * (w * h)
  {
    Distribute(minY, y, w);
    IndexInImage(minX + x, minY + y, w, h);
  }

  /** Byte `k` of the shifted buffer is byte `k + d` of the original. */
  lemma ShiftedAt(buf: seq<byte>, d: nat, k: nat)
    requires k + d < |buf|
    ensures Shifted(buf, d)[k] == buf[k + d]
  {
  }

  /** The masked pixel that attains the maximum column lies outside the as-written cut-out. */
  lemma ExclusiveSizeDropsMaxColumn(buf: seq<byte>, w: nat, n: nat, b: Box)
    requires IsBoundingBox(buf, w, n, b)
    ensures b.minX <= b.maxX && b.minY <= b.maxY
    ensures exists i :: 0 <= i < n && Masked(buf, i) && i % w - b.minX >= CutOutSize(b).0
    ensures exists i :: 0 <= i < n && Masked(buf, i) && i / w - b.minY >= CutOutSize(b).1
  {
    var i :| 0 <= i < n && Masked(buf, i) && i % w == b.maxX;
    var j :| 0 <= j < n && Masked(buf, j) && j / w == b.maxY;
    assert b.minX <= i % w && b.minY <= j / w;
  }

  /** With the inclusive size every masked pixel lands inside the cut-out, which is never empty. */
  lemma InclusiveSizeCoversMask(buf: seq<byte>, w: nat, n: nat, b: Box)
    requires IsBoundingBox(buf, w, n, b)
    ensures b.minX <= b.maxX && b.minY <= b.maxY
    ensures InclusiveCutOutSize(b).0 >= 1 && InclusiveCutOutSize(b).1 >= 1
    ensures forall i :: 0 <= i < n && Masked(buf, i) ==>
      0 <= i % w - b.minX < InclusiveCutOutSize(b).0 && 0 <= i / w - b.minY < InclusiveCutOutSize(b).1
  {
    var i :| 0 <= i < n && Masked(buf, i) && i % w == b.maxX;
    var j :| 0 <= j < n && Masked(buf, j) && j / w == b.maxY;
    assert b.minX <= i % w && b.minY <= j / w;
  }

  /** A 10 x 10 canvas whose only masked pixel is (5, 5). */
  function SinglePixelCanvas(): (buf: seq<byte>)
    ensures |buf| == 400
  {
    seq(400, k requires 0 <= k < 400 => if k == 4 * 55 + 3 then 100 else 0)
  }

  /** The single masked pixel's own box is the bounding box of that canvas. */
  lemma SinglePixelBoundingBox()
    ensures IsBoundingBox(SinglePixelCanvas(), 10, 100, Box(5, 5, 5, 5))
  {
    var buf := SinglePixelCanvas();
    assert buf[4 * 55 + 3] == 100;
    assert Masked(buf, 55);
    forall i | 0 <= i < 100 && Masked(buf, i) ensures i == 55 {
      assert buf[4 * i + 3] > 0;
    }
  }

  /**
   * Selecting one pixel gives a 0 x 0 cut-out as written, where the inclusive
   * size gives the 1 x 1 image of that pixel.
   */
  lemma SinglePixelCutOutIsEmpty(b: Box)
    requires IsBoundingBox(SinglePixelCanvas(), 10, 100, b)
    ensures b == Box(5, 5, 5, 5)
    ensures CutOutSize(b) == (0, 0)
    ensures InclusiveCutOutSize(b) == (1, 1)
  {
    var buf := SinglePixelCanvas();
    forall i | 0 <= i < 100 && Masked(buf, i) ensures i == 55 {
      assert buf[4 * i + 3] > 0;
    }
    var i1 :| 0 <= i1 < 100 && Masked(buf, i1) && i1 % 10 == b.minX;
    var i2 :| 0 <= i2 < 100 && Masked(buf, i2) && i2 / 10 == b.minY;
    var i3 :| 0 <= i3 < 100 && Masked(buf, i3) && i3 % 10 == b.maxX;
    var i4 :| 0 <= i4 < 100 && Masked(buf, i4) && i4 / 10 == b.maxY;
    assert i1 == 55 && i2 == 55 && i3 == 55 && i4 == 55;
  }

  /** Channel `c` of pixel `i`, or zero past the end of the buffer. */
  function ChannelByte(buf: seq<byte>, i: nat, c: nat): (v: byte)
    ensures 4 * i + c < |buf| ==> v == buf[4 * i + c]
  {
    if 4 * i + c < |buf| then buf[4 * i + c] else 0
  }

  /** Every channel of an unmasked pixel is zero. */
  ghost predicate Cleared(buf: seq<byte>)
  {
    forall i: nat, c: nat :: c < 4 && 4 * i + 3 < |buf| && !Masked(buf, i) ==> ChannelByte(buf, i, c) == 0
  }

  /** On a composited overlay, a pixel is masked exactly when its mask bit is set, and the others are zero. */
  lemma OverlayMaskedExactly(mask: seq<int>, numMasks: nat, best: nat, p: nat)
    ensures var buf := MaskOverlay.Overlay(mask, numMasks, best, 4 * p);
      (forall i :: 0 <= i < p ==> (Masked(buf, i) <==> MaskOverlay.MaskBit(mask, numMasks * i + best)))
      && Cleared(buf)
  {
    var buf := MaskOverlay.Overlay(mask, numMasks, best, 4 * p);
    forall i | 0 <= i < p ensures Masked(buf, i) <==> MaskOverlay.MaskBit(mask, numMasks * i + best) {
      MaskOverlay.OverlayPixel(mask, numMasks, best, 4 * p, i);
    }
    forall i: nat, c: nat | c < 4 && 4 * i + 3 < 4 * p && !Masked(buf, i)
      ensures ChannelByte(buf, i, c) == 0
    {
      MaskOverlay.OverlayPixel(mask, numMasks, best, 4 * p, i);
    }
  }

  /**
   * End to end: cutting out a composited overlay gives the opaque source pixel
   * wherever the chosen mask channel is 1 and a transparent black pixel
   * everywhere else. Stated for any box whose corner plus (`x`, `y`) lies
   * inside the image, which `BoundingBoxInImage` supplies for the bounding
   * box and every cut-out pixel.
   */
  lemma CutOutOfOverlay(mask: seq<int>, numMasks: nat, best: nat, src: seq<byte>, w: nat, h: nat,
                        b: Box, x: nat, y: nat, c: nat)
    requires b.minX + x < w && b.minY + y < h && c < 4
    ensures var orig := MaskOverlay.Overlay(mask, numMasks, best, 4 * (w * h));
            var out := Shifted(Scanned(orig, src), Offset(b, w));
            var i := (b.minY + y) * w + (b.minX + x);
            i < w * h && 4 * (y * w + x) + c < |out|
            && out[4 * (y * w + x) + c] ==
               if MaskOverlay.MaskBit(mask, numMasks * i + best)
               then (if c == 3 then 255 else SourceByte(src, 3 * i + c))
               else 0
  {
    var i := (b.minY + y) * w + (b.minX + x);
    CropIndex(b.minX, b.minY, x, y, w, h, c);
    OverlayCutAt(mask, numMasks, best, 4 * (w * h), src, Offset(b, w), 4 * (y * w + x) + c, i, c);
  }

  /** Byte `k` of the cut-out of an overlay is byte `c` of scanned pixel `i` when `k + d == 4 * i + c`. */
  lemma OverlayCutAt(mask: seq<int>, numMasks: nat, best: nat, n: nat, src: seq<byte>, d: nat, k: nat, i: nat, c: nat)
    requires 4 * i + 3 < n && c < 4 && k + d == 4 * i + c
    ensures var out := Shifted(Scanned(MaskOverlay.Overlay(mask, numMasks, best, n), src), d);
      k < |out|
      && out[k] == if MaskOverlay.MaskBit(mask, numMasks * i + best)
                   then (if c == 3 then 255 else SourceByte(src, 3 * i + c))
                   else 0
  {
    var orig := MaskOverlay.Overlay(mask, numMasks, best, n);
    MaskOverlay.OverlayPixel(mask, numMasks, best, n, i);
    ShiftScanAt(orig, src, d, k, i, c);
  }
}
