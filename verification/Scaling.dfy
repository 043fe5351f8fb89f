/** Scaling and flipping of RGB24 images in the buffer that holds them. */
module Scaling {
  import opened Jcamsys

  type Sample = x: int | 0 <= x < 256

  /** len samples have room for n lines. */
  predicate Room(n: nat, line: nat, len: nat)
  {
    n == 0 || (line <= len && Room(n - 1, line, len - line))
  }

  lemma {:induction false} RoomIsArea(n: nat, line: nat, len: nat)
    ensures Room(n, line, len) <==> n * line <= len
  {
    if n > 0 {
      assert n * line == line + (n - 1) * line;
      if line <= len {
        RoomIsArea(n - 1, line, len - line);
      }
    }
  }

  /** Samples in an RGB24 image. */
  function Area(width: nat, height: nat): nat
  {
    height * (3 * width)
  }

  // ---- what the operations compute, on lines of `line` samples ----

  function Offset(second: bool, line: nat): nat
  {
    if second then line else 0
  }

  /** n lines out of n pairs of lines: the second of each pair, or the first. */
  function KeptLines(img: seq<Sample>, line: nat, n: nat, second: bool): (r: seq<Sample>)
    requires Room(n, 2 * line, |img|)
    decreases n
  {
    if n == 0 then []
    else img[Offset(second, line)..][..line] + KeptLines(img[2 * line..], line, n - 1, second)
  }

  function Mean(a: Sample, b: Sample): Sample
  {
    (a + b) / 2
  }

  /** A pixel out of two: their mean, or the left one. */
  function Pixel(row: seq<Sample>, average: bool): (p: seq<Sample>)
    requires |row| >= 6
    ensures |p| == 3
  {
    if average then [Mean(row[0], row[3]), Mean(row[1], row[4]), Mean(row[2], row[5])] else row[..3]
  }

  /** n pixels out of n pairs of pixels. */
  function HalfLine(row: seq<Sample>, n: nat, average: bool): (r: seq<Sample>)
    requires 6 * n <= |row|
    ensures |r| == 3 * n
  {
    if n == 0 then []
    else Pixel(row, average) + HalfLine(row[6..], n - 1, average)
  }

  function HalfLines(img: seq<Sample>, width: nat, n: nat, average: bool): (r: seq<Sample>)
    requires Room(n, 3 * width, |img|)
    decreases n
  {
    if n == 0 then []
    else HalfLine(img, width / 2, average) + HalfLines(img[3 * width..], width, n - 1, average)
  }

  function FlippedLines(img: seq<Sample>, line: nat, n: nat): (r: seq<Sample>)
    requires Room(n, line, |img|)
    decreases n
  {
    if n == 0 then [] else FlippedLines(img[line..], line, n - 1) + img[..line]
  }

  // ---- the operations ----

  lemma SameSlice(a: seq<Sample>, b: seq<Sample>, at: nat, lo: nat, hi: nat)
    requires |a| == |b| && at <= lo <= hi <= |a| && a[at..] == b[at..]
    ensures a[lo..hi] == b[lo..hi] && a[lo..] == b[lo..]
  {
    forall i | lo <= i < |a| ensures a[i] == b[i] {
      assert a[i] == a[at..][i - at] == b[at..][i - at];
    }
  }

  lemma Regroup(a: seq<Sample>, b: seq<Sample>, c: seq<Sample>)
    ensures a + (b + c) == a + b + c
  {
  }

  function Moved(b: seq<Sample>, from: nat, to: nat, n: nat): (r: seq<Sample>)
    requires to <= from && from + n <= |b|
    ensures |r| == |b|
  {
    b[..to] + b[from..from + n] + b[to + n..]
  }

  /** The inner loop of Deinterlace: one line, pixel by pixel, towards the beginning of the buffer. */
  method MoveLine(buffer: array<Sample>, oldbufpos: nat, newbufpos: nat, width: nat)
    requires newbufpos <= oldbufpos && oldbufpos + 3 * width <= buffer.Length
    modifies buffer
    ensures buffer[..] == Moved(old(buffer[..]), oldbufpos, newbufpos, 3 * width)
  {
    ghost var before := buffer[..];
    for npixel := 0 to width
      invariant forall k :: 0 <= k < newbufpos || newbufpos + 3 * npixel <= k < buffer.Length ==> buffer[k] == before[k]
      invariant forall k :: newbufpos <= k < newbufpos + 3 * npixel ==> buffer[k] == before[k - newbufpos + oldbufpos]
    {
      var from, to := oldbufpos + 3 * npixel, newbufpos + 3 * npixel;
      buffer[to] := buffer[from];
      buffer[to + 1] := buffer[from + 1];
      buffer[to + 2] := buffer[from + 2];
    }
    MovedPlaceByPlace(buffer[..], before, oldbufpos, newbufpos, 3 * width);
  }

  lemma MovedPlaceByPlace(b: seq<Sample>, before: seq<Sample>, from: nat, to: nat, n: nat)
    requires |b| == |before| && to <= from && from + n <= |b|
    requires forall k :: 0 <= k < to || to + n <= k < |b| ==> b[k] == before[k]
    requires forall k :: to <= k < to + n ==> b[k] == before[k - to + from]
    ensures b == Moved(before, from, to, n)
  {
  }

  lemma LineMoved(b: seq<Sample>, before: seq<Sample>, from: nat, to: nat, line: nat)
    requires |b| == |before| && to <= from && from + line <= |b| && b[to..] == before[to..]
    ensures Moved(b, from, to, line)[..to + line] == b[..to] + before[from..][..line]
    ensures Moved(b, from, to, line)[to + line..] == before[to + line..]
  {
    SameSlice(b, before, to, from, from + line);
    assert before[from..][..line] == before[from..from + line];
    SameSlice(b, before, to, to + line, |b|);
  }

  lemma KeptNext(img: seq<Sample>, line: nat, from: nat, n: nat, second: bool)
    requires n > 0 && from <= |img| && Room(n, 2 * line, |img| - from)
    ensures from + 2 * line <= |img| && Room(n - 1, 2 * line, |img| - (from + 2 * line))
    ensures KeptLines(img[from..], line, n, second) ==
            img[from + Offset(second, line)..][..line] + KeptLines(img[from + 2 * line..], line, n - 1, second)
  {
    var rest := img[from..];
    assert rest[2 * line..] == img[from + 2 * line..];
    assert rest[Offset(second, line)..] == img[from + Offset(second, line)..];
  }

  /** Deinterlace with n pairs of lines to go: what is done in front, what is still unread behind. */
  ghost predicate Keeping(b: seq<Sample>, before: seq<Sample>, line: nat, second: bool, source: nat, to: nat, n: nat,
      kept: seq<Sample>)
  {
    && |b| == |before| && Offset(second, line) <= source
    && var from := source - Offset(second, line);
    && to <= from <= |b|
    && Room(n, 2 * line, |b| - from)
    && b[to..] == before[to..]
    && b[..to] + KeptLines(before[from..], line, n, second) == kept
  }

  lemma KeepingNext(b: seq<Sample>, before: seq<Sample>, line: nat, second: bool, from: nat, to: nat, n: nat,
      kept: seq<Sample>)
    requires n > 0 && Keeping(b, before, line, second, from, to, n, kept)
    ensures |b| == |before| && to <= from && from + line <= |b|
    ensures Keeping(Moved(b, from, to, line), before, line, second, from + line + line, to + line, n - 1, kept)
  {
    hide KeptLines, Room, Moved;
    var pair := from - Offset(second, line);
    KeptNext(before, line, pair, n, second);
    LineMoved(b, before, from, to, line);
    Regroup(b[..to], before[from..][..line], KeptLines(before[pair + 2 * line..], line, n - 1, second));
  }

  lemma KeepingStart(before: seq<Sample>, line: nat, second: bool, n: nat)
    requires Room(n, 2 * line, |before|)
    ensures Keeping(before, before, line, second, if second then line else 0, 0, n, KeptLines(before, line, n, second))
  {
    assert before[0..] == before;
  }

  lemma KeepingEnd(b: seq<Sample>, before: seq<Sample>, line: nat, second: bool, from: nat, to: nat, kept: seq<Sample>)
    requires Keeping(b, before, line, second, from, to, 0, kept)
    ensures |kept| <= |b| && b == kept + before[|kept|..]
  {
    assert b == b[..to] + b[to..];
  }

  method Deinterlace(sml: int, buffer: array<Sample>, width: nat, height: nat)
    requires Area(width, height) <= buffer.Length
    modifies buffer
    ensures Room(height / 2, 2 * (3 * width), buffer.Length)
    ensures var kept := KeptLines(old(buffer[..]), 3 * width, height / 2, sml != 1);
            |kept| <= buffer.Length && buffer[..] == kept + old(buffer[|kept|..])
  {
    hide *;
    ghost var before, second := buffer[..], sml != 1;
    PairsFit(width, height, buffer.Length);
    ghost var kept := KeptLines(before, 3 * width, height / 2, second);
    KeepingStart(before, 3 * width, second, height / 2);
    var oldbufpos: nat, newbufpos: nat := if sml == 1 then 0 else 3 * width, 0;
    var lines := height / 2;
    ghost var left: nat := lines;
    for nlines := 0 to lines
      invariant left == lines - nlines
      invariant Keeping(buffer[..], before, 3 * width, second, oldbufpos, newbufpos, left, kept)
    {
      KeepingNext(buffer[..], before, 3 * width, second, oldbufpos, newbufpos, left, kept);
      MoveLine(buffer, oldbufpos, newbufpos, width);
      newbufpos := newbufpos + 3 * width;
      oldbufpos := oldbufpos + 3 * width;
      oldbufpos := oldbufpos + 3 * width;
      left := left - 1;
    }
    KeepingEnd(buffer[..], before, 3 * width, second, oldbufpos, newbufpos, kept);
  }

  lemma PairsFit(width: nat, height: nat, len: nat)
    requires Area(width, height) <= len
    ensures Room(height / 2, 2 * (3 * width), len)
  {
    var m, line := height / 2, 3 * width;
    assert m * (2 * line) == (2 * m) * line;
    if height % 2 == 1 {
      assert height * line == (2 * m) * line + line;
    }
    RoomIsArea(m, 2 * line, len);
  }

  // ---- halving the width ----

  /** One line of halfwidth with n pixels to go. */
  ghost predicate Halving(b: seq<Sample>, before: seq<Sample>, from: nat, to: nat, n: nat, average: bool,
      goal: seq<Sample>)
  {
    && |b| == |before| && to <= from && from + 6 * n <= |b|
    && b[to..] == before[to..]
    && b[..to] + HalfLine(before[from..], n, average) == goal
  }

  function PixelHalved(b: seq<Sample>, from: nat, to: nat, average: bool): (r: seq<Sample>)
    requires to <= from && from + 6 <= |b|
    ensures |r| == |b|
  {
    b[..to] + Pixel(b[from..], average) + b[to + 3..]
  }

  function LineHalved(b: seq<Sample>, from: nat, to: nat, n: nat, average: bool): (r: seq<Sample>)
    requires to <= from && from + 6 * n <= |b|
    ensures |r| == |b|
  {
    b[..to] + HalfLine(b[from..], n, average) + b[to + 3 * n..]
  }

  lemma HalvingNext(b: seq<Sample>, before: seq<Sample>, from: nat, to: nat, n: nat, average: bool, goal: seq<Sample>)
    requires n > 0 && Halving(b, before, from, to, n, average, goal)
    ensures |b| == |before| && to <= from && from + 6 <= |b|
    ensures Halving(PixelHalved(b, from, to, average), before, from + 6, to + 3, n - 1, average, goal)
  {
    var row, pixel := before[from..], Pixel(before[from..], average);
    SameSlice(b, before, to, from, |b|);
    SameSlice(b, before, to, to + 3, |b|);
    assert row[6..] == before[from + 6..];
    assert HalfLine(row, n, average) == pixel + HalfLine(before[from + 6..], n - 1, average);
    Regroup(b[..to], pixel, HalfLine(before[from + 6..], n - 1, average));
    var b' := PixelHalved(b, from, to, average);
    hide HalfLine, Pixel;
    assert b'[..to + 3] == b[..to] + pixel;
    assert b'[to + 3..] == b[to + 3..];
  }

  lemma HalvingStart(before: seq<Sample>, from: nat, to: nat, n: nat, average: bool)
    requires to <= from && from + 6 * n <= |before|
    ensures var goal := before[..to] + HalfLine(before[from..], n, average);
            && Halving(before, before, from, to, n, average, goal)
            && |goal| <= |before| && LineHalved(before, from, to, n, average) == goal + before[|goal|..]
  {
    assert |before[..to] + HalfLine(before[from..], n, average)| == to + 3 * n;
  }

  lemma HalvingEnd(b: seq<Sample>, before: seq<Sample>, from: nat, to: nat, average: bool, goal: seq<Sample>)
    requires Halving(b, before, from, to, 0, average, goal)
    ensures |goal| <= |b| && b == goal + before[|goal|..]
  {
    assert b == b[..to] + b[to..] && |goal| == to;
  }

  /** One pixel in HalfWidth. */
  method HalvePixel(buffer: array<Sample>, oldbufpos: nat, newbufpos: nat, average: bool)
    requires newbufpos <= oldbufpos && oldbufpos + 6 <= buffer.Length
    modifies buffer
    ensures buffer[..] == PixelHalved(old(buffer[..]), oldbufpos, newbufpos, average)
  {
    if average {
      buffer[newbufpos] := Mean(buffer[oldbufpos], buffer[oldbufpos + 3]);
      buffer[newbufpos + 1] := Mean(buffer[oldbufpos + 1], buffer[oldbufpos + 4]);
      buffer[newbufpos + 2] := Mean(buffer[oldbufpos + 2], buffer[oldbufpos + 5]);
    } else {
      buffer[newbufpos] := buffer[oldbufpos];
      buffer[newbufpos + 1] := buffer[oldbufpos + 1];
      buffer[newbufpos + 2] := buffer[oldbufpos + 2];
    }
    ghost var before := old(buffer[..]);
    ghost var p := Pixel(before[oldbufpos..], average);
    assert p[0] == buffer[newbufpos] && p[1] == buffer[newbufpos + 1] && p[2] == buffer[newbufpos + 2];
    PixelPlaced(buffer[..], before, newbufpos, p);
  }

  lemma PixelPlaced(b: seq<Sample>, before: seq<Sample>, to: nat, p: seq<Sample>)
    requires |b| == |before| && |p| == 3 && to + 3 <= |b|
    requires b[to] == p[0] && b[to + 1] == p[1] && b[to + 2] == p[2]
    requires forall i :: 0 <= i < |b| && !(to <= i < to + 3) ==> b[i] == before[i]
    ensures b == before[..to] + p + before[to + 3..]
  {
  }

  /** The inner loop of HalfWidth. */
  method HalveLine(buffer: array<Sample>, oldbufpos0: nat, newbufpos0: nat, width: nat, average: bool)
    requires newbufpos0 <= oldbufpos0 && oldbufpos0 + 6 * width <= buffer.Length
    modifies buffer
    ensures buffer[..] == LineHalved(old(buffer[..]), oldbufpos0, newbufpos0, width, average)
  {
    ghost var before := buffer[..];
    ghost var goal := before[..newbufpos0] + HalfLine(before[oldbufpos0..], width, average);
    var oldbufpos, newbufpos := oldbufpos0, newbufpos0;
    ghost var left := width;
    HalvingStart(before, oldbufpos, newbufpos, width, average);
    hide *;
    for npixel := 0 to width
      invariant left == width - npixel
      invariant Halving(buffer[..], before, oldbufpos, newbufpos, left, average, goal)
    {
      HalvingNext(buffer[..], before, oldbufpos, newbufpos, left, average, goal);
      HalvePixel(buffer, oldbufpos, newbufpos, average);
      newbufpos := newbufpos + 3;
      oldbufpos := oldbufpos + 6;
      left := left - 1;
    }
    HalvingEnd(buffer[..], before, oldbufpos, newbufpos, average, goal);
  }

  /** HalfWidth with n lines to go. */
  ghost predicate HalvingLines(b: seq<Sample>, before: seq<Sample>, width: nat, from: nat, to: nat, n: nat,
      average: bool, goal: seq<Sample>)
  {
    && |b| == |before| && to <= from <= |b|
    && Room(n, 3 * width, |b| - from)
    && b[to..] == before[to..]
    && b[..to] + HalfLines(before[from..], width, n, average) == goal
  }

  lemma LineHalvedParts(b: seq<Sample>, before: seq<Sample>, from: nat, to: nat, n: nat, average: bool)
    requires |b| == |before| && to <= from && from + 6 * n <= |b| && b[to..] == before[to..]
    ensures LineHalved(b, from, to, n, average)[..to + 3 * n] == b[..to] + HalfLine(before[from..], n, average)
    ensures LineHalved(b, from, to, n, average)[to + 3 * n..] == before[to + 3 * n..]
  {
    hide HalfLine;
    SameSlice(b, before, to, from, |b|);
    SameSlice(b, before, to, to + 3 * n, |b|);
  }

  lemma HalfLinesNext(img: seq<Sample>, width: nat, half: nat, from: nat, n: nat, average: bool)
    requires n > 0 && half == width / 2 && from <= |img| && Room(n, 3 * width, |img| - from)
    ensures from + 3 * width <= |img| && 6 * half <= 3 * width && Room(n - 1, 3 * width, |img| - (from + 3 * width))
    ensures HalfLines(img[from..], width, n, average) ==
            HalfLine(img[from..], half, average) + HalfLines(img[from + 3 * width..], width, n - 1, average)
  {
    hide HalfLine;
    assert img[from..][3 * width..] == img[from + 3 * width..];
  }

  lemma HalvingLinesNext(b: seq<Sample>, before: seq<Sample>, width: nat, half: nat, from: nat, to: nat, n: nat,
      average: bool, goal: seq<Sample>)
    requires n > 0 && half == width / 2 && HalvingLines(b, before, width, from, to, n, average, goal)
    ensures |b| == |before| && to <= from && from + 3 * width <= |b| && 6 * half <= 3 * width
    ensures HalvingLines(LineHalved(b, from, to, half, average), before, width, from + 3 * width, to + 3 * half,
            n - 1, average, goal)
  {
    hide HalfLine, HalfLines, LineHalved, Room;
    HalfLinesNext(before, width, half, from, n, average);
    LineHalvedParts(b, before, from, to, half, average);
    Regroup(b[..to], HalfLine(before[from..], half, average),
        HalfLines(before[from + 3 * width..], width, n - 1, average));
  }

  lemma HalvingLinesStart(before: seq<Sample>, width: nat, n: nat, average: bool)
    requires Room(n, 3 * width, |before|)
    ensures HalvingLines(before, before, width, 0, 0, n, average, HalfLines(before, width, n, average))
  {
    assert before[0..] == before;
  }

  lemma HalvingLinesEnd(b: seq<Sample>, before: seq<Sample>, width: nat, from: nat, to: nat, average: bool,
      goal: seq<Sample>)
    requires HalvingLines(b, before, width, from, to, 0, average, goal)
    ensures |goal| <= |b| && b == goal + before[|goal|..]
  {
    assert b == b[..to] + b[to..];
  }

  lemma NextLine(k: nat, line: nat)
    ensures (k + 1) * line == k * line + line
  {
  }

  method HalfWidth(buffer: array<Sample>, origwidth: nat, height: nat, average: bool)
    requires Area(origwidth, height) <= buffer.Length
    modifies buffer
    ensures Room(height, 3 * origwidth, buffer.Length)
    ensures var half := HalfLines(old(buffer[..]), origwidth, height, average);
            |half| <= buffer.Length && buffer[..] == half + old(buffer[|half|..])
  {
    ghost var before := buffer[..];
    RoomIsArea(height, 3 * origwidth, buffer.Length);
    ghost var goal := HalfLines(before, origwidth, height, average);
    var newbufpos: nat, oldbufpos: nat := 0, 0;
    var width := origwidth / 2;
    ghost var left: nat := height;
    HalvingLinesStart(before, origwidth, height, average);
    hide *;
    for nlines := 0 to height
      invariant left == height - nlines && oldbufpos == nlines * (3 * origwidth)
      invariant HalvingLines(buffer[..], before, origwidth, oldbufpos, newbufpos, left, average, goal)
    {
      HalvingLinesNext(buffer[..], before, origwidth, width, oldbufpos, newbufpos, left, average, goal);
      HalveLine(buffer, oldbufpos, newbufpos, width, average);
      newbufpos := newbufpos + 3 * width;
      NextLine(nlines, 3 * origwidth);
      oldbufpos := (nlines + 1) * (3 * origwidth);
      left := left - 1;
    }
    HalvingLinesEnd(buffer[..], before, origwidth, oldbufpos, newbufpos, average, goal);
  }

  // ---- scaling ----

  function HalvedTimes(n: nat, s: nat): nat
  {
    if s == 0 then n else HalvedTimes(n, s - 1) / 2
  }

  lemma {:induction false} KeptLength(img: seq<Sample>, line: nat, n: nat, second: bool)
    requires Room(n, 2 * line, |img|)
    ensures |KeptLines(img, line, n, second)| == n * line <= |img|
    decreases n
  {
    RoomIsArea(n, 2 * line, |img|);
    assert n * (2 * line) == 2 * (n * line);
    if n > 0 {
      KeptLength(img[2 * line..], line, n - 1, second);
      NextLine(n - 1, line);
    }
  }

  lemma {:induction false} HalfLength(img: seq<Sample>, width: nat, n: nat, average: bool)
    requires Room(n, 3 * width, |img|)
    ensures |HalfLines(img, width, n, average)| == n * (3 * (width / 2)) <= |img|
    decreases n
  {
    if n > 0 {
      HalfLength(img[3 * width..], width, n - 1, average);
      NextLine(n - 1, 3 * (width / 2));
    }
  }

  lemma HalfFits(width: nat, height: nat)
    ensures Area(width / 2, height / 2) <= Area(width, height / 2) <= Area(width, height)
  {
    NoFewerLines(height / 2, height, 3 * width);
    NoLongerLines(height / 2, 3 * (width / 2), 3 * width);
  }

  lemma NoFewerLines(m: nat, n: nat, line: nat)
    requires m <= n
    ensures m * line <= n * line
  {
    assert (n - m) * line >= 0;
    Difference(m, n, line);
  }

  lemma Difference(m: nat, n: nat, line: nat)
    requires m <= n
    ensures n * line == m * line + (n - m) * line
  {
  }

  lemma NoLongerLines(n: nat, a: nat, b: nat)
    requires a <= b
    ensures n * a <= n * b
  {
  }

  /** The buffer after keeping every second line, and after halving the width as well. */
  function Deinterlaced(b: seq<Sample>, width: nat, height: nat, second: bool): (r: seq<Sample>)
    requires Area(width, height) <= |b|
    ensures |r| == |b|
  {
    PairsFit(width, height, |b|);
    KeptLength(b, 3 * width, height / 2, second);
    var kept := KeptLines(b, 3 * width, height / 2, second);
    kept + b[|kept|..]
  }

  function Narrowed(b: seq<Sample>, width: nat, height: nat): (r: seq<Sample>)
    requires Area(width, height) <= |b|
    ensures |r| == |b|
  {
    RoomIsArea(height, 3 * width, |b|);
    HalfLength(b, width, height, true);
    var half := HalfLines(b, width, height, true);
    half + b[|half|..]
  }

  function ScaledOnce(b: seq<Sample>, width: nat, height: nat, second: bool): (r: seq<Sample>)
    requires Area(width, height) <= |b|
    ensures |r| == |b|
  {
    HalfFits(width, height);
    Narrowed(Deinterlaced(b, width, height, second), width, height / 2)
  }

  lemma {:induction false} StillFits(width: nat, height: nat, s: nat)
    ensures Area(HalvedTimes(width, s), HalvedTimes(height, s)) <= Area(width, height)
  {
    if s > 0 {
      StillFits(width, height, s - 1);
      hide Area;
      HalfFits(HalvedTimes(width, s - 1), HalvedTimes(height, s - 1));
    }
  }

  /** The buffer after scaling s times. */
  function Scaled(b: seq<Sample>, width: nat, height: nat, second: bool, s: nat): (r: seq<Sample>)
    requires Area(width, height) <= |b|
    ensures |r| == |b|
  {
    if s == 0 then b
    else
      StillFits(width, height, s - 1);
      ScaledOnce(Scaled(b, width, height, second, s - 1), HalvedTimes(width, s - 1), HalvedTimes(height, s - 1), second)
  }

  method ScaleImage(sml: int, buffer: array<Sample>, w: nat, h: nat, sc: nat) returns (width: nat, height: nat)
    requires Area(w, h) <= buffer.Length
    modifies buffer
    ensures width == HalvedTimes(w, sc) && height == HalvedTimes(h, sc)
    ensures width == w / Pow2(sc) && height == h / Pow2(sc)
    ensures buffer[..] == Scaled(old(buffer[..]), w, h, sml != 1, sc)
  {
    HalvedTimesIsQuotient(w, sc);
    HalvedTimesIsQuotient(h, sc);
    hide ScaledOnce, Pow2;
    width, height := w, h;
    ghost var before := buffer[..];
    for i := 0 to sc
      invariant width == HalvedTimes(w, i) && height == HalvedTimes(h, i)
      invariant buffer[..] == Scaled(before, w, h, sml != 1, i)
    {
      StillFits(w, h, i);
      ScaleOnce(sml, buffer, width, height);
      height := height / 2;
      width := width / 2;
    }
  }

  /** The body of the loop in ScaleImage. */
  method ScaleOnce(sml: int, buffer: array<Sample>, width: nat, height: nat)
    requires Area(width, height) <= buffer.Length
    modifies buffer
    ensures buffer[..] == ScaledOnce(old(buffer[..]), width, height, sml != 1)
  {
    hide KeptLines, HalfLines, Room;
    Deinterlace(sml, buffer, width, height);
    HalfFits(width, height);
    HalfWidth(buffer, width, height / 2, true);
  }

  // ---- where each sample of the result comes from ----

  function Pow2(s: nat): (p: nat)
    ensures p > 0
  {
    if s == 0 then 1 else 2 * Pow2(s - 1)
  }

  /** Where line r begins. */
  function Start(r: nat, line: nat): nat
  {
    r * line
  }

  lemma StartSteps(r: nat, line: nat)
    ensures Start(0, line) == 0 && Start(r + 1, line) == Start(r, line) + line
    ensures Start(2 * r, line) == 2 * Start(r, line) && Start(2 * r + 1, line) == 2 * Start(r, line) + line
  {
    NextLine(r, line);
    DoubleLine(r, line);
  }

  /** Place of component k of the pixel in row r and column c. */
  function At(width: nat, r: nat, c: nat, k: nat): nat
  {
    Start(r, 3 * width) + 3 * c + k
  }

  lemma RowInside(r: nat, n: nat, m: nat)
    requires r < n
    ensures r * m + m <= n * m
  {
    NextLine(r, m);
    NoFewerLines(r + 1, n, m);
  }

  lemma DoubleLine(r: nat, m: nat)
    ensures (2 * r) * m == 2 * (r * m) && (2 * r + 1) * m == 2 * (r * m) + m
  {
  }

  lemma Twice(a: nat, p: nat)
    ensures a * (2 * p) == 2 * (a * p)
  {
  }

  lemma AtInside(width: nat, height: nat, r: nat, c: nat, k: nat)
    requires r < height && c < width && k < 3
    ensures At(width, r, c, k) < Area(width, height)
  {
    RowInside(r, height, 3 * width);
  }

  /** The line that keeping one of each pair of lines takes for line r. */
  function SourceLine(second: bool, r: nat): nat
  {
    if second then 2 * r + 1 else 2 * r
  }

  lemma KeptAtFirst(img: seq<Sample>, line: nat, n: nat, second: bool, x: nat)
    requires Room(n, 2 * line, |img|) && 0 < n && x < line
    ensures x < |KeptLines(img, line, n, second)| && Offset(second, line) + x < |img|
    ensures KeptLines(img, line, n, second)[x] == img[Offset(second, line) + x]
  {
    var first, rest := img[Offset(second, line)..][..line], KeptLines(img[2 * line..], line, n - 1, second);
    assert KeptLines(img, line, n, second) == first + rest;
    hide KeptLines, Room;
    assert first[x] == img[Offset(second, line) + x];
  }

  lemma KeptAtLater(img: seq<Sample>, line: nat, n: nat, second: bool)
    requires Room(n, 2 * line, |img|) && 0 < n
    ensures 2 * line <= |img| && Room(n - 1, 2 * line, |img| - 2 * line)
    ensures |KeptLines(img, line, n, second)| == line + |KeptLines(img[2 * line..], line, n - 1, second)|
    ensures KeptLines(img, line, n, second)[line..] == KeptLines(img[2 * line..], line, n - 1, second)
  {
  }

  lemma {:induction false} KeptAt(img: seq<Sample>, line: nat, n: nat, second: bool, r: nat, x: nat)
    requires Room(n, 2 * line, |img|) && r < n && x < line
    ensures Start(r, line) + x < |KeptLines(img, line, n, second)| && Start(SourceLine(second, r), line) + x < |img|
    ensures KeptLines(img, line, n, second)[Start(r, line) + x] == img[Start(SourceLine(second, r), line) + x]
    decreases n
  {
    SourceLineStarts(second, r, line);
    hide *;
    if r == 0 {
      KeptAtFirst(img, line, n, second, x);
    } else {
      KeptAtLater(img, line, n, second);
      KeptAt(img[2 * line..], line, n - 1, second, r - 1, x);
    }
  }

  lemma SourceLineStarts(second: bool, r: nat, line: nat)
    ensures r == 0 ==> Start(r, line) == 0 && Start(SourceLine(second, r), line) == Offset(second, line)
    ensures r > 0 ==> Start(r, line) == line + Start(r - 1, line)
    ensures r > 0 ==> Start(SourceLine(second, r), line) == 2 * line + Start(SourceLine(second, r - 1), line)
  {
    hide Start;
    StartSteps(r, line);
    StartSteps(0, line);
    if r > 0 {
      StartSteps(r - 1, line);
    }
  }

  /** Component k of pixel c: the mean of that of two pixels, or that of the left one. */
  lemma {:induction false} HalfLineAt(row: seq<Sample>, n: nat, average: bool, c: nat, k: nat)
    requires 6 * n <= |row| && c < n && k < 3
    ensures average ==> HalfLine(row, n, average)[3 * c + k] == (row[6 * c + k] as int + row[6 * c + 3 + k] as int) / 2
    ensures !average ==> HalfLine(row, n, average)[3 * c + k] == row[6 * c + k]
  {
    if c == 0 {
      PixelAt(row, average, k);
    } else {
      HalfLineAt(row[6..], n - 1, average, c - 1, k);
      hide Pixel;
      assert row[6..][6 * (c - 1) + k] == row[6 * c + k] && row[6..][6 * (c - 1) + 3 + k] == row[6 * c + 3 + k];
    }
  }

  lemma PixelAt(row: seq<Sample>, average: bool, k: nat)
    requires 6 <= |row| && k < 3
    ensures average ==> Pixel(row, average)[k] == (row[k] as int + row[3 + k] as int) / 2
    ensures !average ==> Pixel(row, average)[k] == row[k]
  {
  }

  lemma HalfAtFirst(img: seq<Sample>, width: nat, n: nat, c: nat, k: nat)
    requires Room(n, 3 * width, |img|) && 0 < n && c < width / 2 && k < 3
    ensures 3 * c + k < |HalfLines(img, width, n, true)| && 6 * c + 3 + k < |img|
    ensures HalfLines(img, width, n, true)[3 * c + k] == Mean(img[6 * c + k], img[6 * c + 3 + k])
  {
    HalfLineAt(img, width / 2, true, c, k);
  }

  lemma HalfAtLater(img: seq<Sample>, width: nat, n: nat)
    requires Room(n, 3 * width, |img|) && 0 < n
    ensures 3 * width <= |img| && Room(n - 1, 3 * width, |img| - 3 * width)
    ensures |HalfLines(img, width, n, true)| == 3 * (width / 2) + |HalfLines(img[3 * width..], width, n - 1, true)|
    ensures HalfLines(img, width, n, true)[3 * (width / 2)..] == HalfLines(img[3 * width..], width, n - 1, true)
  {
    hide HalfLine;
  }

  lemma {:induction false} HalfAt(img: seq<Sample>, width: nat, n: nat, r: nat, c: nat, k: nat)
    requires Room(n, 3 * width, |img|) && r < n && c < width / 2 && k < 3
    ensures At(width / 2, r, c, k) < |HalfLines(img, width, n, true)|
    ensures At(width, r, 2 * c, k) < |img| && At(width, r, 2 * c + 1, k) < |img|
    ensures HalfLines(img, width, n, true)[At(width / 2, r, c, k)] ==
            Mean(img[At(width, r, 2 * c, k)], img[At(width, r, 2 * c + 1, k)])
    decreases n
  {
    hide *;
    if r == 0 {
      FirstAt(width, 2 * c, k);
      FirstAt(width, 2 * c + 1, k);
      FirstAt(width / 2, c, k);
      HalfAtFirst(img, width, n, c, k);
    } else {
      HalfAtLater(img, width, n);
      NextAt(width, r, 2 * c, k);
      NextAt(width, r, 2 * c + 1, k);
      NextAt(width / 2, r, c, k);
      HalfAt(img[3 * width..], width, n - 1, r - 1, c, k);
    }
  }

  lemma FirstAt(width: nat, c: nat, k: nat)
    ensures At(width, 0, c, k) == 3 * c + k
  {
  }

  lemma NextAt(width: nat, r: nat, c: nat, k: nat)
    requires r > 0
    ensures At(width, r, c, k) == 3 * width + At(width, r - 1, c, k)
  {
    StartSteps(r - 1, 3 * width);
  }

  lemma OnceAt(b: seq<Sample>, width: nat, height: nat, second: bool, r: nat, c: nat, k: nat)
    requires Area(width, height) <= |b| && r < height / 2 && c < width / 2 && k < 3
    ensures At(width / 2, r, c, k) < |b| && At(width, SourceLine(second, r), 2 * c + 1, k) < |b|
    ensures ScaledOnce(b, width, height, second)[At(width / 2, r, c, k)] ==
            Mean(b[At(width, SourceLine(second, r), 2 * c, k)], b[At(width, SourceLine(second, r), 2 * c + 1, k)])
  {
    hide Deinterlaced, Narrowed, At, SourceLine, Mean;
    HalfFits(width, height);
    KeptAtColumn(b, width, height, second, r, 2 * c, k);
    KeptAtColumn(b, width, height, second, r, 2 * c + 1, k);
    NarrowedAt(Deinterlaced(b, width, height, second), width, height / 2, r, c, k);
  }

  lemma NarrowedAt(b: seq<Sample>, width: nat, height: nat, r: nat, c: nat, k: nat)
    requires Area(width, height) <= |b| && r < height && c < width / 2 && k < 3
    ensures At(width / 2, r, c, k) < |b| && At(width, r, 2 * c + 1, k) < |b|
    ensures Narrowed(b, width, height)[At(width / 2, r, c, k)] ==
            Mean(b[At(width, r, 2 * c, k)], b[At(width, r, 2 * c + 1, k)])
  {
    RoomIsArea(height, 3 * width, |b|);
    HalfLength(b, width, height, true);
    hide HalfLines, Room, At, Mean;
    HalfAt(b, width, height, r, c, k);
  }

  lemma KeptAtColumn(b: seq<Sample>, width: nat, height: nat, second: bool, r: nat, c: nat, k: nat)
    requires Area(width, height) <= |b| && r < height / 2 && c < width && k < 3
    ensures At(width, r, c, k) < |b| && At(width, SourceLine(second, r), c, k) < |b|
    ensures Deinterlaced(b, width, height, second)[At(width, r, c, k)] == b[At(width, SourceLine(second, r), c, k)]
  {
    AtIsInLine(width, r, c, k);
    AtIsInLine(width, SourceLine(second, r), c, k);
    DeinterlacedStarts(b, width, height, second);
    hide *;
    KeptAt(b, 3 * width, height / 2, second, r, 3 * c + k);
    var kept := KeptLines(b, 3 * width, height / 2, second);
    assert Deinterlaced(b, width, height, second)[..|kept|][At(width, r, c, k)] == kept[At(width, r, c, k)];
  }

  lemma AtIsInLine(width: nat, r: nat, c: nat, k: nat)
    ensures At(width, r, c, k) == Start(r, 3 * width) + (3 * c + k)
  {
    hide Start;
  }

  lemma DeinterlacedStarts(b: seq<Sample>, width: nat, height: nat, second: bool)
    requires Area(width, height) <= |b|
    ensures Room(height / 2, 2 * (3 * width), |b|)
    ensures KeptLines(b, 3 * width, height / 2, second) <= Deinterlaced(b, width, height, second)
  {
    PairsFit(width, height, |b|);
    KeptLength(b, 3 * width, height / 2, second);
    hide KeptLines, Room, Area;
  }

  /** s nested means over 2^s columns of the line that starts at base, from column col on. */
  function NestedMean(b: seq<Sample>, base: nat, col: nat, k: nat, s: nat): Sample
    requires k < 3 && base + 3 * (col + Pow2(s)) <= |b|
    decreases s
  {
    if s == 0 then b[base + 3 * col + k]
    else Mean(NestedMean(b, base, col, k, s - 1), NestedMean(b, base, col + Pow2(s - 1), k, s - 1))
  }

  /** The line of the original that line r of the s-fold scaled image comes from. */
  function OriginalLine(second: bool, r: nat, s: nat): nat
  {
    r * Pow2(s) + (if second then Pow2(s) - 1 else 0)
  }

  lemma {:induction false} HalvedTimesBounds(n: nat, s: nat)
    ensures HalvedTimes(n, s) * Pow2(s) <= n
  {
    if s > 0 {
      HalvedTimesBounds(n, s - 1);
      var h, p := HalvedTimes(n, s - 1), Pow2(s - 1);
      Twice(h / 2, p);
      DoubleLine(h / 2, p);
      NoFewerLines(2 * (h / 2), h, p);
    }
  }

  /** Halving s times is dividing by 2^s. */
  lemma {:induction false} HalvedTimesIsQuotient(n: nat, s: nat)
    ensures HalvedTimes(n, s) == n / Pow2(s)
  {
    if s > 0 {
      HalvedTimesIsQuotient(n, s - 1);
      QuotientOfQuotient(n, Pow2(s - 1));
    }
  }

  lemma QuotientOfQuotient(n: nat, p: nat)
    requires p > 0
    ensures n / p / 2 == n / (2 * p)
  {
    var q, r := n / p, n % p;
    assert q == 2 * (q / 2) + q % 2;
    Twice(q / 2, p);
    assert n == q / 2 * (2 * p) + (q % 2 * p + r);
    QuotientIs(n, 2 * p, q / 2, q % 2 * p + r);
  }

  lemma QuotientIs(n: nat, p: nat, q: nat, r: nat)
    requires n == q * p + r && r < p
    ensures n / p == q
  {
    var k := n / p - q;
    assert k * p == r - n % p;
    NoMultiple(k, p);
  }

  lemma NoMultiple(k: int, p: int)
    requires p > 0 && -p < k * p < p
    ensures k == 0
  {
  }

  lemma OriginalLineInside(second: bool, r: nat, s: nat, height: nat)
    requires r < HalvedTimes(height, s)
    ensures OriginalLine(second, r, s) < height
  {
    HalvedTimesBounds(height, s);
    RowInside(r, HalvedTimes(height, s), Pow2(s));
  }

  /** The first of the 2^s columns that column c of the s-fold scaled image comes from. */
  function OriginalColumn(c: nat, s: nat): nat
  {
    c * Pow2(s)
  }

  lemma ColumnsInside(b: seq<Sample>, width: nat, height: nat, r: nat, c: nat, s: nat)
    requires Area(width, height) <= |b| && r < height && c < HalvedTimes(width, s)
    ensures Start(r, 3 * width) + 3 * (OriginalColumn(c, s) + Pow2(s)) <= |b|
  {
    HalvedTimesBounds(width, s);
    RowInside(c, HalvedTimes(width, s), Pow2(s));
    RowInside(r, height, 3 * width);
  }

  lemma OriginalLineSteps(second: bool, r: nat, s: nat)
    requires s > 0
    ensures OriginalLine(second, SourceLine(second, r), s - 1) == OriginalLine(second, r, s)
  {
    DoubleLine(r, Pow2(s - 1));
    Twice(r, Pow2(s - 1));
  }

  /** Scaling in place computes, for every pixel of the result, the nested mean of its columns in its line. */
  lemma {:induction false} ScaledAt(b: seq<Sample>, width: nat, height: nat, second: bool, s: nat, r: nat, c: nat,
      k: nat)
    requires Area(width, height) <= |b|
    requires r < HalvedTimes(height, s) && c < HalvedTimes(width, s) && k < 3
    ensures At(HalvedTimes(width, s), r, c, k) < |b| && OriginalLine(second, r, s) < height
    ensures var start, column := Start(OriginalLine(second, r, s), 3 * width), OriginalColumn(c, s);
            && start + 3 * (column + Pow2(s)) <= |b|
            && Scaled(b, width, height, second, s)[At(HalvedTimes(width, s), r, c, k)] ==
               NestedMean(b, start, column, k, s)
    decreases s
  {
    hide *;
    PixelInside(b, width, height, second, s, r, c, k);
    if s == 0 {
      NotHalved(width);
      NotHalved(height);
      UnscaledAt(b, width, height, second, r, c, k);
    } else {
      ScaledAtNext(b, width, height, second, s, r, c, k);
      OriginalLineSteps(second, r, s);
      OriginalColumnSteps(c, s);
      NestedMeanStep(b, Start(OriginalLine(second, r, s), 3 * width), OriginalColumn(c, s), k, s);
      ScaledAt(b, width, height, second, s - 1, SourceLine(second, r), 2 * c, k);
      ScaledAt(b, width, height, second, s - 1, SourceLine(second, r), 2 * c + 1, k);
    }
  }

  lemma PixelInside(b: seq<Sample>, width: nat, height: nat, second: bool, s: nat, r: nat, c: nat, k: nat)
    requires Area(width, height) <= |b|
    requires r < HalvedTimes(height, s) && c < HalvedTimes(width, s) && k < 3
    ensures At(HalvedTimes(width, s), r, c, k) < |b| && OriginalLine(second, r, s) < height
    ensures Start(OriginalLine(second, r, s), 3 * width) + 3 * (OriginalColumn(c, s) + Pow2(s)) <= |b|
  {
    hide *;
    OriginalLineInside(second, r, s, height);
    ColumnsInside(b, width, height, OriginalLine(second, r, s), c, s);
    StillFits(width, height, s);
    AtInside(HalvedTimes(width, s), HalvedTimes(height, s), r, c, k);
  }

  lemma NotHalved(n: nat)
    ensures HalvedTimes(n, 0) == n
  {
  }

  lemma UnscaledAt(b: seq<Sample>, width: nat, height: nat, second: bool, r: nat, c: nat, k: nat)
    requires Area(width, height) <= |b| && r < height && c < width && k < 3
    requires At(width, r, c, k) < |b| &&
             Start(OriginalLine(second, r, 0), 3 * width) + 3 * (OriginalColumn(c, 0) + Pow2(0)) <= |b|
    ensures Scaled(b, width, height, second, 0)[At(width, r, c, k)] ==
            NestedMean(b, Start(OriginalLine(second, r, 0), 3 * width), OriginalColumn(c, 0), k, 0)
  {
    assert OriginalLine(second, r, 0) == r && OriginalColumn(c, 0) == c;
  }

  lemma OriginalColumnSteps(c: nat, s: nat)
    requires s > 0
    ensures OriginalColumn(2 * c, s - 1) == OriginalColumn(c, s)
    ensures OriginalColumn(2 * c + 1, s - 1) == OriginalColumn(c, s) + Pow2(s - 1)
  {
    DoubleLine(c, Pow2(s - 1));
    Twice(c, Pow2(s - 1));
  }

  lemma NestedMeanStep(b: seq<Sample>, base: nat, col: nat, k: nat, s: nat)
    requires k < 3 && s > 0 && base + 3 * (col + Pow2(s)) <= |b|
    ensures base + 3 * (col + Pow2(s - 1) + Pow2(s - 1)) <= |b|
    ensures NestedMean(b, base, col, k, s) ==
            Mean(NestedMean(b, base, col, k, s - 1), NestedMean(b, base, col + Pow2(s - 1), k, s - 1))
  {
  }

  lemma ScaledAtNext(b: seq<Sample>, width: nat, height: nat, second: bool, s: nat, r: nat, c: nat, k: nat)
    requires Area(width, height) <= |b| && s > 0
    requires r < HalvedTimes(height, s) && c < HalvedTimes(width, s) && k < 3
    ensures var w, above := HalvedTimes(width, s - 1), SourceLine(second, r);
            && above < HalvedTimes(height, s - 1) && 2 * c + 1 < w
            && At(HalvedTimes(width, s), r, c, k) < |b| && At(w, above, 2 * c + 1, k) < |b|
            && var previous := Scaled(b, width, height, second, s - 1);
               Scaled(b, width, height, second, s)[At(HalvedTimes(width, s), r, c, k)] ==
               Mean(previous[At(w, above, 2 * c, k)], previous[At(w, above, 2 * c + 1, k)])
  {
    StillFits(width, height, s - 1);
    hide ScaledOnce;
    OnceAt(Scaled(b, width, height, second, s - 1), HalvedTimes(width, s - 1), HalvedTimes(height, s - 1), second, r,
        c, k);
  }

  // ---- rounding ----

  /** The samples of n columns added up. */
  function ColumnSum(b: seq<Sample>, base: nat, col: nat, k: nat, n: nat): nat
    requires k < 3 && base + 3 * (col + n) <= |b|
    decreases n
  {
    if n == 0 then 0 else ColumnSum(b, base, col, k, n - 1) + b[base + 3 * (col + n - 1) + k]
  }

  lemma {:induction false} ColumnSumSplits(b: seq<Sample>, base: nat, col: nat, k: nat, m: nat, n: nat)
    requires k < 3 && base + 3 * (col + m + n) <= |b|
    ensures ColumnSum(b, base, col, k, m + n) == ColumnSum(b, base, col, k, m) + ColumnSum(b, base, col + m, k, n)
    decreases n
  {
    if n > 0 {
      ColumnSumSplits(b, base, col, k, m, n - 1);
    }
  }

  /** `mean` falls short of the mean of p samples with the given sum by at most s halves. */
  ghost predicate ShortBy(p: nat, s: nat, sum: nat, mean: nat)
  {
    0 <= 2 * (sum - p * mean) <= s * p
  }

  /** Each of the s roundings is downwards and loses at most one half. */
  lemma {:induction false} RoundingBounded(b: seq<Sample>, base: nat, col: nat, k: nat, s: nat)
    requires k < 3 && base + 3 * (col + Pow2(s)) <= |b|
    ensures ShortBy(Pow2(s), s, ColumnSum(b, base, col, k, Pow2(s)), NestedMean(b, base, col, k, s))
    decreases s
  {
    hide *;
    if s == 0 {
      NothingLost(b, base, col, k);
    } else {
      Pow2Doubles(s);
      NestedMeanStep(b, base, col, k, s);
      RoundingBounded(b, base, col, k, s - 1);
      RoundingBounded(b, base, col + Pow2(s - 1), k, s - 1);
      ColumnSumSplits(b, base, col, k, Pow2(s - 1), Pow2(s - 1));
      OneMeanShort(Pow2(s - 1), s, NestedMean(b, base, col, k, s - 1), NestedMean(b, base, col + Pow2(s - 1), k, s - 1),
                   ColumnSum(b, base, col, k, Pow2(s - 1)), ColumnSum(b, base, col + Pow2(s - 1), k, Pow2(s - 1)));
    }
  }

  lemma NothingLost(b: seq<Sample>, base: nat, col: nat, k: nat)
    requires k < 3 && base + 3 * (col + Pow2(0)) <= |b|
    ensures ShortBy(Pow2(0), 0, ColumnSum(b, base, col, k, Pow2(0)), NestedMean(b, base, col, k, 0))
  {
    assert ColumnSum(b, base, col, k, 1) == ColumnSum(b, base, col, k, 0) + b[base + 3 * col + k];
  }

  lemma Pow2Doubles(s: nat)
    requires s > 0
    ensures Pow2(s) == 2 * Pow2(s - 1)
  {
  }

  lemma OneMeanShort(p: nat, s: nat, x: Sample, y: Sample, sumX: nat, sumY: nat)
    requires s > 0 && ShortBy(p, s - 1, sumX, x) && ShortBy(p, s - 1, sumY, y)
    ensures ShortBy(2 * p, s, sumX + sumY, Mean(x, y))
  {
    ProductsOfSum(p, x, y, Mean(x, y));
    BoundGrows(p, s);
    hide Mean;
  }

  lemma ProductsOfSum(p: nat, x: nat, y: nat, m: nat)
    requires x + y == 2 * m || x + y == 2 * m + 1
    ensures (2 * p) * m <= p * x + p * y <= (2 * p) * m + p
  {
    assert p * x + p * y == p * (x + y);
    assert p * (2 * m) == (2 * p) * m;
    assert p * (2 * m + 1) == p * (2 * m) + p;
  }

  lemma BoundGrows(p: nat, s: nat)
    requires s > 0
    ensures s * (2 * p) == 2 * ((s - 1) * p) + 2 * p
  {
    Twice(s, p);
    NextLine(s - 1, p);
  }

  /** The result lies between the least and the greatest of the samples it is made from. */
  lemma {:induction false} NestedMeanBetween(b: seq<Sample>, base: nat, col: nat, k: nat, s: nat, lo: Sample,
      hi: Sample)
    requires k < 3 && base + 3 * (col + Pow2(s)) <= |b|
    requires forall c :: col <= c < col + Pow2(s) ==> lo <= b[base + 3 * c + k] <= hi
    ensures lo <= NestedMean(b, base, col, k, s) <= hi
    decreases s
  {
    if s > 0 {
      NestedMeanStep(b, base, col, k, s);
      NestedMeanBetween(b, base, col, k, s - 1, lo, hi);
      NestedMeanBetween(b, base, col + Pow2(s - 1), k, s - 1, lo, hi);
    }
  }

  // ---- the sizes announced for the scaled images ----

  /** Size of image number img for a camera of fw x fh; 640 x 480 stands in for an unset size. */
  method ImgWh(img: int, fw: int, fh: int) returns (status: int, wo: nat, ho: nat)
    ensures 0 <= img < JC_MAX_IMAGES ==>
              && status == JC_OK
              && wo == HalvedTimes(if fw > 0 then fw else 640, img)
              && ho == HalvedTimes(if fh > 0 then fh else 480, img)
    ensures !(0 <= img < JC_MAX_IMAGES) ==> status == JC_ERR && wo == ho == 0
  {
    wo, ho := 0, 0;
    var w: nat := if fw > 0 then fw else 640;
    var h: nat := if fh > 0 then fh else 480;
    ghost var w0, h0 := w, h;
    for i := 0 to JC_MAX_IMAGES
      invariant !(0 <= img < i)
      invariant w == HalvedTimes(w0, i) && h == HalvedTimes(h0, i)
    {
      if i == img {
        wo := w;
        ho := h;
        return JC_OK, wo, ho;
      }
      w := w / 2;
      h := h / 2;
    }
    status := JC_ERR;
  }

  // ---- flipping ----

  function Replaced(b: seq<Sample>, to: nat, line: seq<Sample>): (r: seq<Sample>)
    requires to + |line| <= |b|
    ensures |r| == |b|
  {
    b[..to] + line + b[to + |line|..]
  }

  /** ImageFlipV with n lines still to copy: they start at `from`, and buf is filled from `to` on. */
  ghost predicate Flipping(buf: seq<Sample>, img: seq<Sample>, line: nat, from: nat, to: nat, n: nat,
      flipped: seq<Sample>)
  {
    && |buf| == |img| && from + to == |img| && to == n * line
    && Room(n, line, |img| - from)
    && FlippedLines(img[from..], line, n) + buf[to..] == flipped
  }

  lemma FlippingStart(buf: seq<Sample>, img: seq<Sample>, line: nat, n: nat)
    requires |buf| == |img| == n * line && Room(n, line, |img|)
    ensures Flipping(buf, img, line, 0, n * line, n, FlippedLines(img, line, n))
  {
    assert img[0..] == img && buf[n * line..] == [];
  }

  lemma FlippingNext(buf: seq<Sample>, img: seq<Sample>, line: nat, from: nat, to: nat, n: nat, flipped: seq<Sample>)
    requires n > 0 && Flipping(buf, img, line, from, to, n, flipped)
    ensures |buf| == |img| && line <= to <= |buf| && from + line <= |img| && to - line == (n - 1) * line
    ensures Flipping(Replaced(buf, to - line, img[from..from + line]), img, line, from + line, to - line, n - 1,
            flipped)
  {
    FlippedNext(img, line, from, n);
    NextLine(n - 1, line);
    Regroup(FlippedLines(img[from + line..], line, n - 1), img[from..from + line], buf[to..]);
    hide FlippedLines;
    assert Replaced(buf, to - line, img[from..from + line])[to - line..] == img[from..from + line] + buf[to..];
  }

  lemma FlippingEnd(buf: seq<Sample>, img: seq<Sample>, line: nat, from: nat, to: nat, flipped: seq<Sample>)
    requires Flipping(buf, img, line, from, to, 0, flipped)
    ensures buf == flipped
  {
    assert FlippedLines(img[from..], line, 0) == [];
    assert buf[0..] == buf;
  }

  lemma AllReplaced(a: seq<Sample>, b: seq<Sample>)
    requires |a| == |b|
    ensures Replaced(a, 0, b[0..|a|]) == b
  {
  }

  /** Line after line into a second buffer in reverse order, and all of it back. */
  lemma AreaHasRoom(width: nat, height: nat)
    ensures Room(height, 3 * width, Area(width, height)) && Area(width, height) == height * (3 * width)
  {
    RoomIsArea(height, 3 * width, Area(width, height));
  }

  method ImageFlipV(imga: array<Sample>, width: nat, height: nat)
    requires Area(width, height) == imga.Length
    modifies imga
    ensures Room(height, 3 * width, imga.Length)
    ensures imga[..] == FlippedLines(old(imga[..]), 3 * width, height)
  {
    AreaHasRoom(width, height);
    hide *;
    ghost var before := imga[..];
    ghost var flipped := FlippedLines(before, 3 * width, height);
    var buf := new Sample[Area(width, height)];
    FlippingStart(buf[..], before, 3 * width, height);
    var d := height;
    var from: nat, to: nat := 0, Area(width, height);
    while d > 0
      invariant imga[..] == before
      invariant Flipping(buf[..], before, 3 * width, from, to, d, flipped)
    {
      FlippingNext(buf[..], before, 3 * width, from, to, d, flipped);
      to := to - 3 * width;
      CopyLine(buf, to, imga, from, 3 * width);
      from := from + 3 * width;
      d := d - 1;
    }
    FlippingEnd(buf[..], before, 3 * width, from, to, flipped);
    CopyLine(imga, 0, buf, 0, imga.Length);
    AllReplaced(before, buf[..]);
  }

  /** memcpy of one line. */
  method CopyLine(dst: array<Sample>, to: nat, src: array<Sample>, from: nat, n: nat)
    requires dst != src && to + n <= dst.Length && from + n <= src.Length
    modifies dst
    ensures dst[..] == Replaced(old(dst[..]), to, src[..][from..from + n])
  {
    forall i | 0 <= i < n {
      dst[to + i] := src[from + i];
    }
  }

  lemma FlippedNext(img: seq<Sample>, line: nat, from: nat, n: nat)
    requires n > 0 && from <= |img| && Room(n, line, |img| - from)
    ensures from + line <= |img| && Room(n - 1, line, |img| - (from + line))
    ensures FlippedLines(img[from..], line, n) == FlippedLines(img[from + line..], line, n - 1) + img[from..from + line]
  {
    assert img[from..][line..] == img[from + line..];
    assert img[from..][..line] == img[from..from + line];
  }

  lemma {:induction false} FlippedLength(img: seq<Sample>, line: nat, n: nat)
    requires Room(n, line, |img|)
    ensures |FlippedLines(img, line, n)| == n * line <= |img|
    decreases n
  {
    if n > 0 {
      FlippedLength(img[line..], line, n - 1);
      NextLine(n - 1, line);
    }
  }

  lemma {:induction false} FlippedAt(img: seq<Sample>, line: nat, n: nat, r: nat, x: nat)
    requires Room(n, line, |img|) && r < n && x < line
    ensures Start(r, line) + x < |FlippedLines(img, line, n)| && Start(n - 1 - r, line) + x < |img|
    ensures FlippedLines(img, line, n)[Start(r, line) + x] == img[Start(n - 1 - r, line) + x]
    decreases n
  {
    var rest := FlippedLines(img[line..], line, n - 1);
    assert FlippedLines(img, line, n) == rest + img[..line];
    FlippedLength(img[line..], line, n - 1);
    assert |rest| == Start(n - 1, line);
    hide Start, FlippedLines;
    StartSteps(0, line);
    if r < n - 1 {
      FlippedAt(img[line..], line, n - 1, r, x);
      StartSteps(n - 2 - r, line);
    }
  }

  lemma SameLines(a: seq<Sample>, b: seq<Sample>, line: nat, n: nat)
    requires |a| == |b| == n * line
    requires forall r, x :: 0 <= r < n && 0 <= x < line ==> SameAt(a, b, r, x, line)
    ensures a == b
  {
    forall p | 0 <= p < |a| ensures a[p] == b[p] {
      PlaceInLine(p, line, n);
      assert SameAt(a, b, p / line, p % line, line);
    }
  }

  ghost predicate SameAt(a: seq<Sample>, b: seq<Sample>, r: nat, x: nat, line: nat)
  {
    var p := Start(r, line) + x;
    p < |a| && p < |b| && a[p] == b[p]
  }

  lemma PlaceInLine(p: nat, line: nat, n: nat)
    requires p < n * line
    ensures line > 0 && p / line < n && p == Start(p / line, line) + p % line
  {
    if line > 0 && n <= p / line {
      NoFewerLines(n, p / line, line);
    }
  }

  lemma LinesFit(img: seq<Sample>, line: nat, n: nat, m: nat, second: bool)
    requires |img| == n * line && 2 * m <= n
    ensures Room(n, line, |img|) && |FlippedLines(img, line, n)| == |img|
    ensures Room(m, 2 * line, |img|) && |KeptLines(img, line, m, second)| == m * line
  {
    hide FlippedLines, KeptLines;
    RoomIsArea(n, line, |img|);
    FlippedLength(img, line, n);
    PairsOfLines(m, n, line);
    RoomIsArea(m, 2 * line, |img|);
    KeptLength(img, line, m, second);
  }

  lemma PairsOfLines(m: nat, n: nat, line: nat)
    requires 2 * m <= n
    ensures m * (2 * line) <= n * line
  {
    assert m * (2 * line) == (2 * m) * line;
    assert n * line == (2 * m) * line + (n - 2 * m) * line;
  }

  /** Flipping twice changes nothing. */
  lemma FlipTwice(img: seq<Sample>, line: nat, n: nat)
    requires |img| == n * line
    ensures Room(n, line, |img|) && |FlippedLines(img, line, n)| == |img|
    ensures FlippedLines(FlippedLines(img, line, n), line, n) == img
  {
    LinesFit(img, line, n, 0, true);
    var flipped := FlippedLines(img, line, n);
    LinesFit(flipped, line, n, 0, true);
    hide FlippedLines, Room, SameAt;
    forall r, x | 0 <= r < n && 0 <= x < line
      ensures SameAt(FlippedLines(flipped, line, n), img, r, x, line)
    {
      FlipTwiceAt(img, line, n, r, x);
    }
    SameLines(FlippedLines(flipped, line, n), img, line, n);
  }

  lemma FlipTwiceAt(img: seq<Sample>, line: nat, n: nat, r: nat, x: nat)
    requires r < n && x < line && Room(n, line, |img|) && Room(n, line, |FlippedLines(img, line, n)|)
    ensures SameAt(FlippedLines(FlippedLines(img, line, n), line, n), img, r, x, line)
  {
    hide FlippedLines, Room, Start;
    FlippedAt(FlippedLines(img, line, n), line, n, r, x);
    FlippedAt(img, line, n, n - 1 - r, x);
  }

  /** Flipping, then keeping one of each pair of lines, is keeping and then flipping: with an even number
      of lines the other of each pair has to be kept, with an odd number the second both times. */
  lemma FlipThenKeep(img: seq<Sample>, line: nat, n: nat)
    requires |img| == n * line
    ensures Room(n, line, |img|) && Room(n / 2, 2 * line, |img|)
    ensures var m := n / 2;
            var flipped, kept := FlippedLines(img, line, n), KeptLines(img, line, m, true);
            && Room(m, 2 * line, |flipped|) && Room(m, line, |kept|)
            && KeptLines(flipped, line, m, n % 2 == 1) == FlippedLines(kept, line, m)
  {
    var m, second := n / 2, n % 2 == 1;
    LinesFit(img, line, n, m, true);
    var flipped, kept := FlippedLines(img, line, n), KeptLines(img, line, m, true);
    LinesFit(flipped, line, n, m, second);
    LinesFit(kept, line, m, 0, true);
    hide FlippedLines, KeptLines;
    forall r, x | 0 <= r < m && 0 <= x < line
      ensures SameAt(KeptLines(flipped, line, m, second), FlippedLines(kept, line, m), r, x, line)
    {
      FlipThenKeepAt(img, line, n, r, x);
    }
    SameLines(KeptLines(flipped, line, m, second), FlippedLines(kept, line, m), line, m);
  }

  lemma FlipThenKeepAt(img: seq<Sample>, line: nat, n: nat, r: nat, x: nat)
    requires |img| == n * line && r < n / 2 && x < line
    requires Room(n, line, |img|) && Room(n / 2, 2 * line, |img|)
    requires Room(n / 2, 2 * line, |FlippedLines(img, line, n)|) &&
             Room(n / 2, line, |KeptLines(img, line, n / 2, true)|)
    ensures SameAt(KeptLines(FlippedLines(img, line, n), line, n / 2, n % 2 == 1),
                   FlippedLines(KeptLines(img, line, n / 2, true), line, n / 2), r, x, line)
  {
    hide FlippedLines, KeptLines, Room, Start;
    var m, second := n / 2, n % 2 == 1;
    KeptAt(FlippedLines(img, line, n), line, m, second, r, x);
    FlippedAt(img, line, n, SourceLine(second, r), x);
    FlippedAt(KeptLines(img, line, m, true), line, m, r, x);
    KeptAt(img, line, m, true, m - 1 - r, x);
  }
}