/** Drawing run-length encoded bitmaps on an 8-bit surface. */
module RleBlit {
  import opened MachineInts
  import opened RleClipping

  type i16 = x: int | -0x8000 <= x < 0x8000
  datatype Pixel = Clear | Opaque(value: u8)

  // ----- the simple painter -----

  /** The byte of pixel k in the pixel buffer. */
  function Place(v: View, k: nat): nat
    requires Visible(v, k)
  {
    MulNonNegative(Y(v, k), v.pitch);
    Y(v, k) * v.pitch + X(v, k)
  }

  lemma MulNonNegative(a: nat, b: nat)
    ensures a * b >= 0
  {
  }

  /** Whether the first m pixels of the image put something at pixel k. */
  predicate Plots(v: View, image: seq<Pixel>, k: nat)
  {
    k < |image| && image[k].Opaque? && Visible(v, k)
  }

  /** The buffer after the pixels of the image before m are looked at one by one: each opaque one
      that falls on the surface is stored there. */
  function Plot(px: seq<u8>, v: View, image: seq<Pixel>, paint: u8 -> u8, m: nat): (r: seq<u8>)
    ensures |r| == |px|
  {
    if m == 0 then px
    else
      var r := Plot(px, v, image, paint, m - 1);
      if Plots(v, image, m - 1) && Place(v, m - 1) < |px| then r[Place(v, m - 1) := paint(image[m - 1].value)] else r
  }

  /** Pixels of the image that put nothing on the surface can be skipped. */
  lemma {:induction false} PlotSkips(px: seq<u8>, v: View, image: seq<Pixel>, paint: u8 -> u8, m: nat, n: nat)
    requires m <= n && forall k :: m <= k < n ==> !Plots(v, image, k)
    ensures Plot(px, v, image, paint, n) == Plot(px, v, image, paint, m)
    decreases n
  {
    if m < n {
      PlotSkips(px, v, image, paint, m, n - 1);
    }
  }

  lemma PlacesDiffer(v: View, k: nat, l: nat)
    requires Visible(v, k) && Visible(v, l) && k != l && v.w <= v.pitch
    ensures Place(v, k) != Place(v, l)
  {
    var p: pos := v.pitch;
    DivisionIs(Place(v, k), p, Y(v, k), X(v, k));
    DivisionIs(Place(v, l), p, Y(v, l), X(v, l));
    assert k == v.width * (k / v.width) + k % v.width;
    assert l == v.width * (l / v.width) + l % v.width;
  }

  lemma PlaceInBuffer(v: View, k: nat)
    requires Visible(v, k) && v.w <= v.pitch
    ensures Place(v, k) < v.h * v.pitch
  {
    MulMonotone(Y(v, k) + 1, v.h, v.pitch);
    MulDistributes(Y(v, k), 1, v.pitch);
  }

  /** The simple painter stores exactly the opaque pixels that fall on the surface, each at its own
      place, and leaves every other byte alone. */
  lemma {:induction false} PlotIsExact(px: seq<u8>, v: View, image: seq<Pixel>, paint: u8 -> u8, m: nat)
    requires v.w <= v.pitch && |px| == v.h * v.pitch
    ensures forall k :: 0 <= k < m && Plots(v, image, k) ==>
              Place(v, k) < |px| && Plot(px, v, image, paint, m)[Place(v, k)] == paint(image[k].value)
    ensures forall n :: 0 <= n < |px| && (forall k :: 0 <= k < m && Plots(v, image, k) ==> Place(v, k) != n) ==>
              Plot(px, v, image, paint, m)[n] == px[n]
    decreases m
  {
    hide Visible, Place;
    if m > 0 {
      PlotIsExact(px, v, image, paint, m - 1);
      if Plots(v, image, m - 1) {
        PlaceInBuffer(v, m - 1);
        forall k | 0 <= k < m - 1 && Plots(v, image, k)
          ensures Place(v, k) != Place(v, m - 1)
        {
          PlacesDiffer(v, k, m - 1);
        }
      }
    }
  }

  // ----- the stream -----

  /** A code above 0x80 and not past the width is a run of clear pixels. */
  predicate IsClearRun(code: u8, width: nat)
  {
    0x80 <= code as int <= 0x80 + width
  }

  lemma ClearRunCodes(code: u8, width: nat)
    ensures IsClearRun(code, width) <==> code >= 0x80 && code as int <= 0x80 + width
  {
  }

  /** From pixel i on, the stream at position p is a whole number of runs up to the end of the bitmap. */
  predicate WellFormed(data: seq<u8>, p: nat, i: nat, width: nat, len: nat)
    decreases |data| - p
  {
    i >= len ||
    (p < |data| &&
     if IsClearRun(data[p], width) then WellFormed(data, p + 1, i + data[p] as int - 0x80, width, len)
     else
       var n := data[p] as int;
       p + 1 + n <= |data| && i + n <= len && WellFormed(data, p + 1 + n, i + n, width, len))
  }

  /** No run of opaque pixels crosses the end of a row. */
  predicate RunsStayInRows(data: seq<u8>, p: nat, i: nat, width: nat, len: nat)
    requires WellFormed(data, p, i, width, len)
    decreases |data| - p
  {
    i >= len ||
    if IsClearRun(data[p], width) then RunsStayInRows(data, p + 1, i + data[p] as int - 0x80, width, len)
    else
      var n := data[p] as int;
      (width > 0 ==> i % width + n <= width) && RunsStayInRows(data, p + 1 + n, i + n, width, len)
  }

  function Clears(n: nat): seq<Pixel>
  {
    seq(n, _ => Clear)
  }

  function Opaques(bytes: seq<u8>): seq<Pixel>
  {
    seq(|bytes|, i requires 0 <= i < |bytes| => Opaque(bytes[i]))
  }

  /** The pixels a stream stands for, from pixel i on. */
  function Decoded(data: seq<u8>, p: nat, i: nat, width: nat, len: nat): (image: seq<Pixel>)
    requires WellFormed(data, p, i, width, len)
    ensures |image| == if i < len then len - i else 0
    decreases |data| - p
  {
    if i >= len then []
    else if IsClearRun(data[p], width) then
      var n := data[p] as int - 0x80;
      Clears(Min(n, len - i)) + Decoded(data, p + 1, i + n, width, len)
    else
      var n := data[p] as int;
      Opaques(data[p + 1..p + 1 + n]) + Decoded(data, p + 1 + n, i + n, width, len)
  }

  /** Files may put the bytes 02 00 00 00 before a bitmap. */
  function Header(bitmap: seq<u8>): nat
  {
    if bitmap[..Min(4, |bitmap|)] == [2, 0, 0, 0] then 4 else 0
  }

  /** Two sizes of 16 bits, low byte first. */
  predicate HasSizes(bitmap: seq<u8>) { |bitmap| >= Header(bitmap) + 4 }

  function Width(bitmap: seq<u8>): u16
    requires HasSizes(bitmap)
  {
    bitmap[Header(bitmap)] as int + 0x100 * bitmap[Header(bitmap) + 1] as int
  }

  function Height(bitmap: seq<u8>): u16
    requires HasSizes(bitmap)
  {
    bitmap[Header(bitmap) + 2] as int + 0x100 * bitmap[Header(bitmap) + 3] as int
  }

  function Area(bitmap: seq<u8>): (len: u32)
    requires HasSizes(bitmap)
    ensures len < 0x1_0000_0000 - 0x1_0000
  {
    AreaFits(Width(bitmap), Height(bitmap));
    Width(bitmap) as int * Height(bitmap) as int
  }

  lemma AreaFits(width: u16, height: u16)
    ensures 0 <= width as int * height as int < 0x1_0000_0000 - 0x1_0000
  {
    MulMonotone(width, 0xffff, height);
  }

  /** The sizes byte by byte, with and without the four bytes in front. */
  lemma SizesByBytes(bitmap: seq<u8>)
    requires |bitmap| >= 4
    ensures var h := if bitmap[0] == 2 && bitmap[1] == bitmap[2] == bitmap[3] == 0 then 4 else 0;
            && (HasSizes(bitmap) <==> |bitmap| >= h + 4)
            && (|bitmap| >= h + 4 ==>
                  && Header(bitmap) == h
                  && Width(bitmap) == bitmap[h] as int + 256 * bitmap[h + 1] as int
                  && Height(bitmap) == bitmap[h + 2] as int + 256 * bitmap[h + 3] as int
                  && Area(bitmap) as int == (bitmap[h] as int + 256 * bitmap[h + 1] as int)
                                            * (bitmap[h + 2] as int + 256 * bitmap[h + 3] as int))
  {
    var first := bitmap[..4];
    assert first[0] == bitmap[0] && first[1] == bitmap[1] && first[2] == bitmap[2] && first[3] == bitmap[3];
  }

  predicate WellFormedBitmap(bitmap: seq<u8>)
  {
    HasSizes(bitmap) && WellFormed(bitmap, Header(bitmap) + 4, 0, Width(bitmap), Area(bitmap))
  }

  function Image(bitmap: seq<u8>): (image: seq<Pixel>)
    requires WellFormedBitmap(bitmap)
    ensures |image| == Area(bitmap) as int
  {
    Decoded(bitmap, Header(bitmap) + 4, 0, Width(bitmap), Area(bitmap))
  }

  /** The branches of the inner loop at pixel k, in column x and row y of the surface. */
  lemma Branches(v: View, k: nat, x: int, y: int)
    requires 0 < v.width < 0x1_0000 && -0x8000 <= v.dx < 0x8000 && -0x8000 <= v.dy < 0x8000 && v.w <= v.pitch
    requires x == k % v.width + v.dx && y == k / v.width + v.dy
    ensures Beside(v, k) <==> x < 0 || x >= v.w || y < 0
    ensures Visible(v, k) <==> 0 <= x < v.w && 0 <= y < v.h
    ensures Visible(v, k) ==> Place(v, k) == y * v.pitch + x < v.h * v.pitch
    ensures Beside(v, k) ==>
              && Skip(v, k) == (if x < 0 then -x else if x >= v.w then x - v.w + 1 else -y * v.width)
              && 0 < Skip(v, k) <= 0x8000_0000
  {
    if Visible(v, k) {
      PlaceInBuffer(v, k);
    }
    if Beside(v, k) {
      if 0 <= x < v.w {
        MulMonotone(-y, 0x8000, v.width);
      }
    }
  }

  lemma PlotStep(px: seq<u8>, v: View, image: seq<Pixel>, paint: u8 -> u8, k: nat)
    requires k < |image| && image[k].Opaque? && Visible(v, k) && Place(v, k) < |px|
    ensures Plot(px, v, image, paint, k + 1) == Plot(px, v, image, paint, k)[Place(v, k) := paint(image[k].value)]
  {
  }

  lemma StartOfPlot(px: seq<u8>, v: View, image: seq<Pixel>, paint: u8 -> u8)
    ensures Plot(px, v, image, paint, 0) == px
  {
  }

  lemma NothingBelow(px: seq<u8>, v: View, image: seq<Pixel>, paint: u8 -> u8, k: nat)
    requires v.width > 0 && k <= |image| && !Beside(v, k) && !Visible(v, k)
    ensures Plot(px, v, image, paint, |image|) == Plot(px, v, image, paint, k)
  {
    hide Plot;
    forall l | k <= l < |image|
      ensures !Plots(v, image, l)
    {
      BelowStaysBelow(v, k, l);
    }
    PlotSkips(px, v, image, paint, k, |image|);
  }

  // ----- what the jumps leave out -----

  /** Pixel k, in the stream that goes on at position p with pixel i, belongs to a run of opaque
      pixels and is never reached in it. */
  predicate JumpedOver(data: seq<u8>, p: nat, i: nat, v: View, len: nat, k: nat)
    requires WellFormed(data, p, i, v.width, len)
    decreases |data| - p
  {
    i < len &&
    if IsClearRun(data[p], v.width) then JumpedOver(data, p + 1, i + data[p] as int - 0x80, v, len, k)
    else
      var n := i + data[p] as int;
      if k < n then i <= k && !Reached(v, i, n, k) else JumpedOver(data, p + 1 + data[p] as int, n, v, len, k)
  }

  /** Some run of the stream loses a visible pixel, by its place and length. */
  predicate StreamLoses(data: seq<u8>, p: nat, i: nat, v: View, len: nat)
    requires WellFormed(data, p, i, v.width, len) && (i < len ==> v.width > 0)
    decreases |data| - p
  {
    i < len &&
    if IsClearRun(data[p], v.width) then StreamLoses(data, p + 1, i + data[p] as int - 0x80, v, len)
    else
      var n := i + data[p] as int;
      RunLoses(v, Row(v, i), Col(v, i), n) || StreamLoses(data, p + 1 + data[p] as int, n, v, len)
  }

  /** The image with the pixels that are jumped over made clear. */
  function Shown(bitmap: seq<u8>, v: View): (image: seq<Pixel>)
    requires WellFormedBitmap(bitmap) && v.width == Width(bitmap)
    ensures |image| == Area(bitmap) as int
  {
    seq(Area(bitmap), k requires 0 <= k < Area(bitmap) =>
      if JumpedOver(bitmap, Header(bitmap) + 4, 0, v, Area(bitmap), k) then Clear else Image(bitmap)[k])
  }

  predicate Loses(bitmap: seq<u8>, v: View)
    requires WellFormedBitmap(bitmap) && v.width == Width(bitmap)
  {
    v.width > 0 && StreamLoses(bitmap, Header(bitmap) + 4, 0, v, Area(bitmap))
  }

  predicate VisibleJumpedOver(data: seq<u8>, p: nat, i: nat, v: View, len: nat)
    requires WellFormed(data, p, i, v.width, len)
  {
    exists k :: i <= k < len && Visible(v, k) && JumpedOver(data, p, i, v, len, k)
  }

  lemma {:induction false} StreamLosesIff(data: seq<u8>, p: nat, i: nat, v: View, len: nat)
    requires v.width > 0 && WellFormed(data, p, i, v.width, len)
    ensures VisibleJumpedOver(data, p, i, v, len) <==> StreamLoses(data, p, i, v, len)
    decreases |data| - p
  {
    hide RunLoses, Visible, Reached, WellFormed;
    if i < len {
      NextPosition(data, p, i, v.width, len);
      if IsClearRun(data[p], v.width) {
        StreamLosesIff(data, p + 1, i + data[p] as int - 0x80, v, len);
        JumpedInRest(data, p, i, v, len);
      } else {
        var n := i + data[p] as int;
        RunLosesIff(v, i, n);
        StreamLosesIff(data, p + 1 + data[p] as int, n, v, len);
        JumpedInRunOrRest(data, p, i, v, len);
      }
    }
  }

  lemma NextPosition(data: seq<u8>, p: nat, i: nat, width: nat, len: nat)
    requires WellFormed(data, p, i, width, len) && i < len
    ensures p < |data|
    ensures if IsClearRun(data[p], width) then WellFormed(data, p + 1, i + data[p] as int - 0x80, width, len)
            else p + 1 + data[p] as int <= |data| && i + data[p] as int <= len
                 && WellFormed(data, p + 1 + data[p] as int, i + data[p] as int, width, len)
  {
  }

  lemma JumpedInRest(data: seq<u8>, p: nat, i: nat, v: View, len: nat)
    requires WellFormed(data, p, i, v.width, len) && i < len && IsClearRun(data[p], v.width)
    ensures VisibleJumpedOver(data, p, i, v, len) <==> VisibleJumpedOver(data, p + 1, i + data[p] as int - 0x80, v, len)
  {
    hide Visible, Reached;
    var n := i + data[p] as int - 0x80;
    AllJumpedLater(data, p + 1, n, v, len);
    forall k: nat
      ensures JumpedOver(data, p, i, v, len, k) <==> JumpedOver(data, p + 1, n, v, len, k)
    {
    }
    hide JumpedOver;
  }

  lemma JumpedInRunOrRest(data: seq<u8>, p: nat, i: nat, v: View, len: nat)
    requires WellFormed(data, p, i, v.width, len) && i < len && !IsClearRun(data[p], v.width)
    ensures var n := i + data[p] as int;
            VisibleJumpedOver(data, p, i, v, len) <==>
              SomeLost(v, i, n) || VisibleJumpedOver(data, p + 1 + data[p] as int, n, v, len)
  {
    hide Visible, Reached;
    var q, n := p + 1 + data[p] as int, i + data[p] as int;
    forall k: nat
      ensures JumpedOver(data, p, i, v, len, k) <==>
                if k < n then i <= k && !Reached(v, i, n, k) else JumpedOver(data, q, n, v, len, k)
    {
    }
    hide JumpedOver, WellFormed;
    if SomeLost(v, i, n) {
      var l :| i <= l < n && Visible(v, l) && !Reached(v, i, n, l);
      assert JumpedOver(data, p, i, v, len, l);
    }
    if VisibleJumpedOver(data, q, n, v, len) {
      var k :| n <= k < len && Visible(v, k) && JumpedOver(data, q, n, v, len, k);
      assert JumpedOver(data, p, i, v, len, k);
    }
  }

  lemma AllJumpedLater(data: seq<u8>, p: nat, i: nat, v: View, len: nat)
    requires WellFormed(data, p, i, v.width, len)
    ensures forall k: nat :: JumpedOver(data, p, i, v, len, k) ==> i <= k
  {
    forall k: nat | JumpedOver(data, p, i, v, len, k)
      ensures i <= k
    {
      JumpedLater(data, p, i, v, len, k);
    }
  }

  lemma {:induction false} JumpedLater(data: seq<u8>, p: nat, i: nat, v: View, len: nat, k: nat)
    requires WellFormed(data, p, i, v.width, len) && JumpedOver(data, p, i, v, len, k)
    ensures i < len && if IsClearRun(data[p], v.width) then i + data[p] as int - 0x80 <= k else i <= k
    decreases |data| - p
  {
    hide Reached;
    if IsClearRun(data[p], v.width) {
      JumpedLater(data, p + 1, i + data[p] as int - 0x80, v, len, k);
    }
  }

  /** The stream from position p on holds the rest of the image that is shown, from pixel i on. */
  predicate Remaining(data: seq<u8>, p: nat, i: nat, v: View, image: seq<Pixel>)
  {
    && WellFormed(data, p, i, v.width, |image|)
    && forall k :: i <= k < |image| ==>
         image[k] == if JumpedOver(data, p, i, v, |image|, k) then Clear
                     else Decoded(data, p, i, v.width, |image|)[k - i]
  }

  lemma StartOfImage(bitmap: seq<u8>, v: View)
    requires WellFormedBitmap(bitmap) && v.width == Width(bitmap)
    ensures Remaining(bitmap, Header(bitmap) + 4, 0, v, Shown(bitmap, v))
  {
  }

  /** A run of clear pixels, which may go on past the end of the bitmap. */
  lemma ClearRun(data: seq<u8>, p: nat, i: nat, v: View, image: seq<Pixel>, px: seq<u8>, paint: u8 -> u8)
    requires Remaining(data, p, i, v, image) && i < |image|
    ensures p < |data|
    ensures IsClearRun(data[p], v.width) ==>
              var n := i + data[p] as int - 0x80;
              && Remaining(data, p + 1, n, v, image)
              && Plot(px, v, image, paint, Min(n, |image|)) == Plot(px, v, image, paint, i)
  {
    hide Plot, Reached, Visible;
    if IsClearRun(data[p], v.width) {
      var n := i + data[p] as int - 0x80;
      var m := Min(n, |image|);
      var rest := Decoded(data, p + 1, n, v.width, |image|);
      assert Decoded(data, p, i, v.width, |image|) == Clears(m - i) + rest;
      forall k | i <= k < m
        ensures !Plots(v, image, k)
      {
        assert (Clears(m - i) + rest)[k - i] == Clear;
      }
      PlotSkips(px, v, image, paint, i, m);
    }
  }

  lemma OpaqueRun(data: seq<u8>, p: nat, i: nat, v: View, image: seq<Pixel>)
    requires Remaining(data, p, i, v, image) && i < |image| && p < |data| && !IsClearRun(data[p], v.width)
    ensures var n := data[p] as int;
            && p + 1 + n <= |data| && i + n <= |image| && Remaining(data, p + 1 + n, i + n, v, image)
            && ShowsRun(v, image, i, data[p + 1..p + 1 + n])
  {
    hide Reached;
    var n := data[p] as int;
    var run, rest := data[p + 1..p + 1 + n], Decoded(data, p + 1 + n, i + n, v.width, |image|);
    assert Decoded(data, p, i, v.width, |image|) == Opaques(run) + rest;
  }

  /** The image shows the run that begins at pixel i as far as it is reached. */
  predicate ShowsRun(v: View, image: seq<Pixel>, i: nat, run: seq<u8>)
  {
    && i + |run| <= |image|
    && forall k :: i <= k < i + |run| ==> image[k] == if Reached(v, i, i + |run|, k) then Opaque(run[k - i]) else Clear
  }

  /** From pixel k on the loop comes to the same pixels as from the start of the run. */
  predicate OnTheWay(v: View, i: nat, e: nat, k: nat)
  {
    forall l :: k <= l < e ==> (Reached(v, i, e, l) <==> Reached(v, k, e, l))
  }

  lemma StartOfRun(v: View, i: nat, e: nat)
    ensures OnTheWay(v, i, e, i)
  {
  }

  /** A jump passes over pixels that are not shown. */
  lemma Jump(px: seq<u8>, v: View, image: seq<Pixel>, paint: u8 -> u8, i: nat, run: seq<u8>, k: nat)
    requires v.width > 0 && ShowsRun(v, image, i, run) && i <= k < i + |run| && Beside(v, k)
    requires OnTheWay(v, i, i + |run|, k)
    ensures OnTheWay(v, i, i + |run|, k + Skip(v, k))
    ensures Plot(px, v, image, paint, Min(k + Skip(v, k), i + |run|)) == Plot(px, v, image, paint, k)
  {
    hide Skip, Plot;
    var e, n := i + |run|, k + Skip(v, k);
    assert !Visible(v, k);
    forall l | k < l < e
      ensures Reached(v, k, e, l) <==> Reached(v, n, e, l)
    {
    }
    forall l | k <= l < Min(n, e)
      ensures !Plots(v, image, l)
    {
      if l > k && Reached(v, n, e, l) {
        ReachedIsLater(v, n, e, l);
      }
    }
    PlotSkips(px, v, image, paint, k, Min(n, e));
  }

  lemma Step(px: seq<u8>, v: View, image: seq<Pixel>, paint: u8 -> u8, i: nat, run: seq<u8>, k: nat)
    requires v.width > 0 && ShowsRun(v, image, i, run) && i <= k < i + |run| && !Beside(v, k) && Visible(v, k)
    requires OnTheWay(v, i, i + |run|, k) && Place(v, k) < |px|
    ensures OnTheWay(v, i, i + |run|, k + 1)
    ensures Plot(px, v, image, paint, k + 1) == Plot(px, v, image, paint, k)[Place(v, k) := paint(run[k - i])]
  {
    var e := i + |run|;
    assert Reached(v, k, e, k);
    forall l | k < l < e
      ensures Reached(v, k, e, l) <==> Reached(v, k + 1, e, l)
    {
    }
    hide Plot;
    PlotStep(px, v, image, paint, k);
  }

  class Surface {
    const w: nat
    const h: nat
    const pitch: nat
    const pixels: array<u8>

    predicate Valid()
      reads this
    {
      w <= pitch && pixels.Length == h * pitch
    }

    function ViewOf(bitmap: seq<u8>, dx: i16, dy: i16): View
      requires HasSizes(bitmap)
    {
      View(Width(bitmap), dx, dy, w, h, pitch)
    }

    /** One run of opaque pixels; done when the rest of the bitmap is below the surface. */
    method DrawRun(v: View, i: u32, run: seq<u8>, paint: u8 -> u8, ghost px: seq<u8>, ghost image: seq<Pixel>)
      returns (done: bool)
      requires Valid() && v.w == w && v.h == h && v.pitch == pitch
      requires 0 < v.width < 0x1_0000 && |run| < 0x100 && |image| < 0x1_0000_0000 - 0x1_0000
      requires -0x8000 <= v.dx < 0x8000 && -0x8000 <= v.dy < 0x8000
      requires i as int + |run| <= |image| && ShowsRun(v, image, i, run)
      requires pixels[..] == Plot(px, v, image, paint, i)
      modifies pixels
      ensures pixels[..] == Plot(px, v, image, paint, if done then |image| else i as int + |run|)
    {
      hide Plot, Plots, Visible, Beside, Place, Skip, ShowsRun, OnTheWay;
      StartOfRun(v, i, i as int + |run|);
      var j: u32 := 0;
      while j < |run|
        invariant pixels[..] == Plot(px, v, image, paint, Min(i as int + j as int, i as int + |run|))
        invariant OnTheWay(v, i, i as int + |run|, i as int + j as int)
        decreases |run| - j
      {
        ghost var k := i as int + j as int;
        var y := (i as int + j as int) / v.width + v.dy;
        var x := (i as int + j as int) % v.width + v.dx;
        Branches(v, k, x, y);
        if Beside(v, k) {
          Jump(px, v, image, paint, i, run, k);
        }
        if x < 0 {
          j := j as int + (-x - 1);
        } else if x >= w {
          j := j as int + (x - w);
        } else if y < 0 {
          j := j as int + (-y * v.width - 1);
        } else if y >= h {
          NothingBelow(px, v, image, paint, k);
          return true;
        } else {
          Step(px, v, image, paint, i, run, k);
          pixels[y * pitch + x] := paint(run[j]);
        }
        j := j as int + 1;
      }
      done := false;
    }

    /** Skips the header of the file, if there is one, and reads the sizes. */
    static method ReadSizes(bitmap: seq<u8>) returns (p: nat, width: u16, len: u32)
      requires HasSizes(bitmap)
      ensures p == Header(bitmap) + 4 && width == Width(bitmap) && len == Area(bitmap)
    {
      p := 0;
      if bitmap[0] == 0x02 && bitmap[1] == 0x00 && bitmap[2] == 0x00 && bitmap[3] == 0x00 {
        p := 4;
      }
      assert p == Header(bitmap);
      width := bitmap[p] as int + 0x100 * bitmap[p + 1] as int;
      var height: u16 := bitmap[p + 2] as int + 0x100 * bitmap[p + 3] as int;
      AreaFits(width, height);
      len := width as int * height as int;
      p := p + 4;
    }

    /** The decoding loop of both blitters, which differ only in the byte stored for an opaque pixel. */
    method Blit(bitmap: seq<u8>, dx: i16, dy: i16, paint: u8 -> u8)
      requires Valid() && WellFormedBitmap(bitmap)
      modifies pixels
      ensures var v := View(Width(bitmap), dx, dy, w, h, pitch);
              pixels[..] == Plot(old(pixels[..]), v, Shown(bitmap, v), paint, Area(bitmap))
    {
      hide Plot, Decoded, WellFormed, Remaining, Shown, IsClearRun, ShowsRun;
      var v := ViewOf(bitmap, dx, dy);
      ghost var px, image := pixels[..], Shown(bitmap, v);
      StartOfImage(bitmap, v);
      StartOfPlot(px, v, image, paint);
      hide Header, Width, Height, Area, WellFormedBitmap;
      var p, width, len := ReadSizes(bitmap);
      var i: u32 := 0;
      while i < len
        invariant Remaining(bitmap, p, i, v, image) && i as int <= len as int + 0x80
        invariant pixels[..] == Plot(px, v, image, paint, Min(i, len))
        decreases |bitmap| - p
      {
        ClearRun(bitmap, p, i, v, image, px, paint);
        var code := bitmap[p];
        assert IsClearRun(code, width) <==> code >= 0x80 && code as int <= 0x80 + width as int by {
          ClearRunCodes(code, width);
        }
        if code >= 0x80 && code as int <= 0x80 + width as int {
          p := p + 1;
          i := i as int + code as int - 0x80;
        } else {
          OpaqueRun(bitmap, p, i, v, image);
          p := p + 1;
          var done := DrawRun(v, i, bitmap[p..p + code as int], paint, px, image);
          if done {
            return;
          }
          p := p + code as int;
          i := i as int + code as int;
        }
      }
    }
  }

  // ----- the two blitters -----

  datatype Bitmap = Null | Rle(bytes: seq<u8>)

  function Plain(): u8 -> u8 { b => b }

  /** A colour with its low four bits shifted, stopping at 0 and 15. */
  function Shifted(b: u8, shift: i32): u8
  {
    var low := b % 0x10;
    var moved := low as int + shift as int;
    b / 0x10 * 0x10 + if moved > 0x0f then 0x0f else if moved < 0 then 0 else moved
  }

  function Shift(shift: i32): u8 -> u8 { b => Shifted(b, shift) }

  /** The high four bits stay, and the low four move by the shift as far as 0 and 15. */
  lemma ShiftMeans(b: u8, shift: i32)
    ensures var c, low := Shift(shift)(b), b % 16 + shift;
            && c / 16 == b / 16
            && c % 16 == if low > 15 then 15 else if low < 0 then 0 else low
  {
  }

  /** The opaque pixels of the bitmap that fall on the surface, and nothing else, have been drawn. */
  ghost predicate IsDrawn(before: seq<u8>, after: seq<u8>, v: View, image: seq<Pixel>, paint: u8 -> u8)
  {
    && |after| == |before|
    && (forall k :: 0 <= k < |image| && Plots(v, image, k) ==>
          Place(v, k) < |after| && after[Place(v, k)] == paint(image[k].value))
    && (forall n :: 0 <= n < |after| && (forall k :: 0 <= k < |image| && Plots(v, image, k) ==> Place(v, k) != n) ==>
          after[n] == before[n])
  }

  /** Byte by byte: what is in column x and row y of the surface afterwards is the pixel of the bitmap
      that falls there, if there is one and it is opaque, and what was there before if not. */
  lemma DrawnMeans(before: seq<u8>, after: seq<u8>, v: View, image: seq<Pixel>, paint: u8 -> u8, x: nat, y: nat)
    requires IsDrawn(before, after, v, image, paint) && |before| == v.h * v.pitch
    requires v.width > 0 && v.w <= v.pitch && x < v.pitch && y < v.h
    ensures 0 <= y * v.pitch + x < |after|
    ensures var row, col, at := y - v.dy, x - v.dx, y * v.pitch + x;
            if x < v.w && row >= 0 && 0 <= col < v.width && 0 <= row * v.width + col < |image|
               && image[row * v.width + col].Opaque?
            then after[at] == paint(image[row * v.width + col].value)
            else after[at] == before[at]
  {
    var row, col, at := y - v.dy, x - v.dx, y * v.pitch + x;
    ByteInBuffer(x, y, v.pitch, v.h);
    if x < v.w && row >= 0 && 0 <= col < v.width && 0 <= row * v.width + col < |image|
       && image[row * v.width + col].Opaque? {
      Placed(v, row * v.width + col, row, col);
      assert Plots(v, image, row * v.width + col);
    } else if k :| 0 <= k < |image| && Plots(v, image, k) && Place(v, k) == at {
      SamePlace(v, k, x, y);
      assert false;
    }
  }

  lemma ByteInBuffer(x: nat, y: nat, pitch: nat, h: nat)
    requires x < pitch && y < h
    ensures 0 <= y * pitch + x < h * pitch
  {
    MulMonotone(y + 1, h, pitch);
    MulDistributes(y, 1, pitch);
  }

  lemma SamePlace(v: View, k: nat, x: nat, y: nat)
    requires Visible(v, k) && v.w <= v.pitch && x < v.pitch && Place(v, k) == y * v.pitch + x
    ensures X(v, k) == x && Y(v, k) == y && x < v.w
    ensures k == (y - v.dy) * v.width + (x - v.dx) && y - v.dy >= 0 && 0 <= x - v.dx < v.width
  {
    var p: pos := v.pitch;
    DivisionIs(Place(v, k), p, Y(v, k), X(v, k));
    DivisionIs(Place(v, k), p, y, x);
    assert k == v.width * (k / v.width) + k % v.width;
  }

  method RleBlitToSurface(bitmap: Bitmap, s: Surface?, dx: i16, dy: i16) returns (r: int)
    requires s != null ==> s.Valid()
    requires s != null && bitmap.Rle? ==> WellFormedBitmap(bitmap.bytes)
    modifies if s == null then {} else {s.pixels}
    ensures r == if bitmap.Null? || s == null then -1 else 0
    ensures r == -1 && s != null ==> s.pixels[..] == old(s.pixels[..])
    ensures r == 0 ==>
              var v := View(Width(bitmap.bytes), dx, dy, s.w, s.h, s.pitch);
              && IsDrawn(old(s.pixels[..]), s.pixels[..], v, Shown(bitmap.bytes, v), Plain())
              && (!Loses(bitmap.bytes, v) ==>
                    IsDrawn(old(s.pixels[..]), s.pixels[..], v, Image(bitmap.bytes), Plain()))
    ensures r == 0 ==>
              var v := View(Width(bitmap.bytes), dx, dy, s.w, s.h, s.pitch);
              var image := Shown(bitmap.bytes, v);
              forall k :: 0 <= k < |image| && Plots(v, image, k) ==> s.pixels[Place(v, k)] == image[k].value
  {
    if bitmap.Null? || s == null {
      return -1;
    }
    ghost var px, v := s.pixels[..], s.ViewOf(bitmap.bytes, dx, dy);
    s.Blit(bitmap.bytes, dx, dy, Plain());
    PlotIsExact(px, v, Shown(bitmap.bytes, v), Plain(), Area(bitmap.bytes));
    if !Loses(bitmap.bytes, v) {
      SamePlot(px, v, bitmap.bytes, Plain(), Area(bitmap.bytes));
      PlotIsExact(px, v, Image(bitmap.bytes), Plain(), Area(bitmap.bytes));
    }
    r := 0;
  }

  method RleBlitWithColorShift(bitmap: Bitmap, s: Surface?, dx: i16, dy: i16, colorShift: i32) returns (r: int)
    requires s != null ==> s.Valid()
    requires s != null && bitmap.Rle? ==> WellFormedBitmap(bitmap.bytes)
    modifies if s == null then {} else {s.pixels}
    ensures r == if bitmap.Null? || s == null then -1 else 0
    ensures r == -1 && s != null ==> s.pixels[..] == old(s.pixels[..])
    ensures r == 0 ==>
              var v := View(Width(bitmap.bytes), dx, dy, s.w, s.h, s.pitch);
              && IsDrawn(old(s.pixels[..]), s.pixels[..], v, Shown(bitmap.bytes, v), Shift(colorShift))
              && (!Loses(bitmap.bytes, v) ==>
                    IsDrawn(old(s.pixels[..]), s.pixels[..], v, Image(bitmap.bytes), Shift(colorShift)))
    ensures r == 0 ==>
              var v := View(Width(bitmap.bytes), dx, dy, s.w, s.h, s.pitch);
              var image := Shown(bitmap.bytes, v);
              forall k :: 0 <= k < |image| && Plots(v, image, k) ==>
                var b, c := image[k].value, s.pixels[Place(v, k)];
                var low := b % 16 + colorShift;
                && c / 16 == b / 16
                && c % 16 == if low > 15 then 15 else if low < 0 then 0 else low
  {
    if bitmap.Null? || s == null {
      return -1;
    }
    ghost var px, v := s.pixels[..], s.ViewOf(bitmap.bytes, dx, dy);
    s.Blit(bitmap.bytes, dx, dy, Shift(colorShift));
    PlotIsExact(px, v, Shown(bitmap.bytes, v), Shift(colorShift), Area(bitmap.bytes));
    if !Loses(bitmap.bytes, v) {
      SamePlot(px, v, bitmap.bytes, Shift(colorShift), Area(bitmap.bytes));
      PlotIsExact(px, v, Image(bitmap.bytes), Shift(colorShift), Area(bitmap.bytes));
    }
    forall b: u8
      ensures var c, low := Shift(colorShift)(b), b % 16 + colorShift;
              && c / 16 == b / 16
              && c % 16 == if low > 15 then 15 else if low < 0 then 0 else low
    {
      ShiftMeans(b, colorShift);
    }
    r := 0;
  }

  /** IsDrawn leaves no choice, and shifting by nothing draws the plain bitmap. */
  lemma DrawnAlike(before: seq<u8>, plain: seq<u8>, shifted: seq<u8>, v: View, image: seq<Pixel>)
    requires IsDrawn(before, plain, v, image, Plain()) && IsDrawn(before, shifted, v, image, Shift(0))
    ensures plain == shifted
  {
    forall n | 0 <= n < |before|
      ensures plain[n] == shifted[n]
    {
      if k :| 0 <= k < |image| && Plots(v, image, k) && Place(v, k) == n {
        assert plain[Place(v, k)] == Shifted(image[k].value, 0) == shifted[Place(v, k)];
      }
    }
  }

  // ----- when the blitters are exact -----

  /** A bitmap that loses nothing shows every visible pixel, and one that loses something does not. */
  lemma ShownIff(bitmap: seq<u8>, v: View)
    requires WellFormedBitmap(bitmap) && v.width == Width(bitmap)
    ensures Loses(bitmap, v) <==> exists k :: 0 <= k < |Image(bitmap)| && Plots(v, Image(bitmap), k) && !Plots(v, Shown(bitmap, v), k)
    ensures forall k :: 0 <= k < |Image(bitmap)| && Plots(v, Shown(bitmap, v), k) ==> Image(bitmap)[k] == Shown(bitmap, v)[k]
  {
    var p, len := Header(bitmap) + 4, Area(bitmap);
    if v.width > 0 {
      StreamLosesIff(bitmap, p, 0, v, len);
    }
    var image, shown := Image(bitmap), Shown(bitmap, v);
    forall k | 0 <= k < len
      ensures Plots(v, image, k) && !Plots(v, shown, k) <==> Visible(v, k) && JumpedOver(bitmap, p, 0, v, len, k)
      ensures Plots(v, shown, k) ==> Plots(v, image, k) && image[k] == shown[k]
    {
      if JumpedOver(bitmap, p, 0, v, len, k) {
        JumpedIsOpaque(bitmap, p, 0, v, len, k);
      }
    }
    hide Image, Shown, Plots, Visible, JumpedOver, StreamLoses, WellFormed;
  }

  lemma AfterClears(data: seq<u8>, p: nat, i: nat, v: View, len: nat, k: nat)
    requires WellFormed(data, p, i, v.width, len) && i < len && IsClearRun(data[p], v.width)
    requires i + data[p] as int - 0x80 <= k < len
    ensures var n := i + data[p] as int - 0x80;
            && Decoded(data, p, i, v.width, len)[k - i] == Decoded(data, p + 1, n, v.width, len)[k - n]
            && (JumpedOver(data, p, i, v, len, k) <==> JumpedOver(data, p + 1, n, v, len, k))
  {
    hide Reached;
  }

  lemma InClears(data: seq<u8>, p: nat, i: nat, width: nat, len: nat, k: nat)
    requires WellFormed(data, p, i, width, len) && p < |data| && IsClearRun(data[p], width)
    requires i <= k < len && k < i + data[p] as int - 0x80
    ensures Decoded(data, p, i, width, len)[k - i] == Clear
  {
  }

  lemma InRun(data: seq<u8>, p: nat, i: nat, v: View, len: nat, k: nat)
    requires WellFormed(data, p, i, v.width, len) && i < len && !IsClearRun(data[p], v.width)
    requires i <= k < i + data[p] as int
    ensures i + data[p] as int <= len && p + 1 + (k - i) < |data|
    ensures Decoded(data, p, i, v.width, len)[k - i] == Opaque(data[p + 1 + (k - i)])
    ensures JumpedOver(data, p, i, v, len, k) <==> !Reached(v, i, i + data[p] as int, k)
  {
    hide Reached;
  }

  lemma AfterRun(data: seq<u8>, p: nat, i: nat, v: View, len: nat, k: nat)
    requires WellFormed(data, p, i, v.width, len) && i < len && !IsClearRun(data[p], v.width)
    requires i + data[p] as int <= k < len
    ensures var q, n := p + 1 + data[p] as int, i + data[p] as int;
            && Decoded(data, p, i, v.width, len)[k - i] == Decoded(data, q, n, v.width, len)[k - n]
            && (JumpedOver(data, p, i, v, len, k) <==> JumpedOver(data, q, n, v, len, k))
  {
    hide Reached;
  }

  lemma {:induction false} JumpedIsOpaque(data: seq<u8>, p: nat, i: nat, v: View, len: nat, k: nat)
    requires WellFormed(data, p, i, v.width, len) && k < len && JumpedOver(data, p, i, v, len, k)
    ensures i <= k && Decoded(data, p, i, v.width, len)[k - i].Opaque?
    decreases |data| - p
  {
    hide JumpedOver, Decoded, WellFormed, Reached;
    JumpedLater(data, p, i, v, len, k);
    NextPosition(data, p, i, v.width, len);
    if IsClearRun(data[p], v.width) {
      AfterClears(data, p, i, v, len, k);
      JumpedIsOpaque(data, p + 1, i + data[p] as int - 0x80, v, len, k);
    } else if k < i + data[p] as int {
      InRun(data, p, i, v, len, k);
    } else {
      AfterRun(data, p, i, v, len, k);
      JumpedIsOpaque(data, p + 1 + data[p] as int, i + data[p] as int, v, len, k);
    }
  }

  lemma {:induction false} SamePlot(px: seq<u8>, v: View, bitmap: seq<u8>, paint: u8 -> u8, m: nat)
    requires WellFormedBitmap(bitmap) && v.width == Width(bitmap) && !Loses(bitmap, v) && m as int <= Area(bitmap) as int
    ensures Plot(px, v, Shown(bitmap, v), paint, m) == Plot(px, v, Image(bitmap), paint, m)
    decreases m
  {
    ShownIff(bitmap, v);
    hide Shown, Image, Loses, Visible, Place, WellFormedBitmap;
    if m > 0 {
      SamePlot(px, v, bitmap, paint, m - 1);
      assert Plots(v, Shown(bitmap, v), m - 1) <==> Plots(v, Image(bitmap), m - 1);
    }
  }

  /** What the blitters do to a buffer is what drawing every visible pixel would do, whatever the buffer
      holds, if and only if no run loses a pixel. */
  lemma ExactIff(bitmap: seq<u8>, v: View, paint: u8 -> u8)
    requires WellFormedBitmap(bitmap) && v.width == Width(bitmap) && v.w <= v.pitch
    ensures (forall px: seq<u8> :: |px| == v.h * v.pitch ==>
               Plot(px, v, Shown(bitmap, v), paint, Area(bitmap)) == Plot(px, v, Image(bitmap), paint, Area(bitmap)))
            <==> !Loses(bitmap, v)
  {
    if Loses(bitmap, v) {
      ShownIff(bitmap, v);
      var k :| 0 <= k < |Image(bitmap)| && Plots(v, Image(bitmap), k) && !Plots(v, Shown(bitmap, v), k);
      MulNonNegative(v.h, v.pitch);
      var other: u8 := if paint(Image(bitmap)[k].value) == 0 then 1 else 0;
      var px := seq(v.h * v.pitch, _ => other);
      LostShows(px, v, bitmap, paint, k);
    } else {
      forall px: seq<u8> | |px| == v.h * v.pitch
        ensures Plot(px, v, Shown(bitmap, v), paint, Area(bitmap)) == Plot(px, v, Image(bitmap), paint, Area(bitmap))
      {
        SamePlot(px, v, bitmap, paint, Area(bitmap));
      }
    }
  }

  lemma LostShows(px: seq<u8>, v: View, bitmap: seq<u8>, paint: u8 -> u8, k: nat)
    requires WellFormedBitmap(bitmap) && v.width == Width(bitmap) && v.w <= v.pitch && |px| == v.h * v.pitch
    requires k < |Image(bitmap)| && Plots(v, Image(bitmap), k) && !Plots(v, Shown(bitmap, v), k)
    requires forall n :: 0 <= n < |px| ==> px[n] != paint(Image(bitmap)[k].value)
    ensures Plot(px, v, Shown(bitmap, v), paint, Area(bitmap)) != Plot(px, v, Image(bitmap), paint, Area(bitmap))
  {
    var image, shown, n := Image(bitmap), Shown(bitmap, v), Place(v, k);
    PlotIsExact(px, v, image, paint, |image|);
    PlotIsExact(px, v, shown, paint, |image|);
    PlaceInBuffer(v, k);
    hide Visible, Place, Plot, Image, Shown;
    forall l | 0 <= l < |image| && Plots(v, shown, l)
      ensures Place(v, l) != n
    {
      PlacesDiffer(v, l, k);
    }
  }

  /** Nothing is lost when no run crosses the end of its row, or when the bitmap is clipped neither at
      the right nor at the top. */
  lemma {:induction false} StayingInRowsLosesNothing(data: seq<u8>, p: nat, i: nat, v: View, len: nat)
    requires v.width > 0 && WellFormed(data, p, i, v.width, len)
    requires RunsStayInRows(data, p, i, v.width, len) || (v.dx + v.width <= v.w && v.dy >= 0)
    ensures !StreamLoses(data, p, i, v, len)
    decreases |data| - p
  {
    if i < len {
      if IsClearRun(data[p], v.width) {
        StayingInRowsLosesNothing(data, p + 1, i + data[p] as int - 0x80, v, len);
      } else {
        var n := data[p] as int;
        StayingInRowsLosesNothing(data, p + 1 + n, i + n, v, len);
        OneRowLosesNothing(v, i, i + n);
      }
    }
  }

  lemma OneRowLosesNothing(v: View, i: nat, e: nat)
    requires v.width > 0 && (i % v.width + (e - i) <= v.width || (v.dx + v.width <= v.w && v.dy >= 0))
    ensures !RunLoses(v, Row(v, i), Col(v, i), e)
  {
    var r := i / v.width;
    RowAndColumn(v, i);
    NextRow(v, r);
    NextRow(v, r + 1);
    if r + v.dy < 0 {
      RowStartGrows(v, r + 1, -v.dy);
    }
    hide RowStart, Entry, Landing;
  }

  lemma NotReached(v: View, k: nat, e: nat, l: nat)
    requires l < k
    ensures !Reached(v, k, e, l)
  {
    if Reached(v, k, e, l) {
      ReachedIsLater(v, k, e, l);
    }
  }

  /** Four by two pixels in one run, on a surface two pixels wide: the jump from pixel 3 ends at pixel 5,
      and pixel 4 is lost. */
  lemma LosingAtTheRight(bitmap: seq<u8>, v: View)
    requires bitmap == [4, 0, 2, 0, 8, 1, 2, 3, 4, 5, 6, 7, 8] && v == View(4, 0, 0, 2, 2, 2)
    ensures WellFormedBitmap(bitmap) && Width(bitmap) == v.width && Visible(v, 4)
    ensures Image(bitmap)[4] == Opaque(5) && Shown(bitmap, v)[4] == Clear
  {
    hide WellFormed, Decoded, JumpedOver, Reached, Visible, Header, Area, Width, Height;
    SmallSizes(bitmap);
    RightJumps(v);
    LastRun(bitmap, Header(bitmap) + 4, 0, v, Area(bitmap), 4);
  }

  /** A stream whose last run is opaque and begins at pixel i. */
  lemma LastRun(data: seq<u8>, p: nat, i: nat, v: View, len: nat, k: nat)
    requires p < |data| && !IsClearRun(data[p], v.width) && p + 1 + data[p] as int <= |data|
    requires i <= k < i + data[p] as int == len && !Reached(v, i, len, k)
    ensures WellFormed(data, p, i, v.width, len) && JumpedOver(data, p, i, v, len, k)
    ensures Decoded(data, p, i, v.width, len)[k - i] == Opaque(data[p + 1 + (k - i)])
  {
    hide Reached;
    StreamEnds(data, p + 1 + data[p] as int, len, v.width, len);
    StreamGoesOn(data, p, i, v.width, len);
    InRun(data, p, i, v, len, k);
  }

  lemma SmallSizes(bitmap: seq<u8>)
    requires |bitmap| >= 4 && bitmap[2] > 0 && bitmap[1] == 0 == bitmap[3]
    ensures Header(bitmap) == 0 && Width(bitmap) == bitmap[0] && Height(bitmap) == bitmap[2]
    ensures Area(bitmap) as int == bitmap[0] as int * bitmap[2] as int
  {
    assert bitmap[..4][2] != 0;
  }

  lemma StreamEnds(data: seq<u8>, p: nat, i: nat, width: nat, len: nat)
    requires i >= len
    ensures WellFormed(data, p, i, width, len)
  {
  }

  lemma StreamGoesOn(data: seq<u8>, p: nat, i: nat, width: nat, len: nat)
    requires p < |data| && i < len
    requires if IsClearRun(data[p], width) then WellFormed(data, p + 1, i + data[p] as int - 0x80, width, len)
             else p + 1 + data[p] as int <= |data| && i + data[p] as int <= len
                  && WellFormed(data, p + 1 + data[p] as int, i + data[p] as int, width, len)
    ensures WellFormed(data, p, i, width, len)
  {
  }

  lemma RightJumps(v: View)
    requires v == View(4, 0, 0, 2, 2, 2)
    ensures Visible(v, 4) && !Reached(v, 0, 8, 4)
  {
    hide X, Y;
    Placed(v, 4, 1, 0);
    Placed(v, 3, 0, 3);
    Placed(v, 2, 0, 2);
    Placed(v, 1, 0, 1);
    Placed(v, 0, 0, 0);
    NotReached(v, 5, 8, 4);
    GoesOn(v, 3, 5, 8, 4);
    GoesOn(v, 2, 3, 8, 4);
    GoesOn(v, 1, 2, 8, 4);
    GoesOn(v, 0, 1, 8, 4);
  }

  lemma Placed(v: View, k: nat, row: nat, col: nat)
    requires k == row * v.width + col && col < v.width
    ensures X(v, k) == col + v.dx && Y(v, k) == row + v.dy
  {
    DivisionIs(k, v.width, row, col);
  }

  lemma GoesOn(v: View, k: nat, n: nat, e: nat, l: nat)
    requires v.width > 0 && k < e && k != l && n == (if Beside(v, k) then k + Skip(v, k) else k + 1)
    requires !Reached(v, n, e, l)
    ensures !Reached(v, k, e, l)
  {
  }

  /** The second to fourth pixel of a bitmap two pixels wide in one run, with its first row above the
      surface: the jump from pixel 1 ends at pixel 3, and pixel 2 is lost. */
  lemma LosingAtTheTop(bitmap: seq<u8>, v: View)
    requires bitmap == [2, 0, 2, 0, 0x81, 3, 1, 2, 3] && v == View(2, 0, -1, 2, 1, 2)
    ensures WellFormedBitmap(bitmap) && Width(bitmap) == v.width && Visible(v, 2)
    ensures Image(bitmap)[2] == Opaque(2) && Shown(bitmap, v)[2] == Clear
  {
    hide WellFormed, Decoded, JumpedOver, Reached, Visible, Header, Area, Width, Height;
    SmallSizes(bitmap);
    TopJump(v);
    LastRun(bitmap, Header(bitmap) + 5, 1, v, Area(bitmap), 2);
    StreamGoesOn(bitmap, Header(bitmap) + 4, 0, v.width, Area(bitmap));
    AfterClears(bitmap, Header(bitmap) + 4, 0, v, Area(bitmap), 2);
  }

  lemma TopJump(v: View)
    requires v == View(2, 0, -1, 2, 1, 2)
    ensures Visible(v, 2) && !Reached(v, 1, 4, 2)
  {
    hide X, Y;
    Placed(v, 2, 1, 0);
    Placed(v, 1, 0, 1);
    assert -Y(v, 1) == 1;
    NotReached(v, 3, 4, 2);
    GoesOn(v, 1, 3, 4, 2);
  }
}
