/** Which pixels of a run the clipping loop of the blitters comes to, and which it jumps over. */
module RleClipping {
  import opened MachineInts

  /** A bitmap of the given width put at column dx and row dy of a surface. */
  datatype View = View(width: nat, dx: int, dy: int, w: nat, h: nat, pitch: nat)

  /** The row and column of pixel k in the bitmap, and on the surface. */
  function Row(v: View, k: nat): nat
    requires v.width > 0
  {
    DivisionBounds(k, v.width);
    k / v.width
  }

  function Col(v: View, k: nat): (c: nat)
    requires v.width > 0
    ensures c < v.width
  {
    DivisionBounds(k, v.width);
    k % v.width
  }

  lemma DivisionBounds(k: nat, w: pos)
    ensures k / w >= 0 && 0 <= k % w < w
  {
  }

  function X(v: View, k: nat): int
    requires v.width > 0
  {
    Col(v, k) + v.dx
  }

  function Y(v: View, k: nat): int
    requires v.width > 0
  {
    Row(v, k) + v.dy
  }

  /** Pixel k of the bitmap falls on the surface. */
  predicate Visible(v: View, k: nat)
  {
    v.width > 0 && 0 <= X(v, k) < v.w && 0 <= Y(v, k) < v.h
  }

  /** Pixel k is left of, right of or above the surface. */
  predicate Beside(v: View, k: nat)
    requires v.width > 0
  {
    X(v, k) < 0 || X(v, k) >= v.w || Y(v, k) < 0
  }

  /** How far the inner loop moves on from such a pixel. */
  function Skip(v: View, k: nat): (n: nat)
    requires v.width > 0 && Beside(v, k)
    ensures n > 0
  {
    if X(v, k) < 0 then -X(v, k)
    else if X(v, k) >= v.w then X(v, k) - v.w + 1
    else
      MulMonotone(1, -Y(v, k), v.width);
      -Y(v, k) * v.width
  }

  /** The inner loop, at pixel k of a run that ends before pixel e, comes to pixel l. */
  predicate Reached(v: View, k: nat, e: nat, l: nat)
    decreases e - k
  {
    && v.width > 0 && k < e
    && (l == k || (if Beside(v, k) then Reached(v, k + Skip(v, k), e, l) else Visible(v, k) && Reached(v, k + 1, e, l)))
  }

  lemma {:induction false} ReachedIsLater(v: View, k: nat, e: nat, l: nat)
    requires Reached(v, k, e, l)
    ensures k <= l < e
    decreases e - k
  {
    if l != k {
      ReachedIsLater(v, if Beside(v, k) then k + Skip(v, k) else k + 1, e, l);
    }
  }

  /** Once a row is below the surface, so is everything after it. */
  lemma BelowStaysBelow(v: View, k: nat, l: nat)
    requires v.width > 0 && k <= l && Y(v, k) >= v.h
    ensures !Visible(v, l)
  {
    RowsGrow(v.width, k, l);
  }

  lemma RowsGrow(w: pos, k: nat, l: nat)
    requires k <= l
    ensures k / w <= l / w
  {
    if k / w > l / w {
      MulMonotone(l / w + 1, k / w, w);
      MulDistributes(l / w, 1, w);
    }
  }

  // ----- rows and columns -----

  /** The first column of the bitmap that is not left of the surface. */
  function FirstColumn(v: View): nat
  {
    if v.dx < 0 then -v.dx else 0
  }

  /** Some column of the bitmap is on the surface. */
  predicate Shows(v: View)
  {
    FirstColumn(v) < v.width && FirstColumn(v) + v.dx < v.w
  }

  function RowStart(v: View, row: nat): nat
  {
    MulMonotone(0, row, v.width);
    row * v.width
  }

  /** The first pixel of a row that is not left of the surface. */
  function FirstPixel(v: View, row: nat): nat { RowStart(v, row) + FirstColumn(v) }

  lemma CellOf(v: View, row: nat, col: nat)
    requires col < v.width
    ensures var k := RowStart(v, row) + col; Row(v, k) == row && Col(v, k) == col
  {
    DivisionIs(row * v.width + col, v.width, row, col);
  }

  lemma RowAndColumn(v: View, k: nat)
    requires v.width > 0
    ensures k == RowStart(v, Row(v, k)) + Col(v, k) && Col(v, k) < v.width
  {
    Division(k, v.width);
  }

  lemma Division(k: nat, w: pos)
    ensures k == k / w * w + k % w && 0 <= k % w < w
  {
  }

  lemma NextRow(v: View, row: nat)
    ensures RowStart(v, row + 1) == RowStart(v, row) + v.width
  {
    MulDistributes(row, 1, v.width);
  }

  lemma RowStartGrows(v: View, a: nat, b: nat)
    requires a <= b
    ensures RowStart(v, a) <= RowStart(v, b)
  {
    MulMonotone(a, b, v.width);
  }

  /** Some pixels further on in the same row. */
  lemma SameRow(v: View, k: nat, d: nat)
    requires v.width > 0 && Col(v, k) + d < v.width
    ensures Row(v, k + d) == Row(v, k) && Col(v, k + d) == Col(v, k) + d
  {
    RowAndColumn(v, k);
    CellOf(v, Row(v, k), Col(v, k) + d);
  }

  lemma VisibleColumn(v: View, l: nat)
    requires Visible(v, l)
    ensures Shows(v) && FirstPixel(v, Row(v, l)) <= l
  {
    RowAndColumn(v, l);
  }

  // ----- what one jump loses -----

  /** What a jump from row r and column c of a run that ends before e loses.  Left of the surface
      nothing; at its right edge, when the jump goes past the first pixel of the next row that is on
      the surface; above it, when the jump comes down right of the first pixel of the top row.  Each
      time the run has to get as far as that pixel. */
  predicate JumpLoses(v: View, r: nat, c: nat, e: nat)
  {
    && Shows(v)
    && if c + v.dx < 0 then false
       else if c + v.dx >= v.w then
         0 <= r + 1 + v.dy < v.h && 2 * c + v.dx - v.w + 1 > v.width + FirstColumn(v) && FirstPixel(v, r + 1) < e
       else v.dy < 0 < v.h && c > FirstColumn(v) && FirstPixel(v, -v.dy) < e
  }

  predicate JumpsOverVisible(v: View, k: nat, e: nat)
    requires v.width > 0 && Beside(v, k)
  {
    exists l :: k < l < k + Skip(v, k) && l < e && Visible(v, l)
  }

  lemma JumpLosesIff(v: View, k: nat, e: nat)
    requires v.width > 0 && Beside(v, k)
    ensures JumpsOverVisible(v, k, e) <==> JumpLoses(v, Row(v, k), Col(v, k), e)
  {
    hide Skip, JumpLoses, Visible, Beside;
    if JumpLoses(v, Row(v, k), Col(v, k), e) {
      var l := LosesFirstPixel(v, k, e);
    }
    forall l | k < l < k + Skip(v, k) && l < e && Visible(v, l)
      ensures JumpLoses(v, Row(v, k), Col(v, k), e)
    {
      JumpedOver(v, k, l);
      LosesMoreFurtherOn(v, Row(v, k), Col(v, k), l + 1, e);
    }
  }

  lemma LosesMoreFurtherOn(v: View, r: nat, c: nat, e: nat, e': nat)
    requires JumpLoses(v, r, c, e) && e <= e'
    ensures JumpLoses(v, r, c, e')
  {
  }

  lemma JumpedOver(v: View, k: nat, l: nat)
    requires v.width > 0 && Beside(v, k) && k < l < k + Skip(v, k) && Visible(v, l)
    ensures JumpLoses(v, Row(v, k), Col(v, k), l + 1)
  {
    var r, c := Row(v, k), Col(v, k);
    VisibleColumn(v, l);
    RowAndColumn(v, k);
    NextRow(v, r);
    if X(v, k) < 0 || X(v, k) >= v.w {
      if c + (l - k) < v.width {
        SameRow(v, k, l - k);
      } else if X(v, k) >= v.w {
        CellOf(v, r + 1, l - RowStart(v, r + 1));
      }
    } else {
      var top := -v.dy;
      RowAndColumn(v, l);
      RowStartGrows(v, top, Row(v, l));
      UpJumpEnd(v, k);
      CellOf(v, top, l - RowStart(v, top));
    }
  }

  /** The jump from above the surface comes down in the same column of the top row. */
  lemma UpJumpEnd(v: View, k: nat)
    requires v.width > 0 && Y(v, k) < 0 && 0 <= X(v, k) < v.w
    ensures k + Skip(v, k) == RowStart(v, -v.dy) + Col(v, k)
  {
    RowAndColumn(v, k);
    MulDistributes(Row(v, k), -Y(v, k), v.width);
  }

  lemma LosesFirstPixel(v: View, k: nat, e: nat) returns (l: nat)
    requires v.width > 0 && Beside(v, k) && JumpLoses(v, Row(v, k), Col(v, k), e)
    ensures k < l < k + Skip(v, k) && l < e && Visible(v, l)
  {
    var r, c := Row(v, k), Col(v, k);
    RowAndColumn(v, k);
    NextRow(v, r);
    if X(v, k) >= v.w {
      l := FirstPixel(v, r + 1);
      CellOf(v, r + 1, FirstColumn(v));
    } else {
      l := FirstPixel(v, -v.dy);
      CellOf(v, -v.dy, FirstColumn(v));
      UpJumpEnd(v, k);
      RowStartGrows(v, r + 1, -v.dy);
    }
  }

  // ----- what a run loses -----

  /** The column in the next row where the loop comes down that stands beyond the right edge in
      column c: its distance from the edge doubles until the row ends. */
  function Landing(v: View, c: nat): (q: nat)
    requires Shows(v) && c < v.width && c + v.dx >= v.w
    ensures q < v.width
    decreases v.width - c
  {
    var t := 2 * c + v.dx - v.w + 1;
    if t < v.width then Landing(v, t) else t - v.width
  }

  /** The column in which the loop that starts above the surface first stands left of the right edge,
      or in the top row. */
  function Entry(v: View, r: nat, c: nat): (q: nat)
    requires Shows(v) && c < v.width
    ensures q < v.width
    decreases if r + v.dy < 0 then -(r + v.dy) else 0
  {
    if r + v.dy < 0 && c + v.dx >= v.w then Entry(v, r + 1, Landing(v, c)) else c
  }

  /** A run that ends before e and comes past the right edge in row r loses pixels of the next row: the
      loop stands one column beyond the edge, and comes down right of the first column that shows. */
  predicate RowLoses(v: View, r: nat, e: nat)
    requires Shows(v)
  {
    && v.w - v.dx < v.width && Landing(v, v.w - v.dx) > FirstColumn(v)
    && r + 1 + v.dy < v.h && FirstPixel(v, r + 1) < e
  }

  /** A run from row r and column c that ends before e loses pixels, in terms of where it starts and
      ends and of the place of the bitmap. */
  predicate RunLoses(v: View, r: nat, c: nat, e: nat)
    requires c < v.width
  {
    && Shows(v) && v.h > 0
    && if r + v.dy < 0 then
         FirstPixel(v, -v.dy) < e && (Entry(v, r, c) > FirstColumn(v) || RowLoses(v, -v.dy, e))
       else
         && r + v.dy < v.h
         && if c + v.dx < v.w then RowLoses(v, r, e)
            else
              && r + 1 + v.dy < v.h && FirstPixel(v, r + 1) < e
              && (Landing(v, c) > FirstColumn(v) || RowLoses(v, r + 1, e))
  }

  /** Some visible pixel from k on of a run that ends before e is never reached from k. */
  predicate SomeLost(v: View, k: nat, e: nat)
  {
    exists l :: k <= l < e && Visible(v, l) && !Reached(v, k, e, l)
  }

  /** The clipping loop loses a visible pixel of a run exactly under that condition. */
  lemma {:induction false} RunLosesIff(v: View, k: nat, e: nat)
    requires v.width > 0
    ensures SomeLost(v, k, e) <==> RunLoses(v, Row(v, k), Col(v, k), e)
    decreases e - k
  {
    hide Reached, RunLoses, JumpLoses, Skip, Beside, Visible;
    if k >= e {
      PastTheEnd(v, k, e);
    } else if Beside(v, k) {
      RunLosesIff(v, k + Skip(v, k), e);
      JumpLosesIff(v, k, e);
      LostInJump(v, k, e);
      RunJumps(v, k, e);
    } else if Visible(v, k) {
      RunLosesIff(v, k + 1, e);
      LostInStep(v, k, e);
      RunSteps(v, k, e);
    } else {
      LostBelow(v, k, e);
    }
  }

  lemma LostInJump(v: View, k: nat, e: nat)
    requires v.width > 0 && Beside(v, k) && k < e
    ensures SomeLost(v, k, e) <==> JumpsOverVisible(v, k, e) || SomeLost(v, k + Skip(v, k), e)
  {
    hide Skip;
    assert !Visible(v, k);
    var n := k + Skip(v, k);
    forall l | k < l < e
      ensures Reached(v, k, e, l) <==> Reached(v, n, e, l)
      ensures Reached(v, n, e, l) ==> n <= l
    {
      if Reached(v, n, e, l) {
        ReachedIsLater(v, n, e, l);
      }
    }
  }

  lemma LostInStep(v: View, k: nat, e: nat)
    requires v.width > 0 && !Beside(v, k) && Visible(v, k) && k < e
    ensures SomeLost(v, k, e) <==> SomeLost(v, k + 1, e)
  {
    assert Reached(v, k, e, k);
    forall l | k < l < e
      ensures Reached(v, k, e, l) <==> Reached(v, k + 1, e, l)
    {
    }
  }

  lemma LostBelow(v: View, k: nat, e: nat)
    requires v.width > 0 && !Beside(v, k) && !Visible(v, k)
    ensures !SomeLost(v, k, e) && !RunLoses(v, Row(v, k), Col(v, k), e)
  {
    forall l | k <= l < e
      ensures !Visible(v, l)
    {
      BelowStaysBelow(v, k, l);
    }
  }

  lemma PastTheEnd(v: View, k: nat, e: nat)
    requires v.width > 0 && k >= e
    ensures !SomeLost(v, k, e) && !RunLoses(v, Row(v, k), Col(v, k), e)
  {
    var r := Row(v, k);
    RowAndColumn(v, k);
    NextRow(v, r);
    NextRow(v, r + 1);
    if r + v.dy < 0 {
      RowStartGrows(v, r + 1, -v.dy);
    }
    hide Landing, Entry, RowStart;
  }

  lemma RunSteps(v: View, k: nat, e: nat)
    requires v.width > 0 && !Beside(v, k) && Visible(v, k)
    ensures RunLoses(v, Row(v, k), Col(v, k), e) <==> RunLoses(v, Row(v, k + 1), Col(v, k + 1), e)
  {
    var r, c := Row(v, k), Col(v, k);
    RowAndColumn(v, k);
    NextRow(v, r);
    NextRow(v, r + 1);
    if c + 1 < v.width {
      SameRow(v, k, 1);
    } else {
      CellOf(v, r + 1, 0);
    }
    VisibleColumn(v, k);
    hide RowStart, Visible;
  }

  lemma RunJumps(v: View, k: nat, e: nat)
    requires v.width > 0 && Beside(v, k)
    ensures var n := k + Skip(v, k);
            RunLoses(v, Row(v, k), Col(v, k), e) <==>
              JumpLoses(v, Row(v, k), Col(v, k), e) || RunLoses(v, Row(v, n), Col(v, n), e)
  {
    var r, c := Row(v, k), Col(v, k);
    RowAndColumn(v, k);
    NextRow(v, r);
    NextRow(v, r + 1);
    if Shows(v) {
      if c + v.dx < 0 {
        SameRow(v, k, Skip(v, k));
      } else if c + v.dx >= v.w {
        var t := 2 * c + v.dx - v.w + 1;
        if t < v.width {
          SameRow(v, k, Skip(v, k));
        } else {
          CellOf(v, r + 1, t - v.width);
          NextRow(v, r + 2);
        }
      } else {
        UpJumpEnd(v, k);
        CellOf(v, -v.dy, c);
        NextRow(v, -v.dy);
      }
    }
    hide RowStart, Skip;
  }
}
