/** The width-padding correction applied to an image record before its pixels are
    walked: odd widths and, at 8 bits per pixel, widths that are not a multiple of 4
    are rounded up to the stride the file stores. */
module WidthQuirk {
  import opened Bytes

  /** Whether the padding loops exit. For an odd width the first loop only ever
      sets its flag at depth 16 or 8; at any other depth it runs forever. */
  predicate PaddingTerminates(width: nat, depth: int)
  {
    width % 2 == 0 || depth == 8 || depth == 16
  }

  /** Whether either padding rule fires (`widthHackApplied`). */
  predicate WidthHackApplies(width: nat, depth: int)
  {
    width % 2 == 1 || (width % 4 != 0 && depth == 8)
  }

  /** The exit test of the odd-width loop after an increment: an even stride at depth
      16, a multiple of 4 at depth 8, and never at any other depth. */
  predicate PaddedEnough(stride: nat, depth: int)
  {
    (depth == 16 && stride % 2 == 0) || (depth == 8 && stride % 4 == 0)
  }

  /** The row stride of a record: the declared width, rounded up when a padding rule fires. */
  function EffectiveWidth(width: nat, depth: int): nat
    requires PaddingTerminates(width, depth)
  {
    if width % 2 == 1 then
      (if depth == 16 then width + 1 else width + (4 - width % 4))
    else if width % 4 != 0 && depth == 8 then width + 2
    else width
  }

  /** What the correction does: an odd width at depth 16 grows by one, an odd width at
      depth 8 becomes the next multiple of 4, an even width that is not a multiple of 4
      at depth 8 grows by two, and in every other case the width is kept and no hack is
      recorded. */
  lemma EffectiveWidthCases(width: nat, depth: int)
    requires PaddingTerminates(width, depth)
    ensures var stride := EffectiveWidth(width, depth);
      && (width % 2 == 1 && depth == 16 ==> stride == width + 1)
      && (width % 2 == 1 && depth == 8 ==>
            stride % 4 == 0 && width < stride && forall m :: width < m < stride ==> m % 4 != 0)
      && (width % 2 == 0 && width % 4 != 0 && depth == 8 ==> stride == width + 2)
      && (WidthHackApplies(width, depth) <==> stride != width)
      && width <= stride <= width + 3
      && (depth == 8 ==> stride % 4 == 0)
      && (depth == 16 ==> stride % 2 == 0)
  {
    var stride := EffectiveWidth(width, depth);
    var q, r := width / 4, width % 4;
    DivModUnique(width, 4, q, r);
    DivModUnique(width, 2, 2 * q + r / 2, r % 2);
    if r == 0 {
      DivModUnique(stride, 2, 2 * q, 0);
    } else if r == 2 && depth != 8 {
      DivModUnique(stride, 2, 2 * q + 1, 0);
    } else if r == 1 && depth == 16 {
      DivModUnique(stride, 2, 2 * q + 1, 0);
    } else {
      assert stride == 4 * q + 4;
      DivModUnique(stride, 4, q + 1, 0);
      DivModUnique(stride, 2, 2 * q + 2, 0);
      forall m | width < m < stride
        ensures m % 4 != 0
      {
        DivModUnique(m, 4, q, m - 4 * q);
      }
    }
  }

  /** The odd-width do/while loop after n passes from the declared width: the stride
      and the exit flag. Each pass increments the stride and sets the flag when the
      new stride passes the depth's test; once the flag is set the loop has exited. */
  function OddWidthRun(width: nat, depth: int, n: nat): (nat, bool)
  {
    if n == 0 then (width, false)
    else
      var (stride, exited) := OddWidthRun(width, depth, n - 1);
      if exited then (stride, exited) else (stride + 1, PaddedEnough(stride + 1, depth))
  }

  /** When PaddingTerminates fails, the loop has not exited after any number of passes:
      the stride has grown by one per pass and the flag is still clear. */
  lemma {:induction false} OddWidthLoopNeverExits(width: nat, depth: int, n: nat)
    requires !PaddingTerminates(width, depth)
    ensures OddWidthRun(width, depth, n) == (width + n, false)
  {
    if n > 0 {
      OddWidthLoopNeverExits(width, depth, n - 1);
    }
  }

  /** An even width that is not a multiple of 4 is 2 more than one, and 2 less than the next. */
  lemma EvenWidthPadding(width: nat)
    requires width % 2 == 0 && width % 4 != 0
    ensures width % 4 == 2 && (width + 2) % 4 == 0
  {
    var q, r := width / 4, width % 4;
    DivModUnique(width, 2, 2 * q + r / 2, r % 2);
    DivModUnique(width + 2, 4, q + 1, 0);
  }

  /** The two do/while loops of the source, run on the declared width and depth. */
  method CorrectWidth(width: nat, depth: int) returns (stride: nat, hackApplied: bool)
    requires PaddingTerminates(width, depth)
    ensures stride == EffectiveWidth(width, depth)
    ensures hackApplied == WidthHackApplies(width, depth)
    ensures width % 2 == 1 ==> OddWidthRun(width, depth, stride - width) == (stride, true)
  {
    stride := width;
    hackApplied := false;
    if stride % 2 == 1 {
      var divisibleBy2 := false;
      ghost var target := EffectiveWidth(width, depth);
      EffectiveWidthCases(width, depth);
      while !divisibleBy2
        invariant width <= stride <= target
        invariant hackApplied == (stride != width)
        invariant divisibleBy2 == (stride != width && stride == target)
        invariant (stride, divisibleBy2) == OddWidthRun(width, depth, stride - width)
        decreases target - stride
      {
        hackApplied := true;
        stride := stride + 1;
        if PaddedEnough(stride, depth) { divisibleBy2 := true; }
      }
    } else if stride % 4 != 0 && depth == 8 {
      EvenWidthPadding(width);
      var divisibleBy4 := false;
      while !divisibleBy4
        invariant stride == (if divisibleBy4 then width + 2 else width)
        invariant hackApplied == (stride != width)
        decreases if divisibleBy4 then 0 else 1
      {
        hackApplied := true;
        var difference := stride % 4;
        stride := stride + difference;
        if depth == 16 || depth == 8 || depth == 24 {
          if stride % 4 == 0 { divisibleBy4 := true; }
        }
      }
    }
  }
}
