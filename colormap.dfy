/**
 * MandelColor: the gradient lookup behind the pixel colours.
 *
 * WPF's Color keeps a colour twice, as sRGB bytes (R, G, B) and as linear
 * scRGB channels (ScA, ScR, ScG, ScB); the conversions between the two are
 * library numerics and enter the model as a ColorSpace parameter.
 */
module ColorMap {
  import opened Wrappers

  /** A C# byte. */
  type byte = bv8

  /** Linear-light channels, as Color.ScA / ScR / ScG / ScB. */
  datatype ScColor = ScColor(a: real, r: real, g: real, b: real)

  /** A WPF Color: the bytes read by R, G and B together with its scRGB channels. */
  datatype Color = Color(r: byte, g: byte, b: byte, sc: ScColor)

  datatype GradientStop = GradientStop(color: Color, offset: real)

  /**
   * The colour conversions WPF performs: an sRGB byte to its linear value, a
   * linear value to its sRGB byte, and the byte a NaN channel turns into.
   */
  datatype ColorSpace = ColorSpace(toLinear: byte -> real, toSrgb: real -> byte, fromNaN: byte)

  /**
   * How a lookup fails: SingleOrDefault throws on a second match, Min and Max
   * throw on an empty collection, and the channel formula divides by zero when
   * the two bracketing stops share an offset.
   */
  datatype LookupError = MoreThanOneMatch | NoElements | NotANumber

  /** The struct MandelColor: three bytes. */
  datatype MandelColor = MandelColor(red: byte, green: byte, blue: byte)

  const Black := MandelColor(0, 0, 0)

  /** An opaque colour given by its sRGB bytes, as the named Colors are. */
  function FromRgb(cs: ColorSpace, r: byte, g: byte, b: byte): Color {
    Color(r, g, b, ScColor(1.0, cs.toLinear(r), cs.toLinear(g), cs.toLinear(b)))
  }

  /** A colour built by assigning its scRGB channels, as `new Color()` with ScA..ScB set. */
  function FromScRgb(cs: ColorSpace, sc: ScColor): Color {
    Color(cs.toSrgb(sc.r), cs.toSrgb(sc.g), cs.toSrgb(sc.b), sc)
  }

  /** The bytes of a colour whose channels are NaN. */
  function NaNColor(cs: ColorSpace): MandelColor {
    MandelColor(cs.fromNaN, cs.fromNaN, cs.fromNaN)
  }

  // ---------------------------------------------------------------------
  // LINQ queries used by GetRelativeColor
  // ---------------------------------------------------------------------

  /** The stops whose offset equals `offset`, in collection order (a Where). */
  function Matching(stops: seq<GradientStop>, offset: real): (m: seq<GradientStop>)
    ensures |m| <= |stops|
    ensures forall s :: s in m ==> s in stops && s.offset == offset
    ensures forall i :: 0 <= i < |stops| && stops[i].offset == offset ==> stops[i] in m
  {
    if |stops| == 0 then []
    else (if stops[0].offset == offset then [stops[0]] else []) + Matching(stops[1..], offset)
  }

  /** SingleOrDefault: none, the one match, or an exception on a second match. */
  function SingleOrDefault(stops: seq<GradientStop>, offset: real): Result<Option<GradientStop>, LookupError> {
    var m := Matching(stops, offset);
    if |m| == 0 then Ok(None)
    else if |m| == 1 then Ok(Some(m[0]))
    else Err(MoreThanOneMatch)
  }

  /** The smallest offset in a non-empty collection (Min). */
  function MinOffset(stops: seq<GradientStop>): (m: real)
    requires |stops| > 0
    ensures forall i :: 0 <= i < |stops| ==> m <= stops[i].offset
    ensures exists i :: 0 <= i < |stops| && stops[i].offset == m
  {
    if |stops| == 1 then stops[0].offset
    else
      var rest := MinOffset(stops[1..]);
      assert forall i :: 1 <= i < |stops| ==> stops[i] == stops[1..][i - 1];
      if stops[0].offset <= rest then stops[0].offset else rest
  }

  /** The largest offset in a non-empty collection (Max). */
  function MaxOffset(stops: seq<GradientStop>): (m: real)
    requires |stops| > 0
    ensures forall i :: 0 <= i < |stops| ==> stops[i].offset <= m
    ensures exists i :: 0 <= i < |stops| && stops[i].offset == m
  {
    if |stops| == 1 then stops[0].offset
    else
      var rest := MaxOffset(stops[1..]);
      assert forall i :: 1 <= i < |stops| ==> stops[i] == stops[1..][i - 1];
      if stops[0].offset >= rest then stops[0].offset else rest
  }

  /** Where(offset == o).First(): the index of the first stop at offset o. */
  function FirstWith(stops: seq<GradientStop>, o: real): (i: nat)
    requires exists j :: 0 <= j < |stops| && stops[j].offset == o
    ensures i < |stops| && stops[i].offset == o
    ensures forall j :: 0 <= j < i ==> stops[j].offset != o
  {
    if stops[0].offset == o then 0
    else
      assert exists j :: 0 <= j < |stops[1..]| && stops[1..][j].offset == o by {
        var j :| 0 <= j < |stops| && stops[j].offset == o;
        assert stops[1..][j - 1] == stops[j];
      }
      1 + FirstWith(stops[1..], o)
  }

  // ---------------------------------------------------------------------
  // The nearest stops below and above a requested offset
  // ---------------------------------------------------------------------

  /**
   * Among the first n stops, stop i is the first one whose offset is the
   * greatest offset strictly below `offset`.
   */
  predicate NearestBelowWithin(stops: seq<GradientStop>, n: nat, offset: real, i: int)
    requires n <= |stops|
  {
    && 0 <= i < n
    && stops[i].offset < offset
    && (forall j :: 0 <= j < n && stops[j].offset < offset ==> stops[j].offset <= stops[i].offset)
    && (forall j :: 0 <= j < i ==> stops[j].offset != stops[i].offset)
  }

  /** Among the first n stops, stop i is the first one whose offset is the least offset strictly above `offset`. */
  predicate NearestAboveWithin(stops: seq<GradientStop>, n: nat, offset: real, i: int)
    requires n <= |stops|
  {
    && 0 <= i < n
    && stops[i].offset > offset
    && (forall j :: 0 <= j < n && stops[j].offset > offset ==> stops[i].offset <= stops[j].offset)
    && (forall j :: 0 <= j < i ==> stops[j].offset != stops[i].offset)
  }

  predicate IsNearestBelow(stops: seq<GradientStop>, offset: real, i: int) {
    NearestBelowWithin(stops, |stops|, offset, i)
  }

  predicate IsNearestAbove(stops: seq<GradientStop>, offset: real, i: int) {
    NearestAboveWithin(stops, |stops|, offset, i)
  }

  /** The nearest stop below, found right to left: None exactly when no stop lies below. */
  function NearestBelow(stops: seq<GradientStop>, offset: real): (r: Option<nat>)
    ensures r.None? ==> forall j :: 0 <= j < |stops| ==> stops[j].offset >= offset
    ensures r.Some? ==> IsNearestBelow(stops, offset, r.value)
  {
    if |stops| == 0 then None
    else
      var rest := NearestBelow(stops[1..], offset);
      assert forall j :: 1 <= j < |stops| ==> stops[j] == stops[1..][j - 1];
      if stops[0].offset < offset && (rest.None? || stops[0].offset >= stops[1..][rest.value].offset) then Some(0)
      else if rest.Some? then Some(rest.value + 1)
      else None
  }

  /** The nearest stop above, found right to left: None exactly when no stop lies above. */
  function NearestAbove(stops: seq<GradientStop>, offset: real): (r: Option<nat>)
    ensures r.None? ==> forall j :: 0 <= j < |stops| ==> stops[j].offset <= offset
    ensures r.Some? ==> IsNearestAbove(stops, offset, r.value)
  {
    if |stops| == 0 then None
    else
      var rest := NearestAbove(stops[1..], offset);
      assert forall j :: 1 <= j < |stops| ==> stops[j] == stops[1..][j - 1];
      if stops[0].offset > offset && (rest.None? || stops[0].offset <= stops[1..][rest.value].offset) then Some(0)
      else if rest.Some? then Some(rest.value + 1)
      else None
  }

  /** Only one stop can be the nearest one below. */
  lemma NearestBelowUnique(stops: seq<GradientStop>, n: nat, offset: real, i: int, k: int)
    requires n <= |stops|
    requires NearestBelowWithin(stops, n, offset, i) && NearestBelowWithin(stops, n, offset, k)
    ensures i == k
  {
  }

  /** Only one stop can be the nearest one above. */
  lemma NearestAboveUnique(stops: seq<GradientStop>, n: nat, offset: real, i: int, k: int)
    requires n <= |stops|
    requires NearestAboveWithin(stops, n, offset, i) && NearestAboveWithin(stops, n, offset, k)
    ensures i == k
  {
  }

  /** The stop `before` ends on: the nearest one below, else the first stop at the minimum offset. */
  function Before(stops: seq<GradientStop>, offset: real): (i: nat)
    requires |stops| > 0
    ensures i < |stops|
  {
    match NearestBelow(stops, offset)
    case Some(i) => i
    case None => FirstWith(stops, MinOffset(stops))
  }

  /** The stop `after` ends on: the nearest one above, else the first stop at the maximum offset. */
  function After(stops: seq<GradientStop>, offset: real): (i: nat)
    requires |stops| > 0
    ensures i < |stops|
  {
    match NearestAbove(stops, offset)
    case Some(i) => i
    case None => FirstWith(stops, MaxOffset(stops))
  }

  // ---------------------------------------------------------------------
  // Interpolation
  // ---------------------------------------------------------------------

  /** One channel: (x - x0) * (y1 - y0) / (x1 - x0) + y0. */
  function Lerp(x: real, x0: real, x1: real, y0: real, y1: real): real
    requires x1 != x0
  {
    (x - x0) * (y1 - y0) / (x1 - x0) + y0
  }

  /** At the two stops the interpolation gives their own channel values. */
  lemma LerpEndpoints(x0: real, x1: real, y0: real, y1: real)
    requires x1 != x0
    ensures Lerp(x0, x0, x1, y0, y1) == y0
    ensures Lerp(x1, x0, x1, y0, y1) == y1
  {
    assert (x1 - x0) * (y1 - y0) / (x1 - x0) == y1 - y0;
  }

  /** A non-negative quotient of a non-negative by a positive real. */
  lemma DivNonneg(p: real, q: real)
    requires p >= 0.0 && q > 0.0
    ensures p / q >= 0.0
  {
    var r := p / q;
    assert r * q == p;
  }

  /** Between the stops the interpolated channel lies between the two channel values. */
  lemma LerpBetween(x: real, x0: real, x1: real, y0: real, y1: real)
    requires x0 < x < x1
    ensures y0 <= y1 ==> y0 <= Lerp(x, x0, x1, y0, y1) <= y1
    ensures y1 <= y0 ==> y1 <= Lerp(x, x0, x1, y0, y1) <= y0
  {
    var n, w, d := x - x0, x1 - x0, y1 - y0;
    assert Lerp(x, x0, x1, y0, y1) - y0 == n * d / w;
    assert y1 - Lerp(x, x0, x1, y0, y1) == (w - n) * d / w;
    if d >= 0.0 {
      DivNonneg(n * d, w);
      DivNonneg((w - n) * d, w);
    } else {
      DivNonneg(n * -d, w);
      DivNonneg((w - n) * -d, w);
      assert n * -d / w == -(n * d / w);
      assert (w - n) * -d / w == -((w - n) * d / w);
    }
  }

  /** The interpolation is affine in the requested offset: equal steps give equal changes. */
  lemma LerpAffine(x: real, x': real, x0: real, x1: real, y0: real, y1: real)
    requires x1 != x0
    ensures Lerp(x, x0, x1, y0, y1) - Lerp(x', x0, x1, y0, y1) == (x - x') * ((y1 - y0) / (x1 - x0))
  {
    var s := (y1 - y0) / (x1 - x0);
    assert Lerp(x, x0, x1, y0, y1) == (x - x0) * s + y0;
    assert Lerp(x', x0, x1, y0, y1) == (x' - x0) * s + y0;
  }

  /** The four channel formulas; equal offsets make every channel 0/0. */
  function Interpolate(cs: ColorSpace, before: GradientStop, after: GradientStop, offset: real): Result<Color, LookupError> {
    if after.offset == before.offset then Err(NotANumber)
    else
      var b := before.color.sc;
      var a := after.color.sc;
      Ok(FromScRgb(cs, ScColor(
        Lerp(offset, before.offset, after.offset, b.a, a.a),
        Lerp(offset, before.offset, after.offset, b.r, a.r),
        Lerp(offset, before.offset, after.offset, b.g, a.g),
        Lerp(offset, before.offset, after.offset, b.b, a.b))))
  }

  /** What GetRelativeColor returns, or the exception it throws. */
  function RelativeColor(cs: ColorSpace, stops: seq<GradientStop>, offset: real): Result<Color, LookupError> {
    match SingleOrDefault(stops, offset)
    case Err(e) => Err(e)
    case Ok(Some(point)) => Ok(point.color)
    case Ok(None) =>
      if |stops| == 0 then Err(NoElements)
      else Interpolate(cs, stops[Before(stops, offset)], stops[After(stops, offset)], offset)
  }

  // ---------------------------------------------------------------------
  // GetRelativeColor
  // ---------------------------------------------------------------------

  /**
   * What the foreach keeps after n stops: `before` (stop bi) is the nearest
   * stop below among them, or, while none of them lies below, still its
   * starting stop b0.
   */
  predicate BelowScanned(gsc: seq<GradientStop>, n: nat, offset: real, bi: nat, b0: nat)
    requires n <= |gsc|
  {
    NearestBelowWithin(gsc, n, offset, bi) || (bi == b0 && forall j :: 0 <= j < n ==> gsc[j].offset >= offset)
  }

  /** The same for `after` (stop ai) and its starting stop a0. */
  predicate AboveScanned(gsc: seq<GradientStop>, n: nat, offset: real, ai: nat, a0: nat)
    requires n <= |gsc|
  {
    NearestAboveWithin(gsc, n, offset, ai) || (ai == a0 && forall j :: 0 <= j < n ==> gsc[j].offset <= offset)
  }

  /** Stop b0 is the first stop at the minimum offset. */
  predicate FirstAtMin(gsc: seq<GradientStop>, b0: nat) {
    && b0 < |gsc|
    && (forall j :: 0 <= j < |gsc| ==> gsc[b0].offset <= gsc[j].offset)
    && (forall j :: 0 <= j < b0 ==> gsc[j].offset != gsc[b0].offset)
  }

  /** Stop a0 is the first stop at the maximum offset. */
  predicate FirstAtMax(gsc: seq<GradientStop>, a0: nat) {
    && a0 < |gsc|
    && (forall j :: 0 <= j < |gsc| ==> gsc[j].offset <= gsc[a0].offset)
    && (forall j :: 0 <= j < a0 ==> gsc[j].offset != gsc[a0].offset)
  }

  /** One pass of the foreach keeps BelowScanned. */
  lemma BelowStep(gsc: seq<GradientStop>, n: nat, offset: real, bi: nat, b0: nat)
    requires n < |gsc| && bi < |gsc|
    requires FirstAtMin(gsc, b0)
    requires BelowScanned(gsc, n, offset, bi, b0)
    ensures gsc[n].offset < offset && gsc[n].offset > gsc[bi].offset ==> BelowScanned(gsc, n + 1, offset, n, b0)
    ensures !(gsc[n].offset < offset && gsc[n].offset > gsc[bi].offset) ==> BelowScanned(gsc, n + 1, offset, bi, b0)
  {
    if gsc[n].offset < offset && gsc[n].offset > gsc[bi].offset {
      assert NearestBelowWithin(gsc, n + 1, offset, n);
    } else if gsc[n].offset >= offset {
      if NearestBelowWithin(gsc, n, offset, bi) {
        assert NearestBelowWithin(gsc, n + 1, offset, bi);
      }
    } else if NearestBelowWithin(gsc, n, offset, bi) {
      assert NearestBelowWithin(gsc, n + 1, offset, bi);
    } else {
      assert gsc[n].offset == gsc[b0].offset;
      assert NearestBelowWithin(gsc, n + 1, offset, b0);
    }
  }

  /** One pass of the foreach keeps AboveScanned. */
  lemma AboveStep(gsc: seq<GradientStop>, n: nat, offset: real, ai: nat, a0: nat)
    requires n < |gsc| && ai < |gsc|
    requires FirstAtMax(gsc, a0)
    requires AboveScanned(gsc, n, offset, ai, a0)
    ensures gsc[n].offset > offset && gsc[n].offset < gsc[ai].offset ==> AboveScanned(gsc, n + 1, offset, n, a0)
    ensures !(gsc[n].offset > offset && gsc[n].offset < gsc[ai].offset) ==> AboveScanned(gsc, n + 1, offset, ai, a0)
  {
    if gsc[n].offset > offset && gsc[n].offset < gsc[ai].offset {
      assert NearestAboveWithin(gsc, n + 1, offset, n);
    } else if gsc[n].offset <= offset {
      if NearestAboveWithin(gsc, n, offset, ai) {
        assert NearestAboveWithin(gsc, n + 1, offset, ai);
      }
    } else if NearestAboveWithin(gsc, n, offset, ai) {
      assert NearestAboveWithin(gsc, n + 1, offset, ai);
    } else {
      assert gsc[n].offset == gsc[a0].offset;
      assert NearestAboveWithin(gsc, n + 1, offset, a0);
    }
  }

  /** The index `before` holds once the foreach has seen the first n stops, starting from stop b0. */
  function ScanBelow(gsc: seq<GradientStop>, n: nat, offset: real, b0: nat): (bi: nat)
    requires n <= |gsc| && b0 < |gsc|
    ensures bi < |gsc|
  {
    if n == 0 then b0
    else
      var bi := ScanBelow(gsc, n - 1, offset, b0);
      if gsc[n - 1].offset < offset && gsc[n - 1].offset > gsc[bi].offset then n - 1 else bi
  }

  /** The index `after` holds once the foreach has seen the first n stops, starting from stop a0. */
  function ScanAbove(gsc: seq<GradientStop>, n: nat, offset: real, a0: nat): (ai: nat)
    requires n <= |gsc| && a0 < |gsc|
    ensures ai < |gsc|
  {
    if n == 0 then a0
    else
      var ai := ScanAbove(gsc, n - 1, offset, a0);
      if gsc[n - 1].offset > offset && gsc[n - 1].offset < gsc[ai].offset then n - 1 else ai
  }

  /** Starting from the first stop at the minimum offset, the scan for `before` keeps BelowScanned. */
  lemma {:induction false} ScanBelowScanned(gsc: seq<GradientStop>, n: nat, offset: real, b0: nat)
    requires n <= |gsc| && FirstAtMin(gsc, b0)
    ensures BelowScanned(gsc, n, offset, ScanBelow(gsc, n, offset, b0), b0)
  {
    if n > 0 {
      ScanBelowScanned(gsc, n - 1, offset, b0);
      BelowStep(gsc, n - 1, offset, ScanBelow(gsc, n - 1, offset, b0), b0);
    }
  }

  /** Starting from the first stop at the maximum offset, the scan for `after` keeps AboveScanned. */
  lemma {:induction false} ScanAboveScanned(gsc: seq<GradientStop>, n: nat, offset: real, a0: nat)
    requires n <= |gsc| && FirstAtMax(gsc, a0)
    ensures AboveScanned(gsc, n, offset, ScanAbove(gsc, n, offset, a0), a0)
  {
    if n > 0 {
      ScanAboveScanned(gsc, n - 1, offset, a0);
      AboveStep(gsc, n - 1, offset, ScanAbove(gsc, n - 1, offset, a0), a0);
    }
  }

  /** After the whole collection, `before` is the stop Before names. */
  lemma BelowScanDone(gsc: seq<GradientStop>, offset: real, bi: nat)
    requires |gsc| > 0
    requires BelowScanned(gsc, |gsc|, offset, bi, FirstWith(gsc, MinOffset(gsc)))
    ensures bi == Before(gsc, offset)
  {
    match NearestBelow(gsc, offset) {
      case Some(k) => NearestBelowUnique(gsc, |gsc|, offset, bi, k);
      case None =>
    }
  }

  /** After the whole collection, `after` is the stop After names. */
  lemma AboveScanDone(gsc: seq<GradientStop>, offset: real, ai: nat)
    requires |gsc| > 0
    requires AboveScanned(gsc, |gsc|, offset, ai, FirstWith(gsc, MaxOffset(gsc)))
    ensures ai == After(gsc, offset)
  {
    match NearestAbove(gsc, offset) {
      case Some(k) => NearestAboveUnique(gsc, |gsc|, offset, ai, k);
      case None =>
    }
  }

  /** Without an exact match, the lookup interpolates between the stops Before and After name. */
  lemma RelativeColorWithoutMatch(cs: ColorSpace, stops: seq<GradientStop>, offset: real)
    requires |stops| > 0 && SingleOrDefault(stops, offset) == Ok(None)
    ensures RelativeColor(cs, stops, offset)
         == Interpolate(cs, stops[Before(stops, offset)], stops[After(stops, offset)], offset)
  {
  }

  /** The starting stops of the scan are the first ones at the minimum and the maximum offset. */
  lemma ScanStart(gsc: seq<GradientStop>)
    requires |gsc| > 0
    ensures FirstAtMin(gsc, FirstWith(gsc, MinOffset(gsc)))
    ensures FirstAtMax(gsc, FirstWith(gsc, MaxOffset(gsc)))
  {
  }

  /**
   * MandelColor.GetRelativeColor: the exact-match lookup, then the foreach that
   * moves `before` and `after` towards the requested offset, then the channel
   * formulas.
   */
  method GetRelativeColor(cs: ColorSpace, gsc: seq<GradientStop>, offset: real) returns (r: Result<Color, LookupError>)
    ensures r == RelativeColor(cs, gsc, offset)
  {
    var point := SingleOrDefault(gsc, offset);
    if point.Err? {
      return Err(point.error);
    }
    if point.value.Some? {
      return Ok(point.value.value.color);
    }
    if |gsc| == 0 {
      return Err(NoElements);
    }
    var b0 := FirstWith(gsc, MinOffset(gsc));
    var a0 := FirstWith(gsc, MaxOffset(gsc));
    var before := gsc[b0];
    var after := gsc[a0];
    ghost var bi := b0;
    ghost var ai := a0;
    for n := 0 to |gsc|
      invariant bi == ScanBelow(gsc, n, offset, b0) && before == gsc[bi]
      invariant ai == ScanAbove(gsc, n, offset, a0) && after == gsc[ai]
    {
      var gs := gsc[n];
      if gs.offset < offset && gs.offset > before.offset {
        before := gs;
        bi := n;
      }
      if gs.offset > offset && gs.offset < after.offset {
        after := gs;
        ai := n;
      }
    }
    ScanStart(gsc);
    ScanBelowScanned(gsc, |gsc|, offset, b0);
    ScanAboveScanned(gsc, |gsc|, offset, a0);
    BelowScanDone(gsc, offset, bi);
    AboveScanDone(gsc, offset, ai);
    RelativeColorWithoutMatch(cs, gsc, offset);
    r := Interpolate(cs, before, after, offset);
  }

  // ---------------------------------------------------------------------
  // What the lookup returns
  // ---------------------------------------------------------------------

  /** No two stops share an offset. */
  predicate UniqueOffsets(stops: seq<GradientStop>) {
    forall i, j :: 0 <= i < j < |stops| ==> stops[i].offset != stops[j].offset
  }

  /** No stop at the requested offset, no match. */
  lemma {:induction false} MatchingNone(stops: seq<GradientStop>, offset: real)
    requires forall k :: 0 <= k < |stops| ==> stops[k].offset != offset
    ensures Matching(stops, offset) == []
  {
    if |stops| > 0 {
      assert forall k :: 0 <= k < |stops[1..]| ==> stops[1..][k] == stops[k + 1];
      MatchingNone(stops[1..], offset);
    }
  }

  /** With unique offsets, the stop at the requested offset is the only match. */
  lemma {:induction false} MatchingUnique(stops: seq<GradientStop>, offset: real, i: nat)
    requires UniqueOffsets(stops) && i < |stops| && stops[i].offset == offset
    ensures Matching(stops, offset) == [stops[i]]
  {
    var rest := stops[1..];
    assert UniqueOffsets(rest) by {
      forall p, q | 0 <= p < q < |rest| ensures rest[p].offset != rest[q].offset {
        assert rest[p] == stops[p + 1] && rest[q] == stops[q + 1];
      }
    }
    if i == 0 {
      assert forall k :: 0 <= k < |rest| ==> rest[k] == stops[k + 1];
      MatchingNone(rest, offset);
    } else {
      assert stops[0].offset != offset;
      MatchingUnique(rest, offset, i - 1);
    }
  }

  /** Two stops at the requested offset give at least two matches. */
  lemma {:induction false} MatchingTwo(stops: seq<GradientStop>, offset: real, i: nat, j: nat)
    requires i < j < |stops| && stops[i].offset == offset && stops[j].offset == offset
    ensures |Matching(stops, offset)| >= 2
  {
    var rest := stops[1..];
    assert stops[j] == rest[j - 1];
    if i == 0 {
      assert stops[j] in Matching(rest, offset);
    } else {
      assert stops[i] == rest[i - 1];
      MatchingTwo(rest, offset, i - 1, j - 1);
    }
  }

  /** An exact match among unique offsets returns that stop's colour unchanged. */
  lemma ExactMatch(cs: ColorSpace, stops: seq<GradientStop>, offset: real, i: nat)
    requires UniqueOffsets(stops) && i < |stops| && stops[i].offset == offset
    ensures RelativeColor(cs, stops, offset) == Ok(stops[i].color)
  {
    MatchingUnique(stops, offset, i);
  }

  /** Two stops at the requested offset make SingleOrDefault throw. */
  lemma DuplicateMatch(cs: ColorSpace, stops: seq<GradientStop>, offset: real, i: nat, j: nat)
    requires i < j < |stops| && stops[i].offset == offset && stops[j].offset == offset
    ensures RelativeColor(cs, stops, offset) == Err(MoreThanOneMatch)
  {
    MatchingTwo(stops, offset, i, j);
  }

  /** An empty collection has no match, so Min throws. */
  lemma EmptyCollection(cs: ColorSpace, offset: real)
    ensures RelativeColor(cs, [], offset) == Err(NoElements)
  {
  }

  /** Channel value v lies between p and q. */
  predicate Between(v: real, p: real, q: real) {
    (p <= v <= q) || (q <= v <= p)
  }

  /**
   * Strictly inside the range of offsets and with no exact match, `before`
   * ends on the nearest stop below and `after` on the nearest stop above.
   */
  lemma BracketStops(stops: seq<GradientStop>, offset: real)
    requires |stops| > 0
    requires MinOffset(stops) < offset < MaxOffset(stops)
    ensures IsNearestBelow(stops, offset, Before(stops, offset))
    ensures IsNearestAbove(stops, offset, After(stops, offset))
    ensures stops[Before(stops, offset)].offset < offset < stops[After(stops, offset)].offset
  {
    var lo :| 0 <= lo < |stops| && stops[lo].offset == MinOffset(stops);
    var hi :| 0 <= hi < |stops| && stops[hi].offset == MaxOffset(stops);
    assert stops[lo].offset < offset && stops[hi].offset > offset;
  }

  /** Between two stops at different offsets every interpolated channel lies between theirs. */
  lemma InterpolateBetween(cs: ColorSpace, before: GradientStop, after: GradientStop, offset: real)
    requires before.offset < offset < after.offset
    ensures Interpolate(cs, before, after, offset).Ok?
    ensures var b, a, c := before.color.sc, after.color.sc, Interpolate(cs, before, after, offset).value.sc;
            Between(c.a, b.a, a.a) && Between(c.r, b.r, a.r) && Between(c.g, b.g, a.g) && Between(c.b, b.b, a.b)
  {
    var b, a := before.color.sc, after.color.sc;
    LerpBetween(offset, before.offset, after.offset, b.a, a.a);
    LerpBetween(offset, before.offset, after.offset, b.r, a.r);
    LerpBetween(offset, before.offset, after.offset, b.g, a.g);
    LerpBetween(offset, before.offset, after.offset, b.b, a.b);
  }

  /**
   * Strictly inside the range of offsets and with no exact match, the lookup
   * interpolates between the nearest stop below and the nearest stop above,
   * and every channel of the result lies between theirs.
   */
  lemma Bracketed(cs: ColorSpace, stops: seq<GradientStop>, offset: real)
    requires |stops| > 0
    requires forall j :: 0 <= j < |stops| ==> stops[j].offset != offset
    requires MinOffset(stops) < offset < MaxOffset(stops)
    ensures IsNearestBelow(stops, offset, Before(stops, offset))
    ensures IsNearestAbove(stops, offset, After(stops, offset))
    ensures RelativeColor(cs, stops, offset).Ok?
    ensures var b, a, c := stops[Before(stops, offset)].color.sc, stops[After(stops, offset)].color.sc,
                           RelativeColor(cs, stops, offset).value.sc;
            Between(c.a, b.a, a.a) && Between(c.r, b.r, a.r) && Between(c.g, b.g, a.g) && Between(c.b, b.b, a.b)
  {
    BracketStops(stops, offset);
    MatchingNone(stops, offset);
    RelativeColorWithoutMatch(cs, stops, offset);
    InterpolateBetween(cs, stops[Before(stops, offset)], stops[After(stops, offset)], offset);
  }

  /**
   * Below every offset, the nearest stop above is the first stop at the
   * minimum offset, where `before` starts and stays.
   */
  lemma BelowRange(stops: seq<GradientStop>, offset: real)
    requires |stops| > 0 && offset < MinOffset(stops)
    ensures Before(stops, offset) == After(stops, offset)
  {
    var b0 := FirstWith(stops, MinOffset(stops));
    assert NearestBelow(stops, offset).None?;
    assert stops[0].offset > offset;
    var k := NearestAbove(stops, offset).value;
    assert NearestAboveWithin(stops, |stops|, offset, b0);
    NearestAboveUnique(stops, |stops|, offset, k, b0);
  }

  /**
   * Above every offset, the nearest stop below is the first stop at the
   * maximum offset, where `after` starts and stays.
   */
  lemma AboveRange(stops: seq<GradientStop>, offset: real)
    requires |stops| > 0 && offset > MaxOffset(stops)
    ensures Before(stops, offset) == After(stops, offset)
  {
    var a0 := FirstWith(stops, MaxOffset(stops));
    assert NearestAbove(stops, offset).None?;
    assert stops[0].offset < offset;
    var k := NearestBelow(stops, offset).value;
    assert NearestBelowWithin(stops, |stops|, offset, a0);
    NearestBelowUnique(stops, |stops|, offset, k, a0);
  }

  /**
   * Without an exact match, the lookup yields NaN channels exactly when the
   * requested offset lies outside the range of offsets; then `before` and
   * `after` are one and the same stop, so every channel is 0/0.
   */
  lemma OutOfRange(cs: ColorSpace, stops: seq<GradientStop>, offset: real)
    requires |stops| > 0
    requires forall j :: 0 <= j < |stops| ==> stops[j].offset != offset
    ensures RelativeColor(cs, stops, offset) == Err(NotANumber)
        <==> offset < MinOffset(stops) || offset > MaxOffset(stops)
    ensures offset < MinOffset(stops) || offset > MaxOffset(stops) ==> Before(stops, offset) == After(stops, offset)
  {
    MatchingNone(stops, offset);
    RelativeColorWithoutMatch(cs, stops, offset);
    if offset < MinOffset(stops) {
      BelowRange(stops, offset);
    } else if offset > MaxOffset(stops) {
      AboveRange(stops, offset);
    } else {
      Bracketed(cs, stops, offset);
    }
  }

  /** Stops with distinct offsets spanning exactly [0, 1], as the gradient's. */
  predicate UnitGradient(stops: seq<GradientStop>) {
    |stops| > 0 && UniqueOffsets(stops) && MinOffset(stops) == 0.0 && MaxOffset(stops) == 1.0
  }

  /** On such stops a lookup in [0, 1] yields a colour. */
  lemma UnitInside(cs: ColorSpace, stops: seq<GradientStop>, offset: real)
    requires UnitGradient(stops) && 0.0 <= offset <= 1.0
    ensures RelativeColor(cs, stops, offset).Ok?
  {
    if k :| 0 <= k < |stops| && stops[k].offset == offset {
      ExactMatch(cs, stops, offset, k);
    } else {
      Bracketed(cs, stops, offset);
    }
  }

  /** On such stops a lookup outside [0, 1] yields NaN channels. */
  lemma UnitOutside(cs: ColorSpace, stops: seq<GradientStop>, offset: real)
    requires UnitGradient(stops) && (offset < 0.0 || offset > 1.0)
    ensures RelativeColor(cs, stops, offset) == Err(NotANumber)
  {
    OutOfRange(cs, stops, offset);
  }

  // ---------------------------------------------------------------------
  // The static gradient, GetColor and FromIterations
  // ---------------------------------------------------------------------

  /**
   * Stop k of the gradient MandelColor's static constructor builds: eleven
   * named colours at offsets 0, 0.1, ..., 1.
   */
  function GradientStopAt(cs: ColorSpace, k: int): (g: GradientStop)
    requires 0 <= k < 11
    ensures g.offset == k as real / 10.0
  {
    match k
    case 0 => GradientStop(FromRgb(cs, 0xFF, 0x00, 0x00), 0.0)   // Red
    case 1 => GradientStop(FromRgb(cs, 0xFF, 0x45, 0x00), 0.1)   // OrangeRed
    case 2 => GradientStop(FromRgb(cs, 0xFF, 0xA5, 0x00), 0.2)   // Orange
    case 3 => GradientStop(FromRgb(cs, 0xFF, 0xFF, 0x00), 0.3)   // Yellow
    case 4 => GradientStop(FromRgb(cs, 0x9A, 0xCD, 0x32), 0.4)   // YellowGreen
    case 5 => GradientStop(FromRgb(cs, 0x00, 0x80, 0x00), 0.5)   // Green
    case 6 => GradientStop(FromRgb(cs, 0x00, 0x80, 0x80), 0.6)   // Teal
    case 7 => GradientStop(FromRgb(cs, 0x00, 0x00, 0xFF), 0.7)   // Blue
    case 8 => GradientStop(FromRgb(cs, 0x8A, 0x2B, 0xE2), 0.8)   // BlueViolet
    case 9 => GradientStop(FromRgb(cs, 0x94, 0x00, 0xD3), 0.9)   // DarkViolet
    case _ => GradientStop(FromRgb(cs, 0x8B, 0x00, 0x8B), 1.0)   // DarkMagenta
  }

  /** The static MandelColor.Gradient collection, in the order the stops are added. */
  function Gradient(cs: ColorSpace): (g: seq<GradientStop>)
    ensures |g| == 11
  {
    seq(11, k requires 0 <= k < 11 => GradientStopAt(cs, k))
  }

  /** The gradient's offsets are k/10 for k = 0..10: unique, from 0 to 1. */
  lemma GradientOffsets(cs: ColorSpace)
    ensures forall k :: 0 <= k < 11 ==> Gradient(cs)[k].offset == k as real / 10.0
    ensures UnitGradient(Gradient(cs))
  {
    var g := Gradient(cs);
    forall k | 0 <= k < 11
      ensures g[k].offset == k as real / 10.0
    {
      assert g[k] == GradientStopAt(cs, k);
    }
    var lo :| 0 <= lo < |g| && g[lo].offset == MinOffset(g);
    var hi :| 0 <= hi < |g| && g[hi].offset == MaxOffset(g);
    assert g[0].offset == 0.0 && g[10].offset == 1.0;
  }

  /** MandelColor.GetColor: the gradient looked up at 1 - value. */
  function GetColor(cs: ColorSpace, value: real): Result<Color, LookupError> {
    RelativeColor(cs, Gradient(cs), 1.0 - value)
  }

  /**
   * GetColor never throws: a value in [0, 1] yields a colour, any other value
   * NaN channels.
   */
  lemma GetColorCases(cs: ColorSpace, value: real)
    ensures 0.0 <= value <= 1.0 ==> GetColor(cs, value).Ok?
    ensures value < 0.0 || value > 1.0 ==> GetColor(cs, value) == Err(NotANumber)
  {
    GradientOffsets(cs);
    if 0.0 <= value <= 1.0 {
      UnitInside(cs, Gradient(cs), 1.0 - value);
    } else {
      UnitOutside(cs, Gradient(cs), 1.0 - value);
    }
  }

  /**
   * MandelColor.FromIterations: black for a point that used the whole budget,
   * otherwise the bytes of GetColor(iterations / maxIterations), that is of the
   * gradient colour at 1 - iterations / maxIterations. A zero budget makes that
   * quotient infinite and the lookup NaN. The lookup of this gradient throws
   * nothing (GetColorCases), so NaN is its only failure.
   */
  function FromIterations(cs: ColorSpace, iterations: real, maxIterations: int): MandelColor {
    if iterations == maxIterations as real then Black
    else if maxIterations == 0 then NaNColor(cs)
    else
      var q := iterations / maxIterations as real;
      GetColorCases(cs, q);
      match GetColor(cs, q)
      case Ok(c) => MandelColor(c.r, c.g, c.b)
      case Err(NotANumber) => NaNColor(cs)
  }

  /** A quotient of 0 <= p < q lies in [0, 1). */
  lemma QuotientInUnit(p: real, q: real)
    requires 0.0 <= p < q
    ensures 0.0 <= p / q < 1.0
  {
    DivNonneg(p, q);
    var r := p / q;
    assert r * q == p;
    assert (1.0 - r) * q == q - p;
    assert 1.0 - r > 0.0 by {
      var s := (q - p) / q;
      assert s * q == q - p;
      DivNonneg(q - p, q);
      assert (1.0 - r - s) * q == 0.0;
    }
  }

  /** A quotient of 0 < q < p exceeds 1. */
  lemma QuotientAboveOne(p: real, q: real)
    requires 0.0 < q < p
    ensures p / q > 1.0
  {
    QuotientInUnit(q, p);
    assert (p / q) * (q / p) == 1.0;
  }

  /** A negative divided by a positive is negative. */
  lemma QuotientNegative(p: real, q: real)
    requires p < 0.0 < q
    ensures p / q < 0.0
  {
    DivNonneg(-p, q);
    assert -p / q == -(p / q);
    assert p / q != 0.0 by { assert (p / q) * q == p; }
  }

  /** A point that used the whole budget is black. */
  lemma FromIterationsInterior(cs: ColorSpace, maxIterations: int)
    ensures FromIterations(cs, maxIterations as real, maxIterations) == Black
  {
  }

  /**
   * A count in [0, maxIterations) gets the sRGB bytes of the gradient colour
   * at 1 - iterations / maxIterations, which is never NaN.
   */
  lemma FromIterationsEscaped(cs: ColorSpace, iterations: real, maxIterations: int)
    requires 0.0 <= iterations < maxIterations as real
    ensures var c := GetColor(cs, iterations / maxIterations as real);
            c.Ok? && FromIterations(cs, iterations, maxIterations) == MandelColor(c.value.r, c.value.g, c.value.b)
  {
    QuotientInUnit(iterations, maxIterations as real);
    GetColorCases(cs, iterations / maxIterations as real);
  }

  /**
   * A count outside [0, maxIterations], or any count but 0 with a zero budget,
   * gets the bytes of a NaN colour.
   */
  lemma FromIterationsNaN(cs: ColorSpace, iterations: real, maxIterations: int)
    requires maxIterations >= 0 && iterations != maxIterations as real
    requires maxIterations == 0 || iterations < 0.0 || iterations > maxIterations as real
    ensures FromIterations(cs, iterations, maxIterations) == NaNColor(cs)
  {
    if maxIterations != 0 {
      var q := iterations / maxIterations as real;
      assert q < 0.0 || q > 1.0 by {
        if iterations < 0.0 {
          QuotientNegative(iterations, maxIterations as real);
        } else {
          QuotientAboveOne(iterations, maxIterations as real);
        }
      }
      GetColorCases(cs, q);
    }
  }

  // ---------------------------------------------------------------------
  // Only the interior is black
  // ---------------------------------------------------------------------

  /**
   * What the sRGB conversion does for the argument below: a linear value at
   * least that of a nonzero byte converts back to a nonzero byte (true of
   * WPF's monotone, round-tripping conversion).
   */
  ghost predicate KeepsNonzero(cs: ColorSpace) {
    forall b: byte, v: real {:trigger cs.toLinear(b), cs.toSrgb(v)} ::
      b != 0 && v >= cs.toLinear(b) ==> cs.toSrgb(v) != 0
  }

  /** The scRGB channels of c are the linear values of its bytes, as for a named colour. */
  predicate ByteBacked(cs: ColorSpace, c: Color) {
    c.sc.r == cs.toLinear(c.r) && c.sc.g == cs.toLinear(c.g) && c.sc.b == cs.toLinear(c.b)
  }

  /** Some channel is nonzero in both colours. */
  predicate SharesChannel(c1: Color, c2: Color) {
    (c1.r != 0 && c2.r != 0) || (c1.g != 0 && c2.g != 0) || (c1.b != 0 && c2.b != 0)
  }

  predicate IsBlack(c: Color) {
    c.r == 0 && c.g == 0 && c.b == 0
  }

  /** Between two stops that share a nonzero channel, the interpolated colour is not black. */
  lemma InterpolateNotBlack(cs: ColorSpace, before: GradientStop, after: GradientStop, offset: real)
    requires KeepsNonzero(cs)
    requires ByteBacked(cs, before.color) && ByteBacked(cs, after.color)
    requires SharesChannel(before.color, after.color)
    requires before.offset < offset < after.offset
    ensures Interpolate(cs, before, after, offset).Ok?
    ensures !IsBlack(Interpolate(cs, before, after, offset).value)
  {
    InterpolateBetween(cs, before, after, offset);
    var b, a := before.color, after.color;
    var c := Interpolate(cs, before, after, offset).value;
    if b.r != 0 && a.r != 0 {
      assert c.sc.r >= cs.toLinear(b.r) || c.sc.r >= cs.toLinear(a.r);
      assert c.r == cs.toSrgb(c.sc.r);
    } else if b.g != 0 && a.g != 0 {
      assert c.sc.g >= cs.toLinear(b.g) || c.sc.g >= cs.toLinear(a.g);
      assert c.g == cs.toSrgb(c.sc.g);
    } else {
      assert c.sc.b >= cs.toLinear(b.b) || c.sc.b >= cs.toLinear(a.b);
      assert c.b == cs.toSrgb(c.sc.b);
    }
  }

  /**
   * No stop of the gradient is black, each holds the linear values of its
   * bytes, and each stop shares a nonzero channel with the next one.
   */
  lemma GradientColors(cs: ColorSpace, k: int)
    requires 0 <= k < 11
    ensures !IsBlack(GradientStopAt(cs, k).color)
    ensures ByteBacked(cs, GradientStopAt(cs, k).color)
    ensures k < 10 ==> SharesChannel(GradientStopAt(cs, k).color, GradientStopAt(cs, k + 1).color)
  {
  }

  /**
   * An offset strictly between two gradient offsets is bracketed by two
   * neighbouring stops.
   */
  lemma GradientBracket(cs: ColorSpace, offset: real)
    requires 0.0 < offset < 1.0
    requires forall k :: 0 <= k < 11 ==> Gradient(cs)[k].offset != offset
    ensures 0 <= Before(Gradient(cs), offset) < 10
    ensures After(Gradient(cs), offset) == Before(Gradient(cs), offset) + 1
    ensures Gradient(cs)[Before(Gradient(cs), offset)].offset < offset < Gradient(cs)[After(Gradient(cs), offset)].offset
  {
    var g := Gradient(cs);
    GradientOffsets(cs);
    BracketStops(g, offset);
    var b, a := Before(g, offset), After(g, offset);
    assert g[b].offset == b as real / 10.0 && g[a].offset == a as real / 10.0;
    assert b < a;
    assert g[b + 1].offset == (b + 1) as real / 10.0;
  }

  /** GetColor of a value in [0, 1) is a colour that is not black. */
  lemma GetColorNotBlack(cs: ColorSpace, value: real)
    requires KeepsNonzero(cs) && 0.0 <= value < 1.0
    ensures GetColor(cs, value).Ok? && !IsBlack(GetColor(cs, value).value)
  {
    var g, offset := Gradient(cs), 1.0 - value;
    GradientOffsets(cs);
    if k :| 0 <= k < 11 && g[k].offset == offset {
      ExactMatch(cs, g, offset, k);
      GradientColors(cs, k);
    } else {
      MatchingNone(g, offset);
      RelativeColorWithoutMatch(cs, g, offset);
      GradientBracket(cs, offset);
      var b := Before(g, offset);
      GradientColors(cs, b);
      GradientColors(cs, b + 1);
      InterpolateNotBlack(cs, g[b], g[b + 1], offset);
    }
  }

  /**
   * For a count in [0, maxIterations], FromIterations is black exactly when
   * the count is maxIterations: every escaped point gets a visible colour.
   */
  lemma FromIterationsBlack(cs: ColorSpace, iterations: real, maxIterations: int)
    requires KeepsNonzero(cs)
    requires 0.0 <= iterations <= maxIterations as real
    ensures FromIterations(cs, iterations, maxIterations) == Black <==> iterations == maxIterations as real
  {
    if iterations != maxIterations as real {
      var q := iterations / maxIterations as real;
      QuotientInUnit(iterations, maxIterations as real);
      GetColorNotBlack(cs, q);
    }
  }

  // ---------------------------------------------------------------------
  // Rgb
  // ---------------------------------------------------------------------

  /** MandelColor.Rgb: Red << 16 | Green << 8 | Blue, a 32-bit word. */
  function Rgb(c: MandelColor): bv32 {
    (c.red as bv32 << 16) | (c.green as bv32 << 8) | (c.blue as bv32 << 0)
  }

  /** Three bytes shifted into place and or-ed together add up without carries. */
  lemma PackBits(r: bv32, g: bv32, b: bv32)
    requires r < 256 && g < 256 && b < 256
    ensures (r << 16) | (g << 8) | (b << 0) == r * 65536 + g * 256 + b
    ensures r * 65536 + g * 256 + b < 0x100_0000
  {
  }

  /** The packed value is R * 65536 + G * 256 + B, a 24-bit number. */
  lemma RgbValue(c: MandelColor)
    ensures Rgb(c) == c.red as bv32 * 65536 + c.green as bv32 * 256 + c.blue as bv32
    ensures Rgb(c) < 0x100_0000
  {
    PackBits(c.red as bv32, c.green as bv32, c.blue as bv32);
  }

  /** Each byte comes back out by shift and mask. */
  lemma RgbUnpack(c: MandelColor)
    ensures ((Rgb(c) >> 16) & 0xFF) as byte == c.red
    ensures ((Rgb(c) >> 8) & 0xFF) as byte == c.green
    ensures (Rgb(c) & 0xFF) as byte == c.blue
  {
  }
}
