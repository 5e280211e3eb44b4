/** Keeping a viewer window at the session's aspect ratio: integer rounding with u64
  * products, and the feedback loop with a compositor that may grant a request, ignore
  * it or report any other size.
  */
module AspectResize {
  import opened Options

  const U32_MAX: nat := 0xFFFF_FFFF
  const U64_MAX: nat := 0xFFFF_FFFF_FFFF_FFFF

  datatype Size = Size(width: nat, height: nat)

  predicate U32(n: nat) {
    n <= U32_MAX
  }

  predicate Positive(size: Size) {
    0 < size.width <= U32_MAX && 0 < size.height <= U32_MAX
  }

  /** `of` times `numerator` over `denominator`, rounded to nearest with halves up. */
  function Scaled(of: nat, numerator: nat, denominator: nat): nat
    requires denominator > 0
  {
    (of * numerator + denominator / 2) / denominator
  }

  function Clamp(n: nat): nat {
    if n < 1 then 1 else if n > U32_MAX then U32_MAX else n
  }

  function HeightFor(source: Size, width: nat): nat
    requires Positive(source)
  {
    Clamp(Scaled(width, source.height, source.width))
  }

  function WidthFor(source: Size, height: nat): nat
    requires Positive(source)
  {
    Clamp(Scaled(height, source.width, source.height))
  }

  datatype Request = Request(reported: Size, target: Size)

  datatype Aspect = Aspect(previous: Option<Size>, requested: Option<Request>)

  predicate Settled(source: Size, size: Size)
    requires Positive(source)
  {
    HeightFor(source, size.width) == size.height || WidthFor(source, size.height) == size.width
  }

  function Distance(a: nat, b: nat): nat {
    if a < b then b - a else a - b
  }

  predicate FollowsWidth(source: Size, previous: Option<Size>, size: Size)
    requires Positive(source)
  {
    match previous
    case Some(was) => Distance(size.width, was.width) * was.height >= Distance(size.height, was.height) * was.width
    case None => HeightFor(source, size.width) <= size.height
  }

  function Target(source: Size, previous: Option<Size>, size: Size): Size
    requires Positive(source)
  {
    if FollowsWidth(source, previous, size) then Size(size.width, HeightFor(source, size.width))
    else Size(WidthFor(source, size.height), size.height)
  }

  /** The state after one reported size, and the size then requested, if any. */
  function Resized(source: Size, before: Aspect, size: Size): (Aspect, Option<Size>)
    requires Positive(source)
  {
    if size.width == 0 || size.height == 0 then (before, None)
    else if Settled(source, size) then (Aspect(Some(size), None), None)
    else
      var request := Some(Request(size, Target(source, before.previous, size)));
      (Aspect(Some(size), request), if before.requested == request then None else Some(request.value.target))
  }

  predicate Tracks(aspect: Aspect) {
    aspect.previous.Some? ==> Positive(aspect.previous.value)
  }

  class ViewerAspect {
    const source: Size
    var previous: Option<Size>
    var requested: Option<Request>

    constructor (source: Size)
      requires Positive(source)
      ensures this.source == source && View() == Aspect(None, None)
    {
      this.source := source;
      previous, requested := None, None;
    }

    ghost function View(): Aspect
      reads this
    {
      Aspect(previous, requested)
    }

    /** Every product is formed as the source does, in u64, and fits. */
    method Resize(size: Size) returns (request: Option<Size>)
      requires Positive(source) && U32(size.width) && U32(size.height) && Tracks(View())
      modifies this
      ensures (View(), request) == Resized(source, old(View()), size)
      ensures Tracks(View()) && (request.Some? ==> Positive(request.value))
    {
      if size.width == 0 || size.height == 0 {
        return None;
      }
      var before := previous;
      previous := Some(size);
      var height := Correct(size.width, source.height, source.width);
      var width := Correct(size.height, source.width, source.height);
      if height == size.height || width == size.width {
        requested := None;
        return None;
      }
      var followWidth;
      if before.Some? {
        var across := Wide(Distance(size.width, before.value.width), before.value.height);
        var along := Wide(Distance(size.height, before.value.height), before.value.width);
        followWidth := across >= along;
      } else {
        followWidth := height <= size.height;
      }
      var target := if followWidth then Size(size.width, height) else Size(width, size.height);
      if requested == Some(Request(size, target)) {
        return None;
      }
      requested := Some(Request(size, target));
      return Some(target);
    }
  }

  /** A product of two u32 values as a u64. */
  method Wide(a: nat, b: nat) returns (product: nat)
    requires U32(a) && U32(b)
    ensures product == a * b <= U64_MAX
  {
    Product(a, b, 0);
    product := a * b;
  }

  method Correct(of: nat, numerator: nat, denominator: nat) returns (side: nat)
    requires U32(of) && U32(numerator) && U32(denominator) && denominator > 0
    ensures side == Clamp(Scaled(of, numerator, denominator))
    ensures of * numerator + denominator / 2 <= U64_MAX
  {
    Product(of, numerator, denominator / 2);
    side := Clamp((of * numerator + denominator / 2) / denominator);
  }

  lemma Product(a: nat, b: nat, c: nat)
    requires U32(a) && U32(b) && c <= U32_MAX
    ensures 0 <= a * b && a * b + c <= U64_MAX
  {
    assert a * b <= U32_MAX * U32_MAX by {
      Larger(a, U32_MAX, b);
      Larger(b, U32_MAX, U32_MAX);
    }
  }

  lemma Larger(a: nat, b: nat, c: nat)
    requires a <= b
    ensures a * c <= b * c
  {
  }

  // ----- rounding

  lemma RoundingBounds(n: int, d: int)
    requires d > 0
    ensures d * ((n + d / 2) / d) <= n + d / 2 < d * ((n + d / 2) / d) + d
  {
  }

  /** A correction that was not clamped is within half a unit of the exact ratio. */
  lemma CorrectionIsNearest(source: Size, size: Size)
    requires Positive(source)
    ensures var height := HeightFor(source, size.width);
      1 < height < U32_MAX ==>
        && 2 * (size.width * source.height) <= 2 * (height * source.width) + source.width
        && 2 * (height * source.width) <= 2 * (size.width * source.height) + source.width
    ensures var width := WidthFor(source, size.height);
      1 < width < U32_MAX ==>
        && 2 * (size.height * source.width) <= 2 * (width * source.height) + source.height
        && 2 * (width * source.height) <= 2 * (size.height * source.width) + source.height
  {
    WithinHalfAUnit(size.width, source.height, source.width);
    WithinHalfAUnit(size.height, source.width, source.height);
  }

  lemma WithinHalfAUnit(of: nat, numerator: nat, denominator: nat)
    requires denominator > 0
    ensures 2 * (of * numerator) <= 2 * (Scaled(of, numerator, denominator) * denominator) + denominator
    ensures 2 * (Scaled(of, numerator, denominator) * denominator) <= 2 * (of * numerator) + denominator
  {
    RoundingBounds(of * numerator, denominator);
  }

  /** If a width's exact height does not fit, the height's exact width does. */
  lemma OneSideFits(source: Size, size: Size)
    requires Positive(source) && Positive(size)
    requires size.height < HeightFor(source, size.width)
    ensures WidthFor(source, size.height) <= size.width
  {
    var tall := Scaled(size.width, source.height, source.width);
    var wide := Scaled(size.height, source.width, source.height);
    assert size.height < tall;
    ScaledBound(size.width, source.height, source.width);
    ScaledBound(size.height, source.width, source.height);
    SmallerSide(size.width, size.height, source.width, source.height, tall, wide);
  }

  lemma ScaledBound(of: nat, numerator: nat, denominator: nat)
    requires denominator > 0
    ensures denominator * Scaled(of, numerator, denominator) <= of * numerator + denominator / 2
  {
    RoundingBounds(of * numerator, denominator);
  }

  lemma SmallerSide(w: nat, h: nat, W: nat, H: nat, tall: nat, wide: nat)
    requires W > 0 && H > 0 && h < tall
    requires W * tall <= w * H + W / 2 && H * wide <= h * W + H / 2
    ensures wide <= w
  {
    Larger(h + 1, tall, W);
    if w < wide {
      Larger(w + 1, wide, H);
    }
  }

  /** The first correction never asks for more than the configured size. */
  lemma FirstRequestFitsInside(source: Size, size: Size)
    requires Positive(source) && Positive(size)
    ensures var request := Resized(source, Aspect(None, None), size).1;
      request.Some? ==> request.value.width <= size.width && request.value.height <= size.height
  {
    if size.height < HeightFor(source, size.width) {
      OneSideFits(source, size);
    }
  }

  /** How far a size is from the ratio, as the difference of the cross products. */
  function OffRatio(source: Size, size: Size): nat {
    Distance(size.width * source.height, size.height * source.width)
  }

  /** A size of exactly the ratio is left alone. */
  lemma ExactRatioIsLeftAlone(source: Size, before: Aspect, size: Size)
    requires Positive(source) && Positive(size) && OffRatio(source, size) == 0
    ensures Resized(source, before, size) == (Aspect(Some(size), None), None)
  {
    Exactly(size.height, source.width);
    assert Scaled(size.width, source.height, source.width) == size.height;
  }

  lemma Exactly(n: nat, d: nat)
    requires d > 0
    ensures (n * d + d / 2) / d == n
  {
    RoundingBounds(n * d, d);
    var q := (n * d + d / 2) / d;
    if q < n {
      Larger(q + 1, n, d);
    } else if n < q {
      Larger(n + 1, q, d);
    }
  }

  /** A size that is more than half a unit off on both sides, where neither correction is
    * clamped, is corrected: unless it was asked for just before, the new request is within half
    * a unit of the ratio.
    */
  lemma OffRatioIsCorrected(source: Size, before: Aspect, size: Size)
    requires Positive(source) && Positive(size)
    requires 2 * OffRatio(source, size) > source.width && 2 * OffRatio(source, size) > source.height
    requires 1 < HeightFor(source, size.width) < U32_MAX && 1 < WidthFor(source, size.height) < U32_MAX
    ensures var (after, request) := Resized(source, before, size);
      && after.previous == Some(size) && after.requested.Some? && after.requested.value.reported == size
      && (request.None? <==> before.requested == after.requested)
      && var target := after.requested.value.target;
         && (request.Some? ==> request == Some(target))
         && (target.width == size.width || target.height == size.height)
         && (2 * OffRatio(source, target) <= source.width || 2 * OffRatio(source, target) <= source.height)
  {
    CorrectionIsNearest(source, size);
    assert !Settled(source, size);
  }

  /** A granted correction is final: the next report requests nothing. */
  lemma GrantedRequestIsFixed(source: Size, before: Aspect, size: Size)
    requires Positive(source) && Positive(size)
    ensures var (after, request) := Resized(source, before, size);
      request.Some? ==> Resized(source, after, request.value).1.None? && Settled(source, request.value)
  {
  }

  /** How many requests a list of reports causes. */
  function Requests(source: Size, before: Aspect, reports: seq<Size>): nat
    requires Positive(source)
    decreases |reports|
  {
    if reports == [] then 0
    else
      var (after, request) := Resized(source, before, reports[0]);
      (if request.Some? then 1 else 0) + Requests(source, after, reports[1..])
  }

  /** A size that is reported over and over gets at most two requests, whatever came before. */
  lemma UnchangedSizeGetsAtMostTwo(source: Size, before: Aspect, size: Size, reports: seq<Size>)
    requires Positive(source) && forall i :: 0 <= i < |reports| ==> reports[i] == size
    ensures Requests(source, before, reports) <= 2
  {
    var once := Resized(source, before, size).0;
    var twice := Resized(source, once, size).0;
    if |reports| >= 2 {
      RepeatedReportIsIgnored(source, twice, size, reports[1..][1..]);
    }
  }

  lemma {:induction false} RepeatedReportIsIgnored(source: Size, before: Aspect, size: Size, reports: seq<Size>)
    requires Positive(source) && forall i :: 0 <= i < |reports| ==> reports[i] == size
    requires Resized(source, before, size) == (before, None)
    ensures Requests(source, before, reports) == 0
    decreases |reports|
  {
    if reports != [] {
      RepeatedReportIsIgnored(source, before, size, reports[1..]);
    }
  }

  /** The side the user dragged alone stays as dragged; only the other side is corrected. */
  lemma DraggedSideIsKept(source: Size, earlier: Size, requested: Option<Request>, size: Size)
    requires Positive(source) && Positive(earlier) && Positive(size)
    ensures var request := Resized(source, Aspect(Some(earlier), requested), size).1;
      request.Some? ==>
        && (size.height == earlier.height ==> request.value.width == size.width)
        && (size.width == earlier.width && size.height != earlier.height ==> request.value.height == size.height)
  {
    if size.width == earlier.width && size.height != earlier.height {
      assert Distance(size.width, earlier.width) * earlier.height == 0;
      Larger(1, Distance(size.height, earlier.height), earlier.width);
    }
  }
}
