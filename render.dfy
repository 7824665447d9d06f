/** The render plan: what one draw puts on the canvas, as a sequence of
    abstract primitives (filled rectangles and text anchored at a point)
    in the order they are drawn. */
module Render {
  import opened Calendar
  import opened Mapper
  import opened Events
  import opened Layout

  /** The fill style in force when a primitive is drawn. */
  datatype Fill = Black | MonthGrey | Colour(css: string)

  /** What a text primitive shows: a year number, an event title, or the
      (locale-formatted) date of an event. */
  datatype Content = YearNumber(year: int) | Caption(text: string) | DateCaption(day: int)

  /** A filled rectangle, or a text whose anchor is (x, y). Year labels start
      at x; event captions are centred on x. */
  datatype Primitive =
    | Rect(fill: Fill, x: int, y: int, width: int, height: int)
    | Text(fill: Fill, content: Content, x: int, y: int)

  /** Everything a draw reads besides the events: margins, zoom, first and
      last year, the canvas height, and which strings the canvas accepts as
      a CSS colour (it ignores a fill style it cannot parse and keeps the
      one in force). */
  datatype View = View(padding: Padding, zoom: real, offset: int, end: int, height: int,
                       isColour: string -> bool)

  /** The y coordinate of the axis bar. */
  function FromBottom(v: View): int { v.height - v.padding.bottom }

  /** The canvas x of a day: its pixel offset plus the left margin. */
  function XOf(v: View, day: int): int { GetPx(day, v.offset, v.zoom) + v.padding.left }

  // ---------------------------------------------------------------------
  // Axis, year separators, year labels and month ticks

  /** The 5 px axis bar, up to 1 January of end + 1 plus the 2 px of the last separator. */
  function Baseline(v: View): Primitive {
    Rect(Black, v.padding.left, FromBottom(v), GetPx(EndPlus(v.end, 1), v.offset, v.zoom) + 2, 5)
  }

  function YearLabel(v: View, y: int): Primitive {
    Text(Black, YearNumber(y), XOf(v, YearStart(y)), FromBottom(v) + 20)
  }

  function MonthTick(v: View, y: int, m: int): Primitive
    requires IsMonth(m)
  {
    Rect(MonthGrey, XOf(v, DayOf(y, m, 1)), FromBottom(v) - 50, 1, 50)
  }

  /** The full-height 2 px separator of year y. The fill style is left grey
      by the month ticks, so only a year after `end`, which has no ticks,
      gets a black separator. */
  function Separator(v: View, y: int): Primitive {
    Rect(if y <= v.end then MonthGrey else Black,
         XOf(v, YearStart(y)), v.padding.top, 2, FromBottom(v) - v.padding.top)
  }

  /** The ticks of months 2 .. k - 1 of year y. */
  function MonthTicks(v: View, y: int, k: int): seq<Primitive>
    requires 2 <= k <= 13
    decreases k
  {
    if k == 2 then [] else MonthTicks(v, y, k - 1) + [MonthTick(v, y, k - 1)]
  }

  /** What one iteration of the year loop draws. */
  function YearBlock(v: View, y: int): seq<Primitive> {
    if y <= v.end then [YearLabel(v, y)] + MonthTicks(v, y, 13) + [Separator(v, y)]
    else [Separator(v, y)]
  }

  /** YearBlock as a function of the year alone, for the loop over years. */
  function YearBlockOf(v: View): int -> seq<Primitive> {
    y => YearBlock(v, y)
  }

  /** What a loop over the years lo .. hi - 1 draws when year y draws f(y). */
  function Blocks(f: int -> seq<Primitive>, lo: int, hi: int): seq<Primitive>
    decreases hi - lo
  {
    if hi <= lo then [] else Blocks(f, lo, hi - 1) + f(hi - 1)
  }

  /** The year loop, from `offset` while the year is before end + 2. */
  method RenderYears(v: View) returns (plan: seq<Primitive>)
    ensures plan == Blocks(YearBlockOf(v), v.offset, v.end + 2)
  {
    plan := [];
    var i := v.offset;
    while i < v.end + 2
      invariant v.offset <= i && (i <= v.end + 2 || i == v.offset)
      invariant plan == Blocks(YearBlockOf(v), v.offset, i)
    {
      var block := RenderYear(v, i);
      NextYear(YearBlockOf(v), v.offset, i);
      plan := plan + block;
      i := i + 1;
    }
    SameYears(YearBlockOf(v), v.offset, i, v.end + 2);
  }

  /** One pass of the year loop, with the fill style tracked as the canvas
      keeps it: black at the start, grey once a month tick is drawn. */
  method RenderYear(v: View, i: int) returns (block: seq<Primitive>)
    ensures block == YearBlockOf(v)(i)
  {
    var fill := Black;
    var x := GetPx(YearStart(i), v.offset, v.zoom) + v.padding.left;
    block := [];
    if i <= v.end {
      var caption := Text(fill, YearNumber(i), x, FromBottom(v) + 20);
      var ticks := [];
      var k := 2;
      while k < 13
        invariant 2 <= k <= 13
        invariant ticks == MonthTicks(v, i, k)
        invariant fill == if k == 2 then Black else MonthGrey
      {
        fill := MonthGrey;
        var date := DayOf(i, k, 1);
        var tick := Rect(fill, GetPx(date, v.offset, v.zoom) + v.padding.left, FromBottom(v) - 50, 1, 50);
        assert tick == MonthTick(v, i, k);
        ticks := ticks + [tick];
        k := k + 1;
      }
      assert caption == YearLabel(v, i);
      block := [caption] + ticks;
    }
    var separator := Rect(fill, x, v.padding.top, 2, FromBottom(v) - v.padding.top);
    assert separator == Separator(v, i);
    block := block + [separator];
  }

  // ---------------------------------------------------------------------
  // Any loop over years

  /** A loop that stops at i draws what one that stops at hi draws, when
      i is hi or both ranges are empty. */
  lemma SameYears(f: int -> seq<Primitive>, lo: int, i: int, hi: int)
    requires i == hi || (i <= lo && hi <= lo)
    ensures Blocks(f, lo, i) == Blocks(f, lo, hi)
  {
  }

  /** One more pass of the loop appends what that year draws. */
  lemma NextYear(f: int -> seq<Primitive>, lo: int, i: int)
    requires lo <= i
    ensures Blocks(f, lo, i + 1) == Blocks(f, lo, i) + f(i)
  {
  }

  /** Whatever year y draws is in what the loop over a range holding y draws. */
  lemma {:induction false} BlockInBlocks(f: int -> seq<Primitive>, lo: int, hi: int, y: int, p: Primitive)
    requires lo <= y < hi && p in f(y)
    ensures p in Blocks(f, lo, hi)
    decreases hi - lo
  {
    if y < hi - 1 {
      BlockInBlocks(f, lo, hi - 1, y, p);
    }
  }

  /** Whatever the loop over a range draws, some year of the range drew it. */
  lemma {:induction false} InSomeBlock(f: int -> seq<Primitive>, lo: int, hi: int, p: Primitive)
    requires p in Blocks(f, lo, hi)
    ensures exists y :: lo <= y < hi && p in f(y)
    decreases hi - lo
  {
    if p !in f(hi - 1) {
      InSomeBlock(f, lo, hi - 1, p);
    }
  }

  function CountOf(s: seq<Primitive>, f: Primitive -> bool): nat {
    if s == [] then 0 else (if f(s[0]) then 1 else 0) + CountOf(s[1..], f)
  }

  lemma {:induction false} CountOfAppend(a: seq<Primitive>, b: seq<Primitive>, f: Primitive -> bool)
    ensures CountOf(a + b, f) == CountOf(a, f) + CountOf(b, f)
  {
    if a == [] {
      assert a + b == b;
    } else {
      CountOfAppend(a[1..], b, f);
      assert (a + b)[1..] == a[1..] + b;
    }
  }

  /** When every year of the range draws n primitives satisfying `test`, the
      loop draws n per year. */
  lemma {:induction false} CountBlocks(f: int -> seq<Primitive>, lo: int, hi: int, test: Primitive -> bool, n: nat)
    requires lo <= hi
    requires forall y :: lo <= y < hi ==> CountOf(f(y), test) == n
    ensures CountOf(Blocks(f, lo, hi), test) == n * (hi - lo)
    decreases hi - lo
  {
    if lo < hi {
      CountBlocks(f, lo, hi - 1, test, n);
      CountOfAppend(Blocks(f, lo, hi - 1), f(hi - 1), test);
      assert n * (hi - lo) == n * (hi - 1 - lo) + n;
    }
  }

  // ---------------------------------------------------------------------
  // Counting and locating primitives of the year loop

  predicate IsSeparator(v: View, p: Primitive) {
    p.Rect? && p.width == 2 && p.y == v.padding.top && p.height == FromBottom(v) - v.padding.top
  }

  predicate IsMonthTick(v: View, p: Primitive) {
    p.Rect? && p.width == 1 && p.height == 50 && p.y == FromBottom(v) - 50
  }

  predicate IsYearLabel(p: Primitive) {
    p.Text? && p.content.YearNumber?
  }

  lemma {:induction false} MonthTicksCounts(v: View, y: int, k: int)
    requires 2 <= k <= 13
    ensures |MonthTicks(v, y, k)| == k - 2
    ensures CountOf(MonthTicks(v, y, k), p => IsMonthTick(v, p)) == k - 2
    ensures CountOf(MonthTicks(v, y, k), p => IsSeparator(v, p)) == 0
    ensures CountOf(MonthTicks(v, y, k), IsYearLabel) == 0
    decreases k
  {
    if k > 2 {
      var t := MonthTicks(v, y, k - 1);
      MonthTicksCounts(v, y, k - 1);
      CountOfAppend(t, [MonthTick(v, y, k - 1)], p => IsMonthTick(v, p));
      CountOfAppend(t, [MonthTick(v, y, k - 1)], p => IsSeparator(v, p));
      CountOfAppend(t, [MonthTick(v, y, k - 1)], IsYearLabel);
    }
  }

  lemma YearBlockCounts(v: View, y: int)
    ensures CountOf(YearBlockOf(v)(y), p => IsSeparator(v, p)) == 1
    ensures CountOf(YearBlockOf(v)(y), IsYearLabel) == (if y <= v.end then 1 else 0)
    ensures CountOf(YearBlockOf(v)(y), p => IsMonthTick(v, p)) == (if y <= v.end then 11 else 0)
  {
    if y <= v.end {
      var t := MonthTicks(v, y, 13);
      MonthTicksCounts(v, y, 13);
      CountOfAppend([YearLabel(v, y)], t + [Separator(v, y)], p => IsSeparator(v, p));
      CountOfAppend(t, [Separator(v, y)], p => IsSeparator(v, p));
      CountOfAppend([YearLabel(v, y)], t + [Separator(v, y)], IsYearLabel);
      CountOfAppend(t, [Separator(v, y)], IsYearLabel);
      CountOfAppend([YearLabel(v, y)], t + [Separator(v, y)], p => IsMonthTick(v, p));
      CountOfAppend(t, [Separator(v, y)], p => IsMonthTick(v, p));
      assert [YearLabel(v, y)] + t + [Separator(v, y)] == [YearLabel(v, y)] + (t + [Separator(v, y)]);
    }
  }

  /** The year loop draws one full-height separator for every year from
      `offset` to end + 1, and a year label and exactly 11 month ticks
      (February to December) for every year from `offset` to `end`. */
  lemma YearsPlanCounts(v: View)
    ensures CountOf(Blocks(YearBlockOf(v), v.offset, v.end + 2), p => IsSeparator(v, p))
            == (if v.end + 2 <= v.offset then 0 else v.end + 2 - v.offset)
    ensures CountOf(Blocks(YearBlockOf(v), v.offset, v.end + 2), IsYearLabel)
            == (if v.end + 1 <= v.offset then 0 else v.end + 1 - v.offset)
    ensures CountOf(Blocks(YearBlockOf(v), v.offset, v.end + 2), p => IsMonthTick(v, p))
            == 11 * (if v.end + 1 <= v.offset then 0 else v.end + 1 - v.offset)
  {
    var f := YearBlockOf(v);
    if v.offset <= v.end + 1 {
      forall y | v.offset <= y < v.end + 2
        ensures CountOf(f(y), p => IsSeparator(v, p)) == 1
      {
        YearBlockCounts(v, y);
      }
      forall y | v.offset <= y < v.end + 1
        ensures CountOf(f(y), IsYearLabel) == 1 && CountOf(f(y), p => IsMonthTick(v, p)) == 11
      {
        YearBlockCounts(v, y);
      }
      CountBlocks(f, v.offset, v.end + 2, p => IsSeparator(v, p), 1);
      CountBlocks(f, v.offset, v.end + 1, IsYearLabel, 1);
      CountBlocks(f, v.offset, v.end + 1, p => IsMonthTick(v, p), 11);
      YearBlockCounts(v, v.end + 1);
      CountOfAppend(Blocks(f, v.offset, v.end + 1), f(v.end + 1), IsYearLabel);
      CountOfAppend(Blocks(f, v.offset, v.end + 1), f(v.end + 1), p => IsMonthTick(v, p));
    }
  }

  lemma {:induction false} TickInTicks(v: View, y: int, m: int, k: int)
    requires 2 <= m < k <= 13
    ensures MonthTick(v, y, m) in MonthTicks(v, y, k)
    decreases k
  {
    if m < k - 1 {
      TickInTicks(v, y, m, k - 1);
    }
  }

  lemma {:induction false} TicksAreNotLabels(v: View, y: int, k: int, p: Primitive)
    requires 2 <= k <= 13 && p in MonthTicks(v, y, k)
    ensures p.Rect?
    decreases k
  {
    if k > 2 && p != MonthTick(v, y, k - 1) {
      TicksAreNotLabels(v, y, k - 1, p);
    }
  }

  lemma LabelInBlock(v: View, y: int)
    requires y <= v.end
    ensures YearLabel(v, y) in YearBlockOf(v)(y)
  {
    var rest := MonthTicks(v, y, 13) + [Separator(v, y)];
    assert YearBlock(v, y) == [YearLabel(v, y)] + rest;
  }

  lemma SeparatorInBlock(v: View, y: int)
    ensures Separator(v, y) in YearBlockOf(v)(y)
  {
    if y <= v.end {
      var init := [YearLabel(v, y)] + MonthTicks(v, y, 13);
      assert YearBlock(v, y) == init + [Separator(v, y)];
    }
  }

  lemma TickInBlock(v: View, y: int, m: int)
    requires y <= v.end && 2 <= m <= 12
    ensures MonthTick(v, y, m) in YearBlockOf(v)(y)
  {
    var ticks := MonthTicks(v, y, 13);
    TickInTicks(v, y, m, 13);
    assert YearBlock(v, y) == [YearLabel(v, y)] + ticks + [Separator(v, y)];
  }

  /** The only year label a year's block holds is its own, and only years up
      to `end` have one. */
  lemma LabelOfBlock(v: View, y: int, p: Primitive)
    requires p in YearBlockOf(v)(y) && IsYearLabel(p)
    ensures y <= v.end && p == YearLabel(v, y)
  {
    if y <= v.end && p in MonthTicks(v, y, 13) {
      TicksAreNotLabels(v, y, 13, p);
    }
  }

  /** With a positive zoom the separators run left to right in year order. */
  lemma SeparatorsLeftToRight(v: View, y: int, z: int)
    requires v.zoom > 0.0 && y <= z
    ensures Separator(v, y).x <= Separator(v, z).x
  {
    YearStartMonotone(y, z);
    GetPxMonotone(YearStart(y), YearStart(z), v.offset, v.zoom);
  }

  /** Every year from `offset` to end + 1 gets its separator at its 1 January. */
  lemma SeparatorForEveryYear(v: View, y: int)
    requires v.offset <= y <= v.end + 1
    ensures Separator(v, y) in Blocks(YearBlockOf(v), v.offset, v.end + 2)
  {
    SeparatorInBlock(v, y);
    BlockInBlocks(YearBlockOf(v), v.offset, v.end + 2, y, Separator(v, y));
  }

  /** Every year from `offset` to `end` gets its label at its 1 January. */
  lemma LabelForYearsToEnd(v: View, y: int)
    requires v.offset <= y <= v.end
    ensures YearLabel(v, y) in Blocks(YearBlockOf(v), v.offset, v.end + 2)
  {
    LabelInBlock(v, y);
    BlockInBlocks(YearBlockOf(v), v.offset, v.end + 2, y, YearLabel(v, y));
  }

  /** Every year from `offset` to `end` gets a tick at the first of every
      month from February to December. */
  lemma TicksForYearsToEnd(v: View, y: int, m: int)
    requires v.offset <= y <= v.end && 2 <= m <= 12
    ensures MonthTick(v, y, m) in Blocks(YearBlockOf(v), v.offset, v.end + 2)
  {
    TickInBlock(v, y, m);
    BlockInBlocks(YearBlockOf(v), v.offset, v.end + 2, y, MonthTick(v, y, m));
  }

  /** Every year label drawn is the label of a year from `offset` to `end`,
      placed at that year's 1 January. */
  lemma LabelsOnlyToEnd(v: View, p: Primitive)
    requires p in Blocks(YearBlockOf(v), v.offset, v.end + 2) && IsYearLabel(p)
    ensures v.offset <= p.content.year <= v.end && p == YearLabel(v, p.content.year)
  {
    InSomeBlock(YearBlockOf(v), v.offset, v.end + 2, p);
    var y :| v.offset <= y < v.end + 2 && p in YearBlockOf(v)(y);
    LabelOfBlock(v, y, p);
  }

  // ---------------------------------------------------------------------
  // Event markers

  /** What drawing one event with vertical offset `vOffset` puts on the
      canvas in fill style `fill`: a 1 px marker line down to the axis, the
      title 10 px above the marker's top and the date 25 px above it. */
  function EventMarks(e: Event, vOffset: int, v: View, fill: Fill): seq<Primitive> {
    var x := XOf(v, e.date);
    [Rect(fill, x, v.padding.top + vOffset, 1,
          v.height - v.padding.bottom - v.padding.top - vOffset),
     Text(fill, Caption(e.title), x, v.padding.top - 10 + vOffset),
     Text(fill, DateCaption(e.date), x, v.padding.top - 25 + vOffset)]
  }

  /** The fill style in force once the events `evs` have each set their
      colour, starting from the black the year loop leaves: an event whose
      colour the canvas does not accept leaves the previous fill in force. */
  function FillAfter(evs: seq<Event>, v: View): Fill {
    if evs == [] then Black
    else if v.isColour(evs[|evs| - 1].color) then Colour(evs[|evs| - 1].color)
    else FillAfter(evs[..|evs| - 1], v)
  }

  /** The event loop: the k-th event is drawn with the band offset of index k
      in the fill in force after it set its colour. */
  function EventsPlan(evs: seq<Event>, v: View): seq<Primitive> {
    if evs == [] then []
    else EventsPlan(evs[..|evs| - 1], v)
         + EventMarks(evs[|evs| - 1], VOffset(|evs| - 1), v, FillAfter(evs, v))
  }

  /** The event loop. It starts in black: the last pass of the year loop,
      or the axis bar when that loop has none, sets black and draws no tick. */
  method RenderEvents(evs: seq<Event>, v: View) returns (plan: seq<Primitive>)
    ensures plan == EventsPlan(evs, v)
  {
    plan := [];
    var fill := Black;
    var i := 0;
    while i < |evs|
      invariant 0 <= i <= |evs|
      invariant plan == EventsPlan(evs[..i], v)
      invariant fill == FillAfter(evs[..i], v)
    {
      var vOffset := VOffset(i);
      if v.isColour(evs[i].color) {
        fill := Colour(evs[i].color);
      }
      assert evs[..i + 1][..i] == evs[..i];
      plan := plan + EventMarks(evs[i], vOffset, v, fill);
      i := i + 1;
    }
    assert evs[..i] == evs;
  }

  /** The year loop ends in black, so the event loop starts in black. */
  lemma YearLoopEndsBlack(v: View)
    requires v.offset <= v.end + 1
    ensures var years := Blocks(YearBlockOf(v), v.offset, v.end + 2);
      years != [] && years[|years| - 1].fill == Black
  {
    NextYear(YearBlockOf(v), v.offset, v.end + 1);
  }

  /** The fill is black exactly when the canvas accepted none of the colours. */
  lemma {:induction false} FillBlackIffNoneAccepted(evs: seq<Event>, v: View)
    ensures FillAfter(evs, v) == Black <==> forall j :: 0 <= j < |evs| ==> !v.isColour(evs[j].color)
    decreases |evs|
  {
    if evs != [] {
      var n := |evs| - 1;
      var init := evs[..n];
      if !v.isColour(evs[n].color) {
        FillBlackIffNoneAccepted(init, v);
        assert forall j :: 0 <= j < n ==> init[j] == evs[j];
      }
    }
  }

  /** Otherwise the fill is the colour of the last event whose colour the
      canvas accepted. */
  lemma {:induction false} FillIsLastAccepted(evs: seq<Event>, v: View)
    requires FillAfter(evs, v) != Black
    ensures exists j ::
              0 <= j < |evs| && v.isColour(evs[j].color) && FillAfter(evs, v) == Colour(evs[j].color)
              && forall l :: j < l < |evs| ==> !v.isColour(evs[l].color)
    decreases |evs|
  {
    var n := |evs| - 1;
    if v.isColour(evs[n].color) {
      assert 0 <= n < |evs| && v.isColour(evs[n].color) && FillAfter(evs, v) == Colour(evs[n].color);
    } else {
      var init := evs[..n];
      FillIsLastAccepted(init, v);
      var j :| 0 <= j < n && v.isColour(init[j].color) && FillAfter(init, v) == Colour(init[j].color)
        && forall l :: j < l < n ==> !v.isColour(init[l].color);
      assert evs[j] == init[j];
      forall l | j < l < |evs| ensures !v.isColour(evs[l].color) {
        if l < n { assert evs[l] == init[l]; }
      }
    }
  }

  /** The event loop draws three primitives per event. */
  lemma {:induction false} EventsPlanLength(evs: seq<Event>, v: View)
    ensures |EventsPlan(evs, v)| == 3 * |evs|
    decreases |evs|
  {
    if evs != [] {
      EventsPlanLength(evs[..|evs| - 1], v);
    }
  }

  lemma SliceOfPrefix(a: seq<Primitive>, b: seq<Primitive>, i: nat, j: nat)
    requires i <= j <= |a|
    ensures (a + b)[i..j] == a[i..j]
  {
  }

  lemma SliceOfSuffix(a: seq<Primitive>, b: seq<Primitive>)
    ensures (a + b)[|a|..|a| + |b|] == b
  {
  }

  /** The primitives the event loop draws for the k-th event are its marks
      at band offset VOffset(k), in the fill in force once it set its colour. */
  lemma {:induction false} EventsPlanAt(evs: seq<Event>, v: View, k: nat)
    requires k < |evs|
    ensures 3 * k + 3 <= |EventsPlan(evs, v)|
    ensures EventsPlan(evs, v)[3 * k .. 3 * k + 3]
            == EventMarks(evs[k], VOffset(k), v, FillAfter(evs[..k + 1], v))
    decreases |evs|
  {
    var n := |evs| - 1;
    var init := evs[..n];
    var a, b := EventsPlan(init, v), EventMarks(evs[n], VOffset(n), v, FillAfter(evs, v));
    assert EventsPlan(evs, v) == a + b;
    EventsPlanLength(init, v);
    if k < n {
      EventsPlanAt(init, v, k);
      assert init[k] == evs[k] && init[..k + 1] == evs[..k + 1];
      SliceOfPrefix(a, b, 3 * k, 3 * k + 3);
    } else {
      assert evs[..k + 1] == evs;
      SliceOfSuffix(a, b);
    }
  }

  /** An event whose colour the canvas accepts is drawn in that colour. */
  lemma AcceptedColourIsDrawn(evs: seq<Event>, v: View, k: nat)
    requires k < |evs| && v.isColour(evs[k].color)
    ensures 3 * k + 3 <= |EventsPlan(evs, v)|
    ensures EventsPlan(evs, v)[3 * k].fill == Colour(evs[k].color)
    ensures EventsPlan(evs, v)[3 * k + 1].fill == Colour(evs[k].color)
    ensures EventsPlan(evs, v)[3 * k + 2].fill == Colour(evs[k].color)
  {
    EventsPlanAt(evs, v, k);
    var p := EventsPlan(evs, v);
    assert p[3 * k .. 3 * k + 3][0] == p[3 * k];
    assert p[3 * k .. 3 * k + 3][1] == p[3 * k + 1];
    assert p[3 * k .. 3 * k + 3][2] == p[3 * k + 2];
  }

  /** Every marker line sits at the event's pixel column plus the left margin,
      starts vOffset below the top margin and ends on the axis bar,
      whatever its band; the captions sit above its top, in the same fill. */
  lemma MarkerGeometry(e: Event, vOffset: int, v: View, fill: Fill)
    ensures var m := EventMarks(e, vOffset, v, fill)[0];
      m.Rect? && m.x == GetPx(e.date, v.offset, v.zoom) + v.padding.left
      && m.height == v.height - v.padding.bottom - v.padding.top - vOffset
      && m.y + m.height == FromBottom(v)
    ensures forall j :: 1 <= j < 3 ==>
      EventMarks(e, vOffset, v, fill)[j].x == EventMarks(e, vOffset, v, fill)[0].x
      && EventMarks(e, vOffset, v, fill)[j].y < EventMarks(e, vOffset, v, fill)[0].y
      && EventMarks(e, vOffset, v, fill)[j].fill == fill
  {
  }

  // ---------------------------------------------------------------------
  // The whole draw

  /** One full draw: axis bar, year loop, then the events in the given order. */
  function Plan(evs: seq<Event>, v: View): seq<Primitive> {
    [Baseline(v)] + Blocks(YearBlockOf(v), v.offset, v.end + 2) + EventsPlan(evs, v)
  }

  /** The plan opens with the axis bar, followed by the year loop's
      primitives and then three primitives per event. */
  lemma PlanShape(evs: seq<Event>, v: View)
    ensures |Plan(evs, v)| == 1 + |Blocks(YearBlockOf(v), v.offset, v.end + 2)| + 3 * |evs|
    ensures Plan(evs, v)[0] == Baseline(v)
  {
    EventsPlanLength(evs, v);
  }

  lemma SliceAfter(a: seq<Primitive>, b: seq<Primitive>, i: nat, j: nat)
    requires i <= j <= |b|
    ensures (a + b)[|a| + i .. |a| + j] == b[i..j]
  {
  }

  /** Event k is drawn as primitives 1 + |years| + 3k to 1 + |years| + 3k + 2
      of the plan, where `years` is what the year loop drew: over every year
      separator, label and tick, in its band and in the fill in force. */
  lemma PlanEventAt(evs: seq<Event>, v: View, k: nat)
    requires k < |evs|
    ensures var at := 1 + |Blocks(YearBlockOf(v), v.offset, v.end + 2)| + 3 * k;
      at + 3 <= |Plan(evs, v)|
      && Plan(evs, v)[at .. at + 3] == EventMarks(evs[k], VOffset(k), v, FillAfter(evs[..k + 1], v))
  {
    var head := [Baseline(v)] + Blocks(YearBlockOf(v), v.offset, v.end + 2);
    assert Plan(evs, v) == head + EventsPlan(evs, v);
    EventsPlanAt(evs, v, k);
    SliceAfter(head, EventsPlan(evs, v), 3 * k, 3 * k + 3);
  }

  /** The canvas is made wide enough to reach 1 January of end + 2. */
  function CanvasWidth(v: View): int {
    GetPx(EndPlus(v.end, 2), v.offset, v.zoom)
  }
}
