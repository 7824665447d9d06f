/** The date-to-pixel mapper: horizontal offsets on the timeline.
    The origin (pixel 0) is 1 January of the start year `offset`; `zoom`
    is the number of pixels per day. */
module Mapper {
  import opened Calendar

  /** Whole days from the origin to `date`, scaled by `zoom` and floored. */
  function GetPx(date: int, offset: int, zoom: real): int {
    ((date - YearStart(offset)) as real * zoom).Floor
  }

  /** The pixel offset is the largest integer not above days times zoom. */
  lemma GetPxIsFloor(date: int, offset: int, zoom: real)
    ensures var px := GetPx(date, offset, zoom);
      px as real <= (date - YearStart(offset)) as real * zoom < px as real + 1.0
  {
  }

  /** 1 January of the year `end + add`. */
  function EndPlus(end: int, add: int): (day: int)
    ensures day == DayOf(end + add, 1, 1)
  {
    YearStart(end + add)
  }

  /** Two successive EndPlus days are exactly one calendar year apart. */
  lemma EndPlusStep(end: int, add: int)
    ensures EndPlus(end, add + 1) == EndPlus(end, add) + DaysInYear(end + add)
  {
    YearStartStep(end + add);
  }

  /** The origin maps to pixel 0, whatever the zoom. */
  lemma OriginIsZero(offset: int, zoom: real)
    ensures GetPx(YearStart(offset), offset, zoom) == 0
  {
  }

  /** With a positive zoom a later date is never to the left of an earlier one. */
  lemma GetPxMonotone(d1: int, d2: int, offset: int, zoom: real)
    requires zoom > 0.0 && d1 <= d2
    ensures GetPx(d1, offset, zoom) <= GetPx(d2, offset, zoom)
  {
    var a, b := (d1 - YearStart(offset)) as real, (d2 - YearStart(offset)) as real;
    GetPxIsFloor(d1, offset, zoom);
    GetPxIsFloor(d2, offset, zoom);
    assert (b - a) * zoom >= 0.0;
    assert a * zoom <= b * zoom;
  }

  /** With a negative zoom the axis runs the other way. */
  lemma GetPxAntitone(d1: int, d2: int, offset: int, zoom: real)
    requires zoom < 0.0 && d1 <= d2
    ensures GetPx(d1, offset, zoom) >= GetPx(d2, offset, zoom)
  {
    var a, b := (d1 - YearStart(offset)) as real, (d2 - YearStart(offset)) as real;
    GetPxIsFloor(d1, offset, zoom);
    GetPxIsFloor(d2, offset, zoom);
    assert (b - a) * zoom <= 0.0;
    assert a * zoom >= b * zoom;
  }

  /** Dates before the origin give negative offsets: nothing is clamped to 0. */
  lemma BeforeOriginIsNegative(date: int, offset: int, zoom: real)
    requires zoom > 0.0 && date < YearStart(offset)
    ensures GetPx(date, offset, zoom) < 0
  {
    var a := (date - YearStart(offset)) as real;
    GetPxIsFloor(date, offset, zoom);
    assert a * zoom < 0.0;
  }

  /** At zoom 1 one pixel is one day. */
  lemma UnitZoomCountsDays(date: int, offset: int)
    ensures GetPx(date, offset, 1.0) == date - YearStart(offset)
  {
  }

  /** Start year 2000, zoom 1: 2000-01-11 is at pixel 10. */
  lemma EleventhOfJanuary2000()
    ensures GetPx(DayOf(2000, 1, 11), 2000, 1.0) == 10
  {
    UnitZoomCountsDays(DayOf(2000, 1, 11), 2000);
  }

  /** With a positive zoom every month start of year y is drawn between the
      pixel of 1 January of y and that of 1 January of y + 1. */
  lemma MonthTickBetweenYears(y: int, m: int, offset: int, zoom: real)
    requires IsMonth(m) && zoom > 0.0
    ensures GetPx(YearStart(y), offset, zoom) <= GetPx(DayOf(y, m, 1), offset, zoom)
    ensures GetPx(DayOf(y, m, 1), offset, zoom) <= GetPx(YearStart(y + 1), offset, zoom)
  {
    MonthStartInYear(y, m);
    GetPxMonotone(YearStart(y), DayOf(y, m, 1), offset, zoom);
    GetPxMonotone(DayOf(y, m, 1), YearStart(y + 1), offset, zoom);
  }
}
