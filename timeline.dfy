/** The timeline that the page keeps and every user action updates in
    place: its margins, zoom, first and last year, and its events. */
module TimelineState {
  import opened Mapper
  import opened Events
  import opened Ordering
  import opened Deletion
  import opened Render

  /** What creating an event reports: done, or which required answer was blank. */
  datatype Outcome = Created | NoId | NoDate

  class Timeline {
    var padding: Padding
    var zoom: real
    var offset: int
    var end: int
    var events: seq<Event>

    /** The timeline the page starts with. */
    constructor ()
      ensures padding == Padding(100, 0, 50, 50)
      ensures zoom == 1.0 && offset == 2000 && end == 2020
      ensures events == []
    {
      padding := Padding(100, 0, 50, 50);
      zoom := 1.0;
      offset := 2000;
      end := 2020;
      events := [];
    }

    /** Creates an event from the user's answers. A blank id or a blank date
        aborts without any change; otherwise exactly one event is appended.
        `date` is the day the date text denotes. */
    method NewEvent(id: string, title: string, description: string,
                    dateText: string, date: int, color: string) returns (outcome: Outcome)
      modifies this`events
      ensures outcome == if AllSpace(id) then NoId else if AllSpace(dateText) then NoDate else Created
      ensures outcome == Created ==> events == old(events) + [Event(id, date, title, description, color)]
      ensures outcome != Created ==> events == old(events)
      ensures padding == old(padding) && zoom == old(zoom) && offset == old(offset) && end == old(end)
    {
      TrimEmptyIffBlank(id);
      TrimEmptyIffBlank(dateText);
      if |Trim(id)| < 1 {
        return NoId;
      }
      if |Trim(dateText)| < 1 {
        return NoDate;
      }
      var event := MakeEvent(id, date, title, Some(description), Some(color));
      events := events + [event];
      outcome := Created;
    }

    /** The delete loop as written: scans with index i, splices out a match
        and advances i all the same. */
    method DeleteEvent(id: string) returns (count: nat)
      modifies this`events
      ensures events == SkipDelete(old(events), id)
      ensures count == |old(events)| - |events|
      ensures count == CountId(old(events), id) - CountId(events, id)
      ensures Without(events, id) == Without(old(events), id)
      ensures padding == old(padding) && zoom == old(zoom) && offset == old(offset) && end == old(end)
    {
      ghost var original := events;
      count := 0;
      var i := 0;
      while i < |events|
        modifies this`events
        invariant i <= |events| + 1
        invariant (if i <= |events| then events[..i] + SkipDelete(events[i..], id) else events)
                  == SkipDelete(original, id)
        invariant count == |original| - |events|
        decreases |events| + 1 - i
      {
        SkipDeleteStep(events, i, id);
        if events[i].id == id {
          events := events[..i] + events[i + 1..];
          count := count + 1;
        }
        i := i + 1;
      }
      if i == |events| {
        assert events[..i] == events && events[i..] == [];
      }
      SkipDeleteRemovesOnlyMatches(original, id);
    }

    /** The delete as intended: every event carrying `id` is removed and the
        count reports how many there were. */
    method DeleteAllMatching(id: string) returns (count: nat)
      modifies this`events
      ensures events == Without(old(events), id)
      ensures count == CountId(old(events), id)
      ensures padding == old(padding) && zoom == old(zoom) && offset == old(offset) && end == old(end)
    {
      count := 0;
      var i := 0;
      while i < |events|
        modifies this`events
        invariant i <= |events|
        invariant events[..i] + Without(events[i..], id) == Without(old(events), id)
        invariant count == |old(events)| - |events|
        decreases |events| - i
      {
        WithoutStep(events, i, id);
        if events[i].id == id {
          events := events[..i] + events[i + 1..];
          count := count + 1;
        } else {
          i := i + 1;
        }
      }
      assert events[..i] == events && events[i..] == [];
    }

    /** The document an export writes: the whole timeline, events in their
        current order. Importing it gives back the same events. */
    method ExportDocument() returns (doc: Document)
      ensures doc.padding == padding && doc.zoom == zoom && doc.offset == offset && doc.end == end
      ensures doc.events.Some? && Rebuild(doc.events.value) == events
    {
      doc := Document(padding, zoom, offset, end, Some(Records(events)));
      RebuildRecords(events);
    }

    /** Replaces the timeline with a parsed document: settings are copied,
        the events are reset and rebuilt record by record, never appended to
        what was there. A document without an events array stops the import
        after the settings are copied and the events cleared. */
    method ImportEvents(doc: Document) returns (ok: bool)
      modifies this
      ensures padding == doc.padding && zoom == doc.zoom && offset == doc.offset && end == doc.end
      ensures ok == doc.events.Some?
      ensures ok ==> events == Rebuild(doc.events.value)
      ensures !ok ==> events == []
    {
      padding := doc.padding;
      zoom := doc.zoom;
      offset := doc.offset;
      end := doc.end;
      events := [];
      if doc.events.None? {
        return false;
      }
      var records := doc.events.value;
      var i := 0;
      while i < |records|
        modifies this`events
        invariant 0 <= i <= |records|
        invariant events == Rebuild(records[..i])
      {
        var r := records[i];
        assert records[..i + 1][..i] == records[..i];
        events := events + [MakeEvent(r.id, r.date, r.title, r.description, r.color)];
        i := i + 1;
      }
      assert records[..i] == records;
      ok := true;
    }

    /** A full redraw: sorts the events in place, takes zoom and years from
        the controls, and returns the canvas width and what is drawn.
        `isColour` is the canvas's own test of a CSS colour string. */
    method Draw(zoomInput: real, startYear: int, endYear: int, height: int,
                isColour: string -> bool)
      returns (width: int, plan: seq<Primitive>)
      modifies this
      ensures events == SortByDate(old(events))
      ensures SortedByDate(events) && multiset(events) == multiset(old(events))
      ensures zoom == zoomInput && offset == startYear && end == endYear && padding == old(padding)
      ensures width == CanvasWidth(View(padding, zoom, offset, end, height, isColour))
      ensures plan == Plan(events, View(padding, zoom, offset, end, height, isColour))
    {
      events := SortByDate(events);
      zoom := zoomInput;
      offset := startYear;
      end := endYear;
      var v := View(padding, zoom, offset, end, height, isColour);
      width := CanvasWidth(v);
      var years := RenderYears(v);
      var marks := RenderEvents(events, v);
      PlanOfParts(events, v, years, marks);
      plan := [Baseline(v)] + years + marks;
    }
  }

  /** Draw's last step: the two loop results assembled as `Plan` assembles them. */
  lemma PlanOfParts(evs: seq<Event>, v: View, years: seq<Primitive>, marks: seq<Primitive>)
    requires years == Blocks(YearBlockOf(v), v.offset, v.end + 2)
    requires marks == EventsPlan(evs, v)
    ensures [Baseline(v)] + years + marks == Plan(evs, v)
  {
  }

  /** Drawing again with unchanged inputs draws the same picture: the second
      sort finds the events already in order. */
  lemma DrawIsIdempotent(s: seq<Event>, v: View)
    ensures Plan(SortByDate(SortByDate(s)), v) == Plan(SortByDate(s), v)
  {
    SortIsIdempotent(s);
  }
}
