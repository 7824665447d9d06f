/** The event record, its defaults, the whitespace test used when an event
    is created, and the document form events take on export and import. */
module Events {

  datatype Option<T> = None | Some(value: T)

  /** Canvas margins in pixels. */
  datatype Padding = Padding(top: int, right: int, bottom: int, left: int)

  /** A point event. `date` is a day number (see module Calendar). */
  datatype Event = Event(id: string, date: int, title: string, description: string, color: string)

  const DefaultDescription: string := ""
  const DefaultColor: string := "#990000"

  /** The Event constructor: an argument left undefined (None) takes its default. */
  function MakeEvent(id: string, date: int, title: string,
                     description: Option<string>, color: Option<string>): (e: Event)
    ensures e.id == id && e.date == date && e.title == title
    ensures description.None? ==> e.description == ""
    ensures color.None? ==> e.color == "#990000"
    ensures description.Some? ==> e.description == description.value
    ensures color.Some? ==> e.color == color.value
  {
    Event(id, date, title,
          match description case Some(d) => d case None => DefaultDescription,
          match color case Some(c) => c case None => DefaultColor)
  }

  // ---------------------------------------------------------------------
  // String.prototype.trim

  /** WhiteSpace and LineTerminator code points of ECMAScript. */
  predicate IsJsSpace(c: char) {
    c == '\t' || c == '\n' || c == '\U{B}' || c == '\U{C}' || c == '\r' || c == ' '
    || c == '\U{A0}' || c == '\U{1680}' || ('\U{2000}' <= c <= '\U{200A}')
    || c == '\U{2028}' || c == '\U{2029}' || c == '\U{202F}' || c == '\U{205F}'
    || c == '\U{3000}' || c == '\U{FEFF}'
  }

  predicate AllSpace(s: string) {
    forall i :: 0 <= i < |s| ==> IsJsSpace(s[i])
  }

  function TrimStart(s: string): (r: string)
    ensures |r| <= |s| && r == s[|s| - |r|..]
    ensures AllSpace(s[..|s| - |r|])
    ensures r == [] || !IsJsSpace(r[0])
  {
    if s != [] && IsJsSpace(s[0]) then
      var r := TrimStart(s[1..]);
      assert s[..|s| - |r|] == [s[0]] + s[1..][..|s| - 1 - |r|];
      r
    else s
  }

  function TrimEnd(s: string): (r: string)
    ensures |r| <= |s| && r == s[..|r|]
    ensures AllSpace(s[|r|..])
    ensures r == [] || !IsJsSpace(r[|r| - 1])
  {
    if s != [] && IsJsSpace(s[|s| - 1]) then
      var r := TrimEnd(s[..|s| - 1]);
      assert s[|r|..] == s[..|s| - 1][|r|..] + [s[|s| - 1]];
      r
    else s
  }

  /** `s.trim()`: the text without leading and trailing whitespace. */
  function Trim(s: string): (r: string)
    ensures r == [] || (!IsJsSpace(r[0]) && !IsJsSpace(r[|r| - 1]))
  {
    TrimEnd(TrimStart(s))
  }

  lemma {:induction false} TrimStartOfBlank(s: string)
    requires AllSpace(s)
    ensures TrimStart(s) == []
  {
    if s != [] {
      assert AllSpace(s[1..]) by {
        forall i | 0 <= i < |s[1..]| ensures IsJsSpace(s[1..][i]) {
          assert s[1..][i] == s[i + 1];
        }
      }
      TrimStartOfBlank(s[1..]);
    }
  }

  lemma AllSpaceConcat(a: string, b: string)
    requires AllSpace(a) && AllSpace(b)
    ensures AllSpace(a + b)
  {
    forall i | 0 <= i < |a + b| ensures IsJsSpace((a + b)[i]) {
      if i < |a| { assert (a + b)[i] == a[i]; } else { assert (a + b)[i] == b[i - |a|]; }
    }
  }

  /** `s.trim().length < 1` holds exactly when s is empty or all whitespace. */
  lemma TrimEmptyIffBlank(s: string)
    ensures |Trim(s)| < 1 <==> AllSpace(s)
  {
    var t := TrimStart(s);
    if AllSpace(s) {
      TrimStartOfBlank(s);
    }
    if Trim(s) == [] {
      assert t[0..] == t;
      assert s == s[..|s| - |t|] + t;
      AllSpaceConcat(s[..|s| - |t|], t);
    }
  }

  // ---------------------------------------------------------------------
  // Document form (the parsed JSON of an exported timeline)

  /** One event record as it appears in a parsed document; a missing
      description or colour is None. */
  datatype Record = Record(id: string, date: int, title: string,
                           description: Option<string>, color: Option<string>)

  /** A parsed document. `events` is None when the document has no events array. */
  datatype Document = Document(padding: Padding, zoom: real, offset: int, end: int,
                               events: Option<seq<Record>>)

  /** The event the import loop builds from one record. */
  function EventOf(r: Record): Event {
    MakeEvent(r.id, r.date, r.title, r.description, r.color)
  }

  /** The record an event is written out as. */
  function RecordOf(e: Event): (r: Record)
    ensures EventOf(r) == e
  {
    Record(e.id, e.date, e.title, Some(e.description), Some(e.color))
  }

  /** The events rebuilt from a document's records, in record order. */
  function Rebuild(rs: seq<Record>): (evs: seq<Event>)
    ensures |evs| == |rs|
    ensures forall k :: 0 <= k < |rs| ==> evs[k] == EventOf(rs[k])
  {
    if rs == [] then [] else Rebuild(rs[..|rs| - 1]) + [EventOf(rs[|rs| - 1])]
  }

  /** The records an event sequence is exported as, in order. */
  function Records(evs: seq<Event>): (rs: seq<Record>)
    ensures |rs| == |evs|
    ensures forall k :: 0 <= k < |evs| ==> rs[k] == RecordOf(evs[k])
  {
    if evs == [] then [] else Records(evs[..|evs| - 1]) + [RecordOf(evs[|evs| - 1])]
  }

  /** Exporting events and importing them back gives the same events. */
  lemma {:induction false} RebuildRecords(evs: seq<Event>)
    ensures Rebuild(Records(evs)) == evs
  {
    var rs := Records(evs);
    forall k | 0 <= k < |evs| ensures Rebuild(rs)[k] == evs[k] {
      assert rs[k] == RecordOf(evs[k]);
    }
  }
}
