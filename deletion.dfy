/** What deleting events by id leaves behind: the behaviour of the delete
    loop as written, and the intended "remove every match". */
module Deletion {
  import opened Events

  /** The number of events carrying `id`. */
  function CountId(s: seq<Event>, id: string): (n: nat)
    ensures n <= |s|
  {
    if s == [] then 0 else (if s[0].id == id then 1 else 0) + CountId(s[1..], id)
  }

  /** Counting matches over two stretches of events adds up. */
  lemma {:induction false} CountIdAppend(a: seq<Event>, b: seq<Event>, id: string)
    ensures CountId(a + b, id) == CountId(a, id) + CountId(b, id)
    decreases |a|
  {
    if a != [] {
      CountIdAppend(a[1..], b, id);
      assert (a + b)[1..] == a[1..] + b;
    } else {
      assert a + b == b;
    }
  }

  /** The events not carrying `id`, in order: the intended result of a
      delete, with the count it should report. */
  function Without(s: seq<Event>, id: string): (r: seq<Event>)
    ensures forall k :: 0 <= k < |r| ==> r[k].id != id
    ensures |s| - |r| == CountId(s, id)
  {
    if s == [] then []
    else
      assert s == [s[0]] + s[1..];
      if s[0].id == id then Without(s[1..], id) else [s[0]] + Without(s[1..], id)
  }

  /** One step of a scan that keeps the events before index i: removing a
      match at i, or stepping past a non-match, keeps what is left to do. */
  lemma WithoutStep(s: seq<Event>, i: nat, id: string)
    requires i < |s|
    ensures s[i].id == id ==>
      (s[..i] + s[i + 1..])[..i] + Without((s[..i] + s[i + 1..])[i..], id) == s[..i] + Without(s[i..], id)
    ensures s[i].id != id ==> s[..i + 1] + Without(s[i + 1..], id) == s[..i] + Without(s[i..], id)
  {
    assert s[i..] == [s[i]] + s[i + 1..];
    ConsFacts(s[i], s[i + 1..], id);
    assert (s[..i] + s[i + 1..])[..i] == s[..i];
    assert (s[..i] + s[i + 1..])[i..] == s[i + 1..];
    assert s[..i + 1] == s[..i] + [s[i]];
  }

  /** The delete loop as written: after removing a match at index i it still
      advances i, so the event that slid into index i is never examined. */
  function SkipDelete(s: seq<Event>, id: string): seq<Event>
    decreases |s|
  {
    if s == [] then []
    else if s[0].id == id then
      (if |s| == 1 then [] else [s[1]] + SkipDelete(s[2..], id))
    else [s[0]] + SkipDelete(s[1..], id)
  }

  /** One pass of the delete loop as written, at index i: a match is spliced
      out and the event that slides into i is passed over; a non-match is
      passed over. Either way what is left to do is unchanged. */
  lemma SkipDeleteStep(s: seq<Event>, i: nat, id: string)
    requires i < |s|
    ensures s[i].id == id && i + 1 < |s| ==>
      var t := s[..i] + s[i + 1..];
      t[..i + 1] + SkipDelete(t[i + 1..], id) == s[..i] + SkipDelete(s[i..], id)
    ensures s[i].id == id && i + 1 == |s| ==>
      s[..i] + s[i + 1..] == s[..i] + SkipDelete(s[i..], id)
    ensures s[i].id != id ==> s[..i + 1] + SkipDelete(s[i + 1..], id) == s[..i] + SkipDelete(s[i..], id)
  {
    var t := s[..i] + s[i + 1..];
    if s[i].id == id && i + 1 < |s| {
      assert s[i..][2..] == s[i + 2..];
      assert t[..i + 1] == s[..i] + [s[i + 1]];
      assert t[i + 1..] == s[i + 2..];
    } else if s[i].id != id {
      assert s[..i + 1] == s[..i] + [s[i]];
      assert s[i..][1..] == s[i + 1..];
    }
  }

  lemma ConsFacts(x: Event, t: seq<Event>, id: string)
    ensures Without([x] + t, id) == (if x.id == id then [] else [x]) + Without(t, id)
    ensures CountId([x] + t, id) == (if x.id == id then 1 else 0) + CountId(t, id)
  {
    assert ([x] + t)[1..] == t;
  }

  lemma {:induction false} SkipDeleteKeepsOthers(s: seq<Event>, id: string)
    ensures Without(SkipDelete(s, id), id) == Without(s, id)
    decreases |s|
  {
    if s != [] {
      ConsFacts(s[0], s[1..], id);
      assert s == [s[0]] + s[1..];
      if s[0].id == id {
        if |s| > 1 {
          SkipDeleteKeepsOthers(s[2..], id);
          ConsFacts(s[1], s[2..], id);
          ConsFacts(s[1], SkipDelete(s[2..], id), id);
          assert s[1..] == [s[1]] + s[2..];
        }
      } else {
        SkipDeleteKeepsOthers(s[1..], id);
        ConsFacts(s[0], SkipDelete(s[1..], id), id);
      }
    }
  }

  lemma {:induction false} SkipDeleteSubMultiset(s: seq<Event>, id: string)
    ensures multiset(SkipDelete(s, id)) <= multiset(s)
    decreases |s|
  {
    if s != [] {
      assert s == [s[0]] + s[1..];
      if s[0].id == id {
        if |s| > 1 {
          SkipDeleteSubMultiset(s[2..], id);
          assert s == [s[0], s[1]] + s[2..];
        }
      } else {
        SkipDeleteSubMultiset(s[1..], id);
      }
    }
  }

  /** Only events carrying `id` disappear, every other event survives in its
      relative order, and the length drops by the number of matches removed. */
  lemma SkipDeleteRemovesOnlyMatches(s: seq<Event>, id: string)
    ensures Without(SkipDelete(s, id), id) == Without(s, id)
    ensures multiset(SkipDelete(s, id)) <= multiset(s)
    ensures |s| - |SkipDelete(s, id)| == CountId(s, id) - CountId(SkipDelete(s, id), id)
  {
    SkipDeleteKeepsOthers(s, id);
    SkipDeleteSubMultiset(s, id);
  }

  /** No two adjacent events both carry `id`. */
  predicate NoAdjacentMatches(s: seq<Event>, id: string) {
    forall i :: 0 <= i < |s| - 1 ==> s[i].id != id || s[i + 1].id != id
  }

  /** When no two matches are adjacent the loop as written removes them all. */
  lemma {:induction false} SkipDeleteWithoutAdjacentMatches(s: seq<Event>, id: string)
    requires NoAdjacentMatches(s, id)
    ensures SkipDelete(s, id) == Without(s, id)
    decreases |s|
  {
    if s != [] {
      if s[0].id == id {
        if |s| > 1 {
          assert s[1].id != id;
          assert NoAdjacentMatches(s[2..], id) by {
            forall i | 0 <= i < |s[2..]| - 1 ensures s[2..][i].id != id || s[2..][i + 1].id != id {
              assert s[2..][i] == s[i + 2] && s[2..][i + 1] == s[i + 3];
            }
          }
          SkipDeleteWithoutAdjacentMatches(s[2..], id);
          assert s[1..][1..] == s[2..];
        }
      } else {
        assert NoAdjacentMatches(s[1..], id) by {
          forall i | 0 <= i < |s[1..]| - 1 ensures s[1..][i].id != id || s[1..][i + 1].id != id {
            assert s[1..][i] == s[i + 1] && s[1..][i + 1] == s[i + 2];
          }
        }
        SkipDeleteWithoutAdjacentMatches(s[1..], id);
      }
    }
  }

  /** Two adjacent matches: the loop as written removes the first, skips the
      second, and reports one deletion instead of two. */
  lemma AdjacentMatchSurvives(a: Event, b: Event)
    requires a.id == b.id
    ensures SkipDelete([a, b], a.id) == [b]
    ensures CountId([a, b], a.id) == 2
    ensures |[a, b]| - |SkipDelete([a, b], a.id)| == 1
  {
    assert [a, b][2..] == [];
  }
}
