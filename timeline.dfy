/**
 * The seek bar and the multi-range timeline: the clamped conversions between
 * seconds and canvas x positions, and the timeline's register of ranges.
 *
 * The register is the ordered list of canvas rectangle ids `rects` and the
 * map `data` from id to (start, end) seconds. Canvas ids come from a counter
 * `nextId`: Tk hands out a new, larger id for every item it creates.
 */
module Timeline {
  import opened Wrappers

  /** The blank margin at both ends of the bar, in pixels. */
  const Padding: real := 12.0

  function Min(a: real, b: real): real {
    if a <= b then a else b
  }

  function Max(a: real, b: real): real {
    if a >= b then a else b
  }

  /** Python `max(0.0, min(sec, duration))`: seconds kept inside the video. */
  function ClampSec(sec: real, duration: real): (r: real)
    ensures duration >= 0.0 ==> 0.0 <= r <= duration
    ensures 0.0 <= sec <= duration ==> r == sec
  {
    Max(0.0, Min(sec, duration))
  }

  /** `_sec_to_x`: the x position of a time on a canvas `width` pixels wide. */
  function SecToX(sec: real, duration: real, width: real): real
    requires duration != 0.0
  {
    var left, right := Padding, width - Padding;
    var ratio := Min(Max(sec / duration, 0.0), 1.0);
    left + ratio * (right - left)
  }

  /** `_x_to_sec`: the time at an x position; the bar must have a non-zero length. */
  function XToSec(x: real, duration: real, width: real): real
    requires width - Padding != Padding
  {
    var left, right := Padding, width - Padding;
    var ratio := Min(Max((x - left) / (right - left), 0.0), 1.0);
    ratio * duration
  }

  /** `_clamp_x`: an x position moved onto the bar. */
  function ClampX(x: real, width: real): (r: real)
    ensures r <= width - Padding
    ensures Padding <= width - Padding ==> Padding <= r
  {
    Min(Max(x, Padding), width - Padding)
  }

  lemma ScaleBetween(ratio: real, span: real)
    requires 0.0 <= ratio <= 1.0 && span >= 0.0
    ensures 0.0 <= ratio * span <= span
  {
  }

  /** Every time lands on the bar, between the two margins. */
  lemma SecToXOnBar(sec: real, duration: real, width: real)
    requires duration > 0.0 && Padding <= width - Padding
    ensures Padding <= SecToX(sec, duration, width) <= width - Padding
  {
    var ratio := Min(Max(sec / duration, 0.0), 1.0);
    var span := width - Padding - Padding;
    ScaleBetween(ratio, span);
    assert SecToX(sec, duration, width) == Padding + ratio * span;
  }

  /** Every position stands for a time inside the video. */
  lemma XToSecInVideo(x: real, duration: real, width: real)
    requires duration >= 0.0 && width - Padding != Padding
    ensures 0.0 <= XToSec(x, duration, width) <= duration
  {
    var ratio := Min(Max((x - Padding) / (width - Padding - Padding), 0.0), 1.0);
    ScaleBetween(ratio, duration);
    assert XToSec(x, duration, width) == ratio * duration;
  }

  lemma DivideLeq(a: real, b: real, d: real)
    requires a <= b && d > 0.0
    ensures a / d <= b / d
  {
  }

  lemma SelfDivide(d: real)
    requires d != 0.0
    ensures d / d == 1.0 && 0.0 / d == 0.0
  {
  }

  lemma DivideLess(a: real, b: real, d: real)
    requires a < b && d > 0.0
    ensures a / d < b / d
  {
  }

  lemma MultiplyLeq(a: real, b: real, d: real)
    requires a <= b && d >= 0.0
    ensures a * d <= b * d
  {
  }

  /** Later times lie further right. */
  lemma SecToXMonotone(a: real, b: real, duration: real, width: real)
    requires a <= b && duration > 0.0 && Padding <= width - Padding
    ensures SecToX(a, duration, width) <= SecToX(b, duration, width)
  {
    DivideLeq(a, b, duration);
    MultiplyLeq(Min(Max(a / duration, 0.0), 1.0), Min(Max(b / duration, 0.0), 1.0), width - Padding - Padding);
  }

  lemma RatioBack(ratio: real, span: real)
    requires 0.0 <= ratio <= 1.0 && span > 0.0
    ensures (Padding + ratio * span - Padding) / span == ratio
  {
  }

  lemma ScaleBack(sec: real, duration: real)
    requires duration > 0.0
    ensures Min(Max(sec / duration, 0.0), 1.0) * duration == ClampSec(sec, duration)
  {
    if sec < 0.0 {
      assert sec / duration < 0.0;
    } else if sec > duration {
      DivideLess(duration, sec, duration);
      SelfDivide(duration);
    } else {
      DivideLeq(sec, duration, duration);
      SelfDivide(duration);
      assert sec / duration * duration == sec;
    }
  }

  /** Reading back the position of a time gives that time, clamped into the video. */
  lemma SecToXRoundTrip(sec: real, duration: real, width: real)
    requires duration > 0.0 && Padding < width - Padding
    ensures XToSec(SecToX(sec, duration, width), duration, width) == ClampSec(sec, duration)
  {
    var ratio := Min(Max(sec / duration, 0.0), 1.0);
    var span := width - Padding - Padding;
    RatioBack(ratio, span);
    assert (SecToX(sec, duration, width) - Padding) / span == ratio;
    ScaleBack(sec, duration);
  }

  lemma RatioOf(x: real, span: real)
    requires span > 0.0 && Padding <= x <= Padding + span
    ensures 0.0 <= (x - Padding) / span <= 1.0
    ensures Padding + (x - Padding) / span * span == x
  {
  }

  lemma RatioScale(ratio: real, duration: real)
    requires duration > 0.0 && 0.0 <= ratio <= 1.0
    ensures Min(Max(ratio * duration / duration, 0.0), 1.0) == ratio
  {
  }

  /** The ratio `_x_to_sec` computes for x equals the one for x moved onto the bar. */
  lemma ClampedRatio(x: real, span: real)
    requires span > 0.0
    ensures Min(Max((x - Padding) / span, 0.0), 1.0) == (Min(Max(x, Padding), Padding + span) - Padding) / span
  {
    SelfDivide(span);
    if x < Padding {
      DivideLess(x - Padding, 0.0, span);
      assert Min(Max(x, Padding), Padding + span) - Padding == 0.0;
    } else if x > Padding + span {
      DivideLess(span, x - Padding, span);
      assert Min(Max(x, Padding), Padding + span) - Padding == span;
    } else {
      DivideLeq(0.0, x - Padding, span);
      DivideLeq(x - Padding, span, span);
      assert Min(Max(x, Padding), Padding + span) == x;
    }
  }

  /** Placing the time read at a position on the bar gives back that position, moved onto the bar. */
  lemma XToSecRoundTrip(x: real, duration: real, width: real)
    requires duration > 0.0 && Padding < width - Padding
    ensures SecToX(XToSec(x, duration, width), duration, width) == ClampX(x, width)
  {
    var span := width - Padding - Padding;
    var cx := ClampX(x, width);
    var ratio := Min(Max((x - Padding) / span, 0.0), 1.0);
    ClampedRatio(x, span);
    assert ratio == (cx - Padding) / span;
    RatioOf(cx, span);
    RatioScale(ratio, duration);
    assert XToSec(x, duration, width) == ratio * duration;
    assert SecToX(ratio * duration, duration, width) == Padding + ratio * span;
  }

  /** The (start, end) pairs of a register, in its order. */
  function IntervalsOf(rects: seq<nat>, data: map<nat, (real, real)>): (iv: seq<(real, real)>)
    requires forall k | 0 <= k < |rects| :: rects[k] in data
    ensures |iv| == |rects| && forall k | 0 <= k < |rects| :: iv[k] == data[rects[k]]
  {
    seq(|rects|, k requires 0 <= k < |rects| => data[rects[k]])
  }

  /** The position of an id in a list that holds it. */
  function IndexOf(s: seq<nat>, x: nat): (k: nat)
    requires x in s
    ensures k < |s| && s[k] == x && x !in s[..k]
  {
    if s[0] == x then 0 else 1 + IndexOf(s[1..], x)
  }

  /** Python `list.remove(x)`: the list without the first occurrence of x. */
  function RemoveFirst(s: seq<nat>, x: nat): (r: seq<nat>)
    requires x in s
    ensures |r| == |s| - 1
  {
    s[..IndexOf(s, x)] + s[IndexOf(s, x) + 1..]
  }

  predicate Distinct(s: seq<nat>) {
    forall i, j | 0 <= i < j < |s| :: s[i] != s[j]
  }

  /** With distinct ids, removing one leaves a list without it and with every other id. */
  lemma RemoveFirstDistinct(s: seq<nat>, x: nat)
    requires x in s && Distinct(s)
    ensures Distinct(RemoveFirst(s, x))
    ensures forall y :: y in RemoveFirst(s, x) <==> y in s && y != x
  {
    var k := IndexOf(s, x);
    var r := RemoveFirst(s, x);
    forall y
      ensures y in r <==> y in s && y != x
    {
      if y in r {
        var i :| 0 <= i < |r| && r[i] == y;
        if i < k {
          assert s[i] == y;
        } else {
          assert s[i + 1] == y;
        }
      }
      if y in s && y != x {
        var i :| 0 <= i < |s| && s[i] == y;
        if i < k {
          assert r[i] == y;
        } else {
          assert r[i - 1] == y;
        }
      }
    }
    forall i, j | 0 <= i < j < |r|
      ensures r[i] != r[j]
    {
      var si := if i < k then i else i + 1;
      var sj := if j < k then j else j + 1;
      assert r[i] == s[si] && r[j] == s[sj];
    }
  }

  /** The register is an ordered, well-formed map: the list and the keys agree, ids are distinct and already handed out. */
  ghost predicate Register(rects: seq<nat>, data: map<nat, (real, real)>, nextId: nat) {
    && (forall k | 0 <= k < |rects| :: rects[k] in data && 0 < rects[k] < nextId)
    && data.Keys == Elems(rects)
    && Distinct(rects)
  }

  /** The ids a list holds. */
  ghost function Elems(s: seq<nat>): set<nat> {
    if s == [] then {} else Elems(s[..|s| - 1]) + {s[|s| - 1]}
  }

  lemma {:induction false} ElemsIn(s: seq<nat>)
    ensures forall x :: x in Elems(s) <==> x in s
  {
    if s != [] {
      var n := |s| - 1;
      ElemsIn(s[..n]);
      assert s == s[..n] + [s[n]];
      forall x
        ensures x in s <==> x in s[..n] || x == s[n]
      {
        if x in s {
          var k :| 0 <= k < |s| && s[k] == x;
          if k < n {
            assert s[..n][k] == x;
          }
        }
      }
    }
  }

  lemma AppendDistinct(s: seq<nat>, x: nat)
    requires Distinct(s) && x !in s
    ensures Distinct(s + [x])
  {
    var r := s + [x];
    forall i, j | 0 <= i < j < |r|
      ensures r[i] != r[j]
    {
      assert r[i] == s[i];
    }
  }

  /** Appending a range under the next id keeps the register well-formed. */
  lemma AddRegister(rects: seq<nat>, data: map<nat, (real, real)>, nextId: nat, v: (real, real))
    requires Register(rects, data, nextId) && nextId > 0
    ensures Register(rects + [nextId], data[nextId := v], nextId + 1)
  {
    var r, d := rects + [nextId], data[nextId := v];
    assert nextId !in rects;
    AppendDistinct(rects, nextId);
    forall k | 0 <= k < |r|
      ensures r[k] in d && 0 < r[k] < nextId + 1
    {
      if k < |rects| {
        assert r[k] == rects[k];
      }
    }
    assert r[..|rects|] == rects;
    assert Elems(r) == Elems(rects) + {nextId};
    assert d.Keys == data.Keys + {nextId};
  }

  /** Appending a range under the next id appends its interval. */
  lemma AddIntervals(rects: seq<nat>, data: map<nat, (real, real)>, nextId: nat, v: (real, real))
    requires Register(rects, data, nextId)
    ensures IntervalsOf(rects + [nextId], data[nextId := v]) == IntervalsOf(rects, data) + [v]
  {
    var r := rects + [nextId];
    assert forall k | 0 <= k < |rects| :: r[k] == rects[k] && rects[k] != nextId;
  }

  /** The ids `start`, `start + 1`, ... handed out by a redraw. */
  function FreshIds(start: nat, n: nat): (ids: seq<nat>)
    ensures |ids| == n && forall k | 0 <= k < n :: ids[k] == start + k
  {
    seq(n, k requires 0 <= k < n => start + k)
  }

  /** A redraw keeps the register well-formed and its intervals in order: the k-th range is drawn again under `start + k`. */
  lemma RedrawRegister(rects: seq<nat>, data: map<nat, (real, real)>, start: nat,
                       newRects: seq<nat>, newData: map<nat, (real, real)>)
    requires Register(rects, data, start) && start > 0
    requires newRects == FreshIds(start, |rects|)
    requires forall id :: id in newData <==> start <= id < start + |rects|
    requires forall k | 0 <= k < |rects| :: newData[start + k] == data[rects[k]]
    ensures Register(newRects, newData, start + |rects|)
    ensures IntervalsOf(newRects, newData) == IntervalsOf(rects, data)
  {
    ElemsIn(newRects);
    forall id
      ensures id in newData <==> id in Elems(newRects)
    {
      if id in newData {
        assert newRects[id - start] == id;
      }
    }
  }

  /** Deleting a registered id keeps the register well-formed. */
  lemma DeleteRegister(rects: seq<nat>, data: map<nat, (real, real)>, nextId: nat, id: nat)
    requires Register(rects, data, nextId) && id in rects
    ensures Register(RemoveFirst(rects, id), data - {id}, nextId)
  {
    var r, d := RemoveFirst(rects, id), data - {id};
    RemoveFirstDistinct(rects, id);
    ElemsIn(rects);
    ElemsIn(r);
    forall j | 0 <= j < |r|
      ensures r[j] in d && 0 < r[j] < nextId
    {
      assert r[j] in rects && r[j] != id;
    }
    assert d.Keys == Elems(r);
  }

  /** Deleting a registered id drops its interval from the order. */
  lemma DeleteIntervals(rects: seq<nat>, data: map<nat, (real, real)>, nextId: nat, id: nat)
    requires Register(rects, data, nextId) && id in rects
    ensures var k := IndexOf(rects, id);
      IntervalsOf(RemoveFirst(rects, id), data - {id}) == IntervalsOf(rects, data)[..k] + IntervalsOf(rects, data)[k + 1..]
  {
    var k := IndexOf(rects, id);
    var r, d := RemoveFirst(rects, id), data - {id};
    assert r == rects[..k] + rects[k + 1..];
    forall j | 0 <= j < |r|
      ensures r[j] == rects[if j < k then j else j + 1] && r[j] in d
    {
      var i := if j < k then j else j + 1;
      assert r[j] == rects[i];
      assert rects[i] != rects[k];
    }
    var iv, out := IntervalsOf(rects, data), IntervalsOf(r, d);
    assert forall j | 0 <= j < |r| :: out[j] == (iv[..k] + iv[k + 1..])[j];
  }

  /** The playhead after `_redraw`: moved into the video when there is one. */
  function ReclampPlayhead(p: Option<real>, duration: real): (r: Option<real>)
    ensures r.Some? <==> p.Some?
    ensures duration > 0.0 && p.Some? ==> 0.0 <= r.value <= duration
  {
    if p.Some? && duration > 0.0 then Some(ClampSec(p.value, duration)) else p
  }

  /** The outcome of `_on_delete` as written: the new register and the deleted interval, or the ValueError of `rects.remove`. */
  datatype DeleteOutcome =
    | Deleted(rects: seq<nat>, data: map<nat, (real, real)>, interval: Option<(real, real)>)
    | Raised

  /**
   * `_on_delete` as written: with a selected id it removes the id from the
   * list, which raises when the id is no longer registered.
   */
  function DeleteAsWritten(rects: seq<nat>, data: map<nat, (real, real)>, selected: Option<nat>): DeleteOutcome {
    if selected.None? then Deleted(rects, data, None)
    else if selected.value !in rects then Raised
    else
      var id := selected.value;
      Deleted(RemoveFirst(rects, id), data - {id}, if id in data then Some(data[id]) else None)
  }

  class Timeline {
    var duration: real
    var width: real                       // `winfo_width() or canvas_width`
    var rects: seq<nat>
    var data: map<nat, (real, real)>
    var selected: Option<nat>
    var playhead: Option<real>
    var nextId: nat

    ghost predicate Valid()
      reads this
    {
      Register(rects, data, nextId) && nextId > 0 && duration >= 0.0
      && (selected.Some? ==> 0 < selected.value < nextId)
    }

    /** The ranges on the timeline, in the order they were added. */
    ghost function Intervals(): seq<(real, real)>
      reads this
      requires Valid()
    {
      IntervalsOf(rects, data)
    }

    constructor (width: real)
      ensures Valid() && this.width == width
      ensures duration == 0.0 && rects == [] && data == map[] && selected == None && playhead == None
    {
      duration := 0.0;
      this.width := width;
      rects := [];
      data := map[];
      selected := None;
      playhead := None;
      nextId := 1;
    }

    /** `add_segment`: a range with a positive length on a timeline with a video is appended under a fresh id. */
    method AddSegment(s: real, e: real)
      requires Valid()
      modifies this
      ensures Valid()
      ensures if e <= s || duration <= 0.0 then rects == old(rects) && data == old(data) && nextId == old(nextId)
              else rects == old(rects) + [old(nextId)] && data == old(data)[old(nextId) := (s, e)]
                   && nextId == old(nextId) + 1
      ensures Intervals() == if e <= s || duration <= 0.0 then old(Intervals()) else old(Intervals()) + [(s, e)]
      ensures duration == old(duration) && width == old(width) && selected == old(selected) && playhead == old(playhead)
    {
      if e <= s || duration <= 0.0 {
        return;
      }
      AddRegister(rects, data, nextId, (s, e));
      AddIntervals(rects, data, nextId, (s, e));
      rects, data, nextId := rects + [nextId], data[nextId := (s, e)], nextId + 1;
    }

    /** `set_playhead`: the playhead moves to the time, clamped into the video; without a video nothing happens. */
    method SetPlayhead(sec: real)
      modifies this
      ensures playhead == if old(duration) <= 0.0 then old(playhead) else Some(ClampSec(sec, old(duration)))
      ensures duration == old(duration) && width == old(width) && rects == old(rects) && data == old(data)
      ensures selected == old(selected) && nextId == old(nextId)
    {
      if duration <= 0.0 {
        return;
      }
      playhead := Some(ClampSec(sec, duration));
    }

    /**
     * `_redraw`: every range is drawn again under a fresh id, in the same
     * order, and the playhead is moved into the video. The selection keeps the old id.
     */
    method Redraw()
      requires Valid()
      modifies this
      ensures Valid()
      ensures Intervals() == old(Intervals())
      ensures rects == FreshIds(old(nextId), |old(rects)|) && nextId == old(nextId) + |old(rects)|
      ensures selected == old(selected) && (selected.Some? ==> selected.value !in rects)
      ensures playhead == ReclampPlayhead(old(playhead), old(duration))
      ensures duration == old(duration) && width == old(width)
    {
      var ids, ranges, start := rects, data, nextId;
      assert Register(ids, ranges, start);
      var newRects: seq<nat> := [];
      var newData: map<nat, (real, real)> := map[];
      var i := 0;
      while i < |ids|
        invariant 0 <= i <= |ids|
        invariant newRects == FreshIds(start, i)
        invariant forall id :: id in newData <==> start <= id < start + i
        invariant forall k | 0 <= k < i :: newData[start + k] == ranges[ids[k]]
      {
        var rid := ids[i];
        var nr := start + i;
        newRects := newRects + [nr];
        newData := newData[nr := ranges[rid]];
        i := i + 1;
      }
      RedrawRegister(ids, ranges, start, newRects, newData);
      rects, data, nextId := newRects, newData, start + |ids|;
      playhead := ReclampPlayhead(playhead, duration);
    }

    /** `clear`: the register and the selection are emptied, then the timeline is redrawn. */
    method Clear()
      requires Valid()
      modifies this
      ensures Valid()
      ensures rects == [] && data == map[] && selected == None && Intervals() == []
      ensures playhead == ReclampPlayhead(old(playhead), old(duration))
      ensures duration == old(duration) && width == old(width)
    {
      rects := [];
      data := map[];
      selected := None;
      Redraw();
    }

    /** `set_duration`: at least 0.01 seconds, then a redraw. */
    method SetDuration(seconds: real)
      requires Valid()
      modifies this
      ensures Valid()
      ensures duration == Max(0.01, seconds) && duration >= 0.01
      ensures Intervals() == old(Intervals()) && width == old(width)
      ensures rects == FreshIds(old(nextId), |old(rects)|) && nextId == old(nextId) + |old(rects)|
      ensures selected == old(selected) && (selected.Some? ==> selected.value !in rects)
      ensures playhead == ReclampPlayhead(old(playhead), duration)
    {
      duration := Max(0.01, seconds);
      Redraw();
    }

    /** `_select_rect`: a click on a registered range selects it; a click elsewhere clears the selection. */
    method SelectRect(rid: Option<nat>)
      requires Valid()
      requires rid.Some? ==> rid.value in rects
      modifies this
      ensures Valid() && selected == rid
      ensures rects == old(rects) && data == old(data) && nextId == old(nextId)
      ensures duration == old(duration) && width == old(width) && playhead == old(playhead)
    {
      selected := rid;
    }

    /**
     * `_on_delete`: the selected range leaves both the list and the map, and
     * its interval is returned for the table. A selection whose id a redraw
     * has replaced is dropped without touching the register.
     */
    method OnDelete() returns (deleted: Option<(real, real)>)
      requires Valid()
      modifies this
      ensures Valid() && selected == None
      ensures old(selected).Some? && old(selected).value in old(rects) ==>
        (var id, k := old(selected).value, IndexOf(old(rects), old(selected).value);
         rects == RemoveFirst(old(rects), id) && data == old(data) - {id}
         && Intervals() == old(Intervals())[..k] + old(Intervals())[k + 1..]
         && deleted == Some(old(data)[id]))
      ensures !(old(selected).Some? && old(selected).value in old(rects)) ==>
        rects == old(rects) && data == old(data) && deleted == None
      ensures nextId == old(nextId) && duration == old(duration) && width == old(width) && playhead == old(playhead)
    {
      if selected.None? {
        return None;
      }
      var id := selected.value;
      if id !in rects {
        selected := None;
        return None;
      }
      DeleteRegister(rects, data, nextId, id);
      DeleteIntervals(rects, data, nextId, id);
      deleted := Some(data[id]);
      rects := RemoveFirst(rects, id);
      data := data - {id};
      selected := None;
    }
  }

  /** Deleting as written raises for a selected id that is no longer registered. */
  lemma StaleSelectionRaises(rects: seq<nat>, data: map<nat, (real, real)>, selected: Option<nat>)
    requires selected.Some? && selected.value !in rects
    ensures DeleteAsWritten(rects, data, selected) == Raised
  {
  }

  /**
   * The sequence that reaches the stale selection: one range, selected, then
   * a redraw (a window resize); pressing Delete as written then raises.
   */
  method StaleDeleteExample() returns (outcome: DeleteOutcome)
    ensures outcome == Raised
  {
    var t := new Timeline(800.0);
    t.SetDuration(60.0);
    t.AddSegment(1.0, 2.0);
    t.SelectRect(Some(t.rects[0]));
    t.Redraw();
    outcome := DeleteAsWritten(t.rects, t.data, t.selected);
  }

  /** Deleting as written agrees with `OnDelete` whenever the selection is still registered. */
  lemma DeleteAsWrittenRegistered(rects: seq<nat>, data: map<nat, (real, real)>, nextId: nat, id: nat)
    requires Register(rects, data, nextId) && id in rects
    ensures DeleteAsWritten(rects, data, Some(id)) == Deleted(RemoveFirst(rects, id), data - {id}, Some(data[id]))
  {
  }
}
