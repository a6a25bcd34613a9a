/**
 * The light-trail tracker: every frame each light source records its new
 * head position at the front of its history, the history is capped at
 * `TrailMaxPoints` entries (oldest dropped first), every entry ages by the
 * frame's `deltaTime`, and the entries still younger than `FadeDuration`
 * are copied, newest first, into a fixed-size output buffer whose filled
 * length becomes the line's draw range.
 *
 * The pure part (what a history becomes after one frame, which entries are
 * visible, what colour each gets) is stated as functions with lemmas; the
 * in-place update is a class whose method is proved against them.
 */
module Trail {
  import opened Geometry

  /** Capacity of a trail's history and of its output buffers. */
  const TrailMaxPoints: nat := 150

  /** Age (seconds) from which a trail entry is no longer drawn. */
  const FadeDuration: real := 1.5

  // ---------------------------------------------------------------------
  // Colour of an emitted entry

  /** `max(0, 1 - age / FadeDuration)`: 1 for a brand-new entry, 0 once faded. */
  function LifeRatio(age: real): (r: real)
    ensures 0.0 <= r
    ensures 0.0 <= age ==> r <= 1.0
    ensures age == 0.0 ==> r == 1.0
    ensures r == 0.0 <==> age >= FadeDuration
  {
    if 1.0 - age / FadeDuration < 0.0 then 0.0 else 1.0 - age / FadeDuration
  }

  /** The fraction handed to `lerp`: how far an entry has moved towards the tail colour. */
  function FadeFraction(age: real): (f: real)
    ensures 0.0 <= age ==> 0.0 <= f <= 1.0
    ensures age == 0.0 ==> f == 0.0
    ensures f == 1.0 <==> age >= FadeDuration
  {
    1.0 - LifeRatio(age)
  }

  /**
   * The colour of an entry of the given age: the head colour when new,
   * the tail colour once faded, channel-wise between them otherwise.
   */
  function TrailColor(head: Color, tail: Color, age: real): (c: Color)
    ensures age == 0.0 ==> c == head
    ensures age >= FadeDuration ==> c == tail
    ensures 0.0 <= age ==> ChannelsBetween(c, head, tail)
  {
    Lerp(head, tail, FadeFraction(age))
  }

  // ---------------------------------------------------------------------
  // One frame of history, as values

  /** A trail's history: positions and their ages, both newest first. */
  datatype History = History(points: seq<Vec3>, ages: seq<real>)

  /** The history's shape invariant: parallel sequences within the cap. */
  predicate WellFormed(h: History)
  {
    |h.points| == |h.ages| <= TrailMaxPoints
  }

  /** The longest prefix of `s` that is at most `n` long (the `pop` loop). */
  function Capped<T>(s: seq<T>, n: nat): (r: seq<T>)
    ensures |r| == if |s| <= n then |s| else n
    ensures r == s[..|r|]
  {
    if |s| <= n then s else s[..n]
  }

  /** Every age increased by `dt` (the `ages[i] += deltaTime` pass). */
  function Aged(ages: seq<real>, dt: real): (r: seq<real>)
    ensures |r| == |ages|
  {
    if ages == [] then [] else [ages[0] + dt] + Aged(ages[1..], dt)
  }

  lemma {:induction false} AgedAt(ages: seq<real>, dt: real)
    ensures |Aged(ages, dt)| == |ages|
    ensures forall i :: 0 <= i < |ages| ==> Aged(ages, dt)[i] == ages[i] + dt
  {
    if ages != [] {
      AgedAt(ages[1..], dt);
    }
  }

  /** A sequence that is `ages` entry by entry plus `dt` is `Aged(ages, dt)`. */
  lemma AgedIs(ages: seq<real>, aged: seq<real>, dt: real)
    requires |aged| == |ages|
    requires forall i :: 0 <= i < |ages| ==> aged[i] == ages[i] + dt
    ensures aged == Aged(ages, dt)
  {
    AgedAt(ages, dt);
  }

  /**
   * The history after one frame: the new head position is put in front
   * with age 0, the tail is cut to the cap, and everything ages by `dt`.
   */
  function Step(h: History, head: Vec3, dt: real): (r: History)
    ensures WellFormed(h) ==> WellFormed(r) && |r.points| >= 1
  {
    History(Capped([head] + h.points, TrailMaxPoints),
            Aged(Capped([0.0] + h.ages, TrailMaxPoints), dt))
  }

  /**
   * One frame's effect entry by entry: the length grows by one up to the
   * cap, the new head sits at index 0 with age `dt`, and every surviving
   * older entry moves up one index with its position kept and its age
   * increased by exactly `dt`.
   */
  lemma StepShape(h: History, head: Vec3, dt: real)
    requires WellFormed(h)
    ensures var h' := Step(h, head, dt);
      && WellFormed(h')
      && |h'.points| == (if |h.points| < TrailMaxPoints then |h.points| + 1 else TrailMaxPoints)
      && h'.points[0] == head && h'.ages[0] == dt
      && (forall i :: 1 <= i < |h'.points| ==> h'.points[i] == h.points[i - 1])
      && (forall i :: 1 <= i < |h'.ages| ==> h'.ages[i] == h.ages[i - 1] + dt)
  {
    AgedAt(Capped([0.0] + h.ages, TrailMaxPoints), dt);
  }

  /** Ages never decrease from the newest entry to the oldest. */
  predicate AgesOrdered(ages: seq<real>)
  {
    forall i, j :: 0 <= i < j < |ages| ==> ages[i] <= ages[j]
  }

  /**
   * With a non-negative `deltaTime`, a frame keeps the ages non-negative
   * and ordered from newest to oldest.
   */
  lemma StepKeepsAgesOrdered(h: History, head: Vec3, dt: real)
    requires WellFormed(h)
    requires 0.0 <= dt
    requires forall i :: 0 <= i < |h.ages| ==> 0.0 <= h.ages[i]
    requires AgesOrdered(h.ages)
    ensures var h' := Step(h, head, dt);
      AgesOrdered(h'.ages) && forall i :: 0 <= i < |h'.ages| ==> dt <= h'.ages[i]
  {
    StepShape(h, head, dt);
    var a' := Step(h, head, dt).ages;
    forall i, j | 0 <= i < j < |a'| ensures a'[i] <= a'[j] {
      if i > 0 {
        assert a'[i] == h.ages[i - 1] + dt && a'[j] == h.ages[j - 1] + dt;
      } else {
        assert a'[j] == h.ages[j - 1] + dt;
      }
    }
  }

  /** The history after feeding the given head positions, one per frame, to an empty trail. */
  function Frames(heads: seq<Vec3>, dt: real): History
  {
    if heads == [] then History([], [])
    else Step(Frames(heads[..|heads| - 1], dt), heads[|heads| - 1], dt)
  }

  /**
   * After K frames with a constant `dt`, the history holds `min(K, TrailMaxPoints)`
   * entries, the newest first, and the entry at index j has age `(j + 1) * dt`.
   */
  lemma FramesShape(heads: seq<Vec3>, dt: real)
    ensures var h := Frames(heads, dt);
      && WellFormed(h)
      && |h.points| == (if |heads| <= TrailMaxPoints then |heads| else TrailMaxPoints)
      && (forall j :: 0 <= j < |h.points| ==> h.points[j] == heads[|heads| - 1 - j])
      && (forall j :: 0 <= j < |h.ages| ==> h.ages[j] == (j + 1) as real * dt)
  {
    FramesPoints(heads, dt);
    FramesAges(heads, dt);
  }

  /** The length and positions part of `FramesShape`. */
  lemma {:induction false} FramesPoints(heads: seq<Vec3>, dt: real)
    ensures var h := Frames(heads, dt);
      && WellFormed(h)
      && |h.points| == (if |heads| <= TrailMaxPoints then |heads| else TrailMaxPoints)
      && (forall j :: 0 <= j < |h.points| ==> h.points[j] == heads[|heads| - 1 - j])
  {
    if heads != [] {
      var prev := heads[..|heads| - 1];
      FramesPoints(prev, dt);
      var h0 := Frames(prev, dt);
      StepShape(h0, heads[|heads| - 1], dt);
      var h := Frames(heads, dt);
      forall j | 1 <= j < |h.points| ensures h.points[j] == heads[|heads| - 1 - j] {
        assert h.points[j] == h0.points[j - 1] == prev[|prev| - 1 - (j - 1)];
      }
    }
  }

  /** The ages part of `FramesShape`. */
  lemma {:induction false} FramesAges(heads: seq<Vec3>, dt: real)
    ensures var h := Frames(heads, dt);
      && WellFormed(h)
      && (forall j :: 0 <= j < |h.ages| ==> h.ages[j] == (j + 1) as real * dt)
  {
    if heads != [] {
      var prev := heads[..|heads| - 1];
      FramesAges(prev, dt);
      var h0 := Frames(prev, dt);
      StepShape(h0, heads[|heads| - 1], dt);
      var h := Frames(heads, dt);
      forall j | 1 <= j < |h.ages| ensures h.ages[j] == (j + 1) as real * dt {
        assert h.ages[j] == h0.ages[j - 1] + dt;
        NextMultiple(j, dt);
      }
    }
  }

  lemma NextMultiple(j: nat, dt: real)
    ensures j as real * dt + dt == (j + 1) as real * dt
  {
  }

  // ---------------------------------------------------------------------
  // The visible part of a history

  /** Number of entries still younger than the fade duration. */
  function CountFresh(ages: seq<real>): (n: nat)
    ensures n <= |ages|
  {
    if ages == [] then 0
    else CountFresh(ages[..|ages| - 1]) + (if ages[|ages| - 1] < FadeDuration then 1 else 0)
  }

  /** The positions of the entries younger than the fade duration, in history order. */
  function Visible(points: seq<Vec3>, ages: seq<real>): (v: seq<Vec3>)
    requires |points| == |ages|
    ensures |v| <= |ages|
  {
    if ages == [] then []
    else
      Visible(points[..|points| - 1], ages[..|ages| - 1])
      + (if ages[|ages| - 1] < FadeDuration then [points[|points| - 1]] else [])
  }

  /** The colours of the entries younger than the fade duration, in history order. */
  function VisibleColors(ages: seq<real>, head: Color, tail: Color): (cs: seq<Color>)
    ensures |cs| <= |ages|
  {
    if ages == [] then []
    else
      VisibleColors(ages[..|ages| - 1], head, tail)
      + (if ages[|ages| - 1] < FadeDuration then [TrailColor(head, tail, ages[|ages| - 1])] else [])
  }

  /** The draw range is the number of unfaded entries, never more than the history holds. */
  lemma {:induction false} VisibleCount(points: seq<Vec3>, ages: seq<real>, head: Color, tail: Color)
    requires |points| == |ages|
    ensures |Visible(points, ages)| == CountFresh(ages) <= |ages|
    ensures |VisibleColors(ages, head, tail)| == CountFresh(ages)
  {
    if ages != [] {
      VisibleCount(points[..|points| - 1], ages[..|ages| - 1], head, tail);
    }
  }

  /** Looking at one more entry of the history adds it to the visible part iff it is unfaded. */
  lemma VisibleExtend(points: seq<Vec3>, ages: seq<real>, head: Color, tail: Color, i: nat)
    requires |points| == |ages| && i < |ages|
    ensures CountFresh(ages[..i + 1]) == CountFresh(ages[..i]) + (if ages[i] < FadeDuration then 1 else 0)
    ensures Visible(points[..i + 1], ages[..i + 1])
      == Visible(points[..i], ages[..i]) + (if ages[i] < FadeDuration then [points[i]] else [])
    ensures VisibleColors(ages[..i + 1], head, tail)
      == VisibleColors(ages[..i], head, tail)
         + (if ages[i] < FadeDuration then [TrailColor(head, tail, ages[i])] else [])
  {
    assert ages[..i + 1][..i] == ages[..i];
    assert points[..i + 1][..i] == points[..i];
  }

  /** Counting unfaded entries over a longer prefix never gives less. */
  lemma {:induction false} CountFreshMonotone(ages: seq<real>, i: nat, j: nat)
    requires i <= j <= |ages|
    ensures CountFresh(ages[..i]) <= CountFresh(ages[..j])
    decreases j - i
  {
    if i < j {
      CountFreshMonotone(ages, i, j - 1);
      assert ages[..j][..j - 1] == ages[..j - 1];
    }
  }

  /**
   * Every unfaded entry is emitted, at the slot given by the number of
   * unfaded entries before it, with its own position and the colour of its
   * age; so unfaded entries keep their newest-to-oldest order in the buffer.
   */
  lemma {:induction false} VisibleAt(points: seq<Vec3>, ages: seq<real>, head: Color, tail: Color, i: nat)
    requires |points| == |ages|
    requires i < |ages| && ages[i] < FadeDuration
    ensures CountFresh(ages[..i]) < |Visible(points, ages)|
    ensures Visible(points, ages)[CountFresh(ages[..i])] == points[i]
    ensures CountFresh(ages[..i]) < |VisibleColors(ages, head, tail)|
    ensures VisibleColors(ages, head, tail)[CountFresh(ages[..i])] == TrailColor(head, tail, ages[i])
  {
    var n := |ages|;
    var p', a' := points[..n - 1], ages[..n - 1];
    VisibleCount(points, ages, head, tail);
    VisibleCount(p', a', head, tail);
    if i == n - 1 {
      assert ages[..i] == a';
    } else {
      VisibleAt(p', a', head, tail, i);
      assert a'[..i] == ages[..i];
    }
  }

  /** Two unfaded entries land in the buffer in the order they have in the history. */
  lemma EmittedInOrder(ages: seq<real>, i: nat, j: nat)
    requires i < j < |ages|
    requires ages[i] < FadeDuration
    ensures CountFresh(ages[..i]) < CountFresh(ages[..j])
  {
    assert ages[..i + 1][..i] == ages[..i];
    CountFreshMonotone(ages, i + 1, j);
  }

  /**
   * When ages are ordered from newest to oldest, the unfaded entries form
   * a prefix of the history: the first `CountFresh` entries are visible and
   * every later one has faded, so the buffer holds exactly that prefix.
   */
  lemma VisiblePrefixWhenOrdered(points: seq<Vec3>, ages: seq<real>)
    requires |points| == |ages|
    requires AgesOrdered(ages)
    ensures CountFresh(ages) <= |ages|
    ensures Visible(points, ages) == points[..CountFresh(ages)]
    ensures forall i :: 0 <= i < CountFresh(ages) ==> ages[i] < FadeDuration
    ensures forall i :: CountFresh(ages) <= i < |ages| ==> FadeDuration <= ages[i]
  {
    FreshPrefix(ages);
    VisibleOfSplit(points, ages, CountFresh(ages));
  }

  /** Ordered ages split into unfaded entries, `CountFresh` of them, then faded ones. */
  lemma {:induction false} FreshPrefix(ages: seq<real>)
    requires AgesOrdered(ages)
    ensures CountFresh(ages) <= |ages|
    ensures forall i :: 0 <= i < CountFresh(ages) ==> ages[i] < FadeDuration
    ensures forall i :: CountFresh(ages) <= i < |ages| ==> FadeDuration <= ages[i]
  {
    if ages != [] {
      var n := |ages|;
      var a' := ages[..n - 1];
      assert forall i :: 0 <= i < n - 1 ==> a'[i] == ages[i];
      FreshPrefix(a');
      if ages[n - 1] < FadeDuration {
        AllFresh(a');
      }
    }
  }

  /** A history whose entries are all unfaded is counted in full. */
  lemma {:induction false} AllFresh(ages: seq<real>)
    requires forall i :: 0 <= i < |ages| ==> ages[i] < FadeDuration
    ensures CountFresh(ages) == |ages|
  {
    if ages != [] {
      AllFresh(ages[..|ages| - 1]);
    }
  }

  /** When the first `k` entries are unfaded and the rest faded, the first `k` points are visible. */
  lemma {:induction false} VisibleOfSplit(points: seq<Vec3>, ages: seq<real>, k: nat)
    requires |points| == |ages| && k <= |ages|
    requires forall i :: 0 <= i < k ==> ages[i] < FadeDuration
    requires forall i :: k <= i < |ages| ==> FadeDuration <= ages[i]
    ensures Visible(points, ages) == points[..k]
  {
    if ages != [] {
      var n := |ages|;
      var p', a' := points[..n - 1], ages[..n - 1];
      if k == n {
        VisibleOfSplit(p', a', n - 1);
        assert p' + [points[n - 1]] == points;
      } else {
        VisibleOfSplit(p', a', k);
        assert p'[..k] == points[..k];
      }
    }
  }

  /** An ordered split into unfaded then faded entries fixes the count. */
  lemma {:induction false} CountFreshSplit(ages: seq<real>, k: nat)
    requires k <= |ages|
    requires forall i :: 0 <= i < k ==> ages[i] < FadeDuration
    requires forall i :: k <= i < |ages| ==> FadeDuration <= ages[i]
    ensures CountFresh(ages) == k
  {
    if ages != [] {
      var n := |ages|;
      if k == n {
        CountFreshSplit(ages[..n - 1], n - 1);
      } else {
        CountFreshSplit(ages[..n - 1], k);
      }
    }
  }

  /**
   * With frames of half a second, an entry is drawn in exactly two frames:
   * the frame that records it (age 0.5) and the next (age 1.0); at 1.5 it
   * has faded. So after K frames the draw range is `min(K, 2)`.
   */
  lemma HalfSecondFrames(heads: seq<Vec3>)
    ensures CountFresh(Frames(heads, 0.5).ages) == if |heads| < 2 then |heads| else 2
  {
    var h := Frames(heads, 0.5);
    FramesShape(heads, 0.5);
    var a := h.ages;
    assert forall i :: 0 <= i < |a| ==> a[i] == (i + 1) as real * 0.5;
    var k := if |heads| < 2 then |heads| else 2;
    HalfSecondAges(a, k);
    CountFreshSplit(a, k);
  }

  /** Ages `0.5, 1.0, 1.5, ...` are unfaded exactly at the first two indices. */
  lemma HalfSecondAges(a: seq<real>, k: nat)
    requires forall i :: 0 <= i < |a| ==> a[i] == (i + 1) as real * 0.5
    requires k == if |a| < 2 then |a| else 2
    ensures forall i :: 0 <= i < k ==> a[i] < FadeDuration
    ensures forall i :: k <= i < |a| ==> FadeDuration <= a[i]
  {
  }

  // ---------------------------------------------------------------------
  // The per-frame update, in place

  /**
   * One light source's trail: its history, and the position and colour
   * buffers of its line, allocated once with `TrailMaxPoints` slots, of
   * which the first `drawCount` are drawn.
   */
  class LightTrail {
    var points: seq<Vec3>
    var ages: seq<real>
    const positions: array<Vec3>
    const colors: array<Color>
    var drawCount: nat
    const headColor: Color
    const tailColor: Color

    ghost predicate Valid()
      reads this
    {
      && |points| == |ages| <= TrailMaxPoints
      && positions.Length == TrailMaxPoints
      && colors.Length == TrailMaxPoints
      && drawCount <= |points|
    }

    function Hist(): History
      reads this
    {
      History(points, ages)
    }

    /**
     * The buffers show the history: the draw range is the number of
     * unfaded entries, and the first `drawCount` slots hold their positions
     * and colours in history order.
     */
    ghost predicate Drawn()
      reads this, positions, colors
      requires Valid()
    {
      && drawCount == CountFresh(ages)
      && positions[..drawCount] == Visible(points, ages)
      && colors[..drawCount] == VisibleColors(ages, headColor, tailColor)
    }

    /** A trail with an empty history; nothing is drawn until points accumulate. */
    constructor (head: Color, tail: Color)
      ensures Valid()
      ensures points == [] && ages == [] && drawCount == 0
      ensures headColor == head && tailColor == tail
      ensures fresh(positions) && fresh(colors)
    {
      points, ages, drawCount := [], [], 0;
      headColor, tailColor := head, tail;
      positions := new Vec3[TrailMaxPoints](_ => Vec3(0.0, 0.0, 0.0));
      colors := new Color[TrailMaxPoints](_ => Color(0.0, 0.0, 0.0));
    }

    /**
     * One frame for this trail, given the head position the orbit produced.
     * The history becomes `Step` of the old one; the draw range is the
     * number of unfaded entries; the first `drawCount` buffer slots hold
     * their positions and colours in history order; the slots past the
     * draw range keep whatever they held.
     */
    method Update(head: Vec3, deltaTime: real)
      requires Valid()
      modifies this, positions, colors
      ensures Valid()
      ensures Hist() == Step(old(Hist()), head, deltaTime)
      ensures Drawn()
      ensures forall k :: drawCount <= k < TrailMaxPoints ==>
        positions[k] == old(positions[k]) && colors[k] == old(colors[k])
    {
      Record(head);
      AgeAndEmit(deltaTime);
    }

    /** `unshift` the new head with age 0, then `pop` down to the cap. */
    method Record(head: Vec3)
      requires Valid()
      modifies this
      ensures |points| == |ages| <= TrailMaxPoints && drawCount <= |points|
      ensures points == Capped([head] + old(points), TrailMaxPoints)
      ensures ages == Capped([0.0] + old(ages), TrailMaxPoints)
      ensures drawCount == old(drawCount)
    {
      points := [head] + points;
      ages := [0.0] + ages;
      ghost var p0, a0 := points, ages;
      while |points| > TrailMaxPoints
        invariant |points| == |ages| <= |p0|
        invariant points == p0[..|points|] && ages == a0[..|ages|]
        invariant |points| < |p0| ==> TrailMaxPoints <= |points|
        invariant drawCount == old(drawCount) && drawCount < |p0|
      {
        points := points[..|points| - 1];
        ages := ages[..|ages| - 1];
      }
    }

    /**
     * Age every entry by `deltaTime`, writing each unfaded entry's position
     * and colour into the next buffer slot; the number written is the new
     * draw range.
     */
    method AgeAndEmit(deltaTime: real)
      requires |points| == |ages| <= TrailMaxPoints
      requires positions.Length == TrailMaxPoints && colors.Length == TrailMaxPoints
      modifies this, positions, colors
      ensures Valid()
      ensures points == old(points) && ages == Aged(old(ages), deltaTime)
      ensures Drawn()
      ensures forall k :: drawCount <= k < TrailMaxPoints ==>
        positions[k] == old(positions[k]) && colors[k] == old(colors[k])
    {
      var aged, count := EmitAll(points, ages, deltaTime);
      AgedIs(ages, aged, deltaTime);
      ages := aged;
      drawCount := count;
    }

    /**
     * The loop over the history: ages every entry and writes the unfaded
     * ones into consecutive buffer slots from slot 0; `count` slots written.
     */
    method EmitAll(pts: seq<Vec3>, a0: seq<real>, deltaTime: real) returns (ags: seq<real>, count: nat)
      requires |pts| == |a0| <= TrailMaxPoints
      requires positions.Length == TrailMaxPoints && colors.Length == TrailMaxPoints
      modifies positions, colors
      ensures |ags| == |a0| && forall k :: 0 <= k < |ags| ==> ags[k] == a0[k] + deltaTime
      ensures count == CountFresh(ags) <= |ags|
      ensures positions[..count] == Visible(pts, ags)
      ensures colors[..count] == VisibleColors(ags, headColor, tailColor)
      ensures forall k :: count <= k < TrailMaxPoints ==>
        positions[k] == old(positions[k]) && colors[k] == old(colors[k])
    {
      ags := a0;
      count := 0;
      var i := 0;
      while i < |pts|
        invariant 0 <= i <= |pts| == |ags| <= TrailMaxPoints
        invariant forall k :: 0 <= k < i ==> ags[k] == a0[k] + deltaTime
        invariant forall k :: i <= k < |ags| ==> ags[k] == a0[k]
        invariant count == CountFresh(ags[..i]) <= i
        invariant positions[..count] == Visible(pts[..i], ags[..i])
        invariant colors[..count] == VisibleColors(ags[..i], headColor, tailColor)
        invariant forall k :: count <= k < TrailMaxPoints ==>
          positions[k] == old(positions[k]) && colors[k] == old(colors[k])
      {
        ags, count := AgeEntry(pts, ags, i, count, deltaTime);
        i := i + 1;
      }
      assert pts[..i] == pts && ags[..i] == ags;
    }

    /**
     * One turn of the loop above: `ages[i] += deltaTime`, and if the entry
     * is still unfaded, `setXYZ` its position and colour at the running
     * index and advance it. Slots past the running index are untouched.
     */
    method AgeEntry(pts: seq<Vec3>, ags: seq<real>, i: nat, index: nat, deltaTime: real)
      returns (ags': seq<real>, index': nat)
      requires i < |pts| == |ags| <= TrailMaxPoints
      requires positions.Length == TrailMaxPoints && colors.Length == TrailMaxPoints
      requires index == CountFresh(ags[..i]) <= i
      requires positions[..index] == Visible(pts[..i], ags[..i])
      requires colors[..index] == VisibleColors(ags[..i], headColor, tailColor)
      modifies positions, colors
      ensures ags' == ags[i := ags[i] + deltaTime]
      ensures index' == index + (if ags'[i] < FadeDuration then 1 else 0)
      ensures index' == CountFresh(ags'[..i + 1]) <= i + 1
      ensures positions[..index'] == Visible(pts[..i + 1], ags'[..i + 1])
      ensures colors[..index'] == VisibleColors(ags'[..i + 1], headColor, tailColor)
      ensures forall k :: index' <= k < TrailMaxPoints ==>
        positions[k] == old(positions[k]) && colors[k] == old(colors[k])
    {
      ags' := ags[i := ags[i] + deltaTime];
      assert ags'[..i] == ags[..i];
      VisibleExtend(pts, ags', headColor, tailColor, i);
      index' := index;
      if ags'[i] < FadeDuration {
        positions[index] := pts[i];
        colors[index] := TrailColor(headColor, tailColor, ags'[i]);
        assert positions[..index + 1] == positions[..index] + [pts[i]];
        assert colors[..index + 1] == colors[..index] + [TrailColor(headColor, tailColor, ags'[i])];
        index' := index + 1;
      }
    }
  }

  /** The trails are distinct objects with buffers of their own. */
  ghost predicate Disjoint(trails: seq<LightTrail>)
  {
    forall i, j :: 0 <= i < |trails| && 0 <= j < |trails| && i != j ==>
      && trails[i] != trails[j]
      && trails[i].positions != trails[j].positions
      && trails[i].colors != trails[j].colors
  }

  /**
   * One frame for every light source, in order: trail `i` records
   * `heads[i]`, the head position its orbit gives for this frame.
   */
  method UpdateLightTrails(trails: seq<LightTrail>, heads: seq<Vec3>, deltaTime: real)
    requires |heads| == |trails|
    requires Disjoint(trails)
    requires forall i :: 0 <= i < |trails| ==> trails[i].Valid()
    modifies set t | t in trails
    modifies set t | t in trails :: t.positions
    modifies set t | t in trails :: t.colors
    ensures forall i :: 0 <= i < |trails| ==> trails[i].Valid() && trails[i].Drawn()
    ensures forall i :: 0 <= i < |trails| ==>
      trails[i].Hist() == Step(old(trails[i].Hist()), heads[i], deltaTime)
  {
    for i := 0 to |trails|
      invariant forall k :: 0 <= k < |trails| ==> trails[k].Valid()
      invariant forall k :: 0 <= k < i ==> trails[k].Drawn()
      invariant forall k :: 0 <= k < i ==>
        trails[k].Hist() == Step(old(trails[k].Hist()), heads[k], deltaTime)
      invariant forall k :: i <= k < |trails| ==> trails[k].Hist() == old(trails[k].Hist())
    {
      UpdateAt(trails, i, heads[i], deltaTime);
    }
  }

  /** Updates trail `i`; every other trail, and what it draws, stays as it was. */
  method UpdateAt(trails: seq<LightTrail>, i: nat, head: Vec3, deltaTime: real)
    requires i < |trails| && Disjoint(trails)
    requires forall k :: 0 <= k < |trails| ==> trails[k].Valid()
    modifies trails[i], trails[i].positions, trails[i].colors
    ensures forall k :: 0 <= k < |trails| ==> trails[k].Valid()
    ensures trails[i].Drawn() && trails[i].Hist() == Step(old(trails[i].Hist()), head, deltaTime)
    ensures forall k :: 0 <= k < |trails| && k != i ==>
      trails[k].Hist() == old(trails[k].Hist()) && (old(trails[k].Drawn()) ==> trails[k].Drawn())
  {
    trails[i].Update(head, deltaTime);
  }
}
