/**
 * Column placement by bounded rejection sampling. Each column draws a
 * height, a size and a position inside a disk; the candidate is accepted
 * only when its centre is at least `MinDistanceBetweenColumns` away from
 * every column already placed, and each column gets at most
 * `MaxPlacementAttempts` tries before it is skipped with a warning.
 *
 * The random source is a supplied stream of draws, consumed one per
 * attempt. Each draw carries the uniform samples in [0, 1) the code turns
 * into a height, a size and a placement radius, and the cosine and sine of
 * the sampled angle.
 */
module Columns {
  import opened Geometry

  const NumColumns: nat := 100
  const SpreadRadius: real := 55.0
  /** Minimum distance between column centres (not between their edges). */
  const MinDistanceBetweenColumns: real := 3.0
  const MaxPlacementAttempts: nat := 100

  /** The random numbers one placement attempt consumes. */
  datatype Draw = Draw(heightU: real, sizeU: real, radiusU: real, cosAngle: real, sinAngle: real)

  /** What a uniform source in [0, 1) and a true cosine/sine pair deliver. */
  predicate WellFormed(d: Draw)
  {
    && 0.0 <= d.heightU < 1.0
    && 0.0 <= d.sizeU < 1.0
    && 0.0 <= d.radiusU < 1.0
    && d.cosAngle * d.cosAngle + d.sinAngle * d.sinAngle == 1.0
  }

  /** A placed column's base: its centre on the ground plane and its half-width. */
  datatype Footprint = Footprint(x: real, z: real, radius: real)

  /** A column's box: its edge length, its height and where its centre is put. */
  datatype Column = Column(size: real, height: real, center: Vec3)

  /** A uniform sample in [0, 1) becomes a height in [1, 16). */
  function Height(d: Draw): (h: real)
    ensures 0.0 <= d.heightU < 1.0 ==> 1.0 <= h < 16.0
  {
    d.heightU * 15.0 + 1.0
  }

  /** A uniform sample in [0, 1) becomes an edge length in [1, 3). */
  function Size(d: Draw): (s: real)
    ensures 0.0 <= d.sizeU < 1.0 ==> 1.0 <= s < 3.0
  {
    d.sizeU * 2.0 + 1.0
  }

  /** Half the edge length, so in [0.5, 1.5) for a uniform sample. */
  function BaseRadius(d: Draw): (r: real)
    ensures 0.0 <= d.sizeU < 1.0 ==> 0.5 <= r < 1.5
  {
    Size(d) / 2.0
  }

  /** The disk the centre is sampled from shrinks by the column's half-width. */
  function MaxPlacementRadius(d: Draw): real { SpreadRadius - BaseRadius(d) }

  /**
   * The fraction `u` of the length `m`. A named product only so that the
   * solver treats it as one term outside `FractionBelow`, instead of
   * reasoning about non-linear multiplication wherever a radius appears.
   */
  function Fraction(u: real, m: real): real { u * m }

  function PlacementRadius(d: Draw): real { Fraction(d.radiusU, MaxPlacementRadius(d)) }

  function FootprintOf(d: Draw): Footprint
  {
    Footprint(d.cosAngle * PlacementRadius(d), d.sinAngle * PlacementRadius(d), BaseRadius(d))
  }

  /** The box is `size` x `height` x `size`, standing on the ground. */
  function ColumnOf(d: Draw): (c: Column)
    ensures c.center.y * 2.0 == c.height
    ensures c.center.x == FootprintOf(d).x && c.center.z == FootprintOf(d).z
  {
    var f := FootprintOf(d);
    Column(Size(d), Height(d), Vec3(f.x, Height(d) / 2.0, f.z))
  }

  /** The sampled quantities stay in the ranges the random draws give them. */
  lemma DrawRanges(d: Draw)
    requires WellFormed(d)
    ensures 1.0 <= Height(d) < 16.0
    ensures 1.0 <= Size(d) < 3.0
    ensures 0.5 <= BaseRadius(d) < 1.5
    ensures 0.0 <= PlacementRadius(d)
    ensures PlacementRadius(d) < MaxPlacementRadius(d)
  {
    FractionBelow(d.radiusU, MaxPlacementRadius(d));
  }

  /** A fraction in [0, 1) of a positive length is shorter than the length. */
  lemma FractionBelow(u: real, m: real)
    requires 0.0 <= u < 1.0 && 0.0 < m
    ensures 0.0 <= Fraction(u, m) < m
  {
    PositiveProduct(u, m);
    PositiveProduct(1.0 - u, m);
    assert m - u * m == (1.0 - u) * m;
  }

  /** Sign of a product of two non-negative reals. */
  lemma PositiveProduct(a: real, b: real)
    requires 0.0 <= a && 0.0 <= b
    ensures 0.0 <= a * b
    ensures 0.0 < a && 0.0 < b ==> 0.0 < a * b
  {
  }

  /**
   * A placed column lies inside the spread disk: its centre is at distance
   * `PlacementRadius` from the origin, and that distance plus the column's
   * half-width stays below `SpreadRadius` (stated on squares, no roots).
   */
  lemma FootprintInsideDisk(d: Draw)
    requires WellFormed(d)
    ensures var f := FootprintOf(d);
      && f.x * f.x + f.z * f.z == PlacementRadius(d) * PlacementRadius(d)
      && 0.0 < SpreadRadius - f.radius
      && f.x * f.x + f.z * f.z < (SpreadRadius - f.radius) * (SpreadRadius - f.radius)
  {
    DrawRanges(d);
    var f := FootprintOf(d);
    var r := PlacementRadius(d);
    var m := SpreadRadius - f.radius;
    var c, s := d.cosAngle, d.sinAngle;
    calc {
      f.x * f.x + f.z * f.z;
      (c * r) * (c * r) + (s * r) * (s * r);
      (c * c + s * s) * (r * r);
      r * r;
    }
    SquareBelow(r, m);
  }

  /** Squaring keeps the order of non-negative reals. */
  lemma SquareBelow(r: real, m: real)
    requires 0.0 <= r < m
    ensures r * r < m * m
  {
    var gap := m - r;
    PositiveProduct(r, gap);
    PositiveProduct(m, gap);
    calc {
      r * r;
    <= { assert r * gap == r * m - r * r; }
      r * m;
    == m * r;
    < { assert m * gap == m * m - m * r; }
      m * m;
    }
  }

  // ---------------------------------------------------------------------
  // The overlap test

  /** Squared planar distance between a placed footprint's centre and a candidate's. */
  function DistanceSq(placed: Footprint, x: real, z: real): (d: real)
    ensures 0.0 <= d
  {
    (x - placed.x) * (x - placed.x) + (z - placed.z) * (z - placed.z)
  }

  /** The constant-threshold rejection rule. */
  predicate TooClose(placed: Footprint, candidate: Footprint)
  {
    DistanceSq(placed, candidate.x, candidate.z)
      < MinDistanceBetweenColumns * MinDistanceBetweenColumns
  }

  predicate OverlapsAny(placed: seq<Footprint>, candidate: Footprint)
  {
    exists k :: 0 <= k < |placed| && TooClose(placed[k], candidate)
  }

  /** No footprint is too close to one placed before it. */
  predicate Separated(placed: seq<Footprint>)
  {
    forall i, j :: 0 <= i < j < |placed| ==> !TooClose(placed[i], placed[j])
  }

  /** The squared distance does not depend on which of the two footprints is the candidate. */
  lemma TooCloseSymmetric(a: Footprint, b: Footprint)
    ensures TooClose(a, b) == TooClose(b, a)
  {
    SquareOfDifference(a.x, b.x);
    SquareOfDifference(a.z, b.z);
    assert DistanceSq(a, b.x, b.z) == DistanceSq(b, a.x, a.z);
  }

  lemma SquareOfDifference(p: real, q: real)
    ensures (p - q) * (p - q) == (q - p) * (q - p)
  {
    var e := p - q;
    assert q - p == -e;
    assert (-e) * (-e) == e * e;
  }

  /**
   * The square bases of two unrotated boxes intersect: their centres are
   * closer than the sum of their half-widths along both ground axes.
   */
  predicate BasesOverlap(a: Footprint, b: Footprint)
  {
    var dx := if a.x < b.x then b.x - a.x else a.x - b.x;
    var dz := if a.z < b.z then b.z - a.z else a.z - b.z;
    dx < a.radius + b.radius && dz < a.radius + b.radius
  }

  /**
   * The centre-distance rule treats columns as round: two columns it lets
   * stand side by side can still have intersecting square bases. Here a
   * column of size 2.8 at the origin and one of the same size at
   * (1.92, 2.56), 3.2 away.
   */
  lemma SeparationAllowsOverlappingBases()
    ensures var d1, d2 := Draw(0.0, 0.9, 0.0, 1.0, 0.0), Draw(0.0, 0.9, 4.0 / 67.0, 0.6, 0.8);
      && WellFormed(d1) && WellFormed(d2)
      && Separated([FootprintOf(d1), FootprintOf(d2)])
      && BasesOverlap(FootprintOf(d1), FootprintOf(d2))
  {
    var d1, d2 := Draw(0.0, 0.9, 0.0, 1.0, 0.0), Draw(0.0, 0.9, 4.0 / 67.0, 0.6, 0.8);
    assert PlacementRadius(d1) == 0.0;
    assert PlacementRadius(d2) == 3.2;
    assert FootprintOf(d1) == Footprint(0.0, 0.0, 1.4);
    assert FootprintOf(d2) == Footprint(1.92, 2.56, 1.4);
  }

  /**
   * The scan over the placed columns, leaving at the first one that is too
   * close: the candidate overlaps iff some placed footprint is too close.
   */
  method IsOverlapping(placed: seq<Footprint>, candidate: Footprint) returns (overlapping: bool)
    ensures overlapping <==> OverlapsAny(placed, candidate)
  {
    overlapping := false;
    var k := 0;
    while k < |placed|
      invariant 0 <= k <= |placed|
      invariant forall m :: 0 <= m < k ==> !TooClose(placed[m], candidate)
    {
      if TooClose(placed[k], candidate) {
        overlapping := true;
        break;
      }
      k := k + 1;
    }
  }

  // ---------------------------------------------------------------------
  // The placement loop

  function Sum(s: seq<nat>): nat
  {
    if s == [] then 0 else Sum(s[..|s| - 1]) + s[|s| - 1]
  }

  predicate StrictlyIncreasing(s: seq<nat>)
  {
    forall i, j :: 0 <= i < j < |s| ==> s[i] < s[j]
  }

  /**
   * Placed column `k` came from draw `chosen[k]`, which was tried when `k`
   * columns stood.
   */
  ghost predicate Taken(placed: seq<Footprint>, columns: seq<Column>, chosen: seq<nat>,
                        standing: seq<nat>, draws: seq<Draw>, k: int)
  {
    && 0 <= k < |chosen| && k < |placed| && k < |columns|
    && chosen[k] < |standing| && chosen[k] < |draws|
    && standing[chosen[k]] == k
    && placed[k] == FootprintOf(draws[chosen[k]])
    && columns[k] == ColumnOf(draws[chosen[k]])
  }

  /**
   * `standing[j]` is the number of columns placed from draws before `j`:
   * the column at that count, if any, came from draw `j` or a later one,
   * and the one before it from an earlier draw.
   */
  ghost predicate StoodAt(chosen: seq<nat>, standing: seq<nat>, j: int)
  {
    && 0 <= j < |standing| && standing[j] <= |chosen|
    && (0 < standing[j] ==> chosen[standing[j] - 1] < j)
    && (standing[j] < |chosen| ==> j <= chosen[standing[j]])
  }

  /**
   * Draw `j` was either taken as the next column or too close to one of the
   * `standing[j]` columns placed from the draws before it.
   */
  ghost predicate Tried(placed: seq<Footprint>, chosen: seq<nat>, standing: seq<nat>,
                        draws: seq<Draw>, j: int)
  {
    && 0 <= j < |standing| && j < |draws| && standing[j] <= |placed|
    && StoodAt(chosen, standing, j)
    && ((standing[j] < |chosen| && chosen[standing[j]] == j)
        || OverlapsAny(placed[..standing[j]], FootprintOf(draws[j])))
  }

  /**
   * What the placement loop keeps true after trying draws `0 .. |standing|-1`:
   * every placed column came from a draw, taken in draw order; the placed
   * footprints are separated; and every draw tried was taken or rejected
   * for a column that stood when it was tried.
   */
  ghost predicate Consistent(placed: seq<Footprint>, columns: seq<Column>, chosen: seq<nat>,
                             standing: seq<nat>, draws: seq<Draw>)
  {
    && |standing| <= |draws|
    && |placed| == |columns| == |chosen|
    && StrictlyIncreasing(chosen)
    && (forall k :: 0 <= k < |chosen| ==> Taken(placed, columns, chosen, standing, draws, k))
    && Separated(placed)
    && (forall j :: 0 <= j < |standing| ==> Tried(placed, chosen, standing, draws, j))
  }

  /**
   * In a consistent state, `standing[j]` counts exactly the columns placed
   * from draws before `j`: column `k` is among them iff its draw came
   * before `j`.
   */
  lemma StandingIsCount(placed: seq<Footprint>, columns: seq<Column>, chosen: seq<nat>,
                        standing: seq<nat>, draws: seq<Draw>, j: nat, k: nat)
    requires Consistent(placed, columns, chosen, standing, draws)
    requires j < |standing| && k < |chosen|
    ensures k < standing[j] <==> chosen[k] < j
  {
    assert Tried(placed, chosen, standing, draws, j);
    if k < standing[j] {
      if k < standing[j] - 1 {
        assert chosen[k] < chosen[standing[j] - 1];
      }
    } else if k > standing[j] {
      assert chosen[standing[j]] < chosen[k];
    }
  }

  /**
   * Rejection sampling in one statement: a draw that was tried is taken
   * iff it is not too close to any column placed from the draws before it.
   */
  lemma DrawTakenIffFree(placed: seq<Footprint>, columns: seq<Column>, chosen: seq<nat>,
                         standing: seq<nat>, draws: seq<Draw>, j: nat)
    requires Consistent(placed, columns, chosen, standing, draws)
    requires j < |standing|
    ensures standing[j] <= |placed|
    ensures (exists k :: 0 <= k < |chosen| && chosen[k] == j)
        <==> !OverlapsAny(placed[..standing[j]], FootprintOf(draws[j]))
  {
    assert Tried(placed, chosen, standing, draws, j);
    if exists k :: 0 <= k < |chosen| && chosen[k] == j {
      var k :| 0 <= k < |chosen| && chosen[k] == j;
      assert Taken(placed, columns, chosen, standing, draws, k);
      forall m | 0 <= m < k ensures !TooClose(placed[..k][m], FootprintOf(draws[j])) {
        assert !TooClose(placed[m], placed[k]);
      }
    } else {
      assert !(standing[j] < |chosen| && chosen[standing[j]] == j);
    }
  }

  /**
   * The attempt loop for one column, starting at draw `start`: it uses one
   * draw per attempt, stops at the first candidate that overlaps nothing
   * (appending it) or after `MaxPlacementAttempts` rejections (appending
   * nothing). Facing no placed column, it accepts at the first attempt.
   */
  method PlaceColumn(placed: seq<Footprint>, columns: seq<Column>, chosen: seq<nat>,
                     ghost standing: seq<nat>, draws: seq<Draw>, start: nat)
    returns (placed': seq<Footprint>, columns': seq<Column>, chosen': seq<nat>,
             ghost standing': seq<nat>, tries: nat, positionFound: bool)
    requires start == |standing| && start + MaxPlacementAttempts <= |draws|
    requires Consistent(placed, columns, chosen, standing, draws)
    ensures Consistent(placed', columns', chosen', standing', draws)
    ensures |standing'| == |standing| + tries && standing'[..|standing|] == standing
    ensures forall j :: |standing| <= j < |standing'| ==> standing'[j] == |placed|
    ensures 1 <= tries <= MaxPlacementAttempts
    ensures positionFound ==>
      placed' == placed + [FootprintOf(draws[|standing'| - 1])]
      && columns' == columns + [ColumnOf(draws[|standing'| - 1])]
      && chosen' == chosen + [|standing'| - 1]
    ensures !positionFound ==>
      tries == MaxPlacementAttempts && placed' == placed && columns' == columns && chosen' == chosen
    ensures placed == [] ==> positionFound && tries == 1
  {
    placed', columns', chosen', standing' := placed, columns, chosen, standing;
    tries, positionFound := 0, false;
    var next := start;
    while !positionFound && tries < MaxPlacementAttempts
      decreases MaxPlacementAttempts - tries
      invariant 0 <= tries <= MaxPlacementAttempts && next == |standing| + tries == |standing'|
      invariant standing'[..|standing|] == standing
      invariant forall j :: |standing| <= j < |standing'| ==> standing'[j] == |placed|
      invariant Consistent(placed', columns', chosen', standing', draws)
      invariant positionFound ==>
        tries >= 1
        && placed' == placed + [FootprintOf(draws[next - 1])]
        && columns' == columns + [ColumnOf(draws[next - 1])]
        && chosen' == chosen + [next - 1]
      invariant !positionFound ==> placed' == placed && columns' == columns && chosen' == chosen
      invariant placed == [] && tries > 0 ==> positionFound && tries == 1
    {
      tries := tries + 1;
      var d := draws[next];
      var candidate := FootprintOf(d);
      var overlapping := IsOverlapping(placed', candidate);
      if !overlapping {
        Accept(placed', columns', chosen', standing', draws);
        standing' := standing' + [|placed'|];
        placed' := placed' + [candidate];
        columns' := columns' + [ColumnOf(d)];
        chosen' := chosen' + [next];
        positionFound := true;
      } else {
        Reject(placed', columns', chosen', standing', draws);
        standing' := standing' + [|placed'|];
      }
      next := next + 1;
    }
  }

  /** Taking the next draw, which overlaps nothing placed, keeps the loop's invariant. */
  lemma Accept(placed: seq<Footprint>, columns: seq<Column>, chosen: seq<nat>,
               standing: seq<nat>, draws: seq<Draw>)
    requires |standing| < |draws|
    requires Consistent(placed, columns, chosen, standing, draws)
    requires !OverlapsAny(placed, FootprintOf(draws[|standing|]))
    ensures var next := |standing|;
      Consistent(placed + [FootprintOf(draws[next])], columns + [ColumnOf(draws[next])],
                 chosen + [next], standing + [|placed|], draws)
  {
    var next := |standing|;
    var candidate := FootprintOf(draws[next]);
    var placed', columns', chosen', standing' :=
      placed + [candidate], columns + [ColumnOf(draws[next])], chosen + [next], standing + [|placed|];
    forall i, j | 0 <= i < j < |chosen'| ensures chosen'[i] < chosen'[j] {
      if j < |chosen| {
        assert chosen[i] < chosen[j];
      } else {
        assert Taken(placed, columns, chosen, standing, draws, i);
      }
    }
    forall k | 0 <= k < |chosen'| ensures Taken(placed', columns', chosen', standing', draws, k) {
      if k < |chosen| {
        assert Taken(placed, columns, chosen, standing, draws, k);
      }
    }
    forall i, j | 0 <= i < j < |placed'| ensures !TooClose(placed'[i], placed'[j]) {
      if j == |placed| {
        assert !TooClose(placed[i], candidate);
      } else {
        assert !TooClose(placed[i], placed[j]);
      }
    }
    forall j | 0 <= j < |standing'| ensures Tried(placed', chosen', standing', draws, j) {
      if j < next {
        assert Tried(placed, chosen, standing, draws, j);
        assert placed'[..standing[j]] == placed[..standing[j]];
      } else if 0 < |chosen| {
        assert Taken(placed, columns, chosen, standing, draws, |chosen| - 1);
      }
    }
  }

  /** Passing over the next draw, which overlaps a placed column, keeps the loop's invariant. */
  lemma Reject(placed: seq<Footprint>, columns: seq<Column>, chosen: seq<nat>,
               standing: seq<nat>, draws: seq<Draw>)
    requires |standing| < |draws|
    requires Consistent(placed, columns, chosen, standing, draws)
    requires OverlapsAny(placed, FootprintOf(draws[|standing|]))
    ensures Consistent(placed, columns, chosen, standing + [|placed|], draws)
  {
    var standing' := standing + [|placed|];
    forall k | 0 <= k < |chosen| ensures Taken(placed, columns, chosen, standing', draws, k) {
      assert Taken(placed, columns, chosen, standing, draws, k);
    }
    forall j | 0 <= j < |standing'| ensures Tried(placed, chosen, standing', draws, j) {
      if j < |standing| {
        assert Tried(placed, chosen, standing, draws, j);
      } else {
        if 0 < |chosen| {
          assert Taken(placed, columns, chosen, standing, draws, |chosen| - 1);
        }
        assert StoodAt(chosen, standing', j);
        assert placed[..|placed|] == placed;
      }
    }
  }

  /**
   * Places up to `numColumns` columns from the stream of draws (`init` runs
   * it with `NumColumns`). Column `i` tries draws one after another, at most
   * `MaxPlacementAttempts` of them, and takes the first that is not too
   * close to any column already placed; a column that runs out of attempts
   * adds nothing, is reported by its number `i + 1` in `warnings`, and the
   * loop goes on with the next column.
   *
   * `placed` is `placedColumnsData`, `columns` the boxes added to the scene,
   * `chosen` the index of the draw each placed column came from,
   * `attempts` the attempts each column used.
   */
  method PlaceColumns(numColumns: nat, draws: seq<Draw>)
    returns (placed: seq<Footprint>, columns: seq<Column>, chosen: seq<nat>,
             attempts: seq<nat>, warnings: seq<nat>, ghost standing: seq<nat>)
    requires Reserve(numColumns) <= |draws|
    ensures |attempts| == numColumns
    ensures forall i :: 0 <= i < numColumns ==> 1 <= attempts[i] <= MaxPlacementAttempts
    ensures Sum(attempts) <= Reserve(numColumns)
    // every column is either placed from the last draw it used or reported, never both
    ensures |placed| == |columns| == |chosen| && |placed| + |warnings| == numColumns
    ensures forall i :: 0 <= i < numColumns ==> ColumnOutcome(chosen, warnings, Starts(attempts), i)
    ensures StrictlyIncreasing(warnings)
    ensures forall k :: 0 <= k < |warnings| ==>
      1 <= warnings[k] <= numColumns && attempts[warnings[k] - 1] == MaxPlacementAttempts
    // what was placed came from the draws, in draw order, and is separated;
    // every draw not taken was too close to a column placed from an earlier draw
    ensures |standing| == Sum(attempts) && Consistent(placed, columns, chosen, standing, draws)
    // the first column meets an empty scene and is placed at its first attempt
    ensures numColumns > 0 ==> |chosen| > 0 && chosen[0] == 0 && attempts[0] == 1
  {
    placed, columns, chosen, attempts, warnings, standing := [], [], [], [], [], [];
    var next := 0;  // position in the random stream
    for i := 0 to numColumns
      invariant Progress(numColumns, draws, i, next, placed, columns, chosen, attempts, warnings, standing)
    {
      placed, columns, chosen, attempts, warnings, standing, next :=
        PlaceNext(numColumns, draws, i, next, placed, columns, chosen, attempts, warnings, standing);
    }
  }

  /**
   * Where each column's draws begin: column `i` used the draws from
   * `Starts(attempts)[i]` up to `Starts(attempts)[i + 1]` (exclusive).
   */
  function Starts(attempts: seq<nat>): seq<nat>
  {
    if attempts == [] then [0] else Starts(attempts[..|attempts| - 1]) + [Sum(attempts)]
  }

  /**
   * The columns' draw ranges start at 0, follow one another without gap,
   * each as long as the column's attempts, and end at the total.
   */
  lemma {:induction false} StartsShape(attempts: seq<nat>)
    ensures |Starts(attempts)| == |attempts| + 1
    ensures Starts(attempts)[0] == 0 && Starts(attempts)[|attempts|] == Sum(attempts)
    ensures forall i {:trigger attempts[i]} :: 0 <= i < |attempts| ==>
      Starts(attempts)[i + 1] == Starts(attempts)[i] + attempts[i]
  {
    if attempts != [] {
      var n := |attempts|;
      var prev := attempts[..n - 1];
      StartsShape(prev);
      assert Starts(attempts) == Starts(prev) + [Sum(attempts)];
      forall i | 0 <= i < n ensures Starts(attempts)[i + 1] == Starts(attempts)[i] + attempts[i] {
        if i < n - 1 {
          assert prev[i] == attempts[i];
        }
      }
    }
  }

  /** No column's draws begin past the total number of draws used. */
  lemma {:induction false} StartsBounded(attempts: seq<nat>)
    ensures |Starts(attempts)| == |attempts| + 1 && Starts(attempts)[|attempts|] == Sum(attempts)
    ensures forall i :: 0 <= i <= |attempts| ==> Starts(attempts)[i] <= Sum(attempts)
  {
    if attempts != [] {
      var prev := attempts[..|attempts| - 1];
      StartsBounded(prev);
      assert Starts(attempts) == Starts(prev) + [Sum(attempts)];
    }
  }

  /**
   * How column `i`, which used the draws from `starts[i]` up to
   * `starts[i + 1]` (exclusive), ended: it is reported iff its last draw
   * was not taken, and no other of its draws was taken.
   */
  predicate ColumnOutcome(chosen: seq<nat>, warnings: seq<nat>, starts: seq<nat>, i: int)
  {
    && 0 <= i && i + 1 < |starts| && starts[i] < starts[i + 1]
    && ((i + 1 in warnings) <==> (starts[i + 1] - 1 !in chosen))
    && (forall k :: 0 <= k < |chosen| && starts[i] <= chosen[k] < starts[i + 1] ==>
          chosen[k] == starts[i + 1] - 1)
  }

  /** What `PlaceColumns` keeps true once columns `0 .. i-1` have been handled. */
  ghost predicate Progress(numColumns: nat, draws: seq<Draw>, i: nat, next: nat,
                           placed: seq<Footprint>, columns: seq<Column>, chosen: seq<nat>,
                           attempts: seq<nat>, warnings: seq<nat>, standing: seq<nat>)
  {
    && i <= numColumns && Reserve(numColumns) <= |draws|
    && |attempts| == i && next == Sum(attempts) && next + Reserve(numColumns - i) <= Reserve(numColumns)
    && (forall c :: 0 <= c < i ==> 1 <= attempts[c] <= MaxPlacementAttempts)
    && |placed| + |warnings| == i
    && (forall c :: 0 <= c < i ==> ColumnOutcome(chosen, warnings, Starts(attempts), c))
    && StrictlyIncreasing(warnings)
    && (forall k :: 0 <= k < |warnings| ==>
         1 <= warnings[k] <= i && attempts[warnings[k] - 1] == MaxPlacementAttempts)
    && |standing| == next && Consistent(placed, columns, chosen, standing, draws)
    && (i > 0 ==> |chosen| > 0 && chosen[0] == 0 && attempts[0] == 1)
  }

  /**
   * One turn of the outer loop: the attempt loop for column `i` from draw
   * `next`, its attempt count recorded, and its warning `i + 1` when it
   * found no place. Everything is appended to; nothing earlier changes.
   */
  method PlaceNext(numColumns: nat, draws: seq<Draw>, i: nat, next: nat,
                   placed: seq<Footprint>, columns: seq<Column>, chosen: seq<nat>,
                   attempts: seq<nat>, warnings: seq<nat>, ghost standing: seq<nat>)
    returns (placed': seq<Footprint>, columns': seq<Column>, chosen': seq<nat>,
             attempts': seq<nat>, warnings': seq<nat>, ghost standing': seq<nat>, next': nat)
    requires i < numColumns
    requires Progress(numColumns, draws, i, next, placed, columns, chosen, attempts, warnings, standing)
    ensures Progress(numColumns, draws, i + 1, next', placed', columns', chosen', attempts', warnings', standing')
    ensures next < next' && attempts' == attempts + [next' - next] && standing'[..|standing|] == standing
    ensures || (warnings' == warnings + [i + 1] && next' - next == MaxPlacementAttempts
                && placed' == placed && columns' == columns && chosen' == chosen)
            || (warnings' == warnings && placed' == placed + [FootprintOf(draws[next' - 1])]
                && columns' == columns + [ColumnOf(draws[next' - 1])] && chosen' == chosen + [next' - 1])
  {
    var tries, positionFound;
    placed', columns', chosen', standing', tries, positionFound :=
      PlaceColumn(placed, columns, chosen, standing, draws, next);
    assert |chosen| > 0 ==> chosen'[0] == chosen[0];
    assert (attempts + [tries])[..|attempts|] == attempts;
    attempts' := attempts + [tries];
    next' := next + tries;
    warnings' := warnings;
    if !positionFound {
      warnings' := warnings + [i + 1];
    }
    TakenBefore(placed, columns, chosen, standing, draws);
    StartsBounded(attempts);
    OutcomesAppend(chosen, warnings, Starts(attempts), i, next', chosen', warnings');
    StartsAppend(attempts, tries);
  }

  /** Every placed column came from a draw already tried. */
  lemma TakenBefore(placed: seq<Footprint>, columns: seq<Column>, chosen: seq<nat>,
                    standing: seq<nat>, draws: seq<Draw>)
    requires Consistent(placed, columns, chosen, standing, draws)
    ensures forall k :: 0 <= k < |chosen| ==> chosen[k] < |standing|
  {
    forall k | 0 <= k < |chosen| ensures chosen[k] < |standing| {
      assert Taken(placed, columns, chosen, standing, draws, k);
    }
  }

  /** A column closed after `tries` draws adds one range end, `tries` past the last. */
  lemma StartsAppend(attempts: seq<nat>, tries: nat)
    ensures Sum(attempts + [tries]) == Sum(attempts) + tries
    ensures Starts(attempts + [tries]) == Starts(attempts) + [Sum(attempts) + tries]
  {
    assert (attempts + [tries])[..|attempts|] == attempts;
  }

  /**
   * Closing column `i`, whose draws end before `next'`, one way or the
   * other keeps every column's outcome in place.
   */
  lemma OutcomesAppend(chosen: seq<nat>, warnings: seq<nat>, f: seq<nat>, i: nat, next': nat,
                       chosen': seq<nat>, warnings': seq<nat>)
    requires |f| == i + 1 && f[i] < next'
    requires forall c :: 0 <= c <= i ==> f[c] <= f[i]
    requires forall c :: 0 <= c < i ==> ColumnOutcome(chosen, warnings, f, c)
    requires forall k :: 0 <= k < |chosen| ==> chosen[k] < f[i]
    requires forall k :: 0 <= k < |warnings| ==> warnings[k] <= i
    requires || (warnings' == warnings + [i + 1] && chosen' == chosen)
             || (warnings' == warnings && chosen' == chosen + [next' - 1])
    ensures forall c :: 0 <= c <= i ==> ColumnOutcome(chosen', warnings', f + [next'], c)
  {
    var f' := f + [next'];
    assert i + 1 !in warnings;
    forall c | 0 <= c <= i ensures ColumnOutcome(chosen', warnings', f', c) {
      if c < i {
        assert ColumnOutcome(chosen, warnings, f, c);
        assert f'[c] == f[c] && f'[c + 1] == f[c + 1] <= f[i];
        assert c + 1 in warnings' <==> c + 1 in warnings;
        assert f[c + 1] - 1 in chosen' <==> f[c + 1] - 1 in chosen;
      } else {
        assert next' - 1 in chosen' <==> warnings' == warnings;
      }
    }
  }

  /**
   * Draws set aside for `n` columns: `MaxPlacementAttempts` each. Written
   * as a recursion rather than the product so that the loop invariants stay
   * linear for the solver; `ReserveIsProduct` relates the two. The source
   * has no such quantity, since its random source never runs out.
   */
  function Reserve(n: nat): nat
  {
    if n == 0 then 0 else Reserve(n - 1) + MaxPlacementAttempts
  }

  lemma {:induction false} ReserveIsProduct(n: nat)
    ensures Reserve(n) == n * MaxPlacementAttempts
  {
    if n > 0 {
      ReserveIsProduct(n - 1);
    }
  }

  // ---------------------------------------------------------------------
  // Vertex colours of a column

  /**
   * Where `y` sits between the bottom (`-height / 2`) and the top
   * (`height / 2`) of a box centred on its origin, as a fraction of the
   * height: 0 at the bottom face, 1 at the top face.
   */
  function NormalizedY(y: real, height: real): (t: real)
    requires 0.0 < height
    ensures t == 0.0 <==> y == -height / 2.0
    ensures t == 1.0 <==> y == height / 2.0
    ensures 0.0 <= t <= 1.0 <==> -height / 2.0 <= y <= height / 2.0
  {
    var localYMin := -height / 2.0;
    var localYMax := height / 2.0;
    FractionOfHeight(y - localYMin, height);
    (y - localYMin) / (localYMax - localYMin)
  }

  /** Dividing by a positive height keeps 0, the height itself and the range between. */
  lemma FractionOfHeight(a: real, height: real)
    requires 0.0 < height
    ensures a / height == 0.0 <==> a == 0.0
    ensures a / height == 1.0 <==> a == height
    ensures 0.0 <= a / height <= 1.0 <==> 0.0 <= a <= height
  {
    var t := a / height;
    assert a == t * height;
    if t < 0.0 {
      assert t * height < 0.0;
    }
    if t > 1.0 {
      assert (t - 1.0) * height > 0.0;
    }
  }

  /** `NormalizedY` and the height give back the vertex's `y`. */
  lemma NormalizedYInverse(y: real, height: real)
    requires 0.0 < height
    ensures -height / 2.0 + NormalizedY(y, height) * height == y
  {
    var a := y + height / 2.0;
    assert NormalizedY(y, height) == a / height;
    assert a / height * height == a;
  }

  /**
   * The per-vertex colours of one column: each vertex gets the colour
   * `NormalizedY` of the way from `bottom` to `top`, so the bottom face is
   * `bottom`, the top face is `top`, and everything on the box lies
   * channel-wise between them.
   */
  method ColumnVertexColors(ys: seq<real>, height: real, bottom: Color, top: Color)
    returns (colors: seq<Color>)
    requires 0.0 < height
    ensures |colors| == |ys|
    ensures forall j :: 0 <= j < |ys| ==> colors[j] == Lerp(bottom, top, NormalizedY(ys[j], height))
    ensures forall j :: 0 <= j < |ys| && ys[j] == -height / 2.0 ==> colors[j] == bottom
    ensures forall j :: 0 <= j < |ys| && ys[j] == height / 2.0 ==> colors[j] == top
    ensures forall j :: 0 <= j < |ys| && -height / 2.0 <= ys[j] <= height / 2.0 ==>
      ChannelsBetween(colors[j], bottom, top)
  {
    colors := [];
    for j := 0 to |ys|
      invariant |colors| == j
      invariant forall k :: 0 <= k < j ==> colors[k] == Lerp(bottom, top, NormalizedY(ys[k], height))
    {
      var y := ys[j];
      var normalizedY := NormalizedY(y, height);
      var vertexColor := Lerp(bottom, top, normalizedY);
      colors := colors + [vertexColor];
    }
  }
}
