/** The analysis behind the table of municipalities: `startAnalyse` draws a
    circle of the marker's radius around it, intersects the circle with
    every municipality of the GeoJSON file in file order, keeps one entry
    per municipality the circle overlaps, and gives each entry its share of
    the summed overlap area in percent.

    The geometry is done by the turf library in floating point. Here it is
    a parameter: `Turf.intersect` says whether intersecting a circle with a
    municipality throws, yields nothing, or yields a region of some area,
    and `Turf.area` is the area of a whole municipality. Areas and shares
    are exact reals. */
module Analysis {
  import opened Wrappers
  import opened Points

  /** The two name properties of a feature, `GEN` and `name`, either of
      which may be absent. */
  datatype Properties = Properties(gen: Option<string>, name: Option<string>)

  /** A municipality feature: an opaque geometry and its `properties`
      member, which a GeoJSON feature may leave `null` (section 3.2 of
      RFC 7946). */
  datatype Municipality = Municipality(shape: nat, properties: Option<Properties>)

  /** The polygon `turf.circle` approximates: centre in GeoJSON order
      (longitude first), radius in kilometres, number of steps. */
  datatype Circle = Circle(lng: real, lat: real, radiusKm: real, steps: nat)

  /** What `turf.intersect` followed by `turf.area` of its result yields. */
  datatype Clip = Throws | Disjoint | Overlap(area: real)

  /** The geometry library, as far as the analysis sees it. */
  datatype Turf = Turf(intersect: (Circle, Municipality) -> Clip, area: Municipality -> real)

  /** The inputs the analysis reads besides the point: the library and the
      municipalities loaded from the GeoJSON file, in file order. */
  datatype Env = Env(turf: Turf, municipalities: seq<Municipality>)

  /** One overlapped municipality, before the shares are known. */
  datatype Hit = Hit(name: Option<string>, part: real, whole: real)

  /** A share in percent; `Undefined` stands for the NaN or infinity that
      JavaScript's division by a zero total gives. */
  datatype Share = Percent(value: real) | Undefined

  /** One line of the analysis table: name, overlap area, total area and
      share. */
  datatype Row = Row(name: Option<string>, part: real, whole: real, share: Share)

  const Steps: nat := 64

  /** The circle around a marker: its radius is given in metres and the
      library takes kilometres. */
  function CircleAround(p: Point): (c: Circle)
    ensures c.radiusKm * 1000.0 == p.radius
    ensures c.lng == p.latlng.lng && c.lat == p.latlng.lat && c.steps == Steps
  {
    Circle(p.latlng.lng, p.latlng.lat, p.radius / 1000.0, Steps)
  }

  /** The name shown for a municipality: `GEN || name`, so a missing or
      empty `GEN` falls back to `name`, whatever that is. Reading either
      property of a feature whose `properties` are `null` throws. */
  function DisplayName(g: Municipality): (n: Option<string>)
    requires g.properties.Some?
    ensures var p := g.properties.value; p.gen.Some? && p.gen.value != "" ==> n == p.gen
    ensures var p := g.properties.value; (p.gen.None? || p.gen.value == "") ==> n == p.name
  {
    var p := g.properties.value;
    match p.gen
    case Some(gen) => if gen != "" then p.gen else p.name
    case None => p.name
  }

  /** Whether a municipality yields an entry: its intersection with the
      circle is a region and its name can be read. */
  predicate Contributes(t: Turf, c: Circle, g: Municipality) {
    t.intersect(c, g).Overlap? && g.properties.Some?
  }

  /** The entry one municipality contributes: none when the intersection
      throws or the name read throws (either exception is caught and
      logged), or when the intersection is empty. */
  function Entry(t: Turf, c: Circle, g: Municipality): (e: seq<Hit>)
    ensures |e| <= 1
    ensures |e| == 1 <==> t.intersect(c, g).Overlap? && g.properties.Some?
    ensures |e| == 1 ==> e[0] == Hit(DisplayName(g), t.intersect(c, g).area, t.area(g))
  {
    match t.intersect(c, g)
    case Overlap(a) => if g.properties.Some? then [Hit(DisplayName(g), a, t.area(g))] else []
    case _ => []
  }

  /** The entries of all municipalities, in their order. */
  function Collect(t: Turf, c: Circle, gs: seq<Municipality>): (hs: seq<Hit>)
    ensures |hs| <= |gs|
  {
    if gs == [] then [] else Entry(t, c, gs[0]) + Collect(t, c, gs[1..])
  }

  /** Collecting a concatenation collects the parts one after the other:
      each municipality is handled on its own, in order. */
  lemma {:induction false} CollectAppend(t: Turf, c: Circle, a: seq<Municipality>, b: seq<Municipality>)
    ensures Collect(t, c, a + b) == Collect(t, c, a) + Collect(t, c, b)
  {
    if a == [] {
      assert a + b == b;
    } else {
      assert (a + b)[1..] == a[1..] + b;
      CollectAppend(t, c, a[1..], b);
    }
  }

  /** A municipality whose intersection throws or is empty, or whose name
      cannot be read, is skipped without affecting the entries of the
      others. */
  lemma {:induction false} CollectSkips(t: Turf, c: Circle, a: seq<Municipality>, g: Municipality, b: seq<Municipality>)
    requires !Contributes(t, c, g)
    ensures Collect(t, c, a + [g] + b) == Collect(t, c, a + b)
  {
    CollectAppend(t, c, a + [g], b);
    CollectAppend(t, c, a, [g]);
    CollectAppend(t, c, a, b);
  }

  /** An entry is collected exactly when some municipality contributes,
      and then it carries that municipality's
      name, overlap area and total area. */
  lemma {:induction false} CollectMembers(t: Turf, c: Circle, gs: seq<Municipality>, h: Hit)
    ensures h in Collect(t, c, gs) <==>
      exists g :: g in gs && Contributes(t, c, g) && h == Hit(DisplayName(g), t.intersect(c, g).area, t.area(g))
  {
    if gs != [] {
      CollectMembers(t, c, gs[1..], h);
      assert forall g :: g in gs <==> g == gs[0] || g in gs[1..];
    }
  }

  /** The `forEach` loop of the analysis, with its `try`/`catch`: it pushes
      the entry of each municipality in turn. */
  method CollectLoop(t: Turf, c: Circle, gs: seq<Municipality>) returns (hits: seq<Hit>)
    ensures hits == Collect(t, c, gs)
  {
    hits := [];
    for i := 0 to |gs|
      invariant hits == Collect(t, c, gs[..i])
    {
      var g := gs[i];
      match t.intersect(c, g) {
        case Overlap(a) =>
          if g.properties.Some? {
            hits := hits + [Hit(DisplayName(g), a, t.area(g))];
          }
        case _ =>
      }
      CollectAppend(t, c, gs[..i], [g]);
      assert gs[..i + 1] == gs[..i] + [g];
    }
    assert gs[..|gs|] == gs;
  }

  /** The summed overlap area, added up from the left as `reduce` does. */
  function Total(hs: seq<Hit>): real {
    if hs == [] then 0.0 else Total(hs[..|hs| - 1]) + hs[|hs| - 1].part
  }

  /** The table rows for the entries, with shares relative to `total`. */
  function Scale(hs: seq<Hit>, total: real): (rows: seq<Row>)
    ensures |rows| == |hs|
  {
    if hs == [] then []
    else
      var h := hs[|hs| - 1];
      Scale(hs[..|hs| - 1], total) + [Row(h.name, h.part, h.whole, ShareOf(h.part, total))]
  }

  /** `part / total * 100`, undefined when the total is zero. */
  function ShareOf(part: real, total: real): (s: Share)
    ensures s.Undefined? <==> total == 0.0
    ensures s.Percent? ==> s.value * total == part * 100.0
  {
    if total == 0.0 then Undefined else Percent(part / total * 100.0)
  }

  /** The table rows: every entry with its share of the summed overlap. */
  function Finalize(hs: seq<Hit>): (rows: seq<Row>)
    ensures |rows| == |hs|
  {
    Scale(hs, Total(hs))
  }

  /** The percentages of a table added up; undefined shares add nothing. */
  function ShareTotal(rows: seq<Row>): real {
    if rows == [] then 0.0
    else
      var last := rows[|rows| - 1];
      ShareTotal(rows[..|rows| - 1]) + (if last.share.Percent? then last.share.value else 0.0)
  }

  /** Row `k` of a table keeps entry `k`'s name and areas, and its share is
      entry `k`'s part of `total`. */
  lemma {:induction false} ScaleRow(hs: seq<Hit>, total: real, k: nat)
    requires k < |hs|
    ensures var r := Scale(hs, total)[k];
      r.name == hs[k].name && r.part == hs[k].part && r.whole == hs[k].whole
      && r.share == ShareOf(hs[k].part, total)
  {
    if k < |hs| - 1 {
      ScaleRow(hs[..|hs| - 1], total, k);
    }
  }

  /** With a non-zero total every share is defined and the shares add up to
      the scaled sum of the parts. */
  lemma {:induction false} ScaleSum(hs: seq<Hit>, total: real)
    requires total != 0.0
    ensures ShareTotal(Scale(hs, total)) * total == Total(hs) * 100.0
  {
    if hs == [] {
      assert ShareTotal(Scale(hs, total)) == 0.0;
    } else {
      var init := hs[..|hs| - 1];
      var h := hs[|hs| - 1];
      ScaleSum(init, total);
      var rows := Scale(hs, total);
      assert rows[..|rows| - 1] == Scale(init, total);
      var v := ShareOf(h.part, total).value;
      var st := ShareTotal(Scale(init, total));
      assert ShareTotal(rows) == st + v;
      assert v * total == h.part * 100.0;
      ScaledSumStep(st, v, total, Total(init), h.part);
    }
  }

  lemma {:induction false} ScaledSumStep(st: real, v: real, total: real, sum: real, part: real)
    requires st * total == sum * 100.0 && v * total == part * 100.0
    ensures (st + v) * total == (sum + part) * 100.0
  {
  }

  /** When the overlap areas do not add up to zero, the shares of the table
      add up to exactly 100, the figure its total row shows. */
  lemma {:induction false} SharesSumTo100(hs: seq<Hit>)
    requires Total(hs) != 0.0
    ensures ShareTotal(Finalize(hs)) == 100.0
  {
    ScaleTo100(hs, Total(hs));
  }

  lemma {:induction false} ScaleTo100(hs: seq<Hit>, total: real)
    requires total == Total(hs) && total != 0.0
    ensures ShareTotal(Scale(hs, total)) == 100.0
  {
    ScaleSum(hs, total);
    Cancel(ShareTotal(Scale(hs, total)), total, Total(hs));
  }

  lemma {:induction false} Cancel(a: real, c: real, t: real)
    requires c != 0.0 && t == c && a * c == t * 100.0
    ensures a == 100.0
  {
    assert (a - 100.0) * c == 0.0;
    assert a - 100.0 == (a - 100.0) * c / c;
  }

  /** Nothing guards a non-empty table whose overlap areas add up to zero:
      every share is then the result of a division by zero. */
  lemma {:induction false} SharesUndefined(hs: seq<Hit>, k: nat)
    requires k < |hs| && Total(hs) == 0.0
    ensures Finalize(hs)[k].share == Undefined
  {
    ScaleRow(hs, Total(hs), k);
  }

  /** The shares are proportional to the overlap areas: two rows' shares
      stand in the ratio of their parts. */
  lemma {:induction false} SharesProportional(hs: seq<Hit>, i: nat, j: nat)
    requires i < |hs| && j < |hs| && Total(hs) != 0.0
    ensures Finalize(hs)[i].share.Percent? && Finalize(hs)[j].share.Percent?
    ensures Finalize(hs)[i].share.value * hs[j].part == Finalize(hs)[j].share.value * hs[i].part
  {
    ScaleProportional(hs, Total(hs), i, j);
  }

  lemma {:induction false} ScaleProportional(hs: seq<Hit>, total: real, i: nat, j: nat)
    requires i < |hs| && j < |hs| && total != 0.0
    ensures Scale(hs, total)[i].share.Percent? && Scale(hs, total)[j].share.Percent?
    ensures Scale(hs, total)[i].share.value * hs[j].part == Scale(hs, total)[j].share.value * hs[i].part
  {
    ScaleRow(hs, total, i);
    ScaleRow(hs, total, j);
    CrossMultiply(hs[i].part, hs[j].part, total);
  }

  lemma {:induction false} CrossMultiply(x: real, y: real, total: real)
    requires total != 0.0
    ensures (x / total * 100.0) * y == (y / total * 100.0) * x
  {
    var u := 1.0 / total;
    assert x / total == x * u;
    assert y / total == y * u;
  }

  /** Every part is non-negative: the total is at least each part. */
  lemma {:induction false} TotalBounds(hs: seq<Hit>, k: nat)
    requires forall i :: 0 <= i < |hs| ==> 0.0 <= hs[i].part
    requires k < |hs|
    ensures hs[k].part <= Total(hs)
    ensures 0.0 <= Total(hs)
  {
    var init := hs[..|hs| - 1];
    TotalNonNegative(init);
    if k < |hs| - 1 {
      TotalBounds(init, k);
    }
  }

  lemma {:induction false} TotalNonNegative(hs: seq<Hit>)
    requires forall i :: 0 <= i < |hs| ==> 0.0 <= hs[i].part
    ensures 0.0 <= Total(hs)
  {
    if hs != [] {
      TotalNonNegative(hs[..|hs| - 1]);
    }
  }

  /** With non-negative areas and some overlap, every share is a percentage
      between 0 and 100. */
  lemma {:induction false} ShareBounds(hs: seq<Hit>, k: nat)
    requires forall i :: 0 <= i < |hs| ==> 0.0 <= hs[i].part
    requires k < |hs| && Total(hs) != 0.0
    ensures Finalize(hs)[k].share.Percent?
    ensures 0.0 <= Finalize(hs)[k].share.value <= 100.0
  {
    TotalBounds(hs, k);
    ScaleBounds(hs, Total(hs), k);
  }

  lemma {:induction false} ScaleBounds(hs: seq<Hit>, total: real, k: nat)
    requires k < |hs| && 0.0 <= hs[k].part <= total && total != 0.0
    ensures Scale(hs, total)[k].share.Percent?
    ensures 0.0 <= Scale(hs, total)[k].share.value <= 100.0
  {
    ScaleRow(hs, total, k);
    PercentBounds(hs[k].part, total);
  }

  lemma {:induction false} PercentBounds(part: real, total: real)
    requires 0.0 <= part <= total && total != 0.0
    ensures 0.0 <= part / total * 100.0 <= 100.0
  {
    var q := part / total;
    assert q * total == part;
  }

  /** `startAnalyse(point)`: nothing happens (`None`) without municipalities
      or without a point; otherwise the new table. */
  function StartAnalyse(env: Env, point: Option<Point>): (r: Option<seq<Row>>)
    ensures r.None? <==> env.municipalities == [] || point.None?
    ensures r.Some? ==> |r.value| <= |env.municipalities|
  {
    if env.municipalities == [] || point.None? then None
    else Some(Finalize(Collect(env.turf, CircleAround(point.value), env.municipalities)))
  }

  /** The table after `startAnalyse`: the old one when nothing happens,
      otherwise replaced wholesale. */
  function Reanalyse(env: Env, point: Option<Point>, current: seq<Row>): (rows: seq<Row>)
    ensures StartAnalyse(env, point).None? ==> rows == current
  {
    var r := StartAnalyse(env, point);
    if r.Some? then r.value else current
  }

  /** A table row exists for exactly the municipalities the circle around
      the point overlaps, with their names and areas. */
  lemma {:induction false} AnalyseRows(env: Env, p: Point, row: Row)
    requires env.municipalities != []
    ensures var rows := StartAnalyse(env, Some(p)).value;
      row in rows <==>
        exists g :: g in env.municipalities && Contributes(env.turf, CircleAround(p), g)
          && row.name == DisplayName(g) && row.part == env.turf.intersect(CircleAround(p), g).area
          && row.whole == env.turf.area(g)
          && row.share == ShareOf(row.part, Total(Collect(env.turf, CircleAround(p), env.municipalities)))
  {
    var c := CircleAround(p);
    var hs := Collect(env.turf, c, env.municipalities);
    var rows := Finalize(hs);
    var h := Hit(row.name, row.part, row.whole);
    CollectMembers(env.turf, c, env.municipalities, h);
    if row in rows {
      var k :| 0 <= k < |rows| && rows[k] == row;
      ScaleRow(hs, Total(hs), k);
      assert hs[k] == h;
    }
    if h in hs && row.share == ShareOf(row.part, Total(hs)) {
      var k :| 0 <= k < |hs| && hs[k] == h;
      ScaleRow(hs, Total(hs), k);
      assert rows[k] == row;
    }
  }
}
