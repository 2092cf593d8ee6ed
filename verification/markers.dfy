/** The state of the map page and its event handlers: the list of markers,
    the radius and search inputs, the index of the active marker and the
    analysis table shown for it. Every handler is one transition from a
    session to the next. */
module Markers {
  import opened Wrappers
  import opened Points
  import opened Coordinates
  import opened Analysis

  /** The radius input starts at 2500 metres. */
  const DefaultRadius: real := 2500.0

  /** `points`, `radius`, `suchbegriff`, `activeIndex` and `analyse`. The
      active index is an `int`, not a `nat`: `removeMarker` would decrement
      it below zero for a negative argument. */
  datatype Session = Session(points: seq<Point>, radius: real, query: string, active: Option<int>, analysis: seq<Row>)

  /** The session when the page opens. */
  function Initial(): (s: Session)
    ensures Valid(s) && s.points == [] && s.radius == DefaultRadius
  {
    Session([], DefaultRadius, "", None, [])
  }

  /** The active index is unset or designates a marker. */
  predicate Valid(s: Session) {
    s.active.None? || 0 <= s.active.value < |s.points|
  }

  /** The marker at `index`, or nothing when `points[index]` is undefined. */
  function PointAt(ps: seq<Point>, index: int): (p: Option<Point>)
    ensures p.Some? <==> 0 <= index < |ps|
    ensures p.Some? ==> p.value == ps[index]
  {
    if 0 <= index < |ps| then Some(ps[index]) else None
  }

  /** A new marker at `latlng` with the current radius and no name, appended
      and made active. The analysis table is left as it is. */
  function AddPoint(s: Session, latlng: LatLng): (t: Session)
    ensures |t.points| == |s.points| + 1 && t.points[..|s.points|] == s.points
    ensures t.points[|s.points|] == Point(latlng, s.radius, "")
    ensures t.active == Some(|s.points|) && t.analysis == s.analysis
    ensures t.radius == s.radius && t.query == s.query
  {
    s.(points := s.points + [Point(latlng, s.radius, "")], active := Some(|s.points|))
  }

  /** `handleMapClick`: a click on the map adds a marker there. */
  function MapClick(s: Session, latlng: LatLng): (t: Session)
    ensures Valid(t) && t.active == Some(|t.points| - 1)
    ensures |t.points| == |s.points| + 1 && t.points[..|s.points|] == s.points
    ensures t.points[|s.points|] == Point(latlng, s.radius, "")
    ensures t.analysis == s.analysis && t.radius == s.radius && t.query == s.query
  {
    AddPoint(s, latlng)
  }

  /** `handleSuche`: an empty query does nothing; a query the coordinate
      pattern recognises adds a marker at the two literals it reads; any
      other query is looked up, and `lookup` is the first place the address
      search returned, if any. */
  function Search(s: Session, lookup: Option<LatLng>): (t: Session)
    ensures s.query == "" ==> t == s
    ensures t.analysis == s.analysis && t.radius == s.radius && t.query == s.query
    ensures t == s || (|t.points| == |s.points| + 1 && t == AddPoint(s, t.points[|s.points|].latlng))
  {
    if s.query == "" then s
    else
      match Recognise(s.query)
      case Some(pair) => AddPoint(s, LatLng(Value(pair.0), Value(pair.1)))
      case None =>
        match lookup
        case Some(latlng) => AddPoint(s, latlng)
        case None => s
  }

  /** The points kept by `points.filter((_, i) => i !== index)`, from
      position `i` on. */
  function KeepFrom(ps: seq<Point>, index: int, i: nat): (r: seq<Point>)
    requires i <= |ps|
    ensures |r| <= |ps| - i
    decreases |ps| - i
  {
    if i == |ps| then []
    else (if i != index then [ps[i]] else []) + KeepFrom(ps, index, i + 1)
  }

  /** The filter drops exactly the point at `index`, when there is one, and
      keeps the others in order. */
  lemma {:induction false} KeepFromDrops(ps: seq<Point>, index: int, i: nat)
    requires i <= |ps|
    ensures KeepFrom(ps, index, i) ==
      if i <= index < |ps| then ps[i..index] + ps[index + 1..] else ps[i..]
  {
    if i <= index < |ps| {
      KeepFromBefore(ps, index, i);
    } else {
      KeepFromPast(ps, index, i);
    }
  }

  /** Before `index` every point is kept, up to `index` itself. */
  lemma {:induction false} KeepFromBefore(ps: seq<Point>, index: int, i: nat)
    requires i <= index < |ps|
    ensures KeepFrom(ps, index, i) == ps[i..index] + ps[index + 1..]
    decreases index - i
  {
    if i == index {
      KeepFromPast(ps, index, i + 1);
      assert ps[i..index] == [];
    } else {
      KeepFromBefore(ps, index, i + 1);
      assert KeepFrom(ps, index, i) == [ps[i]] + KeepFrom(ps, index, i + 1);
      assert ps[i..index] == [ps[i]] + ps[i + 1..index];
      assert [ps[i]] + (ps[i + 1..index] + ps[index + 1..]) == ps[i..index] + ps[index + 1..];
    }
  }

  /** Past `index`, or when `index` is outside the list, every point is
      kept. */
  lemma {:induction false} KeepFromPast(ps: seq<Point>, index: int, i: nat)
    requires i <= |ps| && !(i <= index < |ps|)
    ensures KeepFrom(ps, index, i) == ps[i..]
    decreases |ps| - i
  {
    if i < |ps| {
      KeepFromPast(ps, index, i + 1);
      assert ps[i..] == [ps[i]] + ps[i + 1..];
    }
  }

  /** `removeMarker(index)`. */
  function RemoveMarker(s: Session, index: int): (t: Session)
    ensures t.radius == s.radius && t.query == s.query
    ensures s.active.None? ==> t.active.None?
    ensures s.active == Some(index) ==> t.active.None? && t.analysis == []
    ensures s.active != Some(index) ==> t.analysis == s.analysis
  {
    var kept := KeepFrom(s.points, index, 0);
    if s.active == Some(index) then
      s.(points := kept, active := None, analysis := [])
    else if s.active.Some? && s.active.value > index then
      s.(points := kept, active := Some(s.active.value - 1))
    else
      s.(points := kept)
  }

  /** Removing deletes exactly the marker at `index`: the list is one
      shorter and the markers before and after it keep their order. */
  lemma {:induction false} RemoveDeletes(s: Session, index: int)
    requires 0 <= index < |s.points|
    ensures RemoveMarker(s, index).points == s.points[..index] + s.points[index + 1..]
    ensures |RemoveMarker(s, index).points| == |s.points| - 1
  {
    KeepFromDrops(s.points, index, 0);
  }

  /** Removing an index outside the list removes nothing. */
  lemma {:induction false} RemoveOutside(s: Session, index: int)
    requires index < 0 || |s.points| <= index
    ensures RemoveMarker(s, index).points == s.points
  {
    KeepFromDrops(s.points, index, 0);
    assert s.points[0..] == s.points;
  }

  /** After removing another marker, the active index still designates the
      marker it designated before: it moves down by one exactly when the
      removed marker came before it. */
  lemma {:induction false} RemoveKeepsActive(s: Session, index: int)
    requires Valid(s) && s.active.Some? && s.active != Some(index) && 0 <= index
    ensures var a := s.active.value;
      RemoveMarker(s, index).active == Some(if a > index then a - 1 else a)
    ensures var t := RemoveMarker(s, index);
      t.active.Some? && 0 <= t.active.value < |t.points|
      && t.points[t.active.value] == s.points[s.active.value]
  {
    var a := s.active.value;
    var t := RemoveMarker(s, index);
    KeepFromDrops(s.points, index, 0);
    if index < |s.points| {
      var b := if a > index then a - 1 else a;
      assert t.points == s.points[..index] + s.points[index + 1..];
      assert t.points[b] == s.points[a];
    } else {
      assert t.points == s.points[0..] == s.points;
    }
  }

  /** Removing a marker keeps a valid session valid, for every index the
      page can pass (it passes the active index, never a negative one). */
  lemma {:induction false} RemoveValid(s: Session, index: int)
    requires Valid(s) && 0 <= index
    ensures Valid(RemoveMarker(s, index))
  {
    if s.active.Some? && s.active != Some(index) {
      RemoveKeepsActive(s, index);
    }
  }

  /** A negative index shifts an active first marker to -1, which
      designates nothing. */
  lemma {:induction false} RemoveNegativeBreaksActive(s: Session)
    requires |s.points| == 1 && s.active == Some(0)
    ensures !Valid(RemoveMarker(s, -1))
  {
    RemoveOutside(s, -1);
  }

  /** Removing the marker just added restores the markers, and leaves no
      marker active and no table. */
  lemma {:induction false} AddThenRemove(s: Session, latlng: LatLng)
    ensures var t := RemoveMarker(AddPoint(s, latlng), |s.points|);
      t.points == s.points && t.active.None? && t.analysis == []
  {
    var u := AddPoint(s, latlng);
    RemoveDeletes(u, |s.points|);
    assert u.points[..|s.points|] == s.points;
    assert u.points[|s.points| + 1..] == [];
  }

  /** `updateMarkerCoords(index, latlng)`: the marker moves, and the table
      is recomputed for it when it is the active one. The index must
      designate a marker, or the assignment through `updated[index]`
      throws. */
  function UpdateCoords(env: Env, s: Session, index: int, latlng: LatLng): (t: Session)
    requires 0 <= index < |s.points|
    ensures |t.points| == |s.points| && t.active == s.active
    ensures t.radius == s.radius && t.query == s.query
    ensures t.points[index] == s.points[index].(latlng := latlng)
    ensures forall j :: 0 <= j < |s.points| && j != index ==> t.points[j] == s.points[j]
    ensures s.active != Some(index) ==> t.analysis == s.analysis
    ensures s.active == Some(index) && env.municipalities == [] ==> t.analysis == s.analysis
    ensures s.active == Some(index) && env.municipalities != [] ==>
      Some(t.analysis) == StartAnalyse(env, Some(t.points[index]))
  {
    var moved := s.points[index].(latlng := latlng);
    var points := s.points[index := moved];
    var analysis := if s.active == Some(index) then Reanalyse(env, Some(moved), s.analysis) else s.analysis;
    s.(points := points, analysis := analysis)
  }

  /** Moving the active marker recomputes its table from scratch whenever
      there are municipalities: the table no longer depends on the old one. */
  lemma {:induction false} MoveActiveReanalyses(env: Env, s: Session, latlng: LatLng)
    requires Valid(s) && s.active.Some? && env.municipalities != []
    ensures var t := UpdateCoords(env, s, s.active.value, latlng);
      StartAnalyse(env, Some(t.points[s.active.value])) == Some(t.analysis)
  {
  }

  /** `updateMarkerName(index, name)`: only that marker's name changes and
      no analysis runs. */
  function UpdateName(s: Session, index: int, name: string): (t: Session)
    requires 0 <= index < |s.points|
    ensures |t.points| == |s.points| && t.active == s.active && t.analysis == s.analysis
    ensures t.radius == s.radius && t.query == s.query
    ensures t.points[index] == s.points[index].(name := name)
    ensures forall j :: 0 <= j < |s.points| && j != index ==> t.points[j] == s.points[j]
  {
    s.(points := s.points[index := s.points[index].(name := name)])
  }

  /** Renaming twice is renaming once to the last name, and renaming a
      marker to its own name changes nothing. */
  lemma {:induction false} RenameLastWins(s: Session, index: int, a: string, b: string)
    requires 0 <= index < |s.points|
    ensures UpdateName(UpdateName(s, index, a), index, b) == UpdateName(s, index, b)
    ensures UpdateName(s, index, s.points[index].name) == s
  {
    var u := UpdateName(UpdateName(s, index, a), index, b);
    var v := UpdateName(s, index, b);
    assert u.points == v.points;
    assert s.points[index := s.points[index].(name := s.points[index].name)] == s.points;
  }

  /** Moving a marker and renaming it commute, whether it is active or not:
      they touch different fields, and the analysis does not read the name. */
  lemma {:induction false} MoveRenameCommute(env: Env, s: Session, index: int, latlng: LatLng, name: string)
    requires 0 <= index < |s.points|
    ensures UpdateCoords(env, UpdateName(s, index, name), index, latlng)
         == UpdateName(UpdateCoords(env, s, index, latlng), index, name)
  {
    var u := UpdateCoords(env, UpdateName(s, index, name), index, latlng);
    var v := UpdateName(UpdateCoords(env, s, index, latlng), index, name);
    assert u.points == v.points;
  }

  /** `handleMarkerClick(index)`: the marker becomes active and the table is
      recomputed for it. For an index that designates no marker the index is
      still set, while `startAnalyse(undefined)` does nothing. */
  function MarkerClick(env: Env, s: Session, index: int): (t: Session)
    ensures t.points == s.points && t.active == Some(index)
    ensures t.radius == s.radius && t.query == s.query
    ensures !(0 <= index < |s.points|) || env.municipalities == [] ==> t.analysis == s.analysis
    ensures 0 <= index < |s.points| && env.municipalities != [] ==>
      Some(t.analysis) == StartAnalyse(env, Some(s.points[index]))
  {
    s.(active := Some(index), analysis := Reanalyse(env, PointAt(s.points, index), s.analysis))
  }

  /** The radius input: later markers get the new radius, existing markers
      keep theirs. */
  function SetRadius(s: Session, radius: real): (t: Session)
    ensures t.points == s.points && t.active == s.active && t.analysis == s.analysis
    ensures t.query == s.query
    ensures t.radius == radius
  {
    s.(radius := radius)
  }

  /** A marker added after a radius change has the new radius. */
  lemma {:induction false} RadiusAppliesToNewMarkers(s: Session, radius: real, latlng: LatLng)
    ensures var t := AddPoint(SetRadius(s, radius), latlng);
      t.points[..|s.points|] == s.points && t.points[|s.points|].radius == radius
  {
  }

  /** The search input. */
  function SetQuery(s: Session, query: string): (t: Session)
    ensures t.points == s.points && t.active == s.active && t.analysis == s.analysis
    ensures t.radius == s.radius
    ensures t.query == query
  {
    s.(query := query)
  }

  /** A query with coordinates in it never reaches the address search: the
      lookup result does not matter. */
  lemma {:induction false} SearchPrefersCoordinates(s: Session, a: Option<LatLng>, b: Option<LatLng>)
    requires s.query != "" && Recognise(s.query).Some?
    ensures Search(s, a) == Search(s, b)
    ensures |Search(s, a).points| == |s.points| + 1
  {
  }

  /** A query is read as coordinates by its first match: latitude and
      longitude are the values of the match's two literals. */
  lemma {:induction false} SearchReadsFirstMatch(s: Session, lookup: Option<LatLng>, m: Match)
    requires s.query != "" && FirstMatch(s.query, m)
    ensures var (lat, lng) := Captures(s.query, m);
      Search(s, lookup) == AddPoint(s, LatLng(Value(lat), Value(lng)))
  {
    RecogniseFirstMatch(s.query, m);
  }

  /** The events of the page: the handlers with their arguments. */
  datatype Event =
    | MapClicked(latlng: LatLng)
    | Searched(lookup: Option<LatLng>)
    | Removed(index: int)
    | Dragged(index: int, latlng: LatLng)
    | Renamed(index: int, name: string)
    | Clicked(index: int)
    | RadiusTyped(radius: real)
    | QueryTyped(query: string)

  /** The events the page can raise in a session: markers are dragged,
      renamed and clicked by their position in the list, and the delete
      button passes the active index. */
  predicate Enabled(s: Session, e: Event) {
    match e
    case Removed(index) => 0 <= index
    case Dragged(index, _) => 0 <= index < |s.points|
    case Renamed(index, _) => 0 <= index < |s.points|
    case Clicked(index) => 0 <= index < |s.points|
    case _ => true
  }

  /** One handler run to completion. */
  function Step(env: Env, s: Session, e: Event): (t: Session)
    requires Enabled(s, e)
    ensures e.Renamed? || e.Dragged? || e.Clicked? || e.RadiusTyped? || e.QueryTyped? ==> |t.points| == |s.points|
  {
    match e
    case MapClicked(latlng) => MapClick(s, latlng)
    case Searched(lookup) => Search(s, lookup)
    case Removed(index) => RemoveMarker(s, index)
    case Dragged(index, latlng) => UpdateCoords(env, s, index, latlng)
    case Renamed(index, name) => UpdateName(s, index, name)
    case Clicked(index) => MarkerClick(env, s, index)
    case RadiusTyped(radius) => SetRadius(s, radius)
    case QueryTyped(query) => SetQuery(s, query)
  }

  /** Every handler keeps a valid session valid. */
  lemma {:induction false} StepValid(env: Env, s: Session, e: Event)
    requires Valid(s) && Enabled(s, e)
    ensures Valid(Step(env, s, e))
  {
    match e
    case Removed(index) => RemoveValid(s, index);
    case _ =>
  }

  /** A sequence of events, each run on the session the previous one left;
      `None` when some event is not one the page can raise at that point. */
  function Replay(env: Env, s: Session, es: seq<Event>): (r: Option<Session>)
    decreases |es|
  {
    if es == [] then Some(s)
    else if Enabled(s, es[0]) then Replay(env, Step(env, s, es[0]), es[1..])
    else None
  }

  /** Whatever the page does, starting from a valid session (such as the
      initial one) the active index is unset or designates a marker. */
  lemma {:induction false} ReplayValid(env: Env, s: Session, es: seq<Event>)
    requires Valid(s) && Replay(env, s, es).Some?
    ensures Valid(Replay(env, s, es).value)
    decreases |es|
  {
    if es != [] {
      StepValid(env, s, es[0]);
      ReplayValid(env, Step(env, s, es[0]), es[1..]);
    }
  }
}
