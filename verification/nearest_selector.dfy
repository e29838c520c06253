/** The query: reject an empty dataset, validate the user location, score
    every point by its rounded distance, sort stably by that distance and
    return the first ten entries. */
module NearestSelector {
  import opened Results
  import opened JsonData
  import opened Selection
  import opened GeoValidator
  import opened StableSort

  /** How many entries the query returns at most. */
  const ResultLimit: nat := 10

  /** Why a query produced no list. The two causes stay distinct. */
  datatype QueryError =
    | NoGeopoints                          // the loaded dataset is empty
    | BadUserLocation(cause: LocationError) // the user location failed validation

  function Min(a: nat, b: nat): nat
  {
    if a <= b then a else b
  }

  /** Every dataset point paired with its distance from `user`, in dataset
      order. `distance` stands for the haversine formula followed by rounding
      to two decimals, taken in hundredths of a kilometre; the user location
      is its first argument, as in `find_nearest_geopoints_from_file`. */
  function Score(user: Location, points: seq<GeoPoint>, distance: (Location, Location) -> int)
    : (r: seq<Ranked<GeoPoint>>)
    ensures |r| == |points|
    ensures forall i :: 0 <= i < |r| ==> r[i].point == points[i]
    ensures forall i :: 0 <= i < |r| ==> r[i].distanceHundredths == distance(user, points[i].Position())
    decreases |points|
  {
    if points == [] then []
    else
      var n := |points| - 1;
      Score(user, points[..n], distance) + [Ranked(points[n], distance(user, points[n].Position()))]
  }

  /** The first `limit` entries of the scored dataset after the stable sort. */
  function SelectNearest(user: Location, points: seq<GeoPoint>, distance: (Location, Location) -> int, limit: nat)
    : (r: seq<Ranked<GeoPoint>>)
    ensures |r| == Min(limit, |points|)
    ensures Sorted(r)
  {
    var sorted := SortByDistance(Score(user, points, distance));
    sorted[..Min(limit, |sorted|)]
  }

  /** The selection is the nearest part of the scored dataset: it is drawn
      from the scored entries, and every entry left out is at least as far as
      every entry kept. */
  lemma SelectNearestLeavesNothingNearer(user: Location, points: seq<GeoPoint>, distance: (Location, Location) -> int, limit: nat)
    ensures var scored := Score(user, points, distance);
            var r := SelectNearest(user, points, distance, limit);
            && multiset(r) <= multiset(scored)
            && (forall e, i :: e in multiset(scored) - multiset(r) && 0 <= i < |r| ==>
                  r[i].distanceHundredths <= e.distanceHundredths)
  {
    var sorted := SortByDistance(Score(user, points, distance));
    SortedPrefixIsClosest(sorted, |SelectNearest(user, points, distance, limit)|);
  }

  /** Where the cut falls among entries of equal distance, the entries kept
      are the earliest of them in dataset order. */
  lemma SelectNearestCutsTiesInDatasetOrder(user: Location, points: seq<GeoPoint>, distance: (Location, Location) -> int, limit: nat)
    ensures var scored := Score(user, points, distance);
            var r := SelectNearest(user, points, distance, limit);
            forall k :: WithKey(r, k) <= WithKey(scored, k)
  {
    var scored := Score(user, points, distance);
    SortKeepsTiesInOrder(scored);
    PrefixKeepsEarliestTies(SortByDistance(scored), |SelectNearest(user, points, distance, limit)|);
  }

  /** Every selected entry is a dataset point carrying its own distance
      from the user location. */
  lemma SelectedEntriesAreScoredPoints(user: Location, points: seq<GeoPoint>, distance: (Location, Location) -> int, limit: nat)
    ensures var r := SelectNearest(user, points, distance, limit);
            forall i :: 0 <= i < |r| ==>
              r[i].point in points && r[i].distanceHundredths == distance(user, r[i].point.Position())
  {
    var scored := Score(user, points, distance);
    var sorted := SortByDistance(scored);
    var r := SelectNearest(user, points, distance, limit);
    forall i | 0 <= i < |r|
      ensures r[i].point in points && r[i].distanceHundredths == distance(user, r[i].point.Position())
    {
      assert r[i] == sorted[i];
      assert sorted[i] in multiset(sorted);
      assert r[i] in multiset(scored);
      var j :| 0 <= j < |scored| && scored[j] == r[i];
      assert points[j] == r[i].point;
    }
  }

  /** `find_nearest_geopoints_from_file` once the dataset is loaded and the
      user-location file is parsed: the empty-dataset check comes first, then
      the location check, then the selection of the ten nearest points. */
  function FindNearest(geopoints: seq<GeoPoint>, userData: Json, distance: (Location, Location) -> int)
    : (r: Result<seq<Ranked<GeoPoint>>, QueryError>)
    ensures geopoints == [] ==> r == Err(NoGeopoints)
    ensures geopoints != [] ==> (r.Ok? <==> LoadUserLocation(userData).Ok?)
    ensures geopoints != [] && LoadUserLocation(userData).Err? ==>
              r == Err(BadUserLocation(LoadUserLocation(userData).error))
    ensures r.Ok? ==> |r.value| == Min(ResultLimit, |geopoints|) && Sorted(r.value)
  {
    if geopoints == [] then Err(NoGeopoints)
    else
      match LoadUserLocation(userData)
      case Err(e) => Err(BadUserLocation(e))
      case Ok(user) => Ok(SelectNearest(user, geopoints, distance, ResultLimit))
  }

  /** A successful query returns exactly the first ten entries (or all of
      them, when there are fewer) of the scored dataset sorted stably by
      distance from the validated user location. */
  lemma QueryReturnsFirstTenSorted(geopoints: seq<GeoPoint>, userData: Json, distance: (Location, Location) -> int)
    requires FindNearest(geopoints, userData, distance).Ok?
    ensures var user := LoadUserLocation(userData).value;
            var scored := Score(user, geopoints, distance);
            var r := FindNearest(geopoints, userData, distance).value;
            && r == SortByDistance(scored)[..Min(ResultLimit, |scored|)]
            && Sorted(r)
            && (forall e, i :: e in multiset(scored) - multiset(r) && 0 <= i < |r| ==>
                  r[i].distanceHundredths <= e.distanceHundredths)
            && (forall k :: WithKey(r, k) <= WithKey(scored, k))
  {
    var user := LoadUserLocation(userData).value;
    SelectNearestLeavesNothingNearer(user, geopoints, distance, ResultLimit);
    SelectNearestCutsTiesInDatasetOrder(user, geopoints, distance, ResultLimit);
  }

  /** A feed in which no item is a valid record loads an empty dataset,
      with the loader as written as with the corrected one, so every query on
      it fails with the no-data error, whatever the user location. */
  lemma InvalidFeedGivesNoData(data: Json, userData: Json, distance: (Location, Location) -> int)
    requires data.JArr? ==> forall i :: 0 <= i < |data.items| ==> !ValidItem(data.items[i])
    ensures FindNearest(LoadGeopoints(data), userData, distance) == Err(NoGeopoints)
    ensures FindNearest(LoadGeopointsAsWritten(data), userData, distance) == Err(NoGeopoints)
  {
    if data.JArr? {
      LoadIsOrderedSelection(data);
      var idx :| IsOrderedSelection(data.items, CheckItem, LoadGeopoints(data), idx);
      NoValidItemKeepsNothingAsWritten(data.items);
    }
  }

  /** On a loaded dataset, every entry a query returns carries a record whose
      own coordinates are those of the point, and its distance is the
      distance from the user to exactly those coordinates. */
  lemma QueryScoresRecordCoordinates(data: Json, userData: Json, distance: (Location, Location) -> int)
    ensures var r := FindNearest(LoadGeopoints(data), userData, distance);
            r.Ok? ==> forall i :: 0 <= i < |r.value| ==>
              && r.value[i].point in LoadGeopoints(data)
              && Coherent(r.value[i].point)
              && r.value[i].distanceHundredths == distance(LoadUserLocation(userData).value, r.value[i].point.Position())
  {
    var points := LoadGeopoints(data);
    if FindNearest(points, userData, distance).Ok? {
      LoadedPointsAreCoherent(data);
      SelectedEntriesAreScoredPoints(LoadUserLocation(userData).value, points, distance, ResultLimit);
    }
  }
}
