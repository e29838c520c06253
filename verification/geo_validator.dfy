/** Validation of the two input files: the geopoints feed, where a bad record
    is skipped and the load goes on, and the user location, where any defect
    is an error and no default is ever substituted. */
module GeoValidator {
  import opened Results
  import opened JsonData
  import opened Selection

  /** The keys every dataset record must carry, in the order they are tested. */
  const PointKeys: seq<string> := ["id", "name", "latitude", "longitude"]

  /** The keys the user-location object must carry, in the order they are tested. */
  const LocationKeys: seq<string> := ["latitude", "longitude"]

  /** A coordinate pair. */
  datatype Location = Location(latitude: Number, longitude: Number)

  /** A dataset record that passed validation: the record exactly as it was
      read (every key, including ones the checks never look at) together with
      its two numeric coordinates. */
  datatype GeoPoint = GeoPoint(record: map<string, Json>, latitude: Number, longitude: Number)
  {
    function Position(): Location
    {
      Location(latitude, longitude)
    }
  }

  /** The two coordinates a point carries are the ones its record holds,
      which are the values the distance computation reads back from the
      record. */
  ghost predicate Coherent(p: GeoPoint)
  {
    && "latitude" in p.record && "longitude" in p.record
    && NumberToJson(p.latitude) == p.record["latitude"]
    && NumberToJson(p.longitude) == p.record["longitude"]
  }

  /** The acceptance rule for a dataset record, stated on its own: an object
      holding all four keys whose two coordinates are numeric. */
  ghost predicate ValidItem(item: Json)
  {
    && item.JObj?
    && "id" in item.fields && "name" in item.fields
    && "latitude" in item.fields && "longitude" in item.fields
    && AsNumber(item.fields["latitude"]).Some?
    && AsNumber(item.fields["longitude"]).Some?
  }

  /** What one pass of the validation loop does with an item: keep it, skip it
      with a warning, or raise (a TypeError from `in` on a scalar, or an
      AttributeError from `.get` on a list or string that contains all four key
      names). */
  datatype ItemVerdict = Keep(point: GeoPoint) | Skip | Raise

  /** One pass of the loop body, as written. */
  function ClassifyItem(item: Json): (v: ItemVerdict)
    ensures v.Keep? <==> ValidItem(item)
    ensures v.Keep? ==> JObj(v.point.record) == item
    ensures v.Keep? ==> Coherent(v.point)
    ensures v.Raise? <==> !item.JObj? && ContainsAll(item, PointKeys) != Absent
  {
    match ContainsAll(item, PointKeys)
    case NotIterable => Raise
    case Absent =>
      assert !(&& Contains(item, PointKeys[0]) == Present && Contains(item, PointKeys[1]) == Present
               && Contains(item, PointKeys[2]) == Present && Contains(item, PointKeys[3]) == Present);
      Skip
    case Present =>
      if !item.JObj? then Raise
      else
        assert && Contains(item, PointKeys[0]) == Present && Contains(item, PointKeys[1]) == Present
               && Contains(item, PointKeys[2]) == Present && Contains(item, PointKeys[3]) == Present;
        match (AsNumber(item.fields["latitude"]), AsNumber(item.fields["longitude"]))
        case (Some(lat), Some(lon)) => Keep(GeoPoint(item.fields, lat, lon))
        case _ => Skip
  }

  /** The loop over the items, as written. `None` means an exception left the
      loop; the surrounding `except Exception` then returns the empty list. */
  function ValidateItemsAsWritten(items: seq<Json>): (r: Option<seq<GeoPoint>>)
    ensures r.None? <==> exists i :: 0 <= i < |items| && ClassifyItem(items[i]).Raise?
  {
    if items == [] then Some([])
    else
      match ClassifyItem(items[0])
      case Raise => None
      case Skip => ValidateItemsAsWritten(items[1..])
      case Keep(p) =>
        match ValidateItemsAsWritten(items[1..])
        case None => None
        case Some(rest) => Some([p] + rest)
  }

  /** Every point the loop as written keeps carries the coordinates of its
      own record. */
  lemma {:induction false} WrittenPointsAreCoherent(items: seq<Json>)
    ensures ValidateItemsAsWritten(items).Some? ==>
              forall p :: p in ValidateItemsAsWritten(items).value ==> Coherent(p)
    decreases |items|
  {
    if items != [] {
      WrittenPointsAreCoherent(items[1..]);
    }
  }

  /** When no item is a valid record, the loop as written either raises or
      keeps nothing. */
  lemma {:induction false} NoValidItemKeepsNothingAsWritten(items: seq<Json>)
    requires forall i :: 0 <= i < |items| ==> !ValidItem(items[i])
    ensures ValidateItemsAsWritten(items) == None || ValidateItemsAsWritten(items) == Some([])
    decreases |items|
  {
    if items != [] {
      assert !ValidItem(items[0]);
      assert forall i :: 0 <= i < |items[1..]| ==> items[1..][i] == items[i + 1];
      NoValidItemKeepsNothingAsWritten(items[1..]);
    }
  }

  /** `load_geopoints` after the file has been read and parsed, as written. */
  function LoadGeopointsAsWritten(data: Json): (r: seq<GeoPoint>)
    ensures !data.JArr? ==> r == []
  {
    if !data.JArr? then []
    else
      match ValidateItemsAsWritten(data.items)
      case None => []
      case Some(points) => points
  }

  /** The corrected loop body: a valid record is kept, and every other item
      is skipped whatever its shape, so no item can end the load. */
  function CheckItem(item: Json): (r: Option<GeoPoint>)
    ensures r.Some? <==> ValidItem(item)
    ensures r.Some? ==> ClassifyItem(item) == Keep(r.value)
  {
    match ClassifyItem(item)
    case Keep(p) => Some(p)
    case _ => None
  }

  /** `load_geopoints` after the file has been read and parsed, with the
      per-item skip applied to every kind of bad item. */
  function LoadGeopoints(data: Json): (r: seq<GeoPoint>)
    ensures !data.JArr? ==> r == []
    ensures data.JArr? ==> |r| <= |data.items|
  {
    if !data.JArr? then [] else FilterMap(data.items, CheckItem)
  }

  /** The loaded dataset is the ordered subsequence of the input items that
      are valid records: an item is kept if and only if it is valid, it is kept
      unchanged, and kept records keep their relative order. */
  lemma LoadIsOrderedSelection(data: Json)
    requires data.JArr?
    ensures exists idx :: IsOrderedSelection(data.items, CheckItem, LoadGeopoints(data), idx)
  {
    assert LoadGeopoints(data) == FilterMap(data.items, CheckItem);
    FilterMapIsOrderedSelection(data.items, CheckItem);
  }

  /** Every loaded point carries the coordinates of its own record. */
  lemma LoadedPointsAreCoherent(data: Json)
    ensures forall p :: p in LoadGeopoints(data) ==> Coherent(p)
  {
    if data.JArr? {
      LoadIsOrderedSelection(data);
      var idx :| IsOrderedSelection(data.items, CheckItem, LoadGeopoints(data), idx);
    }
  }

  /** A bad item, wherever it stands, is skipped without affecting the
      records loaded before or after it. */
  lemma BadItemIsSkipped(before: seq<Json>, bad: Json, after: seq<Json>)
    requires !ValidItem(bad)
    ensures LoadGeopoints(JArr(before + [bad] + after)) == LoadGeopoints(JArr(before + after))
  {
    RejectedElementIsDropped(before, bad, after, CheckItem);
  }

  /** One step of the agreement: an item that does not raise, put in front
      of a feed on which the two loaders agree. */
  lemma AgreeOnOneMoreItem(x: Json, rest: seq<Json>)
    requires !ClassifyItem(x).Raise?
    requires ValidateItemsAsWritten(rest) == Some(FilterMap(rest, CheckItem))
    ensures ValidateItemsAsWritten([x] + rest) == Some(FilterMap([x] + rest, CheckItem))
  {
    var items := [x] + rest;
    assert items[0] == x && items[1..] == rest;
    FilterMapAppend([x], rest, CheckItem);
    assert [x][..0] == [];
    if ClassifyItem(x).Keep? {
      assert FilterMap([x], CheckItem) == [ClassifyItem(x).point];
    } else {
      assert FilterMap([x], CheckItem) == [];
      assert [] + FilterMap(rest, CheckItem) == FilterMap(rest, CheckItem);
    }
  }

  /** On a feed in which no item raises, in particular on a feed of
      objects, the loader as written and the corrected loader agree. */
  lemma {:induction false} AgreeWhenNothingRaises(items: seq<Json>)
    requires forall i :: 0 <= i < |items| ==> !ClassifyItem(items[i]).Raise?
    ensures ValidateItemsAsWritten(items) == Some(FilterMap(items, CheckItem))
    decreases |items|
  {
    if items != [] {
      var rest := items[1..];
      forall i | 0 <= i < |rest|
        ensures !ClassifyItem(rest[i]).Raise?
      {
        assert rest[i] == items[i + 1];
      }
      AgreeWhenNothingRaises(rest);
      assert items == [items[0]] + rest;
      AgreeOnOneMoreItem(items[0], rest);
    }
  }

  /** As written, one scalar item anywhere in the feed (a number, say) raises
      inside the loop and the whole load returns the empty list. */
  lemma ScalarItemEmptiesLoadAsWritten(before: seq<Json>, scalar: Json, after: seq<Json>)
    requires !(scalar.JObj? || scalar.JArr? || scalar.JStr?)
    ensures LoadGeopointsAsWritten(JArr(before + [scalar] + after)) == []
  {
    var items := before + [scalar] + after;
    assert items[|before|] == scalar;
    assert ContainsAll(scalar, PointKeys) == NotIterable;
  }

  /** The concrete input `[5, {"id": 1, "name": "A", "latitude": 0, "longitude": 0}]`:
      as written nothing is loaded; with the per-item skip the valid record is. */
  lemma ScalarItemCounterexample()
    ensures var record := map["id" := JInt(1), "name" := JStr("A"), "latitude" := JInt(0), "longitude" := JInt(0)];
            var feed := JArr([JInt(5), JObj(record)]);
            && LoadGeopointsAsWritten(feed) == []
            && LoadGeopoints(feed) == [GeoPoint(record, Int(0), Int(0))]
  {
    var record := map["id" := JInt(1), "name" := JStr("A"), "latitude" := JInt(0), "longitude" := JInt(0)];
    var items := [JInt(5), JObj(record)];
    ScalarItemEmptiesLoadAsWritten([], JInt(5), [JObj(record)]);
    assert [] + [JInt(5)] + [JObj(record)] == items;
    assert ValidItem(JObj(record));
    assert items[..1] == [JInt(5)] && items[..0] == [];
  }

  /** Why the user location could not be used. */
  datatype LocationError =
    | NotAnObject          // the file holds something other than one object
    | MissingCoordinates   // `latitude` or `longitude` is absent
    | BadCoordinateType    // a coordinate is present but not numeric

  /** `load_user_location` after the file has been read and parsed. */
  function LoadUserLocation(data: Json): (r: Result<Location, LocationError>)
    ensures r.Ok? <==>
              && data.JObj?
              && "latitude" in data.fields && "longitude" in data.fields
              && AsNumber(data.fields["latitude"]).Some?
              && AsNumber(data.fields["longitude"]).Some?
    ensures r.Ok? ==> NumberToJson(r.value.latitude) == data.fields["latitude"]
    ensures r.Ok? ==> NumberToJson(r.value.longitude) == data.fields["longitude"]
    ensures r == Err(NotAnObject) <==> !data.JObj?
    ensures r == Err(MissingCoordinates) <==>
              data.JObj? && !("latitude" in data.fields && "longitude" in data.fields)
  {
    if !data.JObj? then Err(NotAnObject)
    else if ContainsAll(data, LocationKeys) != Present then
      assert !(Contains(data, LocationKeys[0]) == Present && Contains(data, LocationKeys[1]) == Present);
      Err(MissingCoordinates)
    else
      assert Contains(data, LocationKeys[0]) == Present && Contains(data, LocationKeys[1]) == Present;
      match (AsNumber(data.fields["latitude"]), AsNumber(data.fields["longitude"]))
      case (Some(lat), Some(lon)) => Ok(Location(lat, lon))
      case _ => Err(BadCoordinateType)
  }
}
