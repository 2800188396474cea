/**
 * The search-provider callback `forwardGeocode` of src/script/map.ts
 * (lines 45-74): it turns the hits of a place-search response into point
 * features for the geocoder control, and never lets an error escape.
 * The request and the parsing of its body are not modelled; their outcome
 * is the input `Response`.
 */
module Geocode {
  import opened Wrappers

  /** A hit's `bbox`: [minX, minY, maxX, maxY]. */
  datatype BBox = BBox(minX: real, minY: real, maxX: real, maxY: real)

  /** A coordinate pair [x, y]. */
  datatype Position = Position(x: real, y: real)

  /**
   * A hit's `properties` object. Only `display_name` is read; the rest is
   * carried along untouched. A missing `display_name` reads as `undefined`
   * without an error, hence the `Option`.
   */
  datatype Properties = Properties(displayName: Option<string>, others: map<string, string>)

  /**
   * One hit of the response. Reading a field of a missing `bbox` or a
   * missing `properties` throws, hence the `Option`s.
   */
  datatype RawFeature = RawFeature(bbox: Option<BBox>, properties: Option<Properties>)

  /**
   * What the request and the parsing of its body produced: the request
   * failed, the body was not JSON, or a JSON value whose `features` list
   * may be missing.
   */
  datatype Response = NetworkError | ParseError | Body(features: Option<seq<RawFeature>>)

  datatype Geometry = Geometry(kind: string, coordinates: Position)

  /** The feature object handed to the geocoder control. */
  datatype PlaceFeature = PlaceFeature(
    kind: string,
    geometry: Geometry,
    placeName: Option<string>,
    properties: Properties,
    text: Option<string>,
    placeType: seq<string>,
    center: Position)

  /** The callback's return value `{ features }`. */
  datatype FeatureCollection = FeatureCollection(features: seq<PlaceFeature>)

  /** The centre of a bbox, computed as the source does (lines 52-55). */
  function Center(b: BBox): (p: Position)
    ensures p.x == (b.minX + b.maxX) / 2.0 && p.y == (b.minY + b.maxY) / 2.0
    ensures b.minX <= b.maxX ==> b.minX <= p.x <= b.maxX
    ensures b.minY <= b.maxY ==> b.minY <= p.y <= b.maxY
  {
    Position(b.minX + (b.maxX - b.minX) / 2.0, b.minY + (b.maxY - b.minY) / 2.0)
  }

  /** The shape every produced feature has: a point whose coordinates are its centre. */
  predicate IsPointFeature(f: PlaceFeature)
  {
    f.kind == "Feature" && f.geometry.kind == "Point" &&
    f.geometry.coordinates == f.center && f.placeType == ["place"]
  }

  /** A feature labelled by, and carrying, the given properties. */
  predicate DescribedBy(f: PlaceFeature, props: Properties)
  {
    f.placeName == props.displayName && f.text == props.displayName && f.properties == props
  }

  /** The feature object literal built for one hit (lines 56-64). */
  function ToPlace(b: BBox, props: Properties): (f: PlaceFeature)
    ensures IsPointFeature(f)
    ensures f.center.x == (b.minX + b.maxX) / 2.0 && f.center.y == (b.minY + b.maxY) / 2.0
    ensures DescribedBy(f, props)
  {
    var center := Center(b);
    PlaceFeature("Feature", Geometry("Point", center), props.displayName, props,
                 props.displayName, ["place"], center)
  }

  /** A hit whose fields can be read without throwing. */
  predicate WellFormed(raw: RawFeature)
  {
    raw.bbox.Some? && raw.properties.Some?
  }

  /**
   * The features produced from a list of hits: one per hit, in order, up
   * to the first hit whose fields cannot be read, where the loop is left.
   */
  function ShapeAll(raws: seq<RawFeature>): (r: seq<PlaceFeature>)
    ensures |r| <= |raws|
    decreases |raws|
  {
    if raws == [] || !WellFormed(raws[0]) then []
    else [ToPlace(raws[0].bbox.value, raws[0].properties.value)] + ShapeAll(raws[1..])
  }

  /** The features the callback returns for a response. */
  function Shaped(resp: Response): (r: seq<PlaceFeature>)
  {
    if resp.Body? && resp.features.Some? then ShapeAll(resp.features.value) else []
  }

  /** Whether the callback reaches its `catch` block and logs an error. */
  predicate Fails(resp: Response)
  {
    match resp
    case NetworkError => true
    case ParseError => true
    case Body(None) => true
    case Body(Some(raws)) => exists j :: 0 <= j < |raws| && !WellFormed(raws[j])
  }

  /**
   * The callback body after the response is in hand: fill `features` one
   * hit at a time; a hit that cannot be read ends the loop (the exception
   * of the source) and sets `logged`, and whatever was pushed is returned.
   */
  method ForwardGeocode(resp: Response) returns (result: FeatureCollection, logged: bool)
    ensures result.features == Shaped(resp)
    ensures logged <==> Fails(resp)
    ensures !(resp.Body? && resp.features.Some?) ==> result.features == [] && logged
  {
    var features: seq<PlaceFeature> := [];
    logged := false;
    match resp {
      case NetworkError => logged := true;
      case ParseError => logged := true;
      case Body(None) => logged := true;
      case Body(Some(raws)) =>
        var i := 0;
        while i < |raws|
          invariant 0 <= i <= |raws|
          invariant !logged
          invariant forall j :: 0 <= j < i ==> WellFormed(raws[j])
          invariant features + ShapeAll(raws[i..]) == ShapeAll(raws)
        {
          var raw := raws[i];
          if raw.bbox.None? || raw.properties.None? {
            logged := true;
            break;
          }
          var point := ToPlace(raw.bbox.value, raw.properties.value);
          assert raws[i..][1..] == raws[i + 1..];
          features := features + [point];
          i := i + 1;
        }
        assert i == |raws| ==> raws[i..] == [];
    }
    result := FeatureCollection(features);
  }

  /** The k-th produced feature is the image of the k-th hit, which was well formed. */
  lemma {:induction false} ShapeAllAt(raws: seq<RawFeature>, k: nat)
    requires k < |ShapeAll(raws)|
    ensures WellFormed(raws[k])
    ensures ShapeAll(raws)[k] == ToPlace(raws[k].bbox.value, raws[k].properties.value)
  {
    if k > 0 {
      ShapeAllAt(raws[1..], k - 1);
    }
  }

  /** Every produced feature is a point at the centre of its hit's bbox. */
  lemma ShapedFeaturesArePoints(raws: seq<RawFeature>, k: nat)
    requires k < |ShapeAll(raws)|
    ensures WellFormed(raws[k]) && IsPointFeature(ShapeAll(raws)[k])
    ensures ShapeAll(raws)[k].center == Center(raws[k].bbox.value)
    ensures DescribedBy(ShapeAll(raws)[k], raws[k].properties.value)
  {
    ShapeAllAt(raws, k);
  }

  /** When every hit is well formed, there is one feature per hit. */
  lemma {:induction false} AllWellFormedKeepsLength(raws: seq<RawFeature>)
    requires forall j :: 0 <= j < |raws| ==> WellFormed(raws[j])
    ensures |ShapeAll(raws)| == |raws|
  {
    if raws != [] {
      assert forall j :: 0 <= j < |raws[1..]| ==> raws[1..][j] == raws[j + 1];
      AllWellFormedKeepsLength(raws[1..]);
    }
  }

  /**
   * When hit k is the first malformed one, the output is exactly the
   * features of hits 0..k-1: k of them, and nothing from hit k onwards.
   */
  lemma {:induction false} FirstMalformedCuts(raws: seq<RawFeature>, k: nat)
    requires k < |raws| && !WellFormed(raws[k])
    requires forall j :: 0 <= j < k ==> WellFormed(raws[j])
    ensures |ShapeAll(raws)| == k
    ensures ShapeAll(raws) == ShapeAll(raws[..k])
  {
    if k > 0 {
      assert raws[1..][k - 1] == raws[k];
      assert forall j :: 0 <= j < k - 1 ==> raws[1..][j] == raws[j + 1];
      FirstMalformedCuts(raws[1..], k - 1);
      assert raws[..k][1..] == raws[1..][..k - 1];
    }
  }

  /**
   * Hits after a malformed one are never looked at: whatever follows it,
   * the output is the same.
   */
  lemma {:induction false} IgnoresAfterMalformed(prefix: seq<RawFeature>, rest: seq<RawFeature>)
    requires exists j :: 0 <= j < |prefix| && !WellFormed(prefix[j])
    ensures ShapeAll(prefix + rest) == ShapeAll(prefix)
  {
    if WellFormed(prefix[0]) {
      var j :| 0 <= j < |prefix| && !WellFormed(prefix[j]);
      assert prefix[1..][j - 1] == prefix[j];
      assert (prefix + rest)[1..] == prefix[1..] + rest;
      IgnoresAfterMalformed(prefix[1..], rest);
    }
  }

  /**
   * The output falls short of the input exactly when some hit is
   * malformed, and then the first hit not turned into a feature is a
   * malformed one.
   */
  lemma {:induction false} ShortExactlyOnMalformed(raws: seq<RawFeature>)
    ensures |ShapeAll(raws)| < |raws| <==> exists j :: 0 <= j < |raws| && !WellFormed(raws[j])
    ensures |ShapeAll(raws)| < |raws| ==> !WellFormed(raws[|ShapeAll(raws)|])
  {
    if raws != [] && WellFormed(raws[0]) {
      ShortExactlyOnMalformed(raws[1..]);
      assert forall j :: 0 <= j < |raws[1..]| ==> raws[1..][j] == raws[j + 1];
      if exists j :: 0 <= j < |raws| && !WellFormed(raws[j]) {
        var j :| 0 <= j < |raws| && !WellFormed(raws[j]);
        assert !WellFormed(raws[1..][j - 1]);
      }
    }
  }

  /** The bbox [10, 20, 30, 40] has centre [20, 30]. */
  lemma CenterExample()
    ensures Center(BBox(10.0, 20.0, 30.0, 40.0)) == Position(20.0, 30.0)
  {
  }
}
