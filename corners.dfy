/** The corner-picking part of `find_corners_of_largest_polygon`: from the
    points of the largest contour it picks the top-left (smallest x + y),
    top-right (largest x - y), bottom-right (largest x + y) and bottom-left
    (smallest x - y) points. Python's `min` and `max` over `enumerate` keep
    the first index on ties. */
module Corners {
  import opened PyValues

  /** An image point: `x` grows to the right, `y` grows downwards. */
  datatype Point = Point(x: int, y: int)

  /** `min(enumerate(v), key=itemgetter(1))[0]`: the first index of a
      smallest value. */
  function ArgMinFirst(v: seq<int>): (k: nat)
    requires |v| > 0
    ensures k < |v|
    ensures forall j :: 0 <= j < |v| ==> v[k] <= v[j]
    ensures forall j :: 0 <= j < k ==> v[j] > v[k]
  {
    if |v| == 1 then 0
    else
      var best := ArgMinFirst(v[..|v| - 1]);
      if v[|v| - 1] < v[best] then |v| - 1 else best
  }

  /** `max(enumerate(v), key=itemgetter(1))[0]`: the first index of a
      largest value. */
  function ArgMaxFirst(v: seq<int>): (k: nat)
    requires |v| > 0
    ensures k < |v|
    ensures forall j :: 0 <= j < |v| ==> v[j] <= v[k]
    ensures forall j :: 0 <= j < k ==> v[j] < v[k]
  {
    if |v| == 1 then 0
    else
      var best := ArgMaxFirst(v[..|v| - 1]);
      if v[|v| - 1] > v[best] then |v| - 1 else best
  }

  /** `[pt[0][0] + pt[0][1] for pt in polygon]` */
  function Sums(polygon: seq<Point>): (keys: seq<int>)
    ensures |keys| == |polygon|
  {
    seq(|polygon|, i requires 0 <= i < |polygon| => polygon[i].x + polygon[i].y)
  }

  /** `[pt[0][0] - pt[0][1] for pt in polygon]` */
  function Diffs(polygon: seq<Point>): (keys: seq<int>)
    ensures |keys| == |polygon|
  {
    seq(|polygon|, i requires 0 <= i < |polygon| => polygon[i].x - polygon[i].y)
  }

  /** The four extreme corners, in the order top-left, top-right,
      bottom-right, bottom-left. An empty polygon makes `min` raise. */
  function FindCorners(polygon: seq<Point>): (r: Result<seq<Point>>)
    ensures r.Raise? <==> polygon == []
    ensures r.Raise? ==> r.error == EmptySequence
    ensures r.Ok? ==> |r.value| == 4 && forall c :: c in r.value ==> c in polygon
    ensures r.Ok? ==> forall j :: 0 <= j < |polygon| ==>
              r.value[0].x + r.value[0].y <= polygon[j].x + polygon[j].y
              && r.value[1].x - r.value[1].y >= polygon[j].x - polygon[j].y
              && r.value[2].x + r.value[2].y >= polygon[j].x + polygon[j].y
              && r.value[3].x - r.value[3].y <= polygon[j].x - polygon[j].y
  {
    if polygon == [] then Raise(EmptySequence)
    else
      var sums, diffs := Sums(polygon), Diffs(polygon);
      var topLeft := ArgMinFirst(sums);
      var topRight := ArgMaxFirst(diffs);
      var bottomRight := ArgMaxFirst(sums);
      var bottomLeft := ArgMinFirst(diffs);
      assert forall j :: 0 <= j < |polygon| ==>
               sums[j] == polygon[j].x + polygon[j].y && diffs[j] == polygon[j].x - polygon[j].y;
      Ok([polygon[topLeft], polygon[topRight], polygon[bottomRight], polygon[bottomLeft]])
  }

  /** Index `i` comes first among the indices with its key: every earlier key
      is strictly worse (larger when `smaller` is asked for, else smaller). */
  predicate FirstAmongTies(keys: seq<int>, i: nat, smaller: bool)
    requires i < |keys|
  {
    forall j :: 0 <= j < i ==> if smaller then keys[j] > keys[i] else keys[j] < keys[i]
  }

  /** On ties each corner is the earliest extreme point of the polygon. */
  lemma CornersFirstOnTies(polygon: seq<Point>)
    requires polygon != []
    ensures var c := FindCorners(polygon).value;
            (exists i :: 0 <= i < |polygon| && c[0] == polygon[i] && FirstAmongTies(Sums(polygon), i, true))
            && (exists i :: 0 <= i < |polygon| && c[1] == polygon[i] && FirstAmongTies(Diffs(polygon), i, false))
            && (exists i :: 0 <= i < |polygon| && c[2] == polygon[i] && FirstAmongTies(Sums(polygon), i, false))
            && (exists i :: 0 <= i < |polygon| && c[3] == polygon[i] && FirstAmongTies(Diffs(polygon), i, true))
  {
    var sums, diffs := Sums(polygon), Diffs(polygon);
    var c := FindCorners(polygon).value;
    var tl, tr, br, bl := ArgMinFirst(sums), ArgMaxFirst(diffs), ArgMaxFirst(sums), ArgMinFirst(diffs);
    assert c[0] == polygon[tl] && FirstAmongTies(sums, tl, true);
    assert c[1] == polygon[tr] && FirstAmongTies(diffs, tr, false);
    assert c[2] == polygon[br] && FirstAmongTies(sums, br, false);
    assert c[3] == polygon[bl] && FirstAmongTies(diffs, bl, true);
  }

  /** For the points of an axis-aligned rectangle (its four corners and any
      points inside it) the corners come back as the rectangle's own corners,
      in order. */
  lemma RectangleCorners(polygon: seq<Point>, left: int, top: int, right: int, bottom: int)
    requires forall p :: p in polygon ==> left <= p.x <= right && top <= p.y <= bottom
    requires Point(left, top) in polygon && Point(right, top) in polygon
    requires Point(right, bottom) in polygon && Point(left, bottom) in polygon
    ensures FindCorners(polygon)
            == Ok([Point(left, top), Point(right, top), Point(right, bottom), Point(left, bottom)])
  {
    var r := FindCorners(polygon).value;
    assert r[0] in polygon && r[1] in polygon && r[2] in polygon && r[3] in polygon;
    assert r[0] == Point(left, top);
    assert r[1] == Point(right, top);
    assert r[2] == Point(right, bottom);
    assert r[3] == Point(left, bottom);
  }
}
