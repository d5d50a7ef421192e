/**
 * The DJI field-boundary importer of converter.py: each uploaded file is
 * decoded as UTF-8, the JSON text is cut out of it as the span from the
 * first `{` to the last `}`, and the polygon features of its
 * `features` list are collected, with Z coordinates dropped and nested
 * property values turned into text. A file yields an output only when at
 * least one feature survives.
 *
 * UTF-8 decoding, `json.loads`, shapely's `shape()` and Python's `str()`
 * of a dict or list are taken as given (`DjiCodecs`). Python's run-time
 * type errors on JSON values of the wrong kind are modelled: each one
 * aborts the whole file, as the `try` around it does.
 */
module DjiImport {
  import opened Common
  import AbLine

  // ---------------------------------------------------------------------
  // The JSON span

  /** Index of the first occurrence of `c` in `s`, or |s| when there is none. */
  function FirstIndexOf(s: string, c: char): (r: nat)
    ensures r <= |s|
    ensures r < |s| ==> s[r] == c
    ensures forall i :: 0 <= i < r ==> s[i] != c
  {
    if s == [] then 0
    else if s[0] == c then 0
    else 1 + FirstIndexOf(s[1..], c)
  }

  /** The pattern `\{.*\}` with DOTALL matches `s[i..j+1]` exactly when these hold. */
  predicate BraceMatch(s: string, i: int, j: int)
  {
    0 <= i < j < |s| && s[i] == '{' && s[j] == '}'
  }

  /**
   * `re.search(r'\{.*\}', text, re.DOTALL)`: the first `{` through the
   * last `}`, when the first `{` comes before the last `}`.
   */
  function JsonSpan(s: string): (r: Option<string>)
    ensures r.Some? <==> exists i, j :: BraceMatch(s, i, j)
    ensures r.Some? ==>
      exists i, j :: BraceMatch(s, i, j) && r.value == s[i..j + 1]
        && forall i', j' :: BraceMatch(s, i', j') ==> i <= i' && (i' == i ==> j' <= j)
  {
    var i := FirstIndexOf(s, '{');
    var j := LastIndexOf(s, '}');
    if i < j then
      assert BraceMatch(s, i, j);
      Some(s[i..j + 1])
    else
      assert forall i', j' :: BraceMatch(s, i', j') ==> i <= i' && j' <= j;
      None
  }

  // ---------------------------------------------------------------------
  // JSON values and the Python operations applied to them

  /** A value as `json.loads` returns it; an object keeps its members in text order. */
  datatype Json =
    | JNull
    | JBool(b: bool)
    | JNumber(n: real)
    | JString(s: string)
    | JArray(items: seq<Json>)
    | JObject(members: seq<(string, Json)>)

  predicate HasKey(members: seq<(string, Json)>, key: string)
  {
    exists k :: 0 <= k < |members| && members[k].0 == key
  }

  /** `d[key]` on the dict built from `members`: a repeated key keeps its last value. */
  function Lookup(members: seq<(string, Json)>, key: string): (r: Option<Json>)
    ensures r.Some? <==> HasKey(members, key)
    ensures r.Some? ==>
      exists k :: 0 <= k < |members| && members[k] == (key, r.value)
        && forall k' :: k < k' < |members| ==> members[k'].0 != key
  {
    if members == [] then None
    else if members[|members| - 1].0 == key then Some(members[|members| - 1].1)
    else
      var r := Lookup(members[..|members| - 1], key);
      assert HasKey(members, key) ==> HasKey(members[..|members| - 1], key);
      r
  }

  /** `sub in s` on two strings. */
  predicate Substring(sub: string, s: string)
  {
    exists i :: 0 <= i <= |s| && sub <= s[i..]
  }

  /** `needle in v` for a string needle; None where Python raises a TypeError. */
  function Contains(needle: string, v: Json): (r: Option<bool>)
    ensures r.Some? <==> v.JString? || v.JArray? || v.JObject?
  {
    match v
    case JString(s) => Some(Substring(needle, s))
    case JArray(items) => Some(JString(needle) in items)
    case JObject(members) => Some(HasKey(members, needle))
    case _ => None
  }

  /** `v[key]` for a string key; None where Python raises. */
  function Index(v: Json, key: string): (r: Option<Json>)
    ensures r.Some? <==> v.JObject? && HasKey(v.members, key)
  {
    if v.JObject? then Lookup(v.members, key) else None
  }

  /** What `for x in v` visits: list items, dict keys, string characters; None where Python raises. */
  // A repeated key of an object is visited once per occurrence, where a dict
  // visits it once. The importer indexes every element it visits, which
  // raises on a string, so the difference never shows in its result.
  function Iterate(v: Json): (r: Option<seq<Json>>)
    ensures r.Some? <==> v.JString? || v.JArray? || v.JObject?
    ensures v.JArray? ==> r == Some(v.items)
  {
    match v
    case JArray(items) => Some(items)
    case JObject(members) => Some(seq(|members|, k requires 0 <= k < |members| => JString(members[k].0)))
    case JString(s) => Some(seq(|s|, k requires 0 <= k < |s| => JString([s[k]])))
    case _ => None
  }

  // ---------------------------------------------------------------------
  // Geometries

  /** A coordinate as shapely stores it, with an optional third value. */
  datatype Coord = Coord(x: real, y: real, z: Option<real>)

  datatype Poly = Poly(exterior: seq<Coord>, holes: seq<seq<Coord>>)

  /** What `shape()` builds; any type other than the two polygon kinds is kept opaque. */
  datatype Geometry =
    | Polygon(poly: Poly)
    | MultiPolygon(polys: seq<Poly>)
    | OtherGeometry(kind: string, coords: seq<Coord>)

  predicate RingHasZ(ring: seq<Coord>)
  {
    exists c :: c in ring && c.z.Some?
  }

  /** `geom.has_z`: some coordinate carries a third value. */
  predicate HasZ(g: Geometry)
  {
    match g
    case Polygon(p) => RingHasZ(p.exterior)
    case MultiPolygon(ps) => exists p :: p in ps && RingHasZ(p.exterior)
    case OtherGeometry(_, cs) => RingHasZ(cs)
  }

  /** `geom.is_empty`. */
  predicate IsEmpty(g: Geometry)
  {
    match g
    case Polygon(p) => |p.exterior| == 0
    case MultiPolygon(ps) => |ps| == 0
    case OtherGeometry(_, cs) => |cs| == 0
  }

  /** `[(p[0], p[1]) for p in ring]`. */
  function Planar(ring: seq<Coord>): seq<Coord>
  {
    seq(|ring|, i requires 0 <= i < |ring| => Coord(ring[i].x, ring[i].y, None))
  }

  /** `Polygon([(p[0], p[1]) for p in poly.exterior.coords])`: holes are not carried over. */
  function FlattenPoly(p: Poly): Poly
  {
    Poly(Planar(p.exterior), [])
  }

  /** The Z-dropping rebuild, applied only when `geom.has_z`. */
  function DropZ(g: Geometry): Geometry
  {
    match g
    case Polygon(p) => Polygon(FlattenPoly(p))
    case MultiPolygon(ps) => MultiPolygon(seq(|ps|, i requires 0 <= i < |ps| => FlattenPoly(ps[i])))
    case OtherGeometry(_, _) => g
  }

  /**
   * Dropping Z keeps the kind, the number of polygons of a MultiPolygon
   * and every exterior point's x and y in order; it leaves no third value
   * and no holes, and does not change emptiness.
   */
  lemma DropZPlanar(g: Geometry)
    requires g.Polygon? || g.MultiPolygon?
    ensures DropZ(g).Polygon? == g.Polygon? && DropZ(g).MultiPolygon? == g.MultiPolygon?
    ensures !HasZ(DropZ(g))
    ensures IsEmpty(DropZ(g)) == IsEmpty(g)
    ensures g.Polygon? ==>
      var e, e' := g.poly.exterior, DropZ(g).poly.exterior;
      |e'| == |e| && DropZ(g).poly.holes == []
      && forall i :: 0 <= i < |e| ==> e'[i].x == e[i].x && e'[i].y == e[i].y
    ensures g.MultiPolygon? ==>
      |DropZ(g).polys| == |g.polys|
      && forall k :: 0 <= k < |g.polys| ==>
        var e, e' := g.polys[k].exterior, DropZ(g).polys[k].exterior;
        |e'| == |e| && DropZ(g).polys[k].holes == []
        && forall i :: 0 <= i < |e| ==> e'[i].x == e[i].x && e'[i].y == e[i].y
  {
    match g
    case Polygon(p) =>
      forall c | c in Planar(p.exterior) ensures c.z.None? { }
    case MultiPolygon(ps) =>
      forall q | q in DropZ(g).polys ensures !RingHasZ(q.exterior) {
        forall c | c in q.exterior ensures c.z.None? { }
      }
  }

  // ---------------------------------------------------------------------
  // Feature properties

  /** A column value of the output table. */
  datatype Prop = PText(text: string) | PNumber(n: real) | PBool(b: bool) | PNull

  /** `str(v) if isinstance(v, (dict, list)) else v`, with `str` of a dict or list given as `show`. */
  function PropOf(v: Json, show: Json -> string): Prop
  {
    match v
    case JObject(_) => PText(show(v))
    case JArray(_) => PText(show(v))
    case JString(s) => PText(s)
    case JNumber(n) => PNumber(n)
    case JBool(b) => PBool(b)
    case JNull => PNull
  }

  /** The dict comprehension over the items of the properties object. */
  function PropsOf(members: seq<(string, Json)>, show: Json -> string): map<string, Prop>
  {
    if members == [] then map[]
    else
      var last := members[|members| - 1];
      PropsOf(members[..|members| - 1], show)[last.0 := PropOf(last.1, show)]
  }

  /** The table holds one column per property key, valued as the dict lookup of that key. */
  lemma {:induction false} PropsOfLookup(members: seq<(string, Json)>, show: Json -> string)
    ensures forall k :: k in PropsOf(members, show) <==> HasKey(members, k)
    ensures forall k :: k in PropsOf(members, show) ==> PropsOf(members, show)[k] == PropOf(Lookup(members, k).value, show)
  {
    if members != [] {
      var init := members[..|members| - 1];
      PropsOfLookup(init, show);
      forall k ensures HasKey(members, k) <==> HasKey(init, k) || k == members[|members| - 1].0 {
        if HasKey(members, k) && k != members[|members| - 1].0 {
          var j :| 0 <= j < |members| && members[j].0 == k;
          assert init[j].0 == k;
        }
        if HasKey(init, k) {
          var j :| 0 <= j < |init| && init[j].0 == k;
          assert members[j].0 == k;
        }
      }
    }
  }

  /** One output row: its properties (without a `geometry` column) and its geometry. */
  datatype Feature = Feature(props: map<string, Prop>, geometry: Geometry)

  /**
   * `feat.get("properties", {})` followed by the comprehension; None where
   * the value has no `.items()`. The `geometry` key is then taken by the
   * feature's own geometry.
   */
  function Properties(feat: seq<(string, Json)>, show: Json -> string): Option<map<string, Prop>>
  {
    match Lookup(feat, "properties")
    case None => Some(map[])
    case Some(JObject(ms)) => Some(PropsOf(ms, show) - {"geometry"})
    case Some(_) => None
  }

  // ---------------------------------------------------------------------
  // One feature

  /**
   * The library behaviour the importer relies on: UTF-8 decoding,
   * `json.loads` and shapely's `shape()` (None when they raise), and
   * `str()` of a dict or list.
   */
  datatype DjiCodecs = DjiCodecs(
    decodeUtf8: seq<byte> -> Option<string>,
    parseJson: string -> Option<Json>,
    shape: Json -> Option<Geometry>,
    show: Json -> string)

  /** What the feature loop does with one element: raise, skip it, or append a row. */
  datatype Step = Abort | Skip | Keep(feature: Feature)

  /** The geometry written for a feature: the shape, with Z dropped when it has Z. */
  function Flattened(g: Geometry): Geometry
  {
    if HasZ(g) then DropZ(g) else g
  }

  /** One pass of the feature loop body. */
  function FeatureStep(feat: Json, codecs: DjiCodecs): (r: Step)
    ensures !feat.JObject? || !HasKey(feat.members, "geometry") ==> r == Abort
    ensures r.Keep? ==> Properties(feat.members, codecs.show) == Some(r.feature.props)
  {
    match Index(feat, "geometry")
    case None => Abort
    case Some(geometry) =>
      match Index(geometry, "type")
      case None => Abort
      case Some(kind) =>
        match Contains("Polygon", kind)
        case None => Abort
        case Some(false) => Skip
        case Some(true) =>
          match codecs.shape(geometry)
          case None => Abort
          case Some(g) =>
            var geom := Flattened(g);
            if IsEmpty(geom) then Skip
            else
              match Properties(feat.members, codecs.show)
              case None => Abort
              case Some(props) => Keep(Feature(props, geom))
  }

  /**
   * The polygon filter: a feature is kept only when its geometry type
   * mentions `Polygon`, its shape is not empty and carries no Z values,
   * and it has no `geometry` column.
   */
  lemma KeptFeature(feat: Json, codecs: DjiCodecs)
    requires FeatureStep(feat, codecs).Keep?
    ensures var g := Index(feat, "geometry").value;
      Contains("Polygon", Index(g, "type").value) == Some(true)
      && codecs.shape(g).Some?
      && FeatureStep(feat, codecs).feature.geometry == Flattened(codecs.shape(g).value)
    ensures !IsEmpty(FeatureStep(feat, codecs).feature.geometry)
    ensures "geometry" !in FeatureStep(feat, codecs).feature.props
  {
  }

  /**
   * The converse of KeptFeature for a string type: a type that does not
   * contain `Polygon` skips the feature, and a type that does, with a
   * non-empty shape and a readable properties object, keeps it.
   */
  lemma PolygonTypeFilter(feat: Json, codecs: DjiCodecs, t: string)
    requires Index(feat, "geometry").Some?
    requires Index(Index(feat, "geometry").value, "type") == Some(JString(t))
    ensures !Substring("Polygon", t) ==> FeatureStep(feat, codecs) == Skip
    ensures var g := Index(feat, "geometry").value;
      Substring("Polygon", t) && codecs.shape(g).Some? && !IsEmpty(Flattened(codecs.shape(g).value))
      && Properties(feat.members, codecs.show).Some? ==>
        FeatureStep(feat, codecs)
          == Keep(Feature(Properties(feat.members, codecs.show).value, Flattened(codecs.shape(g).value)))
  {
  }

  /** The rows the loop collects; None when some element raises. */
  function FeaturesOf(items: seq<Json>, codecs: DjiCodecs): Option<seq<Feature>>
  {
    if items == [] then Some([])
    else Extend(FeaturesOf(items[..|items| - 1], codecs), FeatureStep(items[|items| - 1], codecs))
  }

  /** The rows after one more loop pass. */
  function Extend(acc: Option<seq<Feature>>, step: Step): Option<seq<Feature>>
  {
    match acc
    case None => None
    case Some(fs) =>
      match step
      case Abort => None
      case Skip => Some(fs)
      case Keep(f) => Some(fs + [f])
  }

  lemma FeaturesOfSnoc(items: seq<Json>, i: nat, codecs: DjiCodecs)
    requires i < |items|
    ensures FeaturesOf(items[..i + 1], codecs) == Extend(FeaturesOf(items[..i], codecs), FeatureStep(items[i], codecs))
  {
    assert items[..i + 1][..i] == items[..i];
  }

  /** Once an element raises, the whole list does. */
  lemma {:induction false} AbortSpreads(items: seq<Json>, j: nat, codecs: DjiCodecs)
    requires j <= |items| && FeaturesOf(items[..j], codecs).None?
    ensures FeaturesOf(items, codecs).None?
  {
    if j < |items| {
      assert items[..|items| - 1][..j] == items[..j];
      AbortSpreads(items[..|items| - 1], j, codecs);
    } else {
      assert items[..j] == items;
    }
  }

  /** The rows of two runs of elements, when neither raises. */
  function Join(x: Option<seq<Feature>>, y: Option<seq<Feature>>): Option<seq<Feature>>
  {
    if x.Some? && y.Some? then Some(x.value + y.value) else None
  }

  /**
   * The loop is element by element, in input order: the rows of two runs
   * are the rows of the first followed by those of the second (a raise in
   * either raises), and one element gives its row exactly when it is kept.
   */
  lemma {:induction false} FeaturesOfAppend(a: seq<Json>, b: seq<Json>, codecs: DjiCodecs)
    ensures FeaturesOf(a + b, codecs) == Join(FeaturesOf(a, codecs), FeaturesOf(b, codecs))
    decreases |b|
  {
    if b == [] {
      assert a + b == a && FeaturesOf(b, codecs) == Some([]);
      if FeaturesOf(a, codecs).Some? {
        assert FeaturesOf(a, codecs).value + [] == FeaturesOf(a, codecs).value;
      }
    } else {
      var init, step := b[..|b| - 1], FeatureStep(b[|b| - 1], codecs);
      assert (a + b)[..|a + b| - 1] == a + init && (a + b)[|a + b| - 1] == b[|b| - 1];
      assert FeaturesOf(a + b, codecs) == Extend(FeaturesOf(a + init, codecs), step);
      assert FeaturesOf(b, codecs) == Extend(FeaturesOf(init, codecs), step);
      FeaturesOfAppend(a, init, codecs);
      JoinExtend(FeaturesOf(a, codecs), FeaturesOf(init, codecs), step);
    }
  }

  lemma JoinExtend(x: Option<seq<Feature>>, y: Option<seq<Feature>>, step: Step)
    ensures Extend(Join(x, y), step) == Join(x, Extend(y, step))
  {
    if x.Some? && y.Some? && step.Keep? {
      assert x.value + y.value + [step.feature] == x.value + (y.value + [step.feature]);
    }
  }

  /** One element gives its row exactly when it is kept, and raises when its step raises. */
  lemma FeaturesOfSingle(x: Json, codecs: DjiCodecs)
    ensures FeaturesOf([x], codecs) == Extend(Some([]), FeatureStep(x, codecs))
  {
    assert [x][..0] == [];
  }

  /** The rows a sequence of loop passes collects. */
  function Rows(steps: seq<Step>): Option<seq<Feature>>
  {
    if steps == [] then Some([]) else Extend(Rows(steps[..|steps| - 1]), steps[|steps| - 1])
  }

  function StepsOf(items: seq<Json>, codecs: DjiCodecs): (r: seq<Step>)
    ensures |r| == |items| && forall i :: 0 <= i < |items| ==> r[i] == FeatureStep(items[i], codecs)
  {
    seq(|items|, i requires 0 <= i < |items| => FeatureStep(items[i], codecs))
  }

  lemma {:induction false} FeaturesOfRows(items: seq<Json>, codecs: DjiCodecs)
    ensures FeaturesOf(items, codecs) == Rows(StepsOf(items, codecs))
  {
    if items != [] {
      var init := items[..|items| - 1];
      FeaturesOfRows(init, codecs);
      assert StepsOf(items, codecs)[..|items| - 1] == StepsOf(init, codecs);
    }
  }

  lemma {:induction false} RowsComplete(steps: seq<Step>)
    requires Rows(steps).Some?
    ensures forall i :: 0 <= i < |steps| && steps[i].Keep? ==> steps[i].feature in Rows(steps).value
  {
    if steps != [] {
      var init, step := steps[..|steps| - 1], steps[|steps| - 1];
      RowsComplete(init);
      forall i | 0 <= i < |steps| && steps[i].Keep? ensures steps[i].feature in Rows(steps).value {
        if i < |init| {
          assert init[i] == steps[i];
        }
      }
    }
  }

  /** Every kept element's row is among the collected rows. */
  lemma FeaturesOfComplete(items: seq<Json>, codecs: DjiCodecs)
    requires FeaturesOf(items, codecs).Some?
    ensures forall i :: 0 <= i < |items| && FeatureStep(items[i], codecs).Keep? ==>
      FeatureStep(items[i], codecs).feature in FeaturesOf(items, codecs).value
  {
    FeaturesOfRows(items, codecs);
    RowsComplete(StepsOf(items, codecs));
  }

  /** The collected rows are exactly the kept steps, in input order. */
  lemma {:induction false} RowsKept(steps: seq<Step>)
    requires Rows(steps).Some?
    ensures forall i :: 0 <= i < |steps| ==> !steps[i].Abort?
    ensures |Rows(steps).value| <= |steps|
    ensures forall f :: f in Rows(steps).value ==> exists i :: 0 <= i < |steps| && steps[i] == Keep(f)
  {
    if steps != [] {
      var init := steps[..|steps| - 1];
      RowsKept(init);
      forall i | 0 <= i < |init| ensures init[i] == steps[i] { }
    }
  }

  lemma FeaturesOfKept(items: seq<Json>, codecs: DjiCodecs)
    requires FeaturesOf(items, codecs).Some?
    ensures forall i :: 0 <= i < |items| ==> !FeatureStep(items[i], codecs).Abort?
    ensures |FeaturesOf(items, codecs).value| <= |items|
    ensures forall f :: f in FeaturesOf(items, codecs).value ==>
      exists i :: 0 <= i < |items| && FeatureStep(items[i], codecs) == Keep(f)
  {
    FeaturesOfRows(items, codecs);
    var steps := StepsOf(items, codecs);
    RowsKept(steps);
    forall f | f in FeaturesOf(items, codecs).value
      ensures exists i :: 0 <= i < |items| && FeatureStep(items[i], codecs) == Keep(f)
    {
      var i :| 0 <= i < |steps| && steps[i] == Keep(f);
      assert FeatureStep(items[i], codecs) == Keep(f);
    }
  }

  /** The feature loop: `features.append(props)` for each kept element; any raise ends the file. */
  method CollectFeatures(items: seq<Json>, codecs: DjiCodecs) returns (r: Option<seq<Feature>>)
    ensures r == FeaturesOf(items, codecs)
  {
    var features: seq<Feature> := [];
    for i := 0 to |items|
      invariant FeaturesOf(items[..i], codecs) == Some(features)
    {
      FeaturesOfSnoc(items, i, codecs);
      var step := FeatureStep(items[i], codecs);
      if step.Abort? {
        AbortSpreads(items, i + 1, codecs);
        return None;
      }
      if step.Keep? {
        features := features + [step.feature];
      }
    }
    assert items[..|items|] == items;
    r := Some(features);
  }

  // ---------------------------------------------------------------------
  // One file and the batch

  /**
   * The rows taken from one file, or None when the file is skipped: no
   * UTF-8 text, no brace span, invalid JSON, or a raise on the way. A
   * document without `features` gives no rows.
   */
  function FileFeatures(raw: seq<byte>, codecs: DjiCodecs): Option<seq<Feature>>
  {
    match codecs.decodeUtf8(raw)
    case None => None
    case Some(text) =>
      match JsonSpan(text)
      case None => None
      case Some(span) =>
        match codecs.parseJson(span)
        case None => None
        case Some(data) =>
          match Contains("features", data)
          case None => None
          case Some(false) => Some([])
          case Some(true) =>
            match Index(data, "features")
            case None => None
            case Some(list) =>
              match Iterate(list)
              case None => None
              case Some(items) => FeaturesOf(items, codecs)
  }

  /** A converted file: the output's base name and its rows. */
  datatype DjiOutput = DjiOutput(name: string, features: seq<Feature>)

  /** One file's output: present only when it has at least one row. */
  function DjiFile(f: AbLine.Upload, codecs: DjiCodecs): (r: Option<DjiOutput>)
  {
    match FileFeatures(f.data, codecs)
    case Some(fs) => if |fs| > 0 then Some(DjiOutput(Stem(f.name), fs)) else None
    case None => None
  }

  /** A file converts exactly when its text has a brace span and its rows are not empty. */
  lemma DjiFileIff(f: AbLine.Upload, codecs: DjiCodecs)
    ensures DjiFile(f, codecs).Some? <==>
      FileFeatures(f.data, codecs).Some? && |FileFeatures(f.data, codecs).value| > 0
    ensures DjiFile(f, codecs).Some? ==>
      codecs.decodeUtf8(f.data).Some? && JsonSpan(codecs.decodeUtf8(f.data).value).Some?
    ensures DjiFile(f, codecs).Some? ==> DjiFile(f, codecs).value.name == Stem(f.name)
  {
  }

  /** The outputs of the batch, in upload order. */
  function UploadOutputs(files: seq<AbLine.Upload>, codecs: DjiCodecs): seq<DjiOutput>
  {
    if files == [] then []
    else
      UploadOutputs(files[..|files| - 1], codecs) + FileOutputs(files[|files| - 1], codecs)
  }

  /** The output one file contributes to the batch. */
  function FileOutputs(f: AbLine.Upload, codecs: DjiCodecs): seq<DjiOutput>
  {
    match DjiFile(f, codecs)
    case Some(o) => [o]
    case None => []
  }

  /**
   * The batch is file by file, in upload order: the outputs of two runs of
   * files are those of the first run followed by those of the second, and
   * one file gives its output exactly when it converts.
   */
  lemma {:induction false} UploadOutputsAppend(a: seq<AbLine.Upload>, b: seq<AbLine.Upload>, codecs: DjiCodecs)
    ensures UploadOutputs(a + b, codecs) == UploadOutputs(a, codecs) + UploadOutputs(b, codecs)
    decreases |b|
  {
    if b == [] {
      assert a + b == a;
    } else {
      var init, last := b[..|b| - 1], b[|b| - 1];
      assert (a + b)[..|a + b| - 1] == a + init && (a + b)[|a + b| - 1] == last;
      assert UploadOutputs(a + b, codecs) == UploadOutputs(a + init, codecs) + FileOutputs(last, codecs);
      UploadOutputsAppend(a, init, codecs);
    }
  }

  /** One file gives its output exactly when it converts. */
  lemma UploadOutputsSingle(f: AbLine.Upload, codecs: DjiCodecs)
    ensures UploadOutputs([f], codecs) == FileOutputs(f, codecs)
  {
    assert [f][..0] == [];
  }

  /** Every file that converts contributes its output to the batch. */
  lemma UploadOutputsComplete(files: seq<AbLine.Upload>, codecs: DjiCodecs)
    ensures forall f :: f in files && DjiFile(f, codecs).Some? ==> DjiFile(f, codecs).value in UploadOutputs(files, codecs)
  {
    forall f | f in files && DjiFile(f, codecs).Some?
      ensures DjiFile(f, codecs).value in UploadOutputs(files, codecs)
    {
      var i :| 0 <= i < |files| && files[i] == f;
      assert files == files[..i] + ([f] + files[i + 1..]);
      UploadOutputsAppend(files[..i], [f] + files[i + 1..], codecs);
      UploadOutputsAppend([f], files[i + 1..], codecs);
      UploadOutputsSingle(f, codecs);
    }
  }

  /** The batch yields at most one output per file, each with at least one row. */
  lemma {:induction false} UploadOutputsBounded(files: seq<AbLine.Upload>, codecs: DjiCodecs)
    ensures |UploadOutputs(files, codecs)| <= |files|
    ensures forall o :: o in UploadOutputs(files, codecs) ==>
      |o.features| > 0 && exists f :: f in files && DjiFile(f, codecs) == Some(o)
  {
    if files != [] {
      var init := files[..|files| - 1];
      UploadOutputsBounded(init, codecs);
      forall o | o in UploadOutputs(files, codecs)
        ensures |o.features| > 0 && exists f :: f in files && DjiFile(f, codecs) == Some(o)
      {
        if o in UploadOutputs(init, codecs) {
          var f :| f in init && DjiFile(f, codecs) == Some(o);
          assert f in files;
        } else {
          assert files[|files| - 1] in files;
        }
      }
    }
  }

  /**
   * The batch loop of converter.py's DJI mode: `success_count` grows by one
   * exactly for each file that produced an output; a skipped file adds
   * nothing.
   */
  method ConvertDjiUploads(files: seq<AbLine.Upload>, codecs: DjiCodecs)
    returns (outputs: seq<DjiOutput>, successCount: nat)
    ensures outputs == UploadOutputs(files, codecs)
    ensures successCount == |outputs|
  {
    outputs := [];
    successCount := 0;
    for n := 0 to |files|
      invariant outputs == UploadOutputs(files[..n], codecs)
      invariant successCount == |outputs|
    {
      assert files[..n + 1][..n] == files[..n];
      var text := codecs.decodeUtf8(files[n].data);
      if text.None? {
        continue;
      }
      var span := JsonSpan(text.value);
      if span.None? {
        continue;
      }
      var data := codecs.parseJson(span.value);
      if data.None? {
        continue;
      }
      var features: seq<Feature> := [];
      var hasFeatures := Contains("features", data.value);
      if hasFeatures.None? {
        continue;
      }
      if hasFeatures.value {
        var list := Index(data.value, "features");
        if list.None? {
          continue;
        }
        var items := Iterate(list.value);
        if items.None? {
          continue;
        }
        var collected := CollectFeatures(items.value, codecs);
        if collected.None? {
          continue;
        }
        features := collected.value;
      }
      if |features| > 0 {
        outputs := outputs + [DjiOutput(Stem(files[n].name), features)];
        successCount := successCount + 1;
      }
    }
    assert files[..|files|] == files;
  }
}
