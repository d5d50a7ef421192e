/**
 * The boundary repairer, `process_boundary_memo2` in app.py: every polygon
 * record of a source shapefile is split into its parts by the part-start
 * table, every open ring is closed by repeating its first point, and the
 * attribute record gets a fixed set of overrides. A WGS84 projection text
 * is written beside the output.
 *
 * Reading and writing the shapefile itself is library work; the model
 * takes the records as read and returns the shapes and records written.
 */
module Boundary {
  import opened Common

  /** The projection text written to the output's .prj file. */
  const PRJ_WGS84: string :=
    "GEOGCS[\"GCS_WGS_1984\",DATUM[\"D_WGS_1984\",SPHEROID[\"WGS_1984\",6378137.0,298.257223563]],"
    + "PRIMEM[\"Greenwich\",0.0],UNIT[\"Degree\",0.0174532925199433]]"

  /** A value of a dBASE attribute record, as the reader returns it. */
  datatype AttrValue = AText(text: string) | AInt(i: int) | AReal(r: real) | ABool(b: bool) | ANone
  type Attrs = map<string, AttrValue>

  /** One field descriptor of the attribute table (name, type letter, size, decimals). */
  datatype FieldDesc = FieldDesc(name: string, kind: char, size: nat, decimals: nat)

  /** One record as read: the part-start table, the flat point list and the attributes. */
  datatype ShapeRecord = ShapeRecord(parts: seq<int>, points: seq<Point>, attrs: Attrs)

  /** A source shapefile: its shape type, its field table (deletion flag first) and its records. */
  datatype Shapefile = Shapefile(shapeType: int, fields: seq<FieldDesc>, records: seq<ShapeRecord>)

  /** What the repair writes: shapes as lists of parts, attribute records, and the .prj text. */
  datatype RepairedBoundary = RepairedBoundary(
    shapeType: int,
    fields: seq<FieldDesc>,
    shapes: seq<seq<seq<Point>>>,
    records: seq<Attrs>,
    prj: string)

  // ---------------------------------------------------------------------
  // Python slicing

  /** A slice bound as Python normalises it: negative counts from the end, then clamped to [0, n]. */
  function ClampIndex(i: int, n: nat): (r: nat)
    ensures r <= n
    ensures 0 <= i <= n ==> r == i
  {
    if i < 0 then (if i + n < 0 then 0 else i + n) else if i > n then n else i
  }

  /** `s[i:j]` with Python's semantics: never fails, empty when the bounds cross. */
  function PySlice<T>(s: seq<T>, i: int, j: int): (r: seq<T>)
    ensures 0 <= i <= j <= |s| ==> r == s[i..j]
    ensures |r| <= |s|
  {
    var a, b := ClampIndex(i, |s|), ClampIndex(j, |s|);
    if a < b then s[a..b] else []
  }

  // ---------------------------------------------------------------------
  // Parts and rings

  /** Where part k ends: at the next part's start, or at the end of the points. */
  function PartEnd(parts: seq<int>, n: nat, k: nat): int
    requires k < |parts|
  {
    if k + 1 < |parts| then parts[k + 1] else n
  }

  /** `geom.points[parts[k]:end]`: the points of part k. */
  function PartAt(parts: seq<int>, points: seq<Point>, k: nat): seq<Point>
    requires k < |parts|
  {
    PySlice(points, parts[k], PartEnd(parts, |points|, k))
  }

  /** A ring is closed when it is empty or ends where it starts. */
  predicate IsClosed(ring: seq<Point>)
  {
    |ring| == 0 || ring[0] == ring[|ring| - 1]
  }

  /**
   * `if pts and pts[0] != pts[-1]: pts.append(pts[0])`: an open ring gets
   * exactly one more point, a copy of its first; a closed or empty ring
   * is left as it is; the points already there keep their order.
   */
  function CloseRing(pts: seq<Point>): (r: seq<Point>)
    ensures IsClosed(r)
    ensures |r| == if IsClosed(pts) then |pts| else |pts| + 1
    ensures r[..|pts|] == pts
    ensures |pts| > 0 ==> r[|r| - 1] == pts[0]
  {
    if |pts| > 0 && pts[0] != pts[|pts| - 1] then pts + [pts[0]] else pts
  }

  /** Closing a ring twice is closing it once. */
  lemma CloseRingIdempotent(pts: seq<Point>)
    ensures CloseRing(CloseRing(pts)) == CloseRing(pts)
  {
    var r := CloseRing(pts);
    assert IsClosed(r);
    assert r[..|r|] == r;
  }

  /** The output parts of one record: one per entry of the part table, each closed. */
  function RepairedParts(parts: seq<int>, points: seq<Point>): (r: seq<seq<Point>>)
    ensures |r| == |parts|
  {
    seq(|parts|, k requires 0 <= k < |parts| => CloseRing(PartAt(parts, points, k)))
  }

  /**
   * The part loop of `process_boundary_memo2`: for each entry of the part
   * table, slice out the part, close it if open, and append it to
   * `new_parts`.
   */
  method RepairParts(parts: seq<int>, points: seq<Point>) returns (newParts: seq<seq<Point>>)
    ensures |newParts| == |parts|
    ensures forall k :: 0 <= k < |parts| ==> newParts[k] == CloseRing(PartAt(parts, points, k))
  {
    newParts := [];
    for pi := 0 to |parts|
      invariant |newParts| == pi
      invariant forall k :: 0 <= k < pi ==> newParts[k] == CloseRing(PartAt(parts, points, k))
    {
      var si := parts[pi];
      var ei := if pi + 1 < |parts| then parts[pi + 1] else |points|;
      var pts := PySlice(points, si, ei);
      if |pts| > 0 && pts[0] != pts[|pts| - 1] {
        pts := pts + [pts[0]];
      }
      newParts := newParts + [pts];
    }
  }

  // ---------------------------------------------------------------------
  // Flattening parts back into a shapefile record

  /** All points of a list of parts, in order. */
  function Concat(ps: seq<seq<Point>>): seq<Point>
  {
    if ps == [] then [] else Concat(ps[..|ps| - 1]) + ps[|ps| - 1]
  }

  /** The part-start table a writer stores for a list of parts. */
  function Starts(ps: seq<seq<Point>>): (t: seq<int>)
    ensures |t| == |ps|
  {
    seq(|ps|, k requires 0 <= k < |ps| => |Concat(ps[..k])|)
  }

  lemma {:induction false} ConcatAppend(a: seq<seq<Point>>, b: seq<seq<Point>>)
    ensures Concat(a + b) == Concat(a) + Concat(b)
  {
    if b == [] {
      assert a + b == a;
    } else {
      assert (a + b)[..|a + b| - 1] == a + b[..|b| - 1];
      ConcatAppend(a, b[..|b| - 1]);
    }
  }

  /** The points of part k sit between the points of the parts before it and after it. */
  lemma ConcatAround(ps: seq<seq<Point>>, k: nat)
    requires k < |ps|
    ensures Concat(ps) == Concat(ps[..k]) + ps[k] + Concat(ps[k + 1..])
  {
    var left := ps[..k + 1];
    assert left[..|left| - 1] == ps[..k];
    assert ps == left + ps[k + 1..];
    ConcatAppend(left, ps[k + 1..]);
  }

  /** Each start is the previous start plus the previous part's length. */
  lemma StartsNext(ps: seq<seq<Point>>, k: nat)
    requires k + 1 < |ps|
    ensures Starts(ps)[k + 1] == Starts(ps)[k] + |ps[k]|
  {
    assert ps[..k + 1][..k] == ps[..k];
  }

  /** Splitting a flattened list of parts by its own start table gives the parts back. */
  lemma SplitFlatten(ps: seq<seq<Point>>, k: nat)
    requires k < |ps|
    ensures PartAt(Starts(ps), Concat(ps), k) == ps[k]
  {
    var all := Concat(ps);
    var s := Starts(ps)[k];
    ConcatAround(ps, k);
    if k + 1 < |ps| {
      StartsNext(ps, k);
    } else {
      assert ps[k + 1..] == [];
    }
    assert PartEnd(Starts(ps), |all|, k) == s + |ps[k]|;
    assert all[s..s + |ps[k]|] == ps[k];
  }

  /**
   * Repair is idempotent: writing the repaired parts as a shapefile record
   * and repairing that record again yields the same parts.
   */
  lemma RepairIdempotent(parts: seq<int>, points: seq<Point>)
    ensures RepairedParts(Starts(RepairedParts(parts, points)), Concat(RepairedParts(parts, points)))
         == RepairedParts(parts, points)
  {
    var r := RepairedParts(parts, points);
    var again := RepairedParts(Starts(r), Concat(r));
    forall k | 0 <= k < |r| ensures again[k] == r[k] {
      SplitFlatten(r, k);
      assert IsClosed(r[k]);
    }
  }

  /**
   * A well-formed part table starts at 0, never decreases and stays within
   * the points, as the ESRI Shapefile Technical Description (1998) requires
   * of the Parts array of a polygon.
   */
  predicate WellFormedParts(parts: seq<int>, n: nat)
  {
    && |parts| > 0
    && parts[0] == 0
    && (forall k :: 0 <= k < |parts| - 1 ==> parts[k] <= parts[k + 1])
    && parts[|parts| - 1] <= n
  }

  /** The parts a record is split into, before closure. */
  function SplitParts(parts: seq<int>, points: seq<Point>): (r: seq<seq<Point>>)
    ensures |r| == |parts|
  {
    seq(|parts|, k requires 0 <= k < |parts| => PartAt(parts, points, k))
  }

  /** A table whose neighbouring starts never decrease is sorted. */
  lemma {:induction false} StartsSorted(parts: seq<int>, i: nat, j: nat)
    requires forall k :: 0 <= k < |parts| - 1 ==> parts[k] <= parts[k + 1]
    requires i <= j < |parts|
    ensures parts[i] <= parts[j]
    decreases j - i
  {
    if i < j {
      StartsSorted(parts, i + 1, j);
    }
  }

  lemma WellFormedPartsBounded(parts: seq<int>, n: nat, k: nat)
    requires WellFormedParts(parts, n) && k < |parts|
    ensures 0 <= parts[k] <= n
    ensures 0 <= parts[0] <= parts[k]
  {
    StartsSorted(parts, k, |parts| - 1);
    StartsSorted(parts, 0, k);
  }

  /** The first m parts of a well-formed table cover exactly the points before the m-th start. */
  lemma {:induction false} SplitPrefix(parts: seq<int>, points: seq<Point>, m: nat)
    requires WellFormedParts(parts, |points|) && m <= |parts|
    ensures Concat(SplitParts(parts, points)[..m]) == PySlice(points, 0, if m < |parts| then parts[m] else |points|)
  {
    var ps := SplitParts(parts, points);
    if m == 0 {
      assert ps[..0] == [];
    } else {
      SplitPrefix(parts, points, m - 1);
      assert ps[..m][..m - 1] == ps[..m - 1];
      WellFormedPartsBounded(parts, |points|, m - 1);
      var s := parts[m - 1];
      var e := PartEnd(parts, |points|, m - 1);
      if m < |parts| {
        WellFormedPartsBounded(parts, |points|, m);
      }
      assert s <= e <= |points|;
      assert ps[m - 1] == points[s..e];
      assert points[..e] == points[..s] + points[s..e];
    }
  }

  /** The parts of a well-formed table partition the points: together they are exactly the points. */
  lemma PartsPartition(parts: seq<int>, points: seq<Point>)
    requires WellFormedParts(parts, |points|)
    ensures Concat(SplitParts(parts, points)) == points
  {
    SplitPrefix(parts, points, |parts|);
    assert SplitParts(parts, points)[..|parts|] == SplitParts(parts, points);
  }

  /**
   * A record whose parts are all closed already is written back unchanged:
   * the same points and the same part table.
   */
  lemma ClosedRecordUnchanged(parts: seq<int>, points: seq<Point>)
    requires WellFormedParts(parts, |points|)
    requires forall k :: 0 <= k < |parts| ==> IsClosed(PartAt(parts, points, k))
    ensures Concat(RepairedParts(parts, points)) == points
    ensures Starts(RepairedParts(parts, points)) == parts
  {
    var r := RepairedParts(parts, points);
    assert r == SplitParts(parts, points);
    PartsPartition(parts, points);
    forall k | 0 <= k < |parts| ensures Starts(r)[k] == parts[k] {
      SplitPrefix(parts, points, k);
      WellFormedPartsBounded(parts, |points|, k);
    }
  }

  // ---------------------------------------------------------------------
  // The attribute record

  /** `str(n)` for a natural number. */
  function Decimal(n: nat): (s: string)
    ensures |s| > 0 && forall i :: 0 <= i < |s| ==> '0' <= s[i] <= '9'
    ensures s[0] == '0' <==> n == 0
  {
    if n < 10 then [('0' as int + n) as char]
    else Decimal(n / 10) + [('0' as int + n % 10) as char]
  }

  /** The number a string of decimal digits denotes. */
  function DecimalValue(s: string): nat
  {
    if s == [] then 0
    else
      var d := s[|s| - 1] as int - '0' as int;
      DecimalValue(s[..|s| - 1]) * 10 + (if 0 <= d < 10 then d else 0)
  }

  /** Reading `str(n)` back gives n. */
  lemma {:induction false} DecimalRoundTrip(n: nat)
    ensures DecimalValue(Decimal(n)) == n
  {
    if n >= 10 {
      DecimalRoundTrip(n / 10);
      var s := Decimal(n);
      assert s[..|s| - 1] == Decimal(n / 10);
    }
  }

  /** A digit string whose first digit is not 0 denotes a positive number. */
  lemma {:induction false} LeadingDigitPositive(s: string)
    requires |s| > 0 && forall i :: 0 <= i < |s| ==> '0' <= s[i] <= '9'
    requires s[0] != '0'
    ensures DecimalValue(s) > 0
  {
    if |s| > 1 {
      LeadingDigitPositive(s[..|s| - 1]);
    }
  }

  /**
   * `str(n)` is the only digit string without a leading zero (other than
   * "0" itself) that denotes n.
   */
  lemma {:induction false} DecimalCanonical(s: string, n: nat)
    requires |s| > 0 && forall i :: 0 <= i < |s| ==> '0' <= s[i] <= '9'
    requires s[0] == '0' ==> |s| == 1
    requires DecimalValue(s) == n
    ensures s == Decimal(n)
  {
    var init := s[..|s| - 1];
    var d := s[|s| - 1] as int - '0' as int;
    if |s| == 1 {
      assert DecimalValue(init) == 0;
      assert [('0' as int + n) as char] == s;
    } else {
      LeadingDigitPositive(init);
      assert n == DecimalValue(init) * 10 + d && 0 <= d < 10;
      assert n / 10 == DecimalValue(init) && n % 10 == d;
      DecimalCanonical(init, n / 10);
      assert s == init + [s[|s| - 1]];
    }
  }

  /** The attribute names every repaired record carries. */
  const FORCED: set<string> := {"id", "Name", "visibility", "altitudeMo"}

  /**
   * `rec.update({'id': str(i+1), 'Name': base_name, 'visibility': 1,
   * 'altitudeMo': "clampToGround"})` for the record at 0-based index i.
   */
  function UpdateRecord(attrs: Attrs, i: nat, baseName: string): (r: Attrs)
    ensures r.Keys == attrs.Keys + FORCED
    ensures r["id"] == AText(Decimal(i + 1)) && r["Name"] == AText(baseName)
    ensures r["visibility"] == AInt(1) && r["altitudeMo"] == AText("clampToGround")
    ensures forall k :: k in attrs && k !in FORCED ==> r[k] == attrs[k]
  {
    attrs["id" := AText(Decimal(i + 1))]["Name" := AText(baseName)]
      ["visibility" := AInt(1)]["altitudeMo" := AText("clampToGround")]
  }

  // ---------------------------------------------------------------------
  // The whole repair

  /** `reader.fields[1:]`: the field table without the leading deletion flag. */
  function DropFirst<T>(s: seq<T>): (r: seq<T>)
    ensures |s| > 0 ==> r == s[1..]
    ensures |s| == 0 ==> r == []
  {
    if |s| == 0 then [] else s[1..]
  }

  /**
   * The output of a repair. With `forceAttrs` (app.py's first version)
   * every record gets the overrides; without it (the third version) the
   * attributes are copied as read.
   */
  function Repair(src: Shapefile, baseName: string, forceAttrs: bool): RepairedBoundary
  {
    RepairedBoundary(
      src.shapeType,
      DropFirst(src.fields),
      seq(|src.records|, i requires 0 <= i < |src.records| =>
        RepairedParts(src.records[i].parts, src.records[i].points)),
      seq(|src.records|, i requires 0 <= i < |src.records| =>
        if forceAttrs then UpdateRecord(src.records[i].attrs, i, baseName) else src.records[i].attrs),
      PRJ_WGS84)
  }

  /**
   * The record loop: for each record, in order, write its repaired parts
   * (`writer.poly`) and its attribute record (`writer.record`).
   */
  method RepairBoundary(src: Shapefile, baseName: string, forceAttrs: bool) returns (out: RepairedBoundary)
    ensures out == Repair(src, baseName, forceAttrs)
  {
    var shapes: seq<seq<seq<Point>>> := [];
    var records: seq<Attrs> := [];
    for i := 0 to |src.records|
      invariant |shapes| == |records| == i
      invariant forall j :: 0 <= j < i ==> shapes[j] == RepairedParts(src.records[j].parts, src.records[j].points)
      invariant forall j :: 0 <= j < i ==>
        records[j] == if forceAttrs then UpdateRecord(src.records[j].attrs, j, baseName) else src.records[j].attrs
    {
      var rec := src.records[i];
      var newParts := RepairParts(rec.parts, rec.points);
      shapes := shapes + [newParts];
      var attrs := rec.attrs;
      if forceAttrs {
        attrs := attrs["id" := AText(Decimal(i + 1))]["Name" := AText(baseName)]
          ["visibility" := AInt(1)]["altitudeMo" := AText("clampToGround")];
      }
      records := records + [attrs];
    }
    out := RepairedBoundary(src.shapeType, DropFirst(src.fields), shapes, records, PRJ_WGS84);
  }

  /** One shape and one record per source record, each shape with the source's part count. */
  lemma RepairKeepsCounts(src: Shapefile, baseName: string, forceAttrs: bool)
    ensures |Repair(src, baseName, forceAttrs).shapes| == |src.records|
    ensures |Repair(src, baseName, forceAttrs).records| == |src.records|
    ensures forall i :: 0 <= i < |src.records| ==>
      |Repair(src, baseName, forceAttrs).shapes[i]| == |src.records[i].parts|
  {
  }

  /** With the overrides, the ids are 1, 2, 3, ... in record order, hence pairwise distinct. */
  lemma RepairIdsDistinct(src: Shapefile, baseName: string, i: nat, j: nat)
    requires i < j < |src.records|
    ensures Repair(src, baseName, true).records[i]["id"] != Repair(src, baseName, true).records[j]["id"]
  {
    DecimalRoundTrip(i + 1);
    DecimalRoundTrip(j + 1);
  }
}
