/**
 * The curve (.crv) decoder, `process_crv_binary` in app.py.
 *
 * A .crv buffer holds a base latitude and longitude as little-endian
 * binary64 values at offsets 0x00 and 0x08, and from offset 0x40 on a
 * run of 8-byte records, each a little-endian binary32 pair (dx, dy) of
 * metre offsets from the base point. The IEEE 754 decodings and the
 * cosine-based longitude scale are taken as given functions (`Numerics`);
 * everything else (the length check, the record walk, the window on dx,
 * the coordinate formula and the two-point rule) is modelled exactly.
 */
module Curve {
  import opened Common

  /** Buffers shorter than this are rejected outright. */
  const MIN_LENGTH: nat := 0x48
  /** Offset of the first (dx, dy) record. */
  const TAIL_START: nat := 0x40
  const RECORD_SIZE: nat := 8
  /** Degrees of latitude per metre: one degree is taken as 111111 m. */
  const LAT_PER_METER: real := 1.0 / 111111.0
  /** A record is kept only when -DX_LIMIT < dx < DX_LIMIT. */
  const DX_LIMIT: real := 20000.0

  /**
   * The floating-point primitives the decoder uses: binary64 and binary32
   * little-endian decoding of a byte slice, and the longitude degrees per
   * metre at a given latitude, 1 / (111111 * cos(radians(lat))).
   */
  datatype Numerics = Numerics(
    f64: seq<byte> -> real,
    f32: seq<byte> -> real,
    lonPerMeter: real -> real)

  /** A named line feature: `GeoDataFrame([{'Name': name, 'geometry': LineString(points)}])`. */
  datatype Polyline = Polyline(name: string, points: seq<Point>)

  /** One decoded record: metres east (dx) and the vendor's downward axis (dy). */
  datatype Offset = Offset(dx: real, dy: real)

  /** The geographic frame of one buffer: its base point and longitude scale. */
  datatype Frame = Frame(baseLat: real, baseLon: real, lonPerM: real)

  /**
   * How many records `range(0, tailLen - 8, 8)` visits: one per offset
   * i = 0, 8, 16, ... with i < tailLen - 8.
   */
  function RecordCount(tailLen: nat): nat
  {
    if tailLen <= RECORD_SIZE then 0 else (tailLen - RECORD_SIZE + 7) / RECORD_SIZE
  }

  /** The record at tail offset 8k: two binary32 values. */
  function OffsetAt(tail: seq<byte>, k: nat, num: Numerics): Offset
    requires RECORD_SIZE * k + RECORD_SIZE <= |tail|
  {
    var i := RECORD_SIZE * k;
    Offset(num.f32(tail[i..i + 4]), num.f32(tail[i + 4..i + 8]))
  }

  /** The records the decoder reads, in file order. */
  function Records(tail: seq<byte>, num: Numerics): (rs: seq<Offset>)
    ensures |rs| == RecordCount(|tail|)
  {
    var n := RecordCount(|tail|);
    seq(n, k requires 0 <= k < n => (RecordReadInBounds(|tail|, k); OffsetAt(tail, k, num)))
  }

  predicate InWindow(dx: real)
  {
    -DX_LIMIT < dx < DX_LIMIT
  }

  /** `(base_lon + dx * lon_per_m, base_lat + (-dy * lat_per_m))`, longitude first. */
  function ToPoint(r: Offset, f: Frame): Point
  {
    Point(f.baseLon + r.dx * f.lonPerM, f.baseLat + (-r.dy * LAT_PER_METER))
  }

  /** The points contributed by a run of records: the in-window ones, in order. */
  function Accepted(rs: seq<Offset>, f: Frame): seq<Point>
  {
    if rs == [] then []
    else (if InWindow(rs[0].dx) then [ToPoint(rs[0], f)] else []) + Accepted(rs[1..], f)
  }

  function FrameOf(data: seq<byte>, num: Numerics): Frame
    requires |data| >= MIN_LENGTH
  {
    var baseLat := num.f64(data[0..8]);
    Frame(baseLat, num.f64(data[8..16]), num.lonPerMeter(baseLat))
  }

  /** What `process_crv_binary(data, name)` returns, as a value. */
  function DecodeCurve(data: seq<byte>, name: string, num: Numerics): Option<Polyline>
  {
    if |data| < MIN_LENGTH then None
    else
      var pts := Accepted(Records(data[TAIL_START..], num), FrameOf(data, num));
      if |pts| >= 2 then Some(Polyline(name, pts)) else None
  }

  // ---------------------------------------------------------------------
  // The record walk

  /** Every record the walk reads lies wholly inside the tail. */
  lemma RecordReadInBounds(tailLen: nat, k: nat)
    requires k < RecordCount(tailLen)
    ensures RECORD_SIZE * k + RECORD_SIZE <= tailLen
  {
    RecordCountExact(tailLen, k);
  }

  /** Record k is read exactly when its offset 8k is below tailLen - 8. */
  lemma RecordCountExact(tailLen: nat, k: nat)
    ensures k < RecordCount(tailLen) <==> RECORD_SIZE * k < tailLen - RECORD_SIZE
  {
    if tailLen > RECORD_SIZE {
      var m := tailLen - RECORD_SIZE;
      var c := (m + 7) / 8;
      assert 8 * c <= m + 7 < 8 * c + 8;
      if k < c {
        assert 8 * k <= 8 * c - 8;
      } else {
        assert 8 * k >= 8 * c;
      }
    }
  }

  /**
   * When the tail is a whole number of records, its last record is never
   * read: the walk stops one record short.
   */
  lemma {:induction false} LastFullRecordSkipped(tailLen: nat)
    requires tailLen >= RECORD_SIZE && tailLen % RECORD_SIZE == 0
    ensures RecordCount(tailLen) == tailLen / RECORD_SIZE - 1
  {
    var k := tailLen / RECORD_SIZE - 1;
    assert RECORD_SIZE * k == tailLen - RECORD_SIZE;
    RecordCountExact(tailLen, k);
    if k > 0 {
      RecordCountExact(tailLen, k - 1);
    }
  }

  // ---------------------------------------------------------------------
  // The filter on dx

  /**
   * The filter works record by record: a rejected record drops only its
   * own point and never stops the records after it.
   */
  lemma {:induction false} AcceptedAppend(a: seq<Offset>, b: seq<Offset>, f: Frame)
    ensures Accepted(a + b, f) == Accepted(a, f) + Accepted(b, f)
  {
    if a == [] {
      assert a + b == b;
    } else {
      assert (a + b)[1..] == a[1..] + b;
      AcceptedAppend(a[1..], b, f);
    }
  }

  /** A record contributes one point, at its position, iff dx is in the window. */
  lemma RecordContributesIff(a: seq<Offset>, r: Offset, b: seq<Offset>, f: Frame)
    ensures Accepted(a + [r] + b, f)
         == Accepted(a, f) + (if InWindow(r.dx) then [ToPoint(r, f)] else []) + Accepted(b, f)
  {
    AcceptedAppend(a + [r], b, f);
    AcceptedAppend(a, [r], f);
    assert [r][1..] == [];
  }

  lemma {:induction false} AcceptedAtMostRecords(rs: seq<Offset>, f: Frame)
    ensures |Accepted(rs, f)| <= |rs|
  {
    if rs != [] {
      AcceptedAtMostRecords(rs[1..], f);
    }
  }

  /** With every dx in the window, there is one point per record, by the formula. */
  lemma {:induction false} AcceptedAllInWindow(rs: seq<Offset>, f: Frame)
    requires forall i :: 0 <= i < |rs| ==> InWindow(rs[i].dx)
    ensures |Accepted(rs, f)| == |rs|
    ensures forall i :: 0 <= i < |rs| ==> Accepted(rs, f)[i] == ToPoint(rs[i], f)
  {
    if rs != [] {
      AcceptedAllInWindow(rs[1..], f);
    }
  }

  /** Records none of whose dx is in the window contribute nothing. */
  lemma {:induction false} AcceptedNoneInWindow(rs: seq<Offset>, f: Frame)
    requires forall i :: 0 <= i < |rs| ==> !InWindow(rs[i].dx)
    ensures Accepted(rs, f) == []
  {
    if rs != [] {
      AcceptedNoneInWindow(rs[1..], f);
    }
  }

  // ---------------------------------------------------------------------
  // The decoder's result

  /**
   * The result is present iff the buffer has a header and at least two
   * records survive the filter; it is then exactly those points, in order,
   * under the given name.
   */
  lemma DecodeCurveIff(data: seq<byte>, name: string, num: Numerics)
    ensures DecodeCurve(data, name, num).Some? <==>
      |data| >= MIN_LENGTH
      && |Accepted(Records(data[TAIL_START..], num), FrameOf(data, num))| >= 2
    ensures DecodeCurve(data, name, num).Some? ==>
      DecodeCurve(data, name, num).value
        == Polyline(name, Accepted(Records(data[TAIL_START..], num), FrameOf(data, num)))
  {
  }

  /**
   * A buffer of at most 0x48 bytes yields nothing: below 0x48 it is
   * rejected, and at exactly 0x48 its single tail record is never read.
   */
  lemma ShortBufferYieldsNothing(data: seq<byte>, name: string, num: Numerics)
    requires |data| <= MIN_LENGTH
    ensures DecodeCurve(data, name, num) == None
  {
    if |data| == MIN_LENGTH {
      assert RecordCount(|data[TAIL_START..]|) == 0;
    }
  }

  /** A buffer whose records are all in the window decodes to one point per record. */
  lemma {:induction false} AllInWindowDecodes(data: seq<byte>, name: string, num: Numerics)
    requires |data| >= MIN_LENGTH
    requires forall i :: 0 <= i < |Records(data[TAIL_START..], num)| ==> InWindow(Records(data[TAIL_START..], num)[i].dx)
    requires RecordCount(|data| - TAIL_START) >= 2
    ensures DecodeCurve(data, name, num).Some?
    ensures |DecodeCurve(data, name, num).value.points| == RecordCount(|data| - TAIL_START)
  {
    AcceptedAllInWindow(Records(data[TAIL_START..], num), FrameOf(data, num));
  }

  // ---------------------------------------------------------------------
  // The decoder as the source runs it

  /**
   * `process_crv_binary`: walks the tail in steps of 8, appending the point
   * of every in-window record to `coords`, and returns a line when at least
   * two points were kept.
   */
  method ProcessCrvBinary(data: seq<byte>, name: string, num: Numerics) returns (r: Option<Polyline>)
    ensures r == DecodeCurve(data, name, num)
  {
    if |data| < MIN_LENGTH {
      return None;
    }
    var baseLat := num.f64(data[0..8]);
    var baseLon := num.f64(data[8..16]);
    var coords: seq<Point> := [];
    var tail := data[TAIL_START..];
    var lonPerM := num.lonPerMeter(baseLat);
    ghost var f := Frame(baseLat, baseLon, lonPerM);
    ghost var rs := Records(tail, num);
    var i := 0;
    while i < |tail| - RECORD_SIZE
      invariant i % RECORD_SIZE == 0 && 0 <= i / RECORD_SIZE <= |rs|
      invariant i / RECORD_SIZE < |rs| <==> i < |tail| - RECORD_SIZE
      invariant coords == Accepted(rs[..i / RECORD_SIZE], f)
    {
      ghost var k := i / RECORD_SIZE;
      ghost var before := coords;
      RecordCountExact(|tail|, k);
      RecordCountExact(|tail|, k + 1);
      var dx, dy := num.f32(tail[i..i + 4]), num.f32(tail[i + 4..i + 8]);
      assert rs[k] == Offset(dx, dy);
      if -DX_LIMIT < dx < DX_LIMIT {
        var actualLon := baseLon + dx * lonPerM;
        var actualLat := baseLat + (-dy * LAT_PER_METER);
        coords := coords + [Point(actualLon, actualLat)];
        assert Point(actualLon, actualLat) == ToPoint(rs[k], f);
        assert InWindow(rs[k].dx);
      } else {
        assert !InWindow(rs[k].dx);
      }
      assert coords == before + (if InWindow(rs[k].dx) then [ToPoint(rs[k], f)] else []);
      assert rs[..k + 1] == rs[..k] + [rs[k]];
      AcceptedAppend(rs[..k], [rs[k]], f);
      assert [rs[k]][1..] == [];
      assert Accepted([rs[k]], f) == if InWindow(rs[k].dx) then [ToPoint(rs[k], f)] else [];
      assert coords == Accepted(rs[..k + 1], f);
      i := i + RECORD_SIZE;
      assert i / RECORD_SIZE == k + 1;
    }
    assert rs[..i / RECORD_SIZE] == rs;
    if |coords| >= 2 {
      return Some(Polyline(name, coords));
    }
    return None;
  }
}
