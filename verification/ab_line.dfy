/**
 * The AB-line decoder: an INI text with an `APoint` and a `BPoint` section,
 * each holding `Latitude` and `Longitude`, becomes a two-point line.
 *
 * Text decoding, INI parsing and `float()` are taken as given partial
 * functions (`TextCodecs`). Modelled exactly: the ordered encoding
 * fallback, the section test, the point order of the line, and the rule
 * that every failure means "no line" and never escapes.
 */
module AbLine {
  import opened Common
  import Curve

  datatype Encoding = Utf8 | Utf16 | ShiftJis

  /** The fallback order of converter.py and of the first two app.py versions. */
  const FALLBACK: seq<Encoding> := [Utf8, Utf16, ShiftJis]
  /** The fallback order of the third app.py version. */
  const FALLBACK_V3: seq<Encoding> := [Utf8, ShiftJis, Utf16]

  /**
   * A parsed INI text: section name to option name to raw value. Section
   * names keep their case; option names are stored lower-cased, as
   * configparser's `optionxform` does, and `config['APoint']['Latitude']`
   * lower-cases the key the same way, so the decoder looks up `latitude`.
   */
  type Section = map<string, string>
  type Ini = map<string, Section>

  /**
   * The library behaviour the decoder relies on: `bytes.decode(enc)`
   * (None when it raises), `ConfigParser.read_string` (None when it raises,
   * option names lower-cased) and `float()` on a value (None when it raises).
   */
  datatype TextCodecs = TextCodecs(
    decode: (Encoding, seq<byte>) -> Option<string>,
    parseIni: string -> Option<Ini>,
    parseFloat: string -> Option<real>)

  // ---------------------------------------------------------------------
  // Encoding fallback

  /** The text of the first encoding in `encs` that decodes `raw` without error. */
  function FirstDecode(raw: seq<byte>, encs: seq<Encoding>, decode: (Encoding, seq<byte>) -> Option<string>): Option<string>
  {
    if encs == [] then None
    else if decode(encs[0], raw).Some? then decode(encs[0], raw)
    else FirstDecode(raw, encs[1..], decode)
  }

  /**
   * The first decode wins: the result is some text s exactly when some
   * encoding k yields s and every encoding before k fails.
   */
  lemma {:induction false} FirstDecodeIff(raw: seq<byte>, encs: seq<Encoding>, decode: (Encoding, seq<byte>) -> Option<string>, s: string)
    ensures FirstDecode(raw, encs, decode) == Some(s) <==>
      exists k :: 0 <= k < |encs| && decode(encs[k], raw) == Some(s)
        && forall j :: 0 <= j < k ==> decode(encs[j], raw) == None
  {
    if encs != [] {
      FirstDecodeIff(raw, encs[1..], decode, s);
      assert forall k :: 1 <= k < |encs| ==> encs[k] == encs[1..][k - 1];
      if decode(encs[0], raw).None? && FirstDecode(raw, encs, decode) == Some(s) {
        var k :| 0 <= k < |encs[1..]| && decode(encs[1..][k], raw) == Some(s)
          && forall j :: 0 <= j < k ==> decode(encs[1..][j], raw) == None;
        assert decode(encs[k + 1], raw) == Some(s);
      }
    }
  }

  /** Decoding fails altogether only when every encoding fails. */
  lemma {:induction false} FirstDecodeNoneIff(raw: seq<byte>, encs: seq<Encoding>, decode: (Encoding, seq<byte>) -> Option<string>)
    ensures FirstDecode(raw, encs, decode) == None <==> forall k :: 0 <= k < |encs| ==> decode(encs[k], raw) == None
  {
    if encs != [] {
      FirstDecodeNoneIff(raw, encs[1..], decode);
      assert forall k :: 1 <= k < |encs| ==> encs[k] == encs[1..][k - 1];
    }
  }

  /**
   * The fallback loop: `for enc in encs: try: content = raw.decode(enc);
   * break; except: continue`.
   */
  method DecodeWithFallback(raw: seq<byte>, encs: seq<Encoding>, decode: (Encoding, seq<byte>) -> Option<string>)
    returns (content: Option<string>)
    ensures content == FirstDecode(raw, encs, decode)
  {
    content := None;
    var i := 0;
    while i < |encs|
      invariant 0 <= i <= |encs|
      invariant content == None
      invariant FirstDecode(raw, encs, decode) == FirstDecode(raw, encs[i..], decode)
    {
      assert encs[i..][1..] == encs[i + 1..];
      var attempt := decode(encs[i], raw);
      if attempt.Some? {
        content := attempt;
        break;
      }
      i := i + 1;
    }
  }

  // ---------------------------------------------------------------------
  // From a parsed INI to a line

  /** `float(ini[section][key])`, None when the section or key is missing or the value is not a number. */
  function Coordinate(ini: Ini, section: string, key: string, parseFloat: string -> Option<real>): Option<real>
  {
    if section in ini && key in ini[section] then parseFloat(ini[section][key]) else None
  }

  /** The line of a parsed INI: A first, B second, each as (longitude, latitude). */
  function LineFromIni(ini: Ini, name: string, parseFloat: string -> Option<real>): Option<Curve.Polyline>
  {
    if "APoint" in ini && "BPoint" in ini then
      var latA := Coordinate(ini, "APoint", "latitude", parseFloat);
      var lonA := Coordinate(ini, "APoint", "longitude", parseFloat);
      var latB := Coordinate(ini, "BPoint", "latitude", parseFloat);
      var lonB := Coordinate(ini, "BPoint", "longitude", parseFloat);
      if latA.Some? && lonA.Some? && latB.Some? && lonB.Some? then
        Some(Curve.Polyline(name, [Point(lonA.value, latA.value), Point(lonB.value, latB.value)]))
      else None
    else None
  }

  /**
   * `process_ab_line_ini(content, name)`: parse, then build the line; every
   * failure is None. What `LineFromIni` yields is stated by
   * `LineNeedsBothPoints`, `LineFromIniRoundTrip` and `OtherSectionsIgnored`.
   */
  function ProcessAbLineIni(content: string, name: string, codecs: TextCodecs): (r: Option<Curve.Polyline>)
    ensures codecs.parseIni(content).None? ==> r.None?
    ensures codecs.parseIni(content).Some? ==> r == LineFromIni(codecs.parseIni(content).value, name, codecs.parseFloat)
    ensures r.Some? ==> r.value.name == name && |r.value.points| == 2
  {
    match codecs.parseIni(content)
    case None => None
    case Some(ini) => LineFromIni(ini, name, codecs.parseFloat)
  }

  /** The INI text a line is written as, given a way to print numbers. */
  function IniOf(a: Point, b: Point, show: real -> string): Ini
  {
    map["APoint" := map["latitude" := show(a.y), "longitude" := show(a.x)],
        "BPoint" := map["latitude" := show(b.y), "longitude" := show(b.x)]]
  }

  /** Reading back the INI of a line gives that line, when `float()` reads back each of the four printed coordinates. */
  lemma LineFromIniRoundTrip(a: Point, b: Point, name: string, show: real -> string, parseFloat: string -> Option<real>)
    requires parseFloat(show(a.x)) == Some(a.x) && parseFloat(show(a.y)) == Some(a.y)
    requires parseFloat(show(b.x)) == Some(b.x) && parseFloat(show(b.y)) == Some(b.y)
    ensures LineFromIni(IniOf(a, b, show), name, parseFloat) == Some(Curve.Polyline(name, [a, b]))
  {
    var ini := IniOf(a, b, show);
    assert Coordinate(ini, "APoint", "latitude", parseFloat) == Some(a.y);
    assert Coordinate(ini, "APoint", "longitude", parseFloat) == Some(a.x);
    assert Coordinate(ini, "BPoint", "latitude", parseFloat) == Some(b.y);
    assert Coordinate(ini, "BPoint", "longitude", parseFloat) == Some(b.x);
  }

  /** A line exists exactly when both point sections and all four numbers do. */
  lemma LineNeedsBothPoints(ini: Ini, name: string, parseFloat: string -> Option<real>)
    ensures LineFromIni(ini, name, parseFloat).Some? <==>
      && Coordinate(ini, "APoint", "latitude", parseFloat).Some?
      && Coordinate(ini, "APoint", "longitude", parseFloat).Some?
      && Coordinate(ini, "BPoint", "latitude", parseFloat).Some?
      && Coordinate(ini, "BPoint", "longitude", parseFloat).Some?
    ensures LineFromIni(ini, name, parseFloat).Some? ==>
      LineFromIni(ini, name, parseFloat).value.points == [
        Point(Coordinate(ini, "APoint", "longitude", parseFloat).value, Coordinate(ini, "APoint", "latitude", parseFloat).value),
        Point(Coordinate(ini, "BPoint", "longitude", parseFloat).value, Coordinate(ini, "BPoint", "latitude", parseFloat).value)]
  {
  }

  /** Only the two point sections matter: any other section may change freely. */
  lemma OtherSectionsIgnored(ini1: Ini, ini2: Ini, name: string, parseFloat: string -> Option<real>)
    requires ("APoint" in ini1 <==> "APoint" in ini2) && ("BPoint" in ini1 <==> "BPoint" in ini2)
    requires "APoint" in ini1 ==> ini1["APoint"] == ini2["APoint"]
    requires "BPoint" in ini1 ==> ini1["BPoint"] == ini2["BPoint"]
    ensures LineFromIni(ini1, name, parseFloat) == LineFromIni(ini2, name, parseFloat)
  {
  }

  // ---------------------------------------------------------------------
  // One .ini file, as converter.py and the first app.py version handle it

  /**
   * Decode with FALLBACK, skip empty text, then parse and build the line
   * named after the file's stem.
   */
  function AbLineFile(raw: seq<byte>, stem: string, codecs: TextCodecs): Option<Curve.Polyline>
  {
    match FirstDecode(raw, FALLBACK, codecs.decode)
    case None => None
    case Some(content) => if content == "" then None else ProcessAbLineIni(content, stem, codecs)
  }

  /**
   * The third app.py version: decode with FALLBACK_V3 and hand the first
   * decoded text to `process_ab_line_ini`; a None result ends the attempts.
   */
  function AbLineFileV3(raw: seq<byte>, stem: string, codecs: TextCodecs): Option<Curve.Polyline>
  {
    match FirstDecode(raw, FALLBACK_V3, codecs.decode)
    case None => None
    case Some(content) => ProcessAbLineIni(content, stem, codecs)
  }

  /**
   * The two versions differ only in the encoding order: when both orders
   * pick the same non-empty text, they produce the same line.
   */
  lemma FileVersionsAgree(raw: seq<byte>, stem: string, codecs: TextCodecs)
    requires FirstDecode(raw, FALLBACK, codecs.decode) == FirstDecode(raw, FALLBACK_V3, codecs.decode)
    requires FirstDecode(raw, FALLBACK, codecs.decode) != Some("")
    ensures AbLineFile(raw, stem, codecs) == AbLineFileV3(raw, stem, codecs)
  {
  }

  /** Whenever UTF-8 decodes the bytes, both versions read the same text and so agree. */
  lemma Utf8FirstInBothOrders(raw: seq<byte>, stem: string, codecs: TextCodecs)
    requires codecs.decode(Utf8, raw).Some? && codecs.decode(Utf8, raw) != Some("")
    ensures AbLineFile(raw, stem, codecs) == AbLineFileV3(raw, stem, codecs)
    ensures AbLineFile(raw, stem, codecs) == ProcessAbLineIni(codecs.decode(Utf8, raw).value, stem, codecs)
  {
    FirstDecodeIff(raw, FALLBACK, codecs.decode, codecs.decode(Utf8, raw).value);
    FirstDecodeIff(raw, FALLBACK_V3, codecs.decode, codecs.decode(Utf8, raw).value);
  }

  // ---------------------------------------------------------------------
  // The batch of uploaded .ini files in converter.py

  datatype Upload = Upload(name: string, data: seq<byte>)

  /** The lines the batch produces from `files`, in upload order. */
  function UploadLines(files: seq<Upload>, codecs: TextCodecs): seq<Curve.Polyline>
  {
    if files == [] then []
    else
      var last := files[|files| - 1];
      UploadLines(files[..|files| - 1], codecs) + FileLines(last, codecs)
  }

  /** The line one file contributes to the batch. */
  function FileLines(f: Upload, codecs: TextCodecs): seq<Curve.Polyline>
  {
    match AbLineFile(f.data, Stem(f.name), codecs)
    case Some(line) => [line]
    case None => []
  }

  /**
   * The batch is file by file, in upload order: the lines of two runs of
   * files are the lines of the first run followed by those of the second,
   * and one file gives its line exactly when it converts.
   */
  lemma {:induction false} UploadLinesAppend(a: seq<Upload>, b: seq<Upload>, codecs: TextCodecs)
    ensures UploadLines(a + b, codecs) == UploadLines(a, codecs) + UploadLines(b, codecs)
    ensures UploadLines([], codecs) == []
    ensures forall f :: UploadLines([f], codecs) == FileLines(f, codecs)
    decreases |b|
  {
    if b == [] {
      assert a + b == a;
    } else {
      assert (a + b)[..|a + b| - 1] == a + b[..|b| - 1];
      UploadLinesAppend(a, b[..|b| - 1], codecs);
    }
    forall f ensures UploadLines([f], codecs) == FileLines(f, codecs) {
      assert [f][..0] == [];
    }
  }

  /** The batch never produces more lines than files, and every line is named after its file. */
  lemma {:induction false} UploadLinesFromFiles(files: seq<Upload>, codecs: TextCodecs)
    ensures |UploadLines(files, codecs)| <= |files|
    ensures forall l :: l in UploadLines(files, codecs) ==>
      exists f :: f in files && AbLineFile(f.data, Stem(f.name), codecs) == Some(l) && l.name == Stem(f.name)
  {
    if files != [] {
      var init := files[..|files| - 1];
      UploadLinesFromFiles(init, codecs);
      var last := files[|files| - 1];
      forall l | l in UploadLines(files, codecs)
        ensures exists f :: f in files && AbLineFile(f.data, Stem(f.name), codecs) == Some(l) && l.name == Stem(f.name)
      {
        if l in UploadLines(init, codecs) {
          var f :| f in init && AbLineFile(f.data, Stem(f.name), codecs) == Some(l) && l.name == Stem(f.name);
          assert f in files;
        } else {
          assert AbLineFile(last.data, Stem(last.name), codecs) == Some(l);
          assert last in files;
        }
      }
    }
  }

  /** Every file that converts contributes its line to the batch. */
  lemma UploadLinesComplete(files: seq<Upload>, codecs: TextCodecs)
    ensures forall f :: f in files && AbLineFile(f.data, Stem(f.name), codecs).Some? ==>
      AbLineFile(f.data, Stem(f.name), codecs).value in UploadLines(files, codecs)
  {
    forall f | f in files && AbLineFile(f.data, Stem(f.name), codecs).Some?
      ensures AbLineFile(f.data, Stem(f.name), codecs).value in UploadLines(files, codecs)
    {
      var i :| 0 <= i < |files| && files[i] == f;
      assert files == files[..i] + ([f] + files[i + 1..]);
      UploadLinesAppend(files[..i], [f] + files[i + 1..], codecs);
      UploadLinesAppend([f], files[i + 1..], codecs);
    }
  }

  /**
   * The batch loop of converter.py: each file is decoded with the fallback,
   * skipped when no text results or the text is empty, parsed, and
   * converted when both point sections exist; `successCount` grows by one
   * exactly for each file that produced a line, and any failure skips the
   * file without counting it.
   */
  method ConvertAbLineUploads(files: seq<Upload>, codecs: TextCodecs)
    returns (lines: seq<Curve.Polyline>, successCount: nat)
    ensures lines == UploadLines(files, codecs)
    ensures successCount == |lines|
  {
    lines := [];
    successCount := 0;
    for i := 0 to |files|
      invariant lines == UploadLines(files[..i], codecs)
      invariant successCount == |lines|
    {
      assert files[..i + 1][..i] == files[..i];
      var content := DecodeWithFallback(files[i].data, FALLBACK, codecs.decode);
      if content.None? || content.value == "" {
        continue;
      }
      var config := codecs.parseIni(content.value);
      if config.None? {
        continue;
      }
      if "APoint" in config.value && "BPoint" in config.value {
        var line := LineFromIni(config.value, Stem(files[i].name), codecs.parseFloat);
        if line.None? {
          continue;
        }
        lines := lines + [line.value];
        successCount := successCount + 1;
      }
    }
    assert files[..|files|] == files;
  }
}
