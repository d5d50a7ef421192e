# Agri data converter — a Dafny model

The converter turns vendor guidance data for farm machinery into shapefile-ready geometry. Its Topcon side handles three inputs:

- AB lines: INI files with an `APoint` and a `BPoint` section.
- Curves: binary `.crv` files, a base latitude/longitude followed by 8-byte metre offsets.
- Boundaries: polygon shapefiles whose rings may be open.

Inside an uploaded client/farm/field tree, every directory holding an `ABLines`, `Boundaries` or `Curves` subdirectory is a field. The converter replaces each field's sources with converted shapefiles. Its DJI side extracts the polygon features of a field-boundary JSON file.

`app.py` holds three successive versions of the program. The model covers the first (lines 6-338) and the third (lines 673-956) wherever they differ. `converter.py` holds the batch AB-line converter and the DJI importer.

Modules, one file each:

- `Common` (`common.dfy`): options, bytes, points, ASCII lower-casing for suffix tests, and `os.path.splitext`.
- `Curve` (`curve.dfy`): `process_crv_binary`. It has a specification function `DecodeCurve` and an imperative record loop, `ProcessCrvBinary`, proved equal to it.
- `AbLine` (`ab_line.dfy`): `process_ab_line_ini`, the ordered encoding fallback (both orders) and converter.py's batch loop with its success counter.
- `Boundary` (`boundary.dfy`): `process_boundary_memo2`. It covers Python slicing of parts, ring closure, the attribute overrides and the record loop. The v3 copy is the same loop with `forceAttrs = false`.
- `DjiImport` (`dji_import.dfy`), converter.py's DJI importer:
  - the brace span;
  - Python's `in`, indexing and iteration on JSON values, where each type error aborts the file;
  - the polygon filter, Z dropping and property stringification;
  - the feature loop and the batch loop.
- `FieldTree` (`field_tree.dfy`): the bottom-up walk over a directory-tree datatype. It covers field detection, staging (a map from name to entry), clean-up and moves. The walk, the staging loops, the clean-up and the moves are methods proved equal to specification functions.

Library behaviour is passed in as function-typed parameters:

- `TextCodecs`: `bytes.decode`, `ConfigParser.read_string` and `float()`.
- `Numerics`: IEEE 754 decoding and the cosine scale.
- `DjiCodecs`: UTF-8 decoding, `json.loads`, shapely `shape()` and `str()` of a dict or list.
- `Env.readShp`: the pyshp reader.
- `Env.listing`: the order `os.listdir` returns names in.

Decoding, parsing, `float()`, `json.loads`, `shape()` and the shapefile reader yield `None` where the library call raises. The numeric functions, `str()` and the listing order always return a value.

Where the code and its accompanying description differ, the model follows the code:

- AB lines are read only from sections named exactly `APoint` and `BPoint`. No other section names are accepted.
- Field detection compares directory names exactly, case-sensitively.

## Model

| member | source | states |
|---|---|---|
| Common.SplitExt | app.py:46 | `os.path.splitext`: root and extension concatenate to the name. The extension is empty, or one dot followed by a slash-free, dot-free tail preceded by a non-dot character of the last component. There is an extension iff some non-dot character lies between the last `/` and the last `.`; the root then ends just before that last dot. |
| Curve.Records | app.py:716-717 | The decoder reads exactly `RecordCount(len(tail))` records. |
| Curve.RecordCountExact | app.py:716 | Record k is read iff its offset 8k is below `len(tail) - 8`. |
| Curve.RecordReadInBounds | app.py:716-717 | Every record read lies wholly inside the tail. |
| Curve.LastFullRecordSkipped | app.py:716 | When the tail is a whole number of 8-byte records, the last one is never read. |
| Curve.AcceptedAppend | app.py:716-721 | The points of two runs of records are the points of each run, in encounter order. |
| Curve.RecordContributesIff | app.py:718-721 | A record adds exactly one point, `(base_lon + dx*lon_per_m, base_lat - dy*lat_per_m)`, when `-20000 < dx < 20000`, and nothing otherwise. dy is never tested. |
| Curve.AcceptedAtMostRecords | app.py:716-721 | There are never more points than records read. |
| Curve.AcceptedAllInWindow | app.py:718-721 | When every dx is in the window, point i is record i's point. |
| Curve.AcceptedNoneInWindow | app.py:718 | When no dx is in the window, there are no points. |
| Curve.DecodeCurveIff | app.py:704-726 | A line is returned iff the buffer has at least 0x48 bytes and at least two points survive. The line is named after the file and holds exactly the surviving points. |
| Curve.ShortBufferYieldsNothing | app.py:704-705 | A buffer of at most 0x48 bytes yields no line. At exactly 0x48 bytes no record is read. |
| Curve.AllInWindowDecodes | app.py:716-726 | With all offsets in the window and at least two records, the line has one point per record read. |
| Curve.ProcessCrvBinary | app.py:697-726 | The record loop appending to `coords` returns exactly `DecodeCurve`. |
| AbLine.FirstDecodeIff | converter.py:117-122 | The decoded text is s iff some encoding k yields s and every encoding before k fails. |
| AbLine.FirstDecodeNoneIff | converter.py:117-123 | Decoding fails iff every encoding fails. |
| AbLine.DecodeWithFallback | converter.py:117-122 | The try/break loop yields exactly the first successful decode. |
| AbLine.LineNeedsBothPoints | app.py:733-740 | A line exists iff both sections and all four numbers exist. It is `[(lon_a, lat_a), (lon_b, lat_b)]`. |
| AbLine.ProcessAbLineIni | app.py:728-740 | A parse failure gives no line. On a successful parse the result is exactly the line built from that INI's `APoint` and `BPoint` options `longitude` and `latitude` (configparser lower-cases option names), which exists iff both sections and all four numbers do. A line carries the given name and has two points. |
| AbLine.LineFromIniRoundTrip | app.py:733-737 | An INI written from points A and B reads back as the line [A, B] whenever `float()` reads back each of the four printed coordinates. |
| AbLine.OtherSectionsIgnored | app.py:733-736 | Sections other than `APoint` and `BPoint` do not affect the result. |
| AbLine.FileVersionsAgree | app.py:828-834 | The first and third versions agree whenever both encoding orders pick the same non-empty text. |
| AbLine.Utf8FirstInBothOrders | app.py:134-142 | When UTF-8 decodes to non-empty text, both fallback orders use it and give the same line. |
| AbLine.UploadLinesFromFiles | converter.py:114-140 | There are at most as many lines as files. Each line comes from one file and is named after that file's stem. |
| AbLine.UploadLinesAppend | converter.py:116-140 | The batch is file by file, in upload order: the lines of two batches are the lines of the first followed by those of the second, and one file gives its line or nothing. |
| AbLine.UploadLinesComplete | converter.py:116-140 | Every uploaded file that yields a line contributes that line to the batch. |
| AbLine.ConvertAbLineUploads | converter.py:114-140 | The batch loop collects exactly the files' lines. `success_count` equals the number of lines. |
| Boundary.PySlice | app.py:192 | `points[si:ei]` never fails and equals the plain slice when the bounds are valid. |
| Boundary.CloseRing | app.py:194 | The result is closed. An open non-empty ring gets exactly one point, a copy of its first. A closed or empty ring keeps its length. The existing points keep their order. |
| Boundary.CloseRingIdempotent | app.py:194 | Closing twice is closing once. |
| Boundary.RepairedParts | app.py:188-196 | One output part per entry of the part table. |
| Boundary.RepairParts | app.py:186-196 | The part loop yields `len(parts)` parts; part k is `points[parts[k]:end_k]` closed, where `end_k` is the next start or `len(points)`. |
| Boundary.PartsPartition | app.py:188-192 | For a well-formed part table, the parts concatenate to exactly the point list. |
| Boundary.SplitFlatten | app.py:188-198 | Splitting written parts by their own start table gives back each part. |
| Boundary.RepairIdempotent | app.py:186-198 | Repairing a repaired record again changes nothing. |
| Boundary.ClosedRecordUnchanged | app.py:188-198 | A record whose rings are all closed is written back with the same points and the same part table. |
| Boundary.Decimal | app.py:202 | `str(n)` is a non-empty string of decimal digits that starts with `0` iff n is 0, so it has no leading zero. |
| Boundary.DecimalCanonical | app.py:202 | `str(n)` is the only digit string without a leading zero (apart from `0` itself) that reads back as n. |
| Boundary.DecimalRoundTrip | app.py:202 | Reading `str(n)` back gives n. |
| Boundary.UpdateRecord | app.py:200-204 | The record keeps its other attributes. It gains or overwrites `id = str(i+1)`, `Name = base name`, `visibility = 1` and `altitudeMo = "clampToGround"`. |
| Boundary.RepairBoundary | app.py:176-208 | The record loop writes exactly `Repair`. Overrides apply in the first version only (the v3 copy at app.py:843-859 copies attributes). |
| Boundary.RepairKeepsCounts | app.py:182-198 | One shape and one record per source record, and each shape has the source's part count. |
| Boundary.RepairIdsDistinct | app.py:182-204 | With the overrides, the `id`s of any two records differ. |
| DjiImport.JsonSpan | converter.py:55-56 | A span exists iff some `{` precedes some `}`. It runs from the leftmost `{` to the last `}`, the leftmost-longest match of the greedy DOTALL pattern. |
| DjiImport.Lookup | converter.py:61-63 | A dict lookup succeeds iff the key is present and yields that key's last value. |
| DjiImport.Contains | converter.py:60-62 | `x in v` is defined for strings, lists and dicts only. Other types raise. |
| DjiImport.Index | converter.py:61-63 | `v[key]` succeeds iff v is an object holding the key. |
| DjiImport.Iterate | converter.py:61 | Iteration is defined for strings, lists and dicts, and a list yields its items. |
| DjiImport.DropZPlanar | converter.py:64-68 | Dropping Z keeps the kind, the polygon count and every exterior point's x and y in order. It leaves no Z, no holes and the same emptiness. |
| DjiImport.PropsOfLookup | converter.py:70 | One column per property key, valued as that key's lookup, with dicts and lists stringified and other values kept. |
| DjiImport.FeatureStep | converter.py:61-72 | A feature that is not a dict, or has no `geometry` key, raises. A kept row's columns are the feature's properties without `geometry`. |
| DjiImport.KeptFeature | converter.py:62-72 | A kept feature's geometry type mentions `Polygon`, its shape is non-empty with Z dropped, and `geometry` is not a property column. |
| DjiImport.PolygonTypeFilter | converter.py:62-72 | For a string type t: a t without the substring `Polygon` skips the feature. A t with it, a non-empty shape and a readable properties object keeps the feature, with that shape, Z dropped. |
| DjiImport.AbortSpreads | converter.py:52-84 | An exception on any feature skips the whole file. |
| DjiImport.FeaturesOfKept | converter.py:61-72 | When the file converts, no element raised, there are at most as many rows as elements, and every row is some element's kept feature. |
| DjiImport.FeaturesOfAppend | converter.py:61-72 | The loop is element by element, in input order: the rows of two runs are those of the first followed by those of the second, and a raise in either run ends the file. |
| DjiImport.FeaturesOfSingle | converter.py:61-72 | One element gives its kept row, no row when skipped, or a raise. |
| DjiImport.FeaturesOfRows | converter.py:61-72 | The loop's result depends only on the sequence of per-element outcomes, collected in order. |
| DjiImport.FeaturesOfComplete | converter.py:61-72 | When the file converts, every kept element's row is among the rows. |
| DjiImport.CollectFeatures | converter.py:59-72 | The feature loop returns exactly `FeaturesOf`. |
| DjiImport.DjiFileIff | converter.py:53-83 | A file converts iff its text has a brace span and at least one row survives. The output is named after the file's stem. |
| DjiImport.UploadOutputsBounded | converter.py:51-84 | At most one output per file, each with at least one row and coming from one file. |
| DjiImport.UploadOutputsAppend | converter.py:51-84 | The batch is file by file, in upload order: the outputs of two batches are those of the first followed by those of the second. |
| DjiImport.UploadOutputsSingle | converter.py:51-84 | One file gives its output or nothing. |
| DjiImport.UploadOutputsComplete | converter.py:51-84 | Every uploaded file that converts contributes its output to the batch. |
| DjiImport.ConvertDjiUploads | converter.py:51-84 | The batch loop collects exactly `UploadOutputs`. `success_count` equals the number of outputs. |
| FieldTree.TreeFiles | app.py:114-118 | `os.walk` of a source directory visits only non-directory entries, each stored under its name somewhere in that directory's subtree. |
| FieldTree.DirItemsComplete | app.py:114 | With a complete listing, every entry of a directory is listed with its own contents. |
| FieldTree.TreeFilesComplete | app.py:114-118 | With a complete listing, `os.walk` visits every file directly in the directory and every file it visits in each subdirectory. |
| FieldTree.OutputName | app.py:832 | Every output name is the source's stem followed by `.shp`. |
| FieldTree.Convert | app.py:824-869 | A name without the kind's suffix (in lower case) is skipped. Handling raises exactly when an `.ini` or `.crv` name is a directory. An output is a converted shapefile named `<stem>.shp` after its source. A `.crv` file gives an output iff its bytes decode to a curve, and an `.ini` file iff it reads as an AB line (with the version's encoding order), the output then holding that line. A `.shp` name gives an output iff the shapefile reader reads it, the output then holding its repair (overrides in the first version only). |
| FieldTree.StageAllRaises | app.py:256-292 | Staging raises exactly when handling some listed entry raises. |
| FieldTree.StageAllAppend | app.py:256-292 | Staging AB lines, boundaries and curves one after another into the same directory is staging all their outcomes in that order. |
| FieldTree.StageAllAdds | app.py:832-869 | Staging keeps the earlier names. Every staged entry was there before or is an output of that name. Every output's name is staged. |
| FieldTree.StageAllKeeps | app.py:832-869 | A name that no output writes keeps its entry, or stays absent. |
| FieldTree.StageAllLastOutputWins | app.py:832-869 | A name holds the last output written under it, as `to_file` overwrites. |
| FieldTree.Sources | app.py:256-292 | A missing source directory gives nothing. A source that is a file raises iff the version lists it with `os.listdir`. `os.walk` visits only files, each stored under its name in the source directory's subtree. `os.listdir` gives the directory's own entries. |
| FieldTree.SourcesComplete | app.py:256-292 | With a complete listing, every entry of a source directory is handled: every file, and every subdirectory wherever `os.listdir` is used. |
| FieldTree.FieldOutcomeAt | app.py:256-292 | Every outcome of the `ABLines`, `Boundaries` or `Curves` source is among the field's staged outcomes. |
| FieldTree.ReconcileHasOutput | app.py:256-322 | With a complete listing, when a field is reconciled without raising, every source entry that converts has its `<stem>.shp` output in the field. |
| FieldTree.WalkedFieldHasOutput | app.py:244-322 | The same after the whole walk: every converting source entry of a field (after its subdirectories are walked) leaves its output name in the field (app.py:872-877 for the third version). |
| FieldTree.FieldOutcomes | app.py:256-292 | Every output of a field's sources is a converted shapefile with a `.shp` name. |
| FieldTree.StagingIsConverted | app.py:256-292 | Staging raises iff some source raises. Every staged entry is a converted `.shp` written under that name by some source. Every output's name is staged and holds the last output of that name. |
| FieldTree.StageLoop | app.py:278-282 | The loop over one source directory writes exactly `StageAll` of its entries' outcomes. |
| FieldTree.StageSource | app.py:274-282 | Staging from a source directory that is a file raises where `os.listdir` does. Otherwise it is the loop. |
| FieldTree.ReconcileField | app.py:252-322 | Staging, clean-up and moves give exactly `Reconcile`. |
| FieldTree.CleanUp | app.py:300-310 | The first version's clean-up removes every entry; the third's removes exactly the three source directories (app.py:872-874). |
| FieldTree.MoveAll | app.py:316-318 | The moves give the field plus every staged entry, and raise iff a staged name is already in the field (app.py:876-877). |
| FieldTree.WalkTree | app.py:244-322 | The bottom-up walk computes exactly `Walk`, whatever order the siblings are taken in. |
| FieldTree.NoFieldUnchanged | app.py:248 | A tree with no field anywhere comes out unchanged. |
| FieldTree.WalkKeepsKind | app.py:244-248 | Files stay as they are and directories stay directories. |
| FieldTree.NonFieldKeepsNames | app.py:248 | A directory that is not a field keeps exactly its names, each entry walked in place. |
| FieldTree.V1FieldIsStaging | app.py:300-322 | After the walk, a first-version field holds exactly the staged entries. Every output of its sources is there, holding the last output of its name, and nothing else is. |
| FieldTree.V3FieldKeepsOthers | app.py:872-877 | A third-version field keeps every other entry and loses the three source directories. It gains every output of its sources, holding the last output of its name, and only converted shapefiles. |
| FieldTree.V3CollisionRaises | app.py:876-877 | A field entry with a staged output's name makes the third version raise. |
| FieldTree.V1BoundariesFileRaises | app.py:276-278 | In a first-version field, a `Boundaries` that is a file raises at `os.listdir`. |

## Left out

- The Streamlit interface: uploaders, buttons, messages, download buttons and the expanders listing uploaded names. It is presentation only.
- The v3 single-file tabs (app.py:886-956), the v3 DJI tab (app.py:753-792) and the v2 program (app.py:346-647). The v2 and v3 copies of the curve decoder, AB-line decoder and boundary loop are the functions modelled here.
- Zip extraction and archiving, temporary directories and removing the staging directory. These are file-system plumbing around the modelled tree transformation.
- Curve.Numerics: IEEE 754 binary64/binary32 decoding (`struct.unpack`) and `1/(111111*cos(radians(lat)))` are parameters over reals. NaN, infinities and rounding are not modelled.
- AbLine.TextCodecs: real codecs, configparser syntax, DEFAULT-section inheritance and `float()` syntax are parameters. Only their success or failure and their results are modelled. `parseIni` returns option names lower-cased, as configparser's `optionxform` stores them, so the model looks up `longitude` and `latitude`; the file's own capitalisation of option names is not modelled.
- DjiImport.DjiCodecs: `json.loads`, shapely `shape()` and `str()` of a dict or list are parameters. `HasZ` and `IsEmpty` read the model's coordinates rather than shapely's dimension flag.
- Writing shapefiles: GeoDataFrame and pyshp writing, and the failures they may raise, are not modelled. Also left out: partial output left by a failed write, and pyshp's handling of record keys absent from the schema. An output is a value (`Polyline`, `RepairedBoundary`, `DjiOutput`).
- FieldTree.Entry: a written shapefile set (.shp, .shx, .dbf, .prj) is one entry named `<stem>.shp`. A collision in the third version is therefore checked on that one name, not on each companion file. A converted entry is never read back as INI or curve text.
- FieldTree.Env: the shapefile reader is a parameter, and so is the order `os.listdir` returns names in. The completeness lemmas (`DirItemsComplete`, `TreeFilesComplete`, `SourcesComplete`, `ReconcileHasOutput`, `WalkedFieldHasOutput`) require `CompleteListing`, that the listing holds every name of the directory, as `os.listdir` does. A listing that repeats names is not excluded.
- Unicode case folding: `lower()` is modelled for ASCII letters only.
- The contents of the `.prj` file are the constant `Boundary.PRJ_WGS84`. Writing it is not modelled.
