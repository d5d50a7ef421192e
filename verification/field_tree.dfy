/**
 * The field-tree reconciler of app.py: an extracted archive is walked
 * bottom-up, and every directory that has a subdirectory named exactly
 * `ABLines`, `Boundaries` or `Curves` is a field. The field's AB lines,
 * boundaries and curves are converted into a staging directory; then the
 * field is cleaned up and the staged outputs are moved into it.
 *
 * Two versions differ in the walk of the source directories and in the
 * clean-up: the first empties the whole field, the third removes only the
 * three source directories and fails when a staged name is already taken.
 *
 * A converted shapefile (its .shp, .shx, .dbf and .prj files) is one
 * entry named `<stem>.shp`. The order in which a directory is listed is a
 * parameter; an uncaught exception ends the whole walk (result None).
 */
module FieldTree {
  import opened Common
  import Curve
  import AbLine
  import Boundary

  /** What a converter writes into the staging directory. */
  datatype ShapeSet = LineSet(line: Curve.Polyline) | BoundarySet(boundary: Boundary.RepairedBoundary)

  /** An entry of the extracted tree: a plain file, a converted shapefile, or a directory. */
  datatype Entry =
    | File(data: seq<byte>)
    | Converted(shapes: ShapeSet)
    | Dir(children: map<string, Entry>)

  /**
   * The environment of the walk: text and number decoding, the shapefile
   * reader (given the directory's entries and the `.shp` name; None when it
   * raises), and the order in which a directory's names are listed.
   */
  datatype Env = Env(
    codecs: AbLine.TextCodecs,
    num: Curve.Numerics,
    readShp: (map<string, Entry>, string) -> Option<Boundary.Shapefile>,
    listing: set<string> -> seq<string>)

  /** The two program versions that hold the reconciler. */
  datatype Version = V1 | V3

  const SOURCE_DIRS: set<string> := {"ABLines", "Boundaries", "Curves"}

  predicate SubDir(ch: map<string, Entry>, name: string)
  {
    name in ch && ch[name].Dir?
  }

  /** A field has one of the three source directories as a subdirectory; names match exactly. */
  predicate IsField(ch: map<string, Entry>)
  {
    SubDir(ch, "ABLines") || SubDir(ch, "Boundaries") || SubDir(ch, "Curves")
  }

  // ---------------------------------------------------------------------
  // Listing directories

  /** The listed names that are entries of the directory, in listing order. */
  function Present(names: seq<string>, ch: map<string, Entry>): (r: seq<string>)
    ensures forall n :: n in r <==> n in names && n in ch
  {
    if names == [] then []
    else (if names[0] in ch then [names[0]] else []) + Present(names[1..], ch)
  }

  /** `os.listdir`: the directory's names in listing order. */
  function Listed(ch: map<string, Entry>, env: Env): (r: seq<string>)
    ensures forall n :: n in r ==> n in ch
  {
    Present(env.listing(ch.Keys), ch)
  }

  /** The directory's entries as (name, entry) pairs in listing order. */
  function DirItems(ch: map<string, Entry>, env: Env): (r: seq<(string, Entry)>)
    ensures forall i :: 0 <= i < |r| ==> r[i].0 in ch && r[i].1 == ch[r[i].0]
  {
    var names := Listed(ch, env);
    seq(|names|, i requires 0 <= i < |names| => (names[i], ch[names[i]]))
  }

  function NonDirItems(items: seq<(string, Entry)>): (r: seq<(string, Entry)>)
    ensures forall x :: x in r ==> x in items && !x.1.Dir?
  {
    if items == [] then []
    else (if items[0].1.Dir? then [] else [items[0]]) + NonDirItems(items[1..])
  }

  /** `x` is an entry stored under its name somewhere in the subtree of `dir`. */
  predicate InTree(dir: Entry, x: (string, Entry))
    decreases dir
  {
    dir.Dir? &&
    ((x.0 in dir.children && dir.children[x.0] == x.1) ||
     exists n :: n in dir.children && InTree(dir.children[n], x))
  }

  /**
   * The files `os.walk` visits under a directory, top-down: the directory's
   * own non-directory entries in listing order, then each subdirectory's
   * files, subdirectories taken in listing order.
   */
  function TreeFiles(dir: Entry, env: Env): (r: seq<(string, Entry)>)
    requires dir.Dir?
    ensures forall x :: x in r ==> !x.1.Dir? && InTree(dir, x)
    decreases dir, 1
  {
    NonDirItems(DirItems(dir.children, env)) + SubtreeFiles(dir, Listed(dir.children, env), env)
  }

  function SubtreeFiles(dir: Entry, names: seq<string>, env: Env): (r: seq<(string, Entry)>)
    requires dir.Dir? && forall n :: n in names ==> n in dir.children
    ensures forall x :: x in r ==> !x.1.Dir? && InTree(dir, x)
    decreases dir, 0, |names|
  {
    if names == [] then []
    else
      (if dir.children[names[0]].Dir? then TreeFiles(dir.children[names[0]], env) else [])
        + SubtreeFiles(dir, names[1..], env)
  }

  /** `os.listdir` lists every name of the directory (in some order). */
  ghost predicate CompleteListing(env: Env)
  {
    forall s: set<string>, m :: m in s ==> m in env.listing(s)
  }

  /** With a complete listing, every entry of a directory is among its items. */
  lemma DirItemsComplete(ch: map<string, Entry>, env: Env)
    requires CompleteListing(env)
    ensures forall n :: n in ch ==> (n, ch[n]) in DirItems(ch, env)
  {
    forall n | n in ch ensures (n, ch[n]) in DirItems(ch, env) {
      var names := Listed(ch, env);
      assert n in names;
      var i :| 0 <= i < |names| && names[i] == n;
      assert DirItems(ch, env)[i] == (n, ch[n]);
    }
  }

  lemma {:induction false} NonDirItemsKeeps(items: seq<(string, Entry)>)
    ensures forall x :: x in items && !x.1.Dir? ==> x in NonDirItems(items)
  {
    if items != [] {
      NonDirItemsKeeps(items[1..]);
      assert forall x :: x in items ==> x == items[0] || x in items[1..];
    }
  }

  lemma {:induction false} SubtreeFilesHas(dir: Entry, names: seq<string>, env: Env, n: string)
    requires dir.Dir? && forall m :: m in names ==> m in dir.children
    requires n in names && dir.children[n].Dir?
    ensures forall x :: x in TreeFiles(dir.children[n], env) ==> x in SubtreeFiles(dir, names, env)
    decreases |names|
  {
    if names[0] != n {
      SubtreeFilesHas(dir, names[1..], env, n);
    }
  }

  /**
   * With a complete listing, `os.walk` visits every file of the directory
   * and every file its subdirectories' walks visit, so every file of the
   * subtree at any depth.
   */
  lemma TreeFilesComplete(dir: Entry, env: Env)
    requires CompleteListing(env) && dir.Dir?
    ensures forall n :: n in dir.children && !dir.children[n].Dir? ==> (n, dir.children[n]) in TreeFiles(dir, env)
    ensures forall n, x :: n in dir.children && dir.children[n].Dir? && x in TreeFiles(dir.children[n], env) ==>
      x in TreeFiles(dir, env)
  {
    DirItemsComplete(dir.children, env);
    NonDirItemsKeeps(DirItems(dir.children, env));
    forall n | n in dir.children && dir.children[n].Dir?
      ensures forall x :: x in TreeFiles(dir.children[n], env) ==> x in TreeFiles(dir, env)
    {
      assert n in Listed(dir.children, env);
      SubtreeFilesHas(dir, Listed(dir.children, env), env, n);
    }
  }

  // ---------------------------------------------------------------------
  // Converting one source entry

  datatype Kind = AbLines | Boundaries | Curves

  function Suffix(k: Kind): string
  {
    match k
    case AbLines => ".ini"
    case Boundaries => ".shp"
    case Curves => ".crv"
  }

  /** What handling one listed name does: raise, write nothing, or write one output. */
  datatype Outcome = Crash | Nothing | Output(name: string, entry: Entry)

  predicate HasShpSuffix(n: string)
  {
    |n| >= 4 && n[|n| - 4..] == ".shp"
  }

  /** The name every converter gives its output: the source's stem with `.shp`. */
  function OutputName(f: string): (r: string)
    ensures HasShpSuffix(r)
  {
    var r := Stem(f) + ".shp";
    assert r[|r| - 4..] == ".shp";
    r
  }

  /**
   * One name of a source directory. Only names with the kind's suffix
   * (compared in lower case) are converted. Opening a directory as a file
   * raises. AB lines use the version's encoding fallback; boundaries keep
   * their attributes in the third version and get the overrides in the
   * first. A converted shapefile is never read as text.
   */
  function Convert(k: Kind, f: string, e: Entry, dir: map<string, Entry>, env: Env, v: Version): (r: Outcome)
    ensures !EndsWithLower(f, Suffix(k)) ==> r == Nothing
    ensures r.Crash? <==> k != Boundaries && EndsWithLower(f, Suffix(k)) && e.Dir?
    ensures r.Output? ==> r.name == OutputName(f) && r.entry.Converted?
    ensures k == Curves && EndsWithLower(f, ".crv") && e.File? ==>
      var curve := Curve.DecodeCurve(e.data, Stem(f), env.num);
      (r.Output? <==> curve.Some?) && (r.Output? ==> r.entry == Converted(LineSet(curve.value)))
    ensures k == AbLines && EndsWithLower(f, ".ini") && e.File? ==>
      var line := if v == V1 then AbLine.AbLineFile(e.data, Stem(f), env.codecs)
                  else AbLine.AbLineFileV3(e.data, Stem(f), env.codecs);
      (r.Output? <==> line.Some?) && (r.Output? ==> r.entry == Converted(LineSet(line.value)))
    ensures k == Boundaries && EndsWithLower(f, ".shp") ==>
      var src := env.readShp(dir, f);
      (r.Output? <==> src.Some?) && (r.Output? ==> r.entry == Converted(BoundarySet(Boundary.Repair(src.value, Stem(f), v == V1))))
  {
    if !EndsWithLower(f, Suffix(k)) then Nothing
    else
      match k
      case Boundaries =>
        (match env.readShp(dir, f)
         case None => Nothing
         case Some(src) =>
           Output(OutputName(f), Converted(BoundarySet(Boundary.Repair(src, Stem(f), v == V1)))))
      case AbLines =>
        if e.Dir? then Crash
        else if e.Converted? then Nothing
        else
          var line := if v == V1 then AbLine.AbLineFile(e.data, Stem(f), env.codecs)
                      else AbLine.AbLineFileV3(e.data, Stem(f), env.codecs);
          if line.Some? then Output(OutputName(f), Converted(LineSet(line.value))) else Nothing
      case Curves =>
        if e.Dir? then Crash
        else if e.Converted? then Nothing
        else
          var curve := Curve.DecodeCurve(e.data, Stem(f), env.num);
          if curve.Some? then Output(OutputName(f), Converted(LineSet(curve.value))) else Nothing
  }

  /** The outcome of each listed entry of a source directory, in order. */
  function Outcomes(items: seq<(string, Entry)>, k: Kind, dir: map<string, Entry>, env: Env, v: Version): (r: seq<Outcome>)
    ensures |r| == |items|
    ensures forall i :: 0 <= i < |items| ==> r[i] == Convert(k, items[i].0, items[i].1, dir, env, v)
  {
    seq(|items|, i requires 0 <= i < |items| => Convert(k, items[i].0, items[i].1, dir, env, v))
  }

  /** Every output among `outs` is a converted shapefile with a `.shp` name. */
  predicate OutputsConverted(outs: seq<Outcome>)
  {
    forall i :: 0 <= i < |outs| && outs[i].Output? ==> HasShpSuffix(outs[i].name) && outs[i].entry.Converted?
  }

  lemma OutputsConvertedAppend(a: seq<Outcome>, b: seq<Outcome>)
    requires OutputsConverted(a) && OutputsConverted(b)
    ensures OutputsConverted(a + b)
  {
    forall i | 0 <= i < |a + b| && (a + b)[i].Output?
      ensures HasShpSuffix((a + b)[i].name) && (a + b)[i].entry.Converted?
    {
      if i >= |a| {
        assert (a + b)[i] == b[i - |a|];
      }
    }
  }

  /** Some outcome among `outs` writes the name `n`. */
  predicate Writes(outs: seq<Outcome>, n: string)
  {
    exists j :: 0 <= j < |outs| && outs[j].Output? && outs[j].name == n
  }

  /**
   * Writing outcomes into `staging`, in order: an output replaces an entry
   * of the same name, and the first raise ends the staging (None).
   */
  function StageAll(staging: map<string, Entry>, outs: seq<Outcome>): Option<map<string, Entry>>
    decreases |outs|
  {
    if outs == [] then Some(staging)
    else
      match outs[0]
      case Crash => None
      case Nothing => StageAll(staging, outs[1..])
      case Output(n, x) => StageAll(staging[n := x], outs[1..])
  }

  /** Staging raises exactly when some outcome raises. */
  lemma {:induction false} StageAllRaises(staging: map<string, Entry>, outs: seq<Outcome>)
    ensures StageAll(staging, outs).None? <==> exists i :: 0 <= i < |outs| && outs[i].Crash?
    decreases |outs|
  {
    if outs != [] {
      match outs[0]
      case Crash =>
      case Nothing =>
        StageAllRaises(staging, outs[1..]);
        assert forall i :: 0 < i < |outs| ==> outs[i] == outs[1..][i - 1];
      case Output(n, x) =>
        StageAllRaises(staging[n := x], outs[1..]);
        assert forall i :: 0 < i < |outs| ==> outs[i] == outs[1..][i - 1];
    }
  }

  /** Staging in two runs is staging the concatenation, stopping at the first raise. */
  lemma {:induction false} StageAllAppend(staging: map<string, Entry>, a: seq<Outcome>, b: seq<Outcome>)
    ensures StageAll(staging, a + b) ==
      match StageAll(staging, a)
      case None => None
      case Some(s) => StageAll(s, b)
    decreases |a|
  {
    if a == [] {
      assert a + b == b;
    } else {
      assert (a + b)[0] == a[0] && (a + b)[1..] == a[1..] + b;
      match a[0]
      case Crash =>
      case Nothing => StageAllAppend(staging, a[1..], b);
      case Output(n, x) => StageAllAppend(staging[n := x], a[1..], b);
    }
  }

  /**
   * Every entry of the result was in `staging` already or is the entry of
   * some output of that name, and every output's name is in the result.
   */
  lemma {:induction false} StageAllAdds(staging: map<string, Entry>, outs: seq<Outcome>)
    requires StageAll(staging, outs).Some?
    ensures var r := StageAll(staging, outs).value;
      staging.Keys <= r.Keys
      && (forall i :: 0 <= i < |outs| && outs[i].Output? ==> outs[i].name in r)
      && forall n :: n in r ==>
        (n in staging && r[n] == staging[n]) || exists i :: 0 <= i < |outs| && outs[i] == Output(n, r[n])
    decreases |outs|
  {
    if outs != [] {
      var tail := outs[1..];
      assert forall i :: 0 < i < |outs| ==> outs[i] == tail[i - 1];
      match outs[0]
      case Nothing =>
        StageAllAdds(staging, tail);
      case Output(m, x) =>
        StageAllAdds(staging[m := x], tail);
        var r := StageAll(staging, outs).value;
        forall n | n in r
          ensures (n in staging && r[n] == staging[n]) || exists i :: 0 <= i < |outs| && outs[i] == Output(n, r[n])
        {
          if exists i :: 0 <= i < |tail| && tail[i] == Output(n, r[n]) {
            var i :| 0 <= i < |tail| && tail[i] == Output(n, r[n]);
            assert outs[i + 1] == Output(n, r[n]);
          }
        }
    }
  }

  /** A name no outcome writes keeps its entry: present and unchanged, or absent. */
  lemma {:induction false} StageAllKeeps(staging: map<string, Entry>, outs: seq<Outcome>, n: string)
    requires StageAll(staging, outs).Some? && !Writes(outs, n)
    ensures n in StageAll(staging, outs).value <==> n in staging
    ensures n in staging ==> StageAll(staging, outs).value[n] == staging[n]
    decreases |outs|
  {
    if outs != [] {
      var tail := outs[1..];
      assert forall j :: 0 <= j < |tail| ==> tail[j] == outs[j + 1];
      match outs[0]
      case Nothing => StageAllKeeps(staging, tail, n);
      case Output(m, x) =>
        assert m != n;
        StageAllKeeps(staging[m := x], tail, n);
    }
  }

  /** The last output of a name is what the result holds under that name. */
  lemma {:induction false} StageAllLastOutputWins(staging: map<string, Entry>, outs: seq<Outcome>)
    requires StageAll(staging, outs).Some?
    ensures forall i :: 0 <= i < |outs| && outs[i].Output? && !Writes(outs[i + 1..], outs[i].name) ==>
      outs[i].name in StageAll(staging, outs).value && StageAll(staging, outs).value[outs[i].name] == outs[i].entry
    decreases |outs|
  {
    if outs != [] {
      var tail := outs[1..];
      var next := match outs[0] case Output(m, x) => staging[m := x] case _ => staging;
      assert StageAll(staging, outs) == StageAll(next, tail);
      StageAllLastOutputWins(next, tail);
      forall i | 0 <= i < |outs| && outs[i].Output? && !Writes(outs[i + 1..], outs[i].name)
        ensures outs[i].name in StageAll(staging, outs).value
        ensures StageAll(staging, outs).value[outs[i].name] == outs[i].entry
      {
        if i == 0 {
          assert outs[1..] == tail;
          StageAllKeeps(next, tail, outs[0].name);
        } else {
          assert tail[i - 1] == outs[i] && tail[i..] == outs[i + 1..];
        }
      }
    }
  }

  /** The entries of source directory `d` a version visits; None when the version raises on it. */
  function Sources(ch: map<string, Entry>, d: string, env: Env, v: Version): (r: Option<seq<(string, Entry)>>)
    ensures d !in ch ==> r == Some([])
    ensures r.None? <==> d in ch && !ch[d].Dir? && !(v == V1 && d != "Boundaries")
    ensures v == V1 && d != "Boundaries" && r.Some? ==> forall x :: x in r.value ==> !x.1.Dir?
    ensures v == V1 && d != "Boundaries" && SubDir(ch, d) ==> forall x :: x in r.value ==> InTree(ch[d], x)
    ensures (v == V3 || d == "Boundaries") && SubDir(ch, d) ==>
      forall i :: 0 <= i < |r.value| ==> r.value[i].0 in ch[d].children && r.value[i].1 == ch[d].children[r.value[i].0]
  {
    if d !in ch then Some([])
    else if !ch[d].Dir? then
      // The first version walks ABLines and Curves with os.walk, which yields
      // nothing for a file; os.listdir on a file raises.
      if v == V1 && d != "Boundaries" then Some([]) else None
    else if v == V1 && d != "Boundaries" then Some(TreeFiles(ch[d], env))
    else Some(DirItems(ch[d].children, env))
  }

  /**
   * With a complete listing, every entry of a source directory is visited:
   * every entry where `os.listdir` is used, every file where `os.walk` is.
   */
  lemma SourcesComplete(ch: map<string, Entry>, d: string, env: Env, v: Version, n: string)
    requires CompleteListing(env) && SubDir(ch, d) && n in ch[d].children
    requires v == V1 && d != "Boundaries" ==> !ch[d].children[n].Dir?
    ensures Sources(ch, d, env, v).Some? && (n, ch[d].children[n]) in Sources(ch, d, env, v).value
  {
    if v == V1 && d != "Boundaries" {
      TreeFilesComplete(ch[d], env);
    } else {
      DirItemsComplete(ch[d].children, env);
    }
  }

  function DirOf(ch: map<string, Entry>, d: string): map<string, Entry>
  {
    if SubDir(ch, d) then ch[d].children else map[]
  }

  /** The outcomes of source directory `d`; a directory the version raises on is one raise. */
  function SourceOutcomes(ch: map<string, Entry>, d: string, k: Kind, env: Env, v: Version): (r: seq<Outcome>)
    ensures OutputsConverted(r)
  {
    match Sources(ch, d, env, v)
    case None => [Crash]
    case Some(items) => Outcomes(items, k, DirOf(ch, d), env, v)
  }

  /** Staging one source directory on top of `staging`. */
  function StageFrom(staging: map<string, Entry>, ch: map<string, Entry>, d: string, k: Kind, env: Env, v: Version)
    : Option<map<string, Entry>>
  {
    StageAll(staging, SourceOutcomes(ch, d, k, env, v))
  }

  /** The outcomes of a whole field: AB lines, then boundaries, then curves. */
  function FieldOutcomes(ch: map<string, Entry>, env: Env, v: Version): (r: seq<Outcome>)
    ensures OutputsConverted(r)
  {
    var a := SourceOutcomes(ch, "ABLines", AbLines, env, v);
    var b := SourceOutcomes(ch, "Boundaries", Boundaries, env, v);
    var c := SourceOutcomes(ch, "Curves", Curves, env, v);
    OutputsConvertedAppend(a, b);
    OutputsConvertedAppend(a + b, c);
    a + b + c
  }

  /** The staging directory of a field, starting empty. */
  function Staging(ch: map<string, Entry>, env: Env, v: Version): Option<map<string, Entry>>
  {
    StageAll(map[], FieldOutcomes(ch, env, v))
  }

  /**
   * The staging directory holds exactly the outputs of the field's sources:
   * each staged entry is a converted shapefile written under that name by
   * some source, every output's name is staged, and a name holds its last
   * output. Staging raises exactly when some source raises.
   */
  lemma StagingIsConverted(ch: map<string, Entry>, env: Env, v: Version)
    ensures var outs := FieldOutcomes(ch, env, v);
      Staging(ch, env, v).None? <==> exists i :: 0 <= i < |outs| && outs[i].Crash?
    ensures var outs, s := FieldOutcomes(ch, env, v), Staging(ch, env, v);
      s.Some? ==>
        && (forall n :: n in s.value ==>
          HasShpSuffix(n) && s.value[n].Converted? && exists i :: 0 <= i < |outs| && outs[i] == Output(n, s.value[n]))
        && (forall i :: 0 <= i < |outs| && outs[i].Output? ==> outs[i].name in s.value)
        && forall i :: 0 <= i < |outs| && outs[i].Output? && !Writes(outs[i + 1..], outs[i].name) ==>
          s.value[outs[i].name] == outs[i].entry
  {
    var outs := FieldOutcomes(ch, env, v);
    StageAllRaises(map[], outs);
    if Staging(ch, env, v).Some? {
      StageAllAdds(map[], outs);
      StageAllLastOutputWins(map[], outs);
    }
  }

  // ---------------------------------------------------------------------
  // Reconciling one field

  /** What the clean-up leaves of a field: nothing in the first version, all but the source directories in the third. */
  function Kept(ch: map<string, Entry>, v: Version): map<string, Entry>
  {
    if v == V1 then map[] else ch - SOURCE_DIRS
  }

  /**
   * A field after staging, clean-up and the moves; None when staging raises
   * or a staged name is still taken in the field.
   */
  function Reconcile(ch: map<string, Entry>, env: Env, v: Version): Option<map<string, Entry>>
  {
    match Staging(ch, env, v)
    case None => None
    case Some(staged) =>
      var kept := Kept(ch, v);
      if staged.Keys * kept.Keys != {} then None else Some(kept + staged)
  }

  /** One loop over the entries of a source directory, writing into the staging map. */
  method StageLoop(staging: map<string, Entry>, items: seq<(string, Entry)>, k: Kind, dir: map<string, Entry>, env: Env, v: Version)
    returns (r: Option<map<string, Entry>>)
    ensures r == StageAll(staging, Outcomes(items, k, dir, env, v))
  {
    ghost var outs := Outcomes(items, k, dir, env, v);
    var current := staging;
    for i := 0 to |items|
      invariant StageAll(staging, outs) == StageAll(current, outs[i..])
    {
      assert outs[i..][0] == outs[i] && outs[i..][1..] == outs[i + 1..];
      var outcome := Convert(k, items[i].0, items[i].1, dir, env, v);
      if outcome.Crash? {
        return None;
      }
      if outcome.Output? {
        current := current[outcome.name := outcome.entry];
      }
    }
    r := Some(current);
  }

  method StageSource(staging: map<string, Entry>, ch: map<string, Entry>, d: string, k: Kind, env: Env, v: Version)
    returns (r: Option<map<string, Entry>>)
    ensures r == StageFrom(staging, ch, d, k, env, v)
  {
    var items := Sources(ch, d, env, v);
    if items.None? {
      return None;
    }
    r := StageLoop(staging, items.value, k, DirOf(ch, d), env, v);
  }

  /**
   * Processing one field: stage the three kinds of source, delete what the
   * version deletes, then move every staged entry into the field. In the
   * third version a move onto a name that is still there raises.
   */
  method ReconcileField(ch: map<string, Entry>, env: Env, v: Version) returns (r: Option<map<string, Entry>>)
    ensures r == Reconcile(ch, env, v)
  {
    ghost var a := SourceOutcomes(ch, "ABLines", AbLines, env, v);
    ghost var b := SourceOutcomes(ch, "Boundaries", Boundaries, env, v);
    ghost var c := SourceOutcomes(ch, "Curves", Curves, env, v);
    StageAllAppend(map[], a + b, c);
    StageAllAppend(map[], a, b);

    var staging: map<string, Entry> := map[];
    var s := StageSource(staging, ch, "ABLines", AbLines, env, v);
    if s.None? {
      return None;
    }
    s := StageSource(s.value, ch, "Boundaries", Boundaries, env, v);
    if s.None? {
      return None;
    }
    s := StageSource(s.value, ch, "Curves", Curves, env, v);
    if s.None? {
      return None;
    }
    staging := s.value;

    var field := CleanUp(ch, v);
    r := MoveAll(field, staging);
  }

  /** Deleting entries of the field: every entry in the first version, the source directories in the third. */
  method CleanUp(ch: map<string, Entry>, v: Version) returns (field: map<string, Entry>)
    ensures field == Kept(ch, v)
  {
    field := ch;
    if v == V1 {
      var names := field.Keys;
      while names != {}
        invariant names == field.Keys
        decreases names
      {
        var n :| n in names;
        field := field - {n};
        names := names - {n};
      }
    } else {
      var targets := SOURCE_DIRS;
      while targets != {}
        invariant targets <= SOURCE_DIRS
        invariant field == ch - (SOURCE_DIRS - targets)
        decreases targets
      {
        var d :| d in targets;
        if d in field {
          field := field - {d};
        }
        targets := targets - {d};
      }
    }
  }

  /** `shutil.move` of every staged entry into the field; a name already present raises. */
  method MoveAll(field0: map<string, Entry>, staging: map<string, Entry>) returns (r: Option<map<string, Entry>>)
    ensures r == if staging.Keys * field0.Keys != {} then None else Some(field0 + staging)
  {
    var field := field0;
    var pending := staging.Keys;
    while pending != {}
      invariant pending <= staging.Keys
      invariant field.Keys == field0.Keys + (staging.Keys - pending)
      invariant forall n :: n in field ==> field[n] == if n in staging && n !in pending then staging[n] else field0[n]
      invariant (staging.Keys - pending) * field0.Keys == {}
      decreases pending
    {
      var n :| n in pending;
      if n in field {
        assert n in staging.Keys * field0.Keys;
        return None;
      }
      field := field[n := staging[n]];
      pending := pending - {n};
    }
    assert field == field0 + staging;
    r := Some(field);
  }

  // ---------------------------------------------------------------------
  // The bottom-up walk

  /**
   * `os.walk(extract_path, topdown=False)`: the subdirectories are walked
   * first; then, if the directory's listing showed a field, the field is
   * reconciled on its now current entries.
   */
  function Walk(e: Entry, env: Env, v: Version): Option<Entry>
    decreases e, 2
  {
    match e
    case Dir(ch) =>
      if !ChildrenWalk(ch, env, v) then None
      else if !IsField(ch) then Some(Dir(Walked(ch, env, v)))
      else
        (match Reconcile(Walked(ch, env, v), env, v)
         case None => None
         case Some(c) => Some(Dir(c)))
    case _ => Some(e)
  }

  /** No subdirectory's walk raises. */
  predicate ChildrenWalk(ch: map<string, Entry>, env: Env, v: Version)
    decreases Dir(ch), 0
  {
    forall n :: n in ch ==> Walk(ch[n], env, v).Some?
  }

  /** The directory's entries after their own walks. */
  function Walked(ch: map<string, Entry>, env: Env, v: Version): (r: map<string, Entry>)
    requires ChildrenWalk(ch, env, v)
    ensures r.Keys == ch.Keys
    decreases Dir(ch), 1
  {
    map n | n in ch :: Walk(ch[n], env, v).value
  }

  /**
   * The walk as the program performs it: each subdirectory in turn, then
   * the directory itself. Siblings do not affect each other, so the order
   * in which they are taken does not change the result.
   */
  method WalkTree(e: Entry, env: Env, v: Version) returns (r: Option<Entry>)
    ensures r == Walk(e, env, v)
    decreases e
  {
    if !e.Dir? {
      return Some(e);
    }
    var ch := e.children;
    var walked: map<string, Entry> := map[];
    var todo := ch.Keys;
    while todo != {}
      invariant todo <= ch.Keys
      invariant walked.Keys == ch.Keys - todo
      invariant forall n :: n in walked ==> Walk(ch[n], env, v) == Some(walked[n])
      decreases todo
    {
      var n :| n in todo;
      var sub := WalkTree(ch[n], env, v);
      if sub.None? {
        return None;
      }
      walked := walked[n := sub.value];
      todo := todo - {n};
    }
    assert ChildrenWalk(ch, env, v);
    assert walked == Walked(ch, env, v);
    if !IsField(ch) {
      return Some(Dir(walked));
    }
    var c := ReconcileField(walked, env, v);
    if c.None? {
      return None;
    }
    r := Some(Dir(c.value));
  }

  // ---------------------------------------------------------------------
  // Properties of the walk

  /** No directory anywhere in the tree is a field. */
  predicate NoField(e: Entry)
    decreases e
  {
    e.Dir? ==> !IsField(e.children) && forall n :: n in e.children ==> NoField(e.children[n])
  }

  /** A tree without fields comes out of the walk unchanged. */
  lemma {:induction false} NoFieldUnchanged(e: Entry, env: Env, v: Version)
    requires NoField(e)
    ensures Walk(e, env, v) == Some(e)
    decreases e
  {
    if e.Dir? {
      var ch := e.children;
      forall n | n in ch ensures Walk(ch[n], env, v) == Some(ch[n]) {
        NoFieldUnchanged(ch[n], env, v);
      }
      assert Walked(ch, env, v) == ch;
    }
  }

  /** The walk keeps files as they are and directories as directories. */
  lemma WalkKeepsKind(e: Entry, env: Env, v: Version)
    requires Walk(e, env, v).Some?
    ensures Walk(e, env, v).value.Dir? == e.Dir?
    ensures !e.Dir? ==> Walk(e, env, v).value == e
  {
  }

  /** A directory that is not a field keeps exactly its names, each entry walked in its place. */
  lemma NonFieldKeepsNames(ch: map<string, Entry>, env: Env, v: Version)
    requires !IsField(ch) && Walk(Dir(ch), env, v).Some?
    ensures Walk(Dir(ch), env, v).value.children.Keys == ch.Keys
    ensures forall n :: n in ch ==> Walk(ch[n], env, v) == Some(Walk(Dir(ch), env, v).value.children[n])
  {
  }

  /**
   * In the first version a field holds exactly the staged entries after the
   * walk: no original entry is left, every output of its sources is there
   * under its `<stem>.shp` name holding the last output of that name, and
   * nothing else is.
   */
  lemma V1FieldIsStaging(ch: map<string, Entry>, env: Env)
    requires IsField(ch) && Walk(Dir(ch), env, V1).Some?
    ensures var walked := Walked(ch, env, V1);
      Staging(walked, env, V1).Some?
      && Walk(Dir(ch), env, V1).value.children == Staging(walked, env, V1).value
    ensures var outs, out := FieldOutcomes(Walked(ch, env, V1), env, V1), Walk(Dir(ch), env, V1).value.children;
      && (forall n :: n in out ==>
        HasShpSuffix(n) && out[n].Converted? && exists i :: 0 <= i < |outs| && outs[i] == Output(n, out[n]))
      && (forall i :: 0 <= i < |outs| && outs[i].Output? ==> outs[i].name in out)
      && forall i :: 0 <= i < |outs| && outs[i].Output? && !Writes(outs[i + 1..], outs[i].name) ==>
        out[outs[i].name] == outs[i].entry
  {
    var walked := Walked(ch, env, V1);
    StagingIsConverted(walked, env, V1);
    assert Kept(walked, V1) + Staging(walked, env, V1).value == Staging(walked, env, V1).value;
  }

  /**
   * In the third version a field keeps every entry other than the three
   * source directories, walked, and gains every output of its sources
   * under its name, holding the last output of that name; the source
   * directories are gone.
   */
  lemma V3FieldKeepsOthers(ch: map<string, Entry>, env: Env)
    requires IsField(ch) && Walk(Dir(ch), env, V3).Some?
    ensures var out := Walk(Dir(ch), env, V3).value.children;
      (forall n :: n in ch && n !in SOURCE_DIRS ==> n in out && Walk(ch[n], env, V3) == Some(out[n]))
      && (forall d :: d in SOURCE_DIRS ==> d !in out)
      && forall n :: n in out && n !in ch ==> HasShpSuffix(n) && out[n].Converted?
    ensures var outs, out := FieldOutcomes(Walked(ch, env, V3), env, V3), Walk(Dir(ch), env, V3).value.children;
      && (forall i :: 0 <= i < |outs| && outs[i].Output? ==> outs[i].name in out)
      && forall i :: 0 <= i < |outs| && outs[i].Output? && !Writes(outs[i + 1..], outs[i].name) ==>
        out[outs[i].name] == outs[i].entry
  {
    var walked := Walked(ch, env, V3);
    StagingIsConverted(walked, env, V3);
    var staged := Staging(walked, env, V3).value;
    var out := Walk(Dir(ch), env, V3).value.children;
    assert out == Kept(walked, V3) + staged;
    forall d | d in SOURCE_DIRS ensures d !in out {
    }
  }

  /** The source directory each kind is read from. */
  predicate SourceOf(d: string, k: Kind)
  {
    (d == "ABLines" && k == AbLines) || (d == "Boundaries" && k == Boundaries) || (d == "Curves" && k == Curves)
  }

  /** Each outcome of a source directory is an outcome of its field. */
  lemma FieldOutcomeAt(ch: map<string, Entry>, env: Env, v: Version, d: string, k: Kind, j: nat)
    requires SourceOf(d, k) && j < |SourceOutcomes(ch, d, k, env, v)|
    ensures SourceOutcomes(ch, d, k, env, v)[j] in FieldOutcomes(ch, env, v)
  {
    var a := SourceOutcomes(ch, "ABLines", AbLines, env, v);
    var b := SourceOutcomes(ch, "Boundaries", Boundaries, env, v);
    var c := SourceOutcomes(ch, "Curves", Curves, env, v);
    assert FieldOutcomes(ch, env, v) == a + b + c;
    var x := SourceOutcomes(ch, d, k, env, v)[j];
    assert x in a || x in b || x in c;
  }

  /**
   * With a complete listing, a source entry that converts reaches the field:
   * when the field is reconciled, its output's name `<stem>.shp` is there.
   */
  lemma ReconcileHasOutput(ch: map<string, Entry>, env: Env, v: Version, d: string, k: Kind, n: string)
    requires CompleteListing(env) && SourceOf(d, k)
    requires SubDir(ch, d) && n in ch[d].children
    requires Convert(k, n, ch[d].children[n], ch[d].children, env, v).Output?
    requires Reconcile(ch, env, v).Some?
    ensures OutputName(n) in Reconcile(ch, env, v).value
  {
    var o := Convert(k, n, ch[d].children[n], ch[d].children, env, v);
    SourcesComplete(ch, d, env, v, n);
    var items := Sources(ch, d, env, v).value;
    var j :| 0 <= j < |items| && items[j] == (n, ch[d].children[n]);
    assert SourceOutcomes(ch, d, k, env, v)[j] == o;
    FieldOutcomeAt(ch, env, v, d, k, j);
    var outs := FieldOutcomes(ch, env, v);
    var idx :| 0 <= idx < |outs| && outs[idx] == o;
    StagingIsConverted(ch, env, v);
    assert o.name in Staging(ch, env, v).value;
  }

  /**
   * The same on the walked tree: after the walk, a field holds the output
   * name of every source entry that converts.
   */
  lemma WalkedFieldHasOutput(ch: map<string, Entry>, env: Env, v: Version, d: string, k: Kind, n: string)
    requires CompleteListing(env) && SourceOf(d, k)
    requires IsField(ch) && Walk(Dir(ch), env, v).Some?
    requires var w := Walked(ch, env, v);
      SubDir(w, d) && n in w[d].children && Convert(k, n, w[d].children[n], w[d].children, env, v).Output?
    ensures OutputName(n) in Walk(Dir(ch), env, v).value.children
  {
    ReconcileHasOutput(Walked(ch, env, v), env, v, d, k, n);
  }

  /** In the third version, a field entry that has a staged output's name makes the walk raise. */
  lemma V3CollisionRaises(ch: map<string, Entry>, env: Env, n: string)
    requires IsField(ch)
    requires ChildrenWalk(ch, env, V3)
    requires var walked := Walked(ch, env, V3);
      Staging(walked, env, V3).Some? && n in Staging(walked, env, V3).value
    requires n in ch && n !in SOURCE_DIRS
    ensures Walk(Dir(ch), env, V3).None?
  {
    var walked := Walked(ch, env, V3);
    assert n in Staging(walked, env, V3).value.Keys * Kept(walked, V3).Keys;
  }

  /** In the first version, a `Boundaries` entry that is not a directory makes the walk raise at a field. */
  lemma V1BoundariesFileRaises(ch: map<string, Entry>, env: Env)
    requires IsField(ch) && "Boundaries" in ch && !ch["Boundaries"].Dir?
    requires ChildrenWalk(ch, env, V1)
    ensures Walk(Dir(ch), env, V1).None?
  {
    var walked := Walked(ch, env, V1);
    WalkKeepsKind(ch["Boundaries"], env, V1);
    assert !walked["Boundaries"].Dir?;
    var a := SourceOutcomes(walked, "ABLines", AbLines, env, V1);
    assert SourceOutcomes(walked, "Boundaries", Boundaries, env, V1) == [Crash];
    assert FieldOutcomes(walked, env, V1)[|a|] == Crash;
    StagingIsConverted(walked, env, V1);
  }
}
