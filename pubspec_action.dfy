/**
 * The fastlane action `get_build_number_from_pubspec`: read the `version`
 * entry of the Flutter manifest `pubspec.yaml` in the working directory,
 * take the last non-empty field of `version.split('+')` as the build number
 * and publish it in the run-wide lane context under `PUBSPEC_BUILD_NUMBER`.
 *
 * The file system and the YAML parser are outside the model: whether the
 * file exists is an input, and so is the document the parser would return.
 */
module PubspecAction {
  import opened RubyString

  /** The lane context key the action writes (`SharedValues::PUBSPEC_BUILD_NUMBER`). */
  const BuildNumberKey: string := "PUBSPEC_BUILD_NUMBER"

  /** The manifest entry the build number is read from. */
  const VersionKey: string := "version"

  const ManifestName: string := "pubspec.yaml"

  /** The message of both "build number" user errors. */
  const BuildNumberNotFound: string := "Build number not found in pubspec.yaml"

  /** A YAML-decoded value, as far as the action can tell them apart:
      `nil`, `false`, a string, or anything else (a number, `true`, a list, ...). */
  datatype Value = Nil | False | Str(s: string) | Other

  /** What `YAML.load_file` gives, as far as `doc['version']` can tell: a
      top-level mapping, a top-level string, or anything on which indexing
      by a string raises (an empty document, a list, a number) — which is
      also where a document the parser rejects ends up. */
  datatype Document = Mapping(entries: map<string, Value>) | Text(text: string) | Unindexable

  /** How a run ends: it evaluates to the build number, stops the lane with
      a user error, or raises an exception the action does not handle. */
  datatype Outcome = Ok(buildNumber: string) | UserError(message: string) | Uncaught

  /** Ruby's `hash[key]`: `nil` for a missing key. */
  function Lookup(m: map<string, Value>, key: string): (v: Value)
  {
    if key in m then m[key] else Nil
  }

  /** `Hash#[]` on an empty hash and after a store: a stored key reads back
      its value, and a store leaves every other key as it was. */
  lemma LookupOfUpdate(m: map<string, Value>, k: string, v: Value, k': string)
    ensures Lookup(map[], k) == Nil
    ensures Lookup(m[k := v], k') == if k' == k then v else Lookup(m, k')
  {
  }

  /** `t[i..i + |w|]` is `w`. */
  ghost predicate OccursAt(w: string, t: string, i: int) {
    0 <= i <= |t| - |w| && t[i..i + |w|] == w
  }

  /** `w` occurs in `t` as a contiguous stretch, the test `String#[]` makes:
      the search holds exactly when `w` is found at some position. */
  function Occurs(w: string, t: string): (r: bool)
    ensures r <==> exists i :: OccursAt(w, t, i)
    decreases |t|
  {
    if |t| < |w| then false
    else if t[..|w|] == w then
      assert OccursAt(w, t, 0);
      true
    else
      OccursShift(w, t);
      Occurs(w, t[1..])
  }

  /** When `w` is not a prefix of `t`, it occurs in `t` exactly when it occurs
      in `t` without its first character. */
  lemma OccursShift(w: string, t: string)
    requires |t| >= |w| && t[..|w|] != w
    ensures (exists i :: OccursAt(w, t, i)) <==> (exists i :: OccursAt(w, t[1..], i))
  {
    if exists i :: OccursAt(w, t, i) {
      var i :| OccursAt(w, t, i);
      assert i != 0;
      assert t[1..][i - 1..i - 1 + |w|] == t[i..i + |w|];
      assert OccursAt(w, t[1..], i - 1);
    }
    if exists i :: OccursAt(w, t[1..], i) {
      var i :| OccursAt(w, t[1..], i);
      assert t[1..][i..i + |w|] == t[i + 1..i + 1 + |w|];
      assert OccursAt(w, t, i + 1);
    }
  }

  /** `doc['version']` on a document that can be indexed: `Hash#[]` on a
      mapping, `String#[]` (the substring if it occurs, else `nil`) on a string. */
  function VersionOf(doc: Document): (v: Value)
    requires !doc.Unindexable?
    ensures doc.Mapping? ==> v == Lookup(doc.entries, VersionKey)
    ensures doc.Text? ==> (v == Str(VersionKey) <==> Occurs(VersionKey, doc.text))
    ensures doc.Text? ==> (v == Nil <==> !Occurs(VersionKey, doc.text))
  {
    match doc
    case Mapping(entries) => Lookup(entries, VersionKey)
    case Text(t) => if Occurs(VersionKey, t) then Str(VersionKey) else Nil
  }

  /** Ruby truthiness: only `nil` and `false` are falsy; every string,
      `""` included, and every other value is truthy. */
  predicate Truthy(v: Value)
    ensures v.Nil? || v.False? ==> !Truthy(v)
    ensures v.Str? ==> Truthy(v)
    ensures v.Other? ==> Truthy(v)
  {
    !(v.Nil? || v.False?)
  }

  /** `File.join(dir, "pubspec.yaml")`: one `/` between the directory and the name. */
  function ManifestPath(dir: string): (path: string)
    ensures |dir| < |path| <= |dir| + |ManifestName| + 1
    ensures path[..|dir|] == dir
    ensures |path| > |ManifestName|
    ensures path[|path| - |ManifestName|..] == ManifestName
    ensures path[|path| - |ManifestName| - 1] == '/'
    ensures path == dir + ManifestName || path == dir + "/" + ManifestName
    ensures path == dir + ManifestName <==> dir != [] && dir[|dir| - 1] == '/'
  {
    var join := if dir != [] && dir[|dir| - 1] == '/' then dir else dir + "/";
    assert join[|join| - 1] == '/' && join[..|dir|] == dir;
    join + ManifestName
  }

  /** The message of the missing-file user error; it differs from the
      build-number message, so the two failures can be told apart. */
  function FileNotFoundMessage(dir: string): (r: string)
    ensures r != BuildNumberNotFound
  {
    var r := "pubspec.yaml file not found in " + ManifestPath(dir);
    assert r[0] != BuildNumberNotFound[0];
    r
  }

  /** The missing-file message ends with the path that was looked at. */
  lemma FileNotFoundNamesPath(dir: string)
    ensures |FileNotFoundMessage(dir)| > |ManifestPath(dir)|
    ensures var m := FileNotFoundMessage(dir); m[|m| - |ManifestPath(dir)|..] == ManifestPath(dir)
  {
  }

  /** `version.split('+').last`: `None` stands for Ruby's `nil`. A build number
      is non-empty and holds no `+`; BuildNumberShape, BuildNumberAt and
      NoBuildNumberIff say where in the version it lies and when there is none. */
  function BuildNumberOf(version: string): (r: Option<string>)
    ensures r.Some? ==> r.value != [] && NoSep(r.value, '+')
  {
    Last(Split(version, '+'))
  }

  /** What a run of the action ends with, given the working directory, whether
      `pubspec.yaml` exists there, and what the YAML parser makes of it. */
  function Extract(dir: string, fileExists: bool, doc: Document): (r: Outcome)
    ensures !fileExists ==> r == UserError(FileNotFoundMessage(dir))
    ensures fileExists && doc.Unindexable? ==> r == Uncaught
    ensures fileExists && !doc.Unindexable? && !Truthy(VersionOf(doc)) ==>
              r == UserError(BuildNumberNotFound)
    ensures fileExists && !doc.Unindexable? && VersionOf(doc) == Other ==> r == Uncaught
    ensures r.Ok? ==> fileExists && !doc.Unindexable? && VersionOf(doc).Str?
  {
    if !fileExists then UserError(FileNotFoundMessage(dir))
    else if doc.Unindexable? then Uncaught
    else
      var version := VersionOf(doc);
      if !Truthy(version) then UserError(BuildNumberNotFound)
      else match version
        case Str(s) =>
          (match BuildNumberOf(s)
           case None => UserError(BuildNumberNotFound)
           case Some(b) => Ok(b))
        case _ => Uncaught
  }

  /** The lane context after a run that ended with `outcome`: the build
      number upserted on success, untouched otherwise. */
  function Published(context: map<string, string>, outcome: Outcome): (r: map<string, string>)
    ensures outcome.Ok? ==> BuildNumberKey in r && r[BuildNumberKey] == outcome.buildNumber
    ensures outcome.Ok? ==> r.Keys == context.Keys + {BuildNumberKey}
    ensures forall k :: k in context && k != BuildNumberKey ==> k in r && r[k] == context[k]
    ensures !outcome.Ok? ==> r == context
  {
    if outcome.Ok? then context[BuildNumberKey := outcome.buildNumber] else context
  }

  /** The run-wide `lane_context` hash that actions share. */
  class LaneContext {
    var values: map<string, string>

    constructor ()
      ensures values == map[]
    {
      values := map[];
    }
  }

  /** `GetBuildNumberFromPubspecAction.run`: the guards in source order, each
      leaving the lane context alone, then the single store of the build number. */
  method Run(lane: LaneContext, dir: string, fileExists: bool, doc: Document) returns (outcome: Outcome)
    modifies lane
    ensures outcome == Extract(dir, fileExists, doc)
    ensures lane.values == Published(old(lane.values), outcome)
  {
    if !fileExists {
      return UserError(FileNotFoundMessage(dir));
    }
    if doc.Unindexable? {
      // `doc['version']` raises: NoMethodError or TypeError.
      return Uncaught;
    }
    var version := VersionOf(doc);
    if !Truthy(version) {
      return UserError(BuildNumberNotFound);
    }
    if !version.Str? {
      // `split` is not defined on the value: NoMethodError.
      return Uncaught;
    }
    var buildNumber := BuildNumberOf(version.s);
    if buildNumber.None? {
      return UserError(BuildNumberNotFound);
    }
    lane.values := lane.values[BuildNumberKey := buildNumber.value];
    return Ok(buildNumber.value);
  }

  // ---------------------------------------------------------------------
  // Properties of the build number.

  /** A build number is non-empty, holds no `+`, and is the last `+`-free
      stretch of the version: it starts the version or follows a `+`, and only
      `+` characters come after it. */
  lemma BuildNumberShape(version: string, b: string) returns (i: int, j: int)
    requires BuildNumberOf(version) == Some(b)
    ensures 0 <= i < j <= |version| && b == version[i..j]
    ensures b != [] && NoSep(b, '+')
    ensures i == 0 || version[i - 1] == '+'
    ensures AllSep(version[j..], '+')
  {
    i, j := LastFieldSome(version, '+');
  }

  /** The converse: the last `+`-free stretch of a version is its build number. */
  lemma BuildNumberAt(version: string, i: int, j: int)
    requires 0 <= i < j <= |version|
    requires i == 0 || version[i - 1] == '+'
    requires NoSep(version[i..j], '+')
    requires AllSep(version[j..], '+')
    ensures BuildNumberOf(version) == Some(version[i..j])
  {
    LastFieldAt(version, '+', i, j);
  }

  /** There is no build number (`split` gives `[]`, `last` gives `nil`) exactly
      when the version is empty or made only of `+`. */
  lemma NoBuildNumberIff(version: string)
    ensures BuildNumberOf(version) == None <==> AllSep(version, '+')
  {
    LastFieldNone(version, '+');
  }

  /** A non-empty version without `+` is its own build number. */
  lemma PlainVersion(version: string)
    requires version != [] && NoSep(version, '+')
    ensures BuildNumberOf(version) == Some(version)
  {
    assert version[0..|version|] == version;
    assert version[|version|..] == [];
    LastFieldAt(version, '+', 0, |version|);
  }

  // Worked examples, one per lemma: the verifier evaluates functions on
  // literal strings eagerly, so several literals in one proof cost too much.

  /** The usual `MAJOR.MINOR.PATCH+BUILD` form. */
  lemma ExampleSemverWithBuild()
    ensures BuildNumberOf("1.2.3+45") == Some("45")
  {
    var v := "1.2.3+45";
    assert v[6..8] == "45" && v[5] == '+' && v[8..] == "";
    BuildNumberAt(v, 6, 8);
  }

  /** Without `+` the whole version is the build number. */
  lemma ExampleNoPlus()
    ensures BuildNumberOf("1.2.3") == Some("1.2.3")
  {
    PlainVersion("1.2.3");
  }

  /** A trailing `+` leaves an empty last field, which split drops. */
  lemma ExampleTrailingPlus()
    ensures BuildNumberOf("1.2.3+") == Some("1.2.3")
  {
    var v := "1.2.3+";
    assert v[0..5] == "1.2.3" && v[5..] == "+";
    BuildNumberAt(v, 0, 5);
  }

  /** Several trailing empty fields are all dropped. */
  lemma ExampleTrailingPluses()
    ensures BuildNumberOf("1+2++") == Some("2")
  {
    var v := "1+2++";
    assert v[2..3] == "2" && v[1] == '+' && v[3..] == "++";
    BuildNumberAt(v, 2, 3);
  }

  /** An empty version splits to `[]`, and `last` is `nil`. */
  lemma ExampleEmpty()
    ensures BuildNumberOf("") == None
  {
  }

  /** A version made of `+` alone also splits to `[]`. */
  lemma ExampleOnlyPlus()
    ensures BuildNumberOf("+") == None
  {
  }

  /** A manifest with `name: app` and `version: 2.0.0+77` yields `77`, which
      the lane context then holds. */
  lemma ExampleEndToEnd(dir: string, context: map<string, string>)
    ensures Extract(dir, true, Mapping(map["name" := Str("app"), VersionKey := Str("2.0.0+77")])) == Ok("77")
    ensures Published(context, Ok("77"))[BuildNumberKey] == "77"
  {
    // Hints that keep the verifier from evaluating the literals at length.
    var entries := map["name" := Str("app"), VersionKey := Str("2.0.0+77")];
    var v := "2.0.0+77";
    assert Lookup(entries, VersionKey) == Str(v);
    assert v[6..8] == "77" && v[5] == '+' && v[8..] == "";
    BuildNumberAt(v, 6, 8);
  }

  // ---------------------------------------------------------------------
  // Properties of a run.

  /** A run succeeds with `b` exactly when the file exists, the document's
      `version` is a string, and `b` is that string's last `+`-free stretch. */
  lemma RunSucceedsIff(dir: string, fileExists: bool, doc: Document, b: string)
    ensures Extract(dir, fileExists, doc) == Ok(b) <==>
      fileExists && !doc.Unindexable? && VersionOf(doc).Str? &&
      exists i, j :: IsLastField(VersionOf(doc).s, '+', i, j) && b == VersionOf(doc).s[i..j]
  {
    if fileExists && !doc.Unindexable? && VersionOf(doc).Str? {
      var v := VersionOf(doc).s;
      if Extract(dir, fileExists, doc) == Ok(b) {
        var i, j := BuildNumberShape(v, b);
        assert IsLastField(v, '+', i, j);
      }
      if exists i, j :: IsLastField(v, '+', i, j) && b == v[i..j] {
        var i, j :| IsLastField(v, '+', i, j) && b == v[i..j];
        BuildNumberAt(v, i, j);
      }
    }
  }

  /** An empty or all-`+` version passes the truthiness guard but leaves the
      split empty, so the run stops with the build-number user error. */
  lemma EmptySplitFails(dir: string, doc: Document, version: string)
    requires !doc.Unindexable? && VersionOf(doc) == Str(version)
    requires AllSep(version, '+')
    ensures Extract(dir, true, doc) == UserError(BuildNumberNotFound)
  {
    NoBuildNumberIff(version);
  }

  /** A `version` that is a string with some character other than `+` always
      yields a build number, and the run succeeds. */
  lemma StringVersionSucceeds(dir: string, doc: Document, version: string)
    requires !doc.Unindexable? && VersionOf(doc) == Str(version)
    requires !AllSep(version, '+')
    ensures Extract(dir, true, doc).Ok?
  {
    NoBuildNumberIff(version);
  }

  /** A top-level string containing `version` indexes to `"version"`, which
      has no `+` and so is taken whole as the build number. */
  lemma ExampleTextDocument(dir: string)
    ensures Extract(dir, true, Text("version")) == Ok("version")
  {
    // Hints that keep the verifier from evaluating the literals at length.
    assert "version"[..7] == VersionKey;
    PlainVersion(VersionKey);
  }

  /** A run that does not succeed leaves the lane context as it was: the
      failure clause of Published, stated for a whole run as a corollary. */
  lemma FailureLeavesContext(context: map<string, string>, dir: string, fileExists: bool, doc: Document)
    requires !Extract(dir, fileExists, doc).Ok?
    ensures Published(context, Extract(dir, fileExists, doc)) == context
  {
  }

  /** Running twice on the same inputs leaves the same lane context as running once. */
  lemma RunIdempotent(context: map<string, string>, dir: string, fileExists: bool, doc: Document)
    ensures var outcome := Extract(dir, fileExists, doc);
            Published(Published(context, outcome), outcome) == Published(context, outcome)
  {
  }
}
