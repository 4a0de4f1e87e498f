/** The configuration panel of a diagram node: the file name and `kubectl`
    command offered for download, and the copy of the configuration prepared for
    editing, with the server-managed fields removed. */
module ConfigExport {
  import opened Common

  /** A configuration document as loaded from YAML. A missing key is `undefined`,
      which `GetPath` reports as `None`. */
  datatype Json =
    | JNull
    | JBool(b: bool)
    | JNum(n: real)
    | JStr(s: string)
    | JArr(items: seq<Json>)
    | JObj(fields: map<string, Json>)

  /** Calling a string method on a value that is not a string throws. */
  datatype ConfigError = TypeError

  /** `_.get(doc, path)`: follow the keys of `path` through nested objects; a
      missing key, or a key looked up on a value that is not an object, gives
      `undefined`. */
  function GetPath(doc: Json, path: seq<string>): (r: Option<Json>)
    ensures path == [] ==> r == Some(doc)
    ensures path != [] && r.Some? ==> doc.JObj? && path[0] in doc.fields
    decreases |path|
  {
    if path == [] then Some(doc)
    else if doc.JObj? && path[0] in doc.fields then GetPath(doc.fields[path[0]], path[1..])
    else None
  }

  /** JavaScript truthiness of a looked-up value (`undefined` is `None`). */
  predicate Truthy(v: Option<Json>) {
    match v
    case None => false
    case Some(JNull) => false
    case Some(JBool(b)) => b
    case Some(JNum(n)) => n != 0.0
    case Some(JStr(s)) => s != ""
    case Some(_) => true
  }

  // ---------------------------------------------------------------------------
  // Paths

  /** `p` is a prefix of `q`. */
  predicate IsPrefix(p: seq<string>, q: seq<string>) {
    |p| <= |q| && q[..|p|] == p
  }

  /** `p` and `q` name different keys at some common depth, so neither lies
      inside the other. */
  predicate Diverges(p: seq<string>, q: seq<string>) {
    exists i :: 0 <= i < |p| && i < |q| && p[i] != q[i]
  }

  /** A path that extends `p` diverges from every path `p` diverges from. */
  lemma PrefixDiverges(p: seq<string>, p': seq<string>, q: seq<string>)
    requires Diverges(p, p') && IsPrefix(p, q)
    ensures Diverges(p', q)
  {
    var i :| 0 <= i < |p| && i < |p'| && p[i] != p'[i];
    assert q[..|p|][i] == q[i];
  }

  // ---------------------------------------------------------------------------
  // Removing keys

  /** `_.unset(doc, path)`: delete the last key of `path` from the object the rest
      of the path leads to; nothing changes when that object is missing or the
      path runs into a value that is not an object. */
  function Unset(doc: Json, path: seq<string>): (r: Json)
    requires |path| >= 1
    ensures r.JObj? <==> doc.JObj?
    ensures doc.JObj? && |path| == 1 ==> r.fields.Keys == doc.fields.Keys - {path[0]}
    ensures doc.JObj? && |path| > 1 ==> r.fields.Keys == doc.fields.Keys
    decreases |path|
  {
    if !doc.JObj? then doc
    else if |path| == 1 then JObj(doc.fields - {path[0]})
    else if path[0] in doc.fields then JObj(doc.fields[path[0] := Unset(doc.fields[path[0]], path[1..])])
    else doc
  }

  /** After `Unset`, nothing is found at or below the removed path, and every path
      that diverges from it finds what it found before. */
  lemma {:induction false} UnsetGet(doc: Json, p: seq<string>, q: seq<string>)
    requires |p| >= 1
    ensures IsPrefix(p, q) ==> GetPath(Unset(doc, p), q) == None
    ensures Diverges(p, q) ==> GetPath(Unset(doc, p), q) == GetPath(doc, q)
    decreases |p|
  {
    if !doc.JObj? || |q| == 0 {
    } else if |p| == 1 {
    } else if p[0] in doc.fields {
      if q[0] == p[0] {
        UnsetGet(doc.fields[p[0]], p[1..], q[1..]);
        if IsPrefix(p, q) {
          assert IsPrefix(p[1..], q[1..]) by {
            assert q[1..][..|p| - 1] == q[..|p|][1..];
          }
        }
        if Diverges(p, q) {
          var i :| 0 <= i < |p| && i < |q| && p[i] != q[i];
          assert p[1..][i - 1] != q[1..][i - 1];
        }
      }
    } else {
      if IsPrefix(p, q) {
        assert q[0] == q[..|p|][0];
      }
    }
  }

  /** Unsetting a path at which nothing is found changes nothing. */
  lemma {:induction false} UnsetAbsent(doc: Json, p: seq<string>)
    requires |p| >= 1 && GetPath(doc, p) == None
    ensures Unset(doc, p) == doc
    decreases |p|
  {
    if !doc.JObj? {
    } else if |p| == 1 {
      assert doc.fields - {p[0]} == doc.fields;
    } else if p[0] in doc.fields {
      UnsetAbsent(doc.fields[p[0]], p[1..]);
      assert doc.fields[p[0] := doc.fields[p[0]]] == doc.fields;
    }
  }

  /** No path of the list lies inside another. */
  predicate PairwiseDiverge(ps: seq<seq<string>>) {
    forall i, j :: 0 <= i < |ps| && 0 <= j < |ps| && i != j ==> Diverges(ps[i], ps[j])
  }

  predicate NonEmptyPaths(ps: seq<seq<string>>) {
    forall i :: 0 <= i < |ps| ==> |ps[i]| >= 1
  }

  /** The paths unset one after the other, in order. */
  function UnsetAll(doc: Json, ps: seq<seq<string>>): Json
    requires NonEmptyPaths(ps)
    decreases |ps|
  {
    if ps == [] then doc else UnsetAll(Unset(doc, ps[0]), ps[1..])
  }

  /** After unsetting paths none of which lies inside another, nothing is found at
      or below any of them, and a path diverging from all of them finds what it
      found before. */
  lemma {:induction false} UnsetAllGet(doc: Json, ps: seq<seq<string>>, q: seq<string>)
    requires NonEmptyPaths(ps) && PairwiseDiverge(ps)
    ensures (exists i :: 0 <= i < |ps| && IsPrefix(ps[i], q)) ==> GetPath(UnsetAll(doc, ps), q) == None
    ensures (forall i :: 0 <= i < |ps| ==> Diverges(ps[i], q)) ==> GetPath(UnsetAll(doc, ps), q) == GetPath(doc, q)
    decreases |ps|
  {
    if ps == [] {
    } else {
      var first := Unset(doc, ps[0]);
      var rest := ps[1..];
      assert NonEmptyPaths(rest) && PairwiseDiverge(rest) by {
        forall i, j | 0 <= i < |rest| && 0 <= j < |rest| && i != j
          ensures Diverges(rest[i], rest[j])
        {
          assert rest[i] == ps[i + 1] && rest[j] == ps[j + 1];
        }
      }
      UnsetGet(doc, ps[0], q);
      UnsetAllGet(first, rest, q);
      if IsPrefix(ps[0], q) {
        forall i | 0 <= i < |rest|
          ensures Diverges(rest[i], q)
        {
          assert rest[i] == ps[i + 1];
          PrefixDiverges(ps[0], rest[i], q);
        }
      }
      if exists i :: 0 <= i < |ps| && IsPrefix(ps[i], q) {
        var i :| 0 <= i < |ps| && IsPrefix(ps[i], q);
        if i > 0 {
          assert rest[i - 1] == ps[i];
        }
      }
      if forall i :: 0 <= i < |ps| ==> Diverges(ps[i], q) {
        assert Diverges(ps[0], q);
        forall i | 0 <= i < |rest|
          ensures Diverges(rest[i], q)
        {
          assert rest[i] == ps[i + 1];
        }
      }
    }
  }

  /** Nothing is left at any of the unset paths. */
  lemma UnsetAllClears(doc: Json, ps: seq<seq<string>>)
    requires NonEmptyPaths(ps) && PairwiseDiverge(ps)
    ensures forall i :: 0 <= i < |ps| ==> GetPath(UnsetAll(doc, ps), ps[i]) == None
  {
    forall i | 0 <= i < |ps|
      ensures GetPath(UnsetAll(doc, ps), ps[i]) == None
    {
      assert IsPrefix(ps[i], ps[i]);
      UnsetAllGet(doc, ps, ps[i]);
    }
  }

  /** Unsetting paths at which nothing is found changes nothing. */
  lemma {:induction false} UnsetAllAbsent(doc: Json, ps: seq<seq<string>>)
    requires NonEmptyPaths(ps)
    requires forall i :: 0 <= i < |ps| ==> GetPath(doc, ps[i]) == None
    ensures UnsetAll(doc, ps) == doc
    decreases |ps|
  {
    if ps != [] {
      UnsetAbsent(doc, ps[0]);
      forall i | 0 <= i < |ps[1..]|
        ensures GetPath(doc, ps[1..][i]) == None
      {
        assert ps[1..][i] == ps[i + 1];
      }
      UnsetAllAbsent(doc, ps[1..]);
    }
  }

  // ---------------------------------------------------------------------------
  // The copy prepared for editing

  /** The server-managed fields removed before editing, in the order they are
      removed. */
  const StrippedPaths: seq<seq<string>> := [
    ["metadata", "uid"],
    ["metadata", "selfLink"],
    ["metadata", "resourceVersion"],
    ["metadata", "generation"],
    ["metadata", "creationTimestamp"],
    ["status"]
  ]

  lemma StrippedPathsWellFormed()
    ensures NonEmptyPaths(StrippedPaths) && PairwiseDiverge(StrippedPaths)
  {
    forall i, j | 0 <= i < |StrippedPaths| && 0 <= j < |StrippedPaths| && i != j
      ensures Diverges(StrippedPaths[i], StrippedPaths[j])
    {
      if StrippedPaths[i][0] != StrippedPaths[j][0] {
        assert StrippedPaths[i][0] != StrippedPaths[j][0];
      } else {
        assert StrippedPaths[i][1] != StrippedPaths[j][1];
      }
    }
  }

  /** The edit copy of a configuration: the six server-managed fields unset. The
      configuration itself is a value and is left as it was. */
  function StripForEdit(config: Json): (r: Json)
    ensures forall i :: 0 <= i < |StrippedPaths| ==> GetPath(r, StrippedPaths[i]) == None
  {
    StrippedPathsWellFormed();
    UnsetAllClears(config, StrippedPaths);
    UnsetAll(config, StrippedPaths)
  }

  /** Nothing is left at or below a stripped field, and every path that diverges
      from all six finds what it found in the original. */
  lemma StripGet(config: Json, q: seq<string>)
    ensures (exists i :: 0 <= i < |StrippedPaths| && IsPrefix(StrippedPaths[i], q)) ==>
              GetPath(StripForEdit(config), q) == None
    ensures (forall i :: 0 <= i < |StrippedPaths| ==> Diverges(StrippedPaths[i], q)) ==>
              GetPath(StripForEdit(config), q) == GetPath(config, q)
  {
    StrippedPathsWellFormed();
    UnsetAllGet(config, StrippedPaths, q);
  }

  /** Each metadata key other than the five stripped ones, and each top-level key
      other than `metadata` and `status`, keeps its value. */
  lemma StripKeepsOtherKeys(config: Json, key: string, rest: seq<string>)
    ensures key != "uid" && key != "selfLink" && key != "resourceVersion"
            && key != "generation" && key != "creationTimestamp" ==>
              GetPath(StripForEdit(config), ["metadata", key] + rest) == GetPath(config, ["metadata", key] + rest)
    ensures key != "metadata" && key != "status" ==>
              GetPath(StripForEdit(config), [key] + rest) == GetPath(config, [key] + rest)
  {
    var q := ["metadata", key] + rest;
    if key != "uid" && key != "selfLink" && key != "resourceVersion"
       && key != "generation" && key != "creationTimestamp" {
      forall i | 0 <= i < |StrippedPaths|
        ensures Diverges(StrippedPaths[i], q)
      {
        if i < 5 {
          assert StrippedPaths[i][1] != q[1];
        } else {
          assert StrippedPaths[i][0] != q[0];
        }
      }
      StripGet(config, q);
    }
    var q' := [key] + rest;
    if key != "metadata" && key != "status" {
      forall i | 0 <= i < |StrippedPaths|
        ensures Diverges(StrippedPaths[i], q')
      {
        assert StrippedPaths[i][0] != q'[0];
      }
      StripGet(config, q');
    }
  }

  /** Nothing is left at a stripped field. */
  lemma StripClears(config: Json, i: nat)
    requires i < |StrippedPaths|
    ensures GetPath(StripForEdit(config), StrippedPaths[i]) == None
  {
    assert IsPrefix(StrippedPaths[i], StrippedPaths[i]);
    StripGet(config, StrippedPaths[i]);
  }

  /** Stripping a second time changes nothing. */
  lemma StripIdempotent(config: Json)
    ensures StripForEdit(StripForEdit(config)) == StripForEdit(config)
  {
    var s := StripForEdit(config);
    StrippedPathsWellFormed();
    forall i | 0 <= i < |StrippedPaths|
      ensures GetPath(s, StrippedPaths[i]) == None
    {
      StripClears(config, i);
    }
    UnsetAllAbsent(s, StrippedPaths);
  }

  // ---------------------------------------------------------------------------
  // File name and command

  const KindPath: seq<string> := ["kind"]
  const NamespacePath: seq<string> := ["metadata", "namespace"]
  const NamePath: seq<string> := ["metadata", "name"]

  /** `_.get(doc, key)` with a string key whose dotted form lodash splits into
      `path`: when the document is an object that has the whole string as a key,
      lodash's `isKey` takes it as that one key, and only otherwise is the split
      path followed. */
  function GetByString(doc: Json, key: string, path: seq<string>): (r: Option<Json>)
    ensures doc.JObj? && key in doc.fields ==> r == Some(doc.fields[key])
    ensures r.Some? && path != [] ==> doc.JObj?
  {
    if doc.JObj? && key in doc.fields then Some(doc.fields[key]) else GetPath(doc, path)
  }

  /** `_.get(config, 'kind')`: a plain key, so the one-step path. */
  function KindOf(config: Json): Option<Json> {
    GetPath(config, KindPath)
  }

  /** `_.get(config, 'metadata.namespace')`. */
  function NamespaceOf(config: Json): Option<Json> {
    GetByString(config, "metadata.namespace", NamespacePath)
  }

  /** `_.get(config, 'metadata.name')`. */
  function NameOf(config: Json): Option<Json> {
    GetByString(config, "metadata.name", NamePath)
  }

  /** The value found, as a one-element list when it is truthy. */
  function Present(v: Option<Json>): seq<Json> {
    if Truthy(v) then [v.value] else []
  }

  /** The kind, namespace and name, in that order, without the falsy ones. */
  function NameParts(config: Json): (r: seq<Json>)
    ensures |r| <= 3
    ensures r == [] <==> !Truthy(KindOf(config)) && !Truthy(NamespaceOf(config))
                         && !Truthy(NameOf(config))
    ensures Truthy(KindOf(config)) ==> r[0] == KindOf(config).value
  {
    Present(KindOf(config)) + Present(NamespaceOf(config))
    + Present(NameOf(config))
  }

  /** ASCII lower-casing of one character. */
  function LowerChar(c: char): char {
    if 'A' <= c <= 'Z' then (c as int + 32) as char else c
  }

  /** No upper-case ASCII letter occurs in `s`. */
  predicate AllLower(s: string) {
    forall i :: 0 <= i < |s| ==> !('A' <= s[i] <= 'Z')
  }

  /** Lower-casing, letter by letter. */
  function Lower(s: string): (r: string)
    ensures |r| == |s| && AllLower(r)
    ensures forall i :: 0 <= i < |s| && !('A' <= s[i] <= 'Z') ==> r[i] == s[i]
  {
    if s == [] then [] else [LowerChar(s[0])] + Lower(s[1..])
  }

  /** Lower-casing a lower-case string changes nothing. */
  lemma {:induction false} LowerIdempotent(s: string)
    ensures Lower(Lower(s)) == Lower(s)
  {
    var l := Lower(s);
    assert Lower(l) == l by {
      LowerOfLower(l);
    }
  }

  lemma {:induction false} LowerOfLower(s: string)
    requires AllLower(s)
    ensures Lower(s) == s
  {
    if s != [] {
      LowerOfLower(s[1..]);
    }
  }

  /** The parts lower-cased one by one; the first part that is not a string throws. */
  function LowerParts(parts: seq<Json>): (r: Result<seq<string>, ConfigError>)
    ensures r.Failure? <==> exists i :: 0 <= i < |parts| && !parts[i].JStr?
    ensures r.Success? ==> |r.value| == |parts|
    ensures r.Success? ==> forall i :: 0 <= i < |parts| ==> r.value[i] == Lower(parts[i].s)
  {
    if parts == [] then Success([])
    else if !parts[0].JStr? then Failure(TypeError)
    else match LowerParts(parts[1..])
      case Failure(e) => Failure(e)
      case Success(rest) => Success([Lower(parts[0].s)] + rest)
  }

  lemma LowerPartsCons(p: Json, rest: seq<Json>)
    requires p.JStr? && LowerParts(rest).Success?
    ensures LowerParts([p] + rest) == Success([Lower(p.s)] + LowerParts(rest).value)
  {
    assert ([p] + rest)[1..] == rest;
  }

  /** The strings of `parts` with `sep` between neighbours. */
  function Join(parts: seq<string>, sep: string): (r: string)
    ensures parts == [] ==> r == ""
    ensures parts != [] ==> parts[0] <= r
    ensures |parts| > 1 ==> parts[0] + sep <= r
  {
    if parts == [] then "" else if |parts| == 1 then parts[0] else parts[0] + sep + Join(parts[1..], sep)
  }

  /** Joining lower-case strings with a lower-case separator is lower-case. */
  lemma {:induction false} JoinLower(parts: seq<string>, sep: string)
    requires AllLower(sep) && forall i :: 0 <= i < |parts| ==> AllLower(parts[i])
    ensures AllLower(Join(parts, sep))
  {
    if |parts| > 1 {
      JoinLower(parts[1..], sep);
      var j := Join(parts[1..], sep);
      assert Join(parts, sep) == parts[0] + sep + j;
      assert AllLower(parts[0]);
    }
  }

  /** The truthy parts as the file name uses them: lower-cased and joined by `-`,
      or `config` when there is none, followed by `.yaml`. */
  function FileNameOf(parts: seq<Json>): Result<string, ConfigError> {
    var named := if parts == [] then [JStr("config")] else parts;
    match LowerParts(named)
    case Failure(e) => Failure(e)
    case Success(lowered) => Success(Join(lowered, "-") + ".yaml")
  }

  /** The downloaded file's name. */
  function FileName(config: Json): (r: Result<string, ConfigError>)
    ensures r.Success? ==> |r.value| >= 5 && r.value[|r.value| - 5..] == ".yaml"
  {
    FileNameOf(NameParts(config))
  }

  /** Every name part is truthy. */
  lemma NamePartsTruthy(config: Json)
    ensures forall v :: v in NameParts(config) ==> Truthy(Some(v))
  {
  }

  /** The name fails exactly when a part is not a string. */
  lemma FileNameOfFails(parts: seq<Json>)
    ensures FileNameOf(parts).Failure? <==> exists v :: v in parts && !v.JStr?
  {
    var named := if parts == [] then [JStr("config")] else parts;
    if LowerParts(named).Failure? {
      var i :| 0 <= i < |named| && !named[i].JStr?;
      assert named[i] in parts;
    } else {
      forall v | v in parts
        ensures v.JStr?
      {
        var i :| 0 <= i < |parts| && parts[i] == v;
        assert named[i] == v;
      }
    }
  }

  /** The name fails exactly when a truthy part is not a string. */
  lemma FileNameFails(config: Json)
    ensures FileName(config).Failure? <==> exists v :: v in NameParts(config) && !v.JStr?
  {
    FileNameOfFails(NameParts(config));
  }

  /** Built from non-empty strings, the name is lower-case and ends in `.yaml`
      after a non-empty stem. */
  lemma FileNameOfShape(parts: seq<Json>)
    requires FileNameOf(parts).Success?
    requires forall v :: v in parts ==> Truthy(Some(v))
    ensures var fn := FileNameOf(parts).value;
            |fn| > 5 && fn[|fn| - 5..] == ".yaml" && AllLower(fn)
  {
    var named := if parts == [] then [JStr("config")] else parts;
    var lowered := LowerParts(named).value;
    JoinLower(lowered, "-");
    var stem := Join(lowered, "-");
    assert named[0].s != "" by {
      assert named[0] in parts || named[0] == JStr("config");
    }
    JoinNonEmpty(lowered, "-");
    var fn := stem + ".yaml";
    assert fn[|fn| - 5..] == ".yaml";
    assert AllLower(fn) by {
      forall i | 0 <= i < |fn|
        ensures !('A' <= fn[i] <= 'Z')
      {
        if i >= |stem| {
          assert fn[i] == ".yaml"[i - |stem|];
        }
      }
    }
  }

  /** A derived name is lower-case and ends in `.yaml` after a non-empty stem. */
  lemma FileNameShape(config: Json)
    requires FileName(config).Success?
    ensures var fn := FileName(config).value;
            |fn| > 5 && fn[|fn| - 5..] == ".yaml" && AllLower(fn)
  {
    NamePartsTruthy(config);
    FileNameOfShape(NameParts(config));
  }

  lemma {:induction false} JoinNonEmpty(parts: seq<string>, sep: string)
    requires |parts| >= 1 && parts[0] != ""
    ensures |Join(parts, sep)| > 0
  {
  }

  /** With no truthy part the name is `config.yaml`. */
  lemma FileNameFallback(config: Json)
    requires NameParts(config) == []
    ensures FileName(config) == Success("config.yaml")
  {
    FallbackName();
  }

  lemma FallbackName()
    ensures FileNameOf([]) == Success("config.yaml")
  {
    FallbackLowered();
    assert Join(["config"], "-") == "config";
    assert "config" + ".yaml" == "config.yaml";
  }

  lemma FallbackLowered()
    ensures LowerParts([JStr("config")]) == Success(["config"])
  {
    var none: seq<Json> := [];
    var noneLowered: seq<string> := [];
    assert LowerParts(none) == Success(noneLowered);
    LowerPartsCons(JStr("config"), none);
    assert [JStr("config")] + none == [JStr("config")];
    ConfigIsLower();
    assert [Lower("config")] + noneLowered == ["config"];
  }

  lemma ConfigIsLower()
    ensures Lower("config") == "config"
  {
    assert AllLower("config");
    LowerOfLower("config");
  }

  /** A configuration with a kind, a namespace and a name, all non-empty strings,
      is saved as `kind-namespace-name.yaml`, lower-cased. */
  lemma FileNameFull(config: Json, kind: string, ns: string, name: string)
    requires KindOf(config) == Some(JStr(kind)) && kind != ""
    requires NamespaceOf(config) == Some(JStr(ns)) && ns != ""
    requires NameOf(config) == Some(JStr(name)) && name != ""
    ensures FileName(config) == Success(Lower(kind) + "-" + Lower(ns) + "-" + Lower(name) + ".yaml")
  {
    var t3: seq<Json> := [JStr(name)];
    var t2: seq<Json> := [JStr(ns)] + t3;
    var t1: seq<Json> := [JStr(kind)] + t2;
    assert NameParts(config) == t1;
    var none: seq<Json> := [];
    var noneLowered: seq<string> := [];
    assert LowerParts(none) == Success(noneLowered);
    LowerPartsCons(JStr(name), none);
    assert [JStr(name)] + none == t3;
    assert [Lower(name)] + noneLowered == [Lower(name)];
    LowerPartsCons(JStr(ns), t3);
    LowerPartsCons(JStr(kind), t2);
    var lowered := [Lower(kind), Lower(ns), Lower(name)];
    assert [Lower(kind)] + ([Lower(ns)] + [Lower(name)]) == lowered;
    assert LowerParts(t1) == Success(lowered);
    JoinThree(Lower(kind), Lower(ns), Lower(name), "-");
    assert FileName(config) == Success(Join(lowered, "-") + ".yaml");
  }

  /** Three parts join as the first, the second and the third, separated. */
  lemma JoinThree(a: string, b: string, c: string, sep: string)
    ensures Join([a, b, c], sep) == a + sep + b + sep + c
  {
    assert [a, b, c][1..] == [b, c];
    assert [b, c][1..] == [c];
    assert Join([b, c], sep) == b + sep + c;
    assert Join([a, b, c], sep) == a + sep + (b + sep + c);
    assert a + sep + (b + sep + c) == a + sep + b + sep + c;
  }

  /** The configuration `{kind: "Pod", "metadata.name": "x"}`, which holds the whole
      string `metadata.name` as a top-level key and has no nested `metadata`. */
  function DottedSample(): Json {
    JObj(map["kind" := JStr("Pod"), "metadata.name" := JStr("x")])
  }

  /** Its name is the value under the dotted key, and it has no namespace. */
  lemma DottedSampleParts()
    ensures KindOf(DottedSample()) == Some(JStr("Pod"))
    ensures NamespaceOf(DottedSample()) == None
    ensures NameOf(DottedSample()) == Some(JStr("x"))
  {
    var fields := DottedSample().fields;
    assert "metadata" !in fields && "metadata.namespace" !in fields;
  }

  /** `Pod` and `x` lower-case to `pod` and `x`. */
  lemma LowerPodX()
    ensures Lower("Pod") + "-" + Lower("x") + ".yaml" == "pod-x.yaml"
  {
    assert Lower("d") == "d";
    assert Lower("od") == "od";
    assert Lower("Pod") == "pod";
    assert Lower("x") == "x";
    assert "pod" + "-" + "x" + ".yaml" == "pod-x.yaml";
  }

  /** A configuration holding the whole string `metadata.name` as a top-level key
      is named by that value, as lodash's string path finds it: kind `Pod` and
      that key set to `x` give `pod-x.yaml`. */
  lemma DottedNameKey()
    ensures FileName(DottedSample()) == Success("pod-x.yaml")
  {
    DottedSampleParts();
    FileNameWithoutNamespace(DottedSample(), "Pod", "x");
    LowerPodX();
  }

  /** Without a namespace the name is `kind-name.yaml`, lower-cased. */
  lemma FileNameWithoutNamespace(config: Json, kind: string, name: string)
    requires KindOf(config) == Some(JStr(kind)) && kind != ""
    requires !Truthy(NamespaceOf(config))
    requires NameOf(config) == Some(JStr(name)) && name != ""
    ensures FileName(config) == Success(Lower(kind) + "-" + Lower(name) + ".yaml")
  {
    var t2: seq<Json> := [JStr(name)];
    var t1: seq<Json> := [JStr(kind)] + t2;
    assert NameParts(config) == t1;
    var none: seq<Json> := [];
    var noneLowered: seq<string> := [];
    assert LowerParts(none) == Success(noneLowered);
    LowerPartsCons(JStr(name), none);
    assert [JStr(name)] + none == t2;
    assert [Lower(name)] + noneLowered == [Lower(name)];
    assert LowerParts(t2) == Success([Lower(name)]);
    LowerPartsCons(JStr(kind), t2);
    var lowered := [Lower(kind), Lower(name)];
    assert [Lower(kind)] + [Lower(name)] == lowered;
    assert LowerParts(t1) == Success(lowered);
    assert lowered[1..] == [Lower(name)];
    assert Join(lowered, "-") == Lower(kind) + "-" + Lower(name);
    assert FileName(config) == Success(Join(lowered, "-") + ".yaml");
  }

  /** `kubectl apply -f <file>`, with `-n <namespace>` (as written, not lower-cased)
      when the namespace is truthy; it fails where the file name does. */
  function KubectlCommand(config: Json): (r: Result<string, ConfigError>)
    ensures r.Success? <==> FileName(config).Success?
    ensures r.Success? ==> "kubectl apply -f " + FileName(config).value <= r.value
  {
    match FileName(config)
    case Failure(e) => Failure(e)
    case Success(fn) =>
      var ns := NamespaceOf(config);
      Success("kubectl apply -f " + fn + (if Truthy(ns) && ns.value.JStr? then " -n " + ns.value.s else ""))
  }

  /** The command names the file, and ends in `-n` and the namespace exactly when
      the namespace is truthy; a truthy namespace is always a string here, so the
      text is the namespace as written. */
  lemma CommandNamespaceFlag(config: Json)
    ensures KubectlCommand(config).Success? <==> FileName(config).Success?
    ensures FileName(config).Success? ==>
              var cmd := KubectlCommand(config).value;
              var ns := NamespaceOf(config);
              && (Truthy(ns) ==> ns.value.JStr? && cmd == "kubectl apply -f " + FileName(config).value + " -n " + ns.value.s)
              && (!Truthy(ns) ==> cmd == "kubectl apply -f " + FileName(config).value)
  {
    FileNameFails(config);
    var ns := NamespaceOf(config);
    if FileName(config).Success? && Truthy(ns) {
      assert ns.value in NameParts(config);
    }
  }

  /** Stripping keeps what a string path under `metadata` finds, whether lodash
      takes the string as one top-level key or splits it. */
  lemma StripKeepsStringKey(config: Json, key: string, field: string)
    requires key != "metadata" && key != "status"
    requires field != "uid" && field != "selfLink" && field != "resourceVersion"
             && field != "generation" && field != "creationTimestamp"
    ensures GetByString(StripForEdit(config), key, ["metadata", field])
            == GetByString(config, key, ["metadata", field])
  {
    StripKeepsOtherKeys(config, field, []);
    StripKeepsOtherKeys(config, key, []);
    assert ["metadata", field] + [] == ["metadata", field];
    assert [key] + [] == [key];
  }

  /** The edit copy is saved under the same name with the same command: stripping
      touches none of the fields the name is built from. */
  lemma StripKeepsNames(config: Json)
    ensures FileName(StripForEdit(config)) == FileName(config)
    ensures KubectlCommand(StripForEdit(config)) == KubectlCommand(config)
  {
    StripKeepsOtherKeys(config, "kind", []);
    assert ["kind"] + [] == KindPath;
    StripKeepsStringKey(config, "metadata.namespace", "namespace");
    StripKeepsStringKey(config, "metadata.name", "name");
  }

  // ---------------------------------------------------------------------------
  // The panel

  /** A text shown in the panel: the YAML dump of a document, or what the user
      typed in the editor. */
  datatype Text = Dumped(doc: Json) | Typed(raw: string)

  /** The panel's state for one configuration. */
  class ConfigPanel {
    const config: Json
    var editMode: bool
    var code: Text
    var editedConfig: Text
    var fileName: string
    var kubectlCommand: string

    /** The initial state: view mode, both texts the dump of the configuration,
        and the default file name. */
    constructor(config: Json)
      ensures this.config == config && !editMode
      ensures code == Dumped(config) && editedConfig == code
      ensures fileName == "config.yaml" && kubectlCommand == ""
    {
      this.config := config;
      editMode := false;
      code := Dumped(config);
      editedConfig := Dumped(config);
      fileName := "config.yaml";
      kubectlCommand := "";
    }

    /** The mount effect: derive the file name and the command, or throw. */
    method DeriveNames() returns (o: Outcome<ConfigError>)
      modifies this`fileName, this`kubectlCommand
      ensures o.Fail? <==> FileName(config).Failure?
      ensures o.Pass? ==> fileName == FileName(config).value && kubectlCommand == KubectlCommand(config).value
      ensures o.Fail? ==> fileName == old(fileName) && kubectlCommand == old(kubectlCommand)
    {
      var fn := FileName(config);
      if fn.Failure? {
        return Fail(fn.error);
      }
      fileName := fn.value;
      kubectlCommand := KubectlCommand(config).value;
      o := Pass;
    }

    /** The edit button: flip the mode; entering edit mode replaces the edited
        text with the dump of a stripped copy of the configuration. */
    method HandleEditedMode()
      modifies this`editMode, this`editedConfig
      ensures editMode == !old(editMode)
      ensures !old(editMode) ==> editedConfig == Dumped(StripForEdit(config))
      ensures old(editMode) ==> editedConfig == old(editedConfig)
    {
      var wasEditing := editMode;
      editMode := !editMode;
      if !wasEditing {
        editedConfig := Dumped(StripForEdit(config));
      }
    }

    /** The editor's change handler. */
    method HandleChangeConfig(value: string)
      modifies this`editedConfig
      ensures editedConfig == Typed(value)
    {
      editedConfig := Typed(value);
    }

    /** The text downloaded and copied: the edited text in edit mode, the dump of
        the configuration otherwise. */
    function ExportedText(): (t: Text)
      reads this`editMode, this`code, this`editedConfig
      ensures editMode ==> t == editedConfig
      ensures !editMode ==> t == code
    {
      if editMode then editedConfig else code
    }
  }
}
