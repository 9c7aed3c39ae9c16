/** api/spiffe_client.js: well-known types on the way in (wrappers) and out (Struct). */
module SpiffeJson {
  /** A value of the language, as far as a decoded or about-to-be-sent message holds one. */
  datatype Js =
    | Undefined | Null | Bool(b: bool) | Number(n: real) | Str(s: string)
    | Arr(items: seq<Js>) | Obj(fields: map<string, Js>)

  function Get(v: Js, name: string): Js {
    if v.Obj? && name in v.fields then v.fields[name] else Undefined
  }

  predicate Truthy(v: Js) {
    match v
    case Undefined => false
    case Null => false
    case Bool(b) => b
    case Number(n) => n != 0.0
    case Str(s) => s != ""
    case Arr(_) => true
    case Obj(_) => true
  }

  // ------------------------------------------------------ Struct to plain JSON

  function StructToJson(v: Js): Js
    decreases v
  {
    if !v.Obj? || !Truthy(Get(v, "fields")) then v
    else match v.fields["fields"]
      case Obj(fields) => Obj(map name | name in fields :: ValueToJson(fields[name]))
      case _ => Obj(map[])
  }

  function ValueToJson(v: Js): Js
    decreases v
  {
    if v.Arr? then Null
    else if !v.Obj? then v
    else
      var kind := Get(v, "kind");
      if kind == Str("nullValue") then Null
      else if kind == Str("numberValue") then Get(v, "numberValue")
      else if kind == Str("stringValue") then Get(v, "stringValue")
      else if kind == Str("boolValue") then Get(v, "boolValue")
      else if kind == Str("structValue") then
        (if "structValue" in v.fields then StructToJson(v.fields["structValue"]) else Undefined)
      else if kind == Str("listValue") then
        (if "listValue" in v.fields && v.fields["listValue"].Obj? && "values" in v.fields["listValue"].fields
         then ListToJson(v.fields["listValue"].fields["values"]) else Arr([]))
      else Null
  }

  function ListToJson(v: Js): Js
    decreases v
  {
    if v.Arr? then Arr(seq(|v.items|, i requires 0 <= i < |v.items| => ValueToJson(v.items[i]))) else Arr([])
  }

  /** The values JSON has. */
  predicate IsJson(v: Js)
    decreases v
  {
    match v
    case Undefined => false
    case Arr(items) => forall i :: 0 <= i < |items| ==> IsJson(items[i])
    case Obj(fields) => forall name :: name in fields ==> IsJson(fields[name])
    case _ => true
  }

  /** A google.protobuf.Value as the loader decodes it: `kind` names the member set. */
  function EncodeValue(v: Js): Js
    decreases v, 1
  {
    match v
    case Number(_) => Obj(map["kind" := Str("numberValue"), "numberValue" := v])
    case Str(_) => Obj(map["kind" := Str("stringValue"), "stringValue" := v])
    case Bool(_) => Obj(map["kind" := Str("boolValue"), "boolValue" := v])
    case Arr(items) =>
      var values := Arr(seq(|items|, i requires 0 <= i < |items| => EncodeValue(items[i])));
      Obj(map["kind" := Str("listValue"), "listValue" := Obj(map["values" := values])])
    case Obj(fields) => Obj(map["kind" := Str("structValue"), "structValue" := EncodeStruct(v)])
    case _ => Obj(map["kind" := Str("nullValue"), "nullValue" := Str("NULL_VALUE")])
  }

  /** A google.protobuf.Struct with the members of an object. */
  function EncodeStruct(v: Js): Js
    requires v.Obj?
    decreases v, 0
  {
    Obj(map["fields" := Obj(map name | name in v.fields :: EncodeValue(v.fields[name]))])
  }

  /** Flattening inverts the encoding, for every JSON value of any depth. */
  lemma {:induction false} ValueRoundTrip(v: Js)
    requires IsJson(v)
    ensures ValueToJson(EncodeValue(v)) == v
    decreases v, 1
  {
    hide ValueToJson, EncodeValue, StructToJson, EncodeStruct;
    match v
    case Arr(items) =>
      forall i | 0 <= i < |items|
        ensures ValueToJson(EncodeValue(items[i])) == items[i]
      {
        ValueRoundTrip(items[i]);
      }
      ListRoundTrip(items);
    case Obj(_) =>
      StructRoundTrip(v);
      WrappedStruct(v);
    case _ => ScalarRoundTrip(v);
  }

  lemma ScalarRoundTrip(v: Js)
    requires !v.Undefined? && !v.Arr? && !v.Obj?
    ensures ValueToJson(EncodeValue(v)) == v
  {
  }

  lemma WrappedStruct(v: Js)
    requires v.Obj?
    ensures ValueToJson(EncodeValue(v)) == StructToJson(EncodeStruct(v))
  {
    hide StructToJson, EncodeStruct;
  }

  lemma ListRoundTrip(items: seq<Js>)
    requires forall i :: 0 <= i < |items| ==> ValueToJson(EncodeValue(items[i])) == items[i]
    ensures ValueToJson(EncodeValue(Arr(items))) == Arr(items)
  {
    var values := Arr(seq(|items|, i requires 0 <= i < |items| => EncodeValue(items[i])));
    assert EncodeValue(Arr(items)).fields["listValue"].fields["values"] == values;
    assert ListToJson(values).items == items;
  }

  lemma {:induction false} StructRoundTrip(v: Js)
    requires v.Obj? && IsJson(v)
    ensures StructToJson(EncodeStruct(v)) == v
    decreases v, 0
  {
    var fields := v.fields;
    forall name | name in fields
      ensures ValueToJson(EncodeValue(fields[name])) == fields[name]
    {
      ValueRoundTrip(fields[name]);
    }
    FieldsRoundTrip(fields);
  }

  lemma FieldsRoundTrip(fields: map<string, Js>)
    requires forall name :: name in fields ==> ValueToJson(EncodeValue(fields[name])) == fields[name]
    ensures StructToJson(EncodeStruct(Obj(fields))) == Obj(fields)
  {
    hide ValueToJson, EncodeValue;
    var encoded := map name | name in fields :: EncodeValue(fields[name]);
    FlattensFields(encoded);
    assert (map name | name in encoded :: ValueToJson(encoded[name])) == fields;
  }

  lemma FlattensFields(encoded: map<string, Js>)
    ensures StructToJson(Obj(map["fields" := Obj(encoded)])) ==
            Obj(map name | name in encoded :: ValueToJson(encoded[name]))
  {
    hide ValueToJson;
  }

  /** A value whose kind is known holds what the member of that name holds, whatever else
      it has; without that member a list is empty. */
  lemma ValueByKind(fields: map<string, Js>, kind: string)
    requires "kind" in fields && fields["kind"] == Str(kind)
    ensures var member := if kind in fields then fields[kind] else Undefined;
            var values := if member.Obj? && "values" in member.fields then member.fields["values"] else Arr([]);
            ValueToJson(Obj(fields)) ==
            if kind in {"numberValue", "stringValue", "boolValue"} then member
            else if kind == "structValue" then StructToJson(member)
            else if kind == "listValue" then ListToJson(values)
            else Null
  {
  }

  /** What is no Value is left alone, but an array or an object of no known kind is null. */
  lemma NotAValue(v: Js)
    requires v.Obj? ==> "kind" !in v.fields || !v.fields["kind"].Str?
    ensures ValueToJson(v) == if v.Arr? || v.Obj? then Null else v
  {
  }

  /** What has no `fields`, or nothing in them, is no Struct and is left alone. */
  lemma NotAStruct(v: Js)
    requires v.Obj? && "fields" in v.fields ==>
               v.fields["fields"] in {Undefined, Null, Bool(false), Number(0.0), Str("")}
    ensures StructToJson(v) == v
  {
  }

  // ------------------------------------------------------------ wrapped fields

  type Path = p: seq<string> | p != [] witness [""]

  /** What `wrapFields` wraps: anything but null, undefined and a plain object. */
  predicate IsLeaf(v: Js) {
    v.Bool? || v.Number? || v.Str? || v.Arr?
  }

  /** One path of `wrapFields`: walk to the last name and wrap a bare value there. */
  function WrapOne(v: Js, path: Path): Js
    decreases |path|
  {
    if !v.Obj? || path[0] !in v.fields then v
    else if |path| == 1 then
      var value := v.fields[path[0]];
      if IsLeaf(value) then Obj(v.fields[path[0] := Obj(map["value" := value])]) else v
    else Obj(v.fields[path[0] := WrapOne(v.fields[path[0]], path[1..])])
  }

  function Wrap(v: Js, paths: seq<Path>): Js
    decreases |paths|
  {
    if paths == [] then v else Wrap(WrapOne(v, paths[0]), paths[1..])
  }

  /** A bare value sits at `path`. */
  predicate LeafAt(v: Js, path: Path)
    decreases |path|
  {
    && v.Obj? && path[0] in v.fields
    && if |path| == 1 then IsLeaf(v.fields[path[0]]) else LeafAt(v.fields[path[0]], path[1..])
  }

  lemma {:induction false} WrapsOnlyLeaves(v: Js, path: Path)
    requires !LeafAt(v, path)
    ensures WrapOne(v, path) == v
    decreases |path|
  {
    if v.Obj? && path[0] in v.fields && |path| > 1 {
      WrapsOnlyLeaves(v.fields[path[0]], path[1..]);
      assert v.fields[path[0] := v.fields[path[0]]] == v.fields;
    }
  }

  /** Wrapping moves the bare value at `q` one name down, and moves nothing else. */
  lemma {:induction false} LeavesAfter(v: Js, q: Path, p: Path)
    ensures LeafAt(WrapOne(v, q), p) <==>
            if LeafAt(v, q) then p == q + ["value"] || (p != q && LeafAt(v, p)) else LeafAt(v, p)
    decreases |q|
  {
    if !LeafAt(v, q) {
      WrapsOnlyLeaves(v, q);
    } else if p[0] != q[0] {
      assert (q + ["value"])[0] == q[0];
    } else {
      if |q| > 1 && |p| > 1 {
        LeavesAfter(v.fields[q[0]], q[1..], p[1..]);
        assert p == [p[0]] + p[1..] && q == [q[0]] + q[1..];
        assert q + ["value"] == [q[0]] + (q[1..] + ["value"]);
      } else if |q| > 1 {
        assert LeafAt(v.fields[q[0]], q[1..]);
      } else {
        assert q == [q[0]] && q + ["value"] == [q[0], "value"];
        assert p == [p[0]] + p[1..];
        if |p| > 1 { InWrapper(v.fields[q[0]], p[1..]); }
      }
    }
  }

  /** The one bare value of a wrapper is at "value". */
  lemma InWrapper(leaf: Js, p: seq<string>)
    requires IsLeaf(leaf) && p != []
    ensures LeafAt(Obj(map["value" := leaf]), p) <==> p == ["value"]
  {
    if |p| == 1 {
      assert p == [p[0]];
    }
  }

  /** What becomes of the member a path of one name leads to: an absent member, a null and a
      plain object stay as they are, and anything else is put in a wrapper. */
  lemma WrapsBareValues(fields: map<string, Js>, name: string)
    ensures var value := if name in fields then fields[name] else Undefined;
            WrapOne(Obj(fields), [name]) ==
            match value
            case Undefined => Obj(fields)
            case Null => Obj(fields)
            case Obj(_) => Obj(fields)
            case _ => Obj(fields[name := Obj(map["value" := value])])
  {
  }

  /** Where a bare value at `s` ends up after the whole list, read off the list alone. */
  function Chase(s: Path, paths: seq<Path>): Path
    decreases |paths|
  {
    if paths == [] then s else Chase(if s == paths[0] then s + ["value"] else s, paths[1..])
  }

  lemma {:induction false} CameFrom(v: Js, paths: seq<Path>, p: Path) returns (s: Path)
    requires LeafAt(Wrap(v, paths), p)
    ensures LeafAt(v, s) && Chase(s, paths) == p
    decreases |paths|
  {
    if paths == [] {
      s := p;
    } else {
      s := CameFrom(WrapOne(v, paths[0]), paths[1..], p);
      LeavesAfter(v, paths[0], s);
      if LeafAt(v, paths[0]) && s == paths[0] + ["value"] {
        s := paths[0];
      }
    }
  }

  lemma {:induction false} NothingToWrap(v: Js, paths: seq<Path>)
    requires forall p :: p in paths ==> !LeafAt(v, p)
    ensures Wrap(v, paths) == v
    decreases |paths|
  {
    if paths != [] {
      WrapsOnlyLeaves(v, paths[0]);
      NothingToWrap(v, paths[1..]);
    }
  }

  lemma {:induction false} ChaseMisses(s: Path, paths: seq<Path>)
    ensures s !in paths ==> Chase(s, paths) == s
    ensures |Chase(s, paths)| >= |s|
    ensures s in paths ==> |Chase(s, paths)| > |s|
    decreases |paths|
  {
    if paths != [] {
      ChaseMisses(s, paths[1..]);
      ChaseMisses(s + ["value"], paths[1..]);
    }
  }

  /** A request holding one bare value, at `path`. */
  function Single(path: Path): Js
    decreases |path|
  {
    Obj(map[path[0] := if |path| == 1 then Bool(true) else Single(path[1..])])
  }

  lemma {:induction false} WrapSingle(s: Path, q: Path)
    ensures WrapOne(Single(s), q) ==
            if s == q then Wrapped(s) else Single(s)
    decreases |s|
  {
    if q[0] == s[0] && |q| > 1 && |s| > 1 {
      WrapSingle(s[1..], q[1..]);
      assert s == [s[0]] + s[1..] && q == [q[0]] + q[1..];
      assert Single(s).fields[s[0] := Single(s[1..])] == Single(s).fields;
    }
    if |s| == 1 && |q| == 1 {
      assert s == [s[0]] && q == [q[0]];
    }
  }

  function Wrapped(path: Path): Js
    decreases |path|
  {
    Obj(map[path[0] := if |path| == 1 then Obj(map["value" := Bool(true)]) else Wrapped(path[1..])])
  }

  lemma {:induction false} WrappedIsSingle(s: Path)
    ensures Wrapped(s) == Single(s + ["value"])
    decreases |s|
  {
    if |s| == 1 {
      assert (s + ["value"])[1..] == ["value"];
    } else {
      WrappedIsSingle(s[1..]);
      assert (s + ["value"])[1..] == s[1..] + ["value"];
    }
  }

  lemma {:induction false} SingleChased(s: Path, paths: seq<Path>)
    ensures Wrap(Single(s), paths) == Single(Chase(s, paths))
    decreases |paths|
  {
    if paths != [] {
      WrapSingle(s, paths[0]);
      WrappedIsSingle(s);
      SingleChased(if s == paths[0] then s + ["value"] else s, paths[1..]);
    }
  }

  lemma {:induction false} SingleDepth(s: Path, t: Path)
    requires Single(s) == Single(t)
    ensures |s| == |t|
    decreases |s|
  {
    assert s[0] in Single(t).fields;
    assert Single(s).fields[s[0]] == Single(t).fields[s[0]];
    if |s| > 1 && |t| > 1 {
      SingleDepth(s[1..], t[1..]);
    }
  }

  ghost predicate Idempotent(paths: seq<Path>) {
    forall v: Js :: Wrap(Wrap(v, paths), paths) == Wrap(v, paths)
  }

  /** No listed path is left where a value wrapped by the list ends up. */
  predicate Settles(paths: seq<Path>) {
    forall p :: p in paths ==> Chase(p, paths) !in paths
  }

  lemma SettlesMakesIdempotent(paths: seq<Path>, v: Js)
    requires Settles(paths)
    ensures Wrap(Wrap(v, paths), paths) == Wrap(v, paths)
  {
    var w := Wrap(v, paths);
    forall p | p in paths
      ensures !LeafAt(w, p)
    {
      if LeafAt(w, p) {
        var s := CameFrom(v, paths, p);
        ChaseMisses(s, paths);
        assert false;
      }
    }
    NothingToWrap(w, paths);
  }

  /** Wrapping twice is wrapping once, for every request, exactly when the list settles.
      It need not: with "a.value" listed before "a", the bare value of the first pass's
      wrapper is wrapped again by the second. */
  lemma IdempotentExactly(paths: seq<Path>)
    ensures Idempotent(paths) <==> Settles(paths)
  {
    if Settles(paths) {
      forall v: Js
        ensures Wrap(Wrap(v, paths), paths) == Wrap(v, paths)
      {
        SettlesMakesIdempotent(paths, v);
      }
    } else {
      var s :| s in paths && Chase(s, paths) in paths;
      var g := Chase(s, paths);
      SingleChased(s, paths);
      SingleChased(g, paths);
      ChaseMisses(g, paths);
      if Idempotent(paths) {
        assert Wrap(Wrap(Single(s), paths), paths) == Wrap(Single(s), paths);
        SingleDepth(Chase(g, paths), g);
        assert false;
      }
    }
  }

  lemma ValueFirstDoesNotSettle()
    ensures !Settles([["a", "value"], ["a"]])
  {
    var paths: seq<Path> := [["a", "value"], ["a"]];
    var a: Path := ["a"];
    assert paths[1..] == [a] && paths[1..][1..] == [];
    assert Chase(a, paths) == Chase(a, [a]) == Chase(a + ["value"], []) == ["a", "value"];
    assert Chase(paths[1], paths) in paths;
  }

  /** The lists in use name filter fields, and no path of theirs ends in "value". */
  lemma {:induction false} NoValuePathSettles(paths: seq<Path>)
    requires forall p :: p in paths ==> p[|p| - 1] != "value"
    ensures Settles(paths) && Idempotent(paths)
  {
    forall p | p in paths
      ensures Chase(p, paths) !in paths
    {
      ChaseMisses(p, paths);
      ChaseEnds(p, paths);
    }
    IdempotentExactly(paths);
  }

  lemma {:induction false} ChaseEnds(s: Path, paths: seq<Path>)
    ensures var c := Chase(s, paths); c == s || c[|c| - 1] == "value"
    decreases |paths|
  {
    if paths != [] {
      ChaseEnds(if s == paths[0] then s + ["value"] else s, paths[1..]);
    }
  }
}
