/** api/spiffe_client.js: `wrapFields` as it is, assigning to members of the request. */
module SpiffeWrap {
  import opened Bytes
  import opened SpiffeJson

  /** An object of the request. */
  class JsObject {
    var fields: map<string, Ref>

    constructor (fields: map<string, Ref>)
      ensures this.fields == fields
    {
      this.fields := fields;
    }

    function Get(name: string): Ref
      reads this
    {
      if name in fields then fields[name] else Value(Undefined)
    }
  }

  /** What a variable or a member holds: an object, or anything else by value. */
  datatype Ref = Value(v: Js) | To(node: JsObject)

  /** The members of every object, at one moment. */
  type Memory = map<JsObject, map<string, Ref>>

  ghost function Snapshot(objects: set<JsObject>): (m: Memory)
    reads objects
    ensures m.Keys == objects
  {
    map o | o in objects :: o.fields
  }

  /** Nothing reachable from the members of `m` or from `r` is outside `m`. */
  ghost predicate Closed(m: Memory, r: Ref) {
    && (r.To? ==> r.node in m)
    && forall o, name :: o in m && name in m[o] && m[o][name].To? ==> m[o][name].node in m
  }

  function Member(m: Memory, r: Ref, name: string): Ref {
    if r.To? && r.node in m && name in m[r.node] then m[r.node][name] else Value(Undefined)
  }

  predicate Bare(r: Ref) {
    r.Value? && IsLeaf(r.v)
  }

  /** Following the path from `r` ends at a bare value. */
  predicate LeafReached(m: Memory, r: Ref, path: Path)
    decreases |path|
  {
    if |path| == 1 then Bare(Member(m, r, path[0])) else LeafReached(m, Member(m, r, path[0]), path[1..])
  }

  /** The object the bare value at the end of a path is a member of. */
  function Owner(m: Memory, r: Ref, path: Path): (o: JsObject)
    requires LeafReached(m, r, path)
    ensures o in m && path[|path| - 1] in m[o] && Bare(m[o][path[|path| - 1]])
    decreases |path|
  {
    if |path| == 1 then r.node else Owner(m, Member(m, r, path[0]), path[1..])
  }

  /** One path of `wrapFields`, whatever objects share members: `w` is the wrapper made, if
      any. */
  function WrapIn(m: Memory, r: Ref, path: Path, w: Option<JsObject>): Memory
    requires LeafReached(m, r, path) <==> w.Some?
  {
    if w.None? then m
    else
      var o, last := Owner(m, r, path), path[|path| - 1];
      m[o := m[o][last := To(w.value)]][w.value := map["value" := m[o][last]]]
  }

  /** One wrapper for each path that has a bare value when its turn comes, none of them an
      object there was before. */
  ghost predicate Wrappers(m: Memory, r: Ref, paths: seq<Path>, ws: seq<Option<JsObject>>)
    decreases |paths|
  {
    && |ws| == |paths|
    && (paths != [] ==>
          && (LeafReached(m, r, paths[0]) <==> ws[0].Some?)
          && (ws[0].Some? ==> ws[0].value !in m)
          && Wrappers(WrapIn(m, r, paths[0], ws[0]), r, paths[1..], ws[1..]))
  }

  function WrapAllIn(m: Memory, r: Ref, paths: seq<Path>, ws: seq<Option<JsObject>>): Memory
    requires Wrappers(m, r, paths, ws)
    decreases |paths|
  {
    if paths == [] then m else WrapAllIn(WrapIn(m, r, paths[0], ws[0]), r, paths[1..], ws[1..])
  }

  function Made(w: Option<JsObject>): set<JsObject> {
    if w.Some? then {w.value} else {}
  }

  lemma WrapInCloses(m: Memory, r: Ref, path: Path, w: Option<JsObject>)
    requires Closed(m, r) && (LeafReached(m, r, path) <==> w.Some?)
    ensures Closed(WrapIn(m, r, path, w), r)
    ensures WrapIn(m, r, path, w).Keys == m.Keys + Made(w)
  {
  }

  /** One turn of the outer loop. */
  method WrapPath(path: Path, request: Ref, ghost objects: set<JsObject>) returns (ghost w: Option<JsObject>)
    requires Closed(Snapshot(objects), request)
    modifies objects
    ensures LeafReached(old(Snapshot(objects)), request, path) <==> w.Some?
    ensures w.Some? ==> fresh(w.value) && w.value !in objects
    ensures Snapshot(objects + Made(w)) == WrapIn(old(Snapshot(objects)), request, path, w)
  {
    hide LeafReached, Owner, WrapIn, Closed;
    ghost var m := Snapshot(objects);
    w := None;
    NoWrapper(m, request, path);
    StartsInside(m, request);
    var node := request;
    var i := 0;
    while i < |path| - 1
      invariant 0 <= i < |path|
      invariant Snapshot(objects) == m && (node.To? ==> node.node in m)
      invariant LeafReached(m, request, path) <==> LeafReached(m, node, path[i..])
      invariant LeafReached(m, request, path) ==> Owner(m, request, path) == Owner(m, node, path[i..])
    {
      if node.Value? {
        NothingBelow(m, node, path[i..]);
        return;
      }
      assert path[i..][1..] == path[i + 1..];
      OneMember(m, node, path[i..]);
      assert node.node.Get(path[i]) == Member(m, node, path[i..][0]);
      StaysInside(m, request, node, path[i]);
      node := node.node.Get(path[i]);
      i := i + 1;
    }
    assert path[i..] == [path[i]];
    LastMember(m, node, path[i..]);
    if node.Value? {
      return;
    }
    var last := path[|path| - 1];
    var value := node.node.Get(last);
    if value.To? || !IsLeaf(value.v) {
      return;
    }
    var wrapper := new JsObject(map["value" := value]);
    node.node.fields := node.node.fields[last := To(wrapper)];
    w := Some(wrapper);
    WrapInIs(m, request, path, wrapper);
  }

  lemma StartsInside(m: Memory, r: Ref)
    requires Closed(m, r)
    ensures r.To? ==> r.node in m
  {
  }

  lemma StaysInside(m: Memory, r: Ref, node: Ref, name: string)
    requires Closed(m, r)
    ensures Member(m, node, name).To? ==> Member(m, node, name).node in m
  {
  }

  lemma NoWrapper(m: Memory, r: Ref, path: Path)
    ensures !LeafReached(m, r, path) ==> WrapIn(m, r, path, None) == m
  {
  }

  lemma OneMember(m: Memory, r: Ref, path: Path)
    requires |path| > 1
    ensures LeafReached(m, r, path) <==> LeafReached(m, Member(m, r, path[0]), path[1..])
    ensures LeafReached(m, r, path) ==> Owner(m, r, path) == Owner(m, Member(m, r, path[0]), path[1..])
  {
  }

  lemma LastMember(m: Memory, r: Ref, path: Path)
    requires |path| == 1
    ensures LeafReached(m, r, path) <==> Bare(Member(m, r, path[0]))
    ensures LeafReached(m, r, path) ==> To(Owner(m, r, path)) == r
  {
  }

  lemma WrapInIs(m: Memory, r: Ref, path: Path, w: JsObject)
    requires LeafReached(m, r, path)
    ensures var o, last := Owner(m, r, path), path[|path| - 1];
            WrapIn(m, r, path, Some(w)) == m[o := m[o][last := To(w)]][w := map["value" := m[o][last]]]
  {
  }

  lemma {:induction false} NothingBelow(m: Memory, r: Ref, path: Path)
    requires r.Value?
    ensures !LeafReached(m, r, path)
    decreases |path|
  {
    if |path| > 1 {
      NothingBelow(m, Value(Undefined), path[1..]);
    }
  }

  /** The loop over the paths, on any request at all: shared objects and cycles too. */
  method WrapFields(paths: seq<Path>, request: Ref, ghost objects: set<JsObject>)
    returns (ghost ws: seq<Option<JsObject>>, ghost all: set<JsObject>)
    requires Closed(Snapshot(objects), request)
    modifies objects
    ensures Wrappers(old(Snapshot(objects)), request, paths, ws)
    ensures fresh(all - objects) && Snapshot(all) == WrapAllIn(old(Snapshot(objects)), request, paths, ws)
  {
    ghost var m := Snapshot(objects);
    ws, all := [], objects;
    for i := 0 to |paths|
      invariant objects <= all && fresh(all - objects)
      invariant Closed(Snapshot(all), request)
      invariant Wrappers(m, request, paths[..i], ws)
      invariant Snapshot(all) == WrapAllIn(m, request, paths[..i], ws)
    {
      ghost var before := Snapshot(all);
      ghost var w := WrapPath(paths[i], request, all);
      WrapInCloses(before, request, paths[i], w);
      OneMore(m, request, paths[..i], ws, paths[i], w);
      assert paths[..i + 1] == paths[..i] + [paths[i]];
      ws := ws + [w];
      all := all + Made(w);
    }
    assert paths[..|paths|] == paths;
  }

  lemma {:induction false} OneMore(m: Memory, r: Ref, paths: seq<Path>, ws: seq<Option<JsObject>>,
                                   path: Path, w: Option<JsObject>)
    requires Wrappers(m, r, paths, ws)
    requires var after := WrapAllIn(m, r, paths, ws);
             (LeafReached(after, r, path) <==> w.Some?) && (w.Some? ==> w.value !in after)
    ensures Wrappers(m, r, paths + [path], ws + [w])
    ensures WrapAllIn(m, r, paths + [path], ws + [w]) == WrapIn(WrapAllIn(m, r, paths, ws), r, path, w)
    decreases |paths|
  {
    if paths == [] {
      assert (paths + [path])[1..] == [] && (ws + [w])[1..] == [];
    } else {
      assert (paths + [path])[1..] == paths[1..] + [path] && (ws + [w])[1..] == ws[1..] + [w];
      OneMore(WrapIn(m, r, paths[0], ws[0]), r, paths[1..], ws[1..], path, w);
    }
  }

  // -------------------------------------------------------- requests that are trees

  /** A request in which no object is met twice, as JSON text makes them. */
  datatype Tree = Flat(v: Js) | Node(at: JsObject, kids: map<string, Tree>)

  function Objects(t: Tree): set<JsObject>
    decreases t
  {
    if t.Flat? then {} else {t.at} + set name, o | name in t.kids && o in Objects(t.kids[name]) :: o
  }

  ghost predicate Separate(t: Tree)
    decreases t
  {
    t.Node? ==>
      && (forall name :: name in t.kids ==> t.at !in Objects(t.kids[name]) && Separate(t.kids[name]))
      && (forall a, b :: a in t.kids && b in t.kids && a != b ==> Objects(t.kids[a]) !! Objects(t.kids[b]))
  }

  function ValueOf(t: Tree): Js
    decreases t
  {
    if t.Flat? then t.v else Obj(map name | name in t.kids :: ValueOf(t.kids[name]))
  }

  /** `r` holds the tree `t`. */
  ghost predicate Holds(m: Memory, r: Ref, t: Tree)
    decreases t
  {
    match t
    case Flat(v) => !v.Obj? && r == Value(v)
    case Node(at, kids) =>
      && r == To(at) && at in m && m[at].Keys == kids.Keys
      && forall name :: name in kids ==> Holds(m, m[at][name], kids[name])
  }

  predicate LeafIn(t: Tree, path: Path)
    decreases |path|
  {
    && t.Node? && path[0] in t.kids
    && var kid := t.kids[path[0]];
       if |path| == 1 then kid.Flat? && IsLeaf(kid.v) else LeafIn(kid, path[1..])
  }

  /** The tree once the bare value at `path` is wrapped by `w`. */
  function WrapTree(t: Tree, path: Path, w: JsObject): Tree
    requires LeafIn(t, path)
    decreases |path|
  {
    var kid := t.kids[path[0]];
    Node(t.at, t.kids[path[0] := if |path| == 1 then Node(w, map["value" := kid]) else WrapTree(kid, path[1..], w)])
  }

  /** Memory, tree and value agree on where a path ends. */
  lemma {:induction false} SameLeaf(m: Memory, r: Ref, t: Tree, path: Path)
    requires Holds(m, r, t)
    ensures LeafReached(m, r, path) <==> LeafIn(t, path)
    ensures LeafAt(ValueOf(t), path) <==> LeafIn(t, path)
    ensures LeafReached(m, r, path) ==> Owner(m, r, path) in Objects(t)
    decreases |path|
  {
    if t.Node? && path[0] in t.kids {
      if |path| > 1 {
        SameLeaf(m, Member(m, r, path[0]), t.kids[path[0]], path[1..]);
      } else {
        KidIsLeaf(m, m[t.at][path[0]], t.kids[path[0]]);
      }
    } else if |path| > 1 {
      NothingBelow(m, Value(Undefined), path[1..]);
    }
  }

  lemma KidIsLeaf(m: Memory, r: Ref, t: Tree)
    requires Holds(m, r, t)
    ensures Bare(r) <==> t.Flat? && IsLeaf(t.v)
    ensures Bare(r) <==> IsLeaf(ValueOf(t))
  {
  }

  lemma {:induction false} ObjectsHeld(m: Memory, r: Ref, t: Tree)
    requires Holds(m, r, t)
    ensures Objects(t) <= m.Keys
    decreases t
  {
    if t.Node? {
      forall name | name in t.kids
        ensures Objects(t.kids[name]) <= m.Keys
      {
        ObjectsHeld(m, m[t.at][name], t.kids[name]);
      }
    }
  }

  /** Only the objects of a tree matter to it. */
  lemma {:induction false} HoldsElsewhere(m: Memory, g: Memory, r: Ref, t: Tree)
    requires Holds(m, r, t) && forall o :: o in Objects(t) ==> o in g && o in m && g[o] == m[o]
    ensures Holds(g, r, t)
    decreases t
  {
    if t.Node? {
      forall name | name in t.kids
        ensures Holds(g, m[t.at][name], t.kids[name])
      {
        HoldsElsewhere(m, g, m[t.at][name], t.kids[name]);
      }
    }
  }

  lemma ValueOfReplaced(t: Tree, name: string, kid: Tree)
    requires t.Node? && name in t.kids
    ensures ValueOf(Node(t.at, t.kids[name := kid])) == Obj(ValueOf(t).fields[name := ValueOf(kid)])
  {
  }

  lemma {:induction false} WrapTreeValue(t: Tree, path: Path, w: JsObject)
    requires LeafIn(t, path)
    ensures ValueOf(WrapTree(t, path, w)) == WrapOne(ValueOf(t), path)
    decreases |path|
  {
    var kid, name := t.kids[path[0]], path[0];
    if |path| == 1 {
      var wrapped := Node(w, map["value" := kid]);
      assert ValueOf(wrapped).fields == map["value" := ValueOf(kid)];
      ValueOfReplaced(t, name, wrapped);
    } else {
      WrapTreeValue(kid, path[1..], w);
      ValueOfReplaced(t, name, WrapTree(kid, path[1..], w));
    }
  }

  /** Objects of a tree: its own, and those of its branches. */
  lemma ObjectsOf(t: Tree, o: JsObject)
    requires t.Node?
    ensures o in Objects(t) <==> o == t.at || exists name :: name in t.kids && o in Objects(t.kids[name])
  {
  }

  lemma KidsWithin(t: Tree)
    requires t.Node?
    ensures t.at in Objects(t)
    ensures forall name :: name in t.kids ==> Objects(t.kids[name]) <= Objects(t)
  {
  }

  /** A branch that gains one new object, and nothing else. */
  lemma BranchGains(t: Tree, name: string, kid: Tree, w: JsObject)
    requires t.Node? && name in t.kids && Objects(kid) == Objects(t.kids[name]) + {w}
    ensures Objects(Node(t.at, t.kids[name := kid])) == Objects(t) + {w}
  {
    var u := Node(t.at, t.kids[name := kid]);
    hide Objects;
    forall o | o in Objects(u)
      ensures o in Objects(t) + {w}
    {
      ObjectGained(t, name, kid, w, o);
    }
    forall o | o in Objects(t) + {w}
      ensures o in Objects(u)
    {
      ObjectGained(t, name, kid, w, o);
    }
  }

  lemma ObjectGained(t: Tree, name: string, kid: Tree, w: JsObject, o: JsObject)
    requires t.Node? && name in t.kids && Objects(kid) == Objects(t.kids[name]) + {w}
    ensures o in Objects(Node(t.at, t.kids[name := kid])) <==> o in Objects(t) || o == w
  {
    var u := Node(t.at, t.kids[name := kid]);
    ObjectsOf(t, o);
    ObjectsOf(u, o);
    hide Objects;
    if other :| other in t.kids && o in Objects(t.kids[other]) {
      assert o in Objects(u.kids[other]);
    }
    if o == w { assert o in Objects(u.kids[name]); }
  }

  lemma StillSeparate(t: Tree, name: string, kid: Tree, w: JsObject)
    requires t.Node? && name in t.kids && Separate(t) && t.at != w
    requires forall other :: other in t.kids ==> w !in Objects(t.kids[other])
    requires Separate(kid) && Objects(kid) == Objects(t.kids[name]) + {w}
    ensures Separate(Node(t.at, t.kids[name := kid]))
  {
    hide Objects;
  }

  lemma {:induction false} WrapTreeObjects(t: Tree, path: Path, w: JsObject)
    requires LeafIn(t, path) && Separate(t) && w !in Objects(t)
    ensures Objects(WrapTree(t, path, w)) == Objects(t) + {w} && Separate(WrapTree(t, path, w))
    decreases |path|
  {
    var kid, name := t.kids[path[0]], path[0];
    KidsWithin(t);
    if |path| == 1 {
      var wrapped := Node(w, map["value" := kid]);
      assert Objects(wrapped) == {w};
      BranchGains(t, name, wrapped, w);
      StillSeparate(t, name, wrapped, w);
    } else {
      WrapTreeObjects(kid, path[1..], w);
      BranchGains(t, name, WrapTree(kid, path[1..], w), w);
      StillSeparate(t, name, WrapTree(kid, path[1..], w), w);
    }
  }

  /** A tree with one branch replaced. */
  lemma HoldsReplaced(g: Memory, t: Tree, name: string, kid: Tree)
    requires t.Node? && name in t.kids && t.at in g && g[t.at].Keys == t.kids.Keys
    requires Holds(g, g[t.at][name], kid)
    requires forall other :: other in t.kids && other != name ==> Holds(g, g[t.at][other], t.kids[other])
    ensures Holds(g, To(t.at), Node(t.at, t.kids[name := kid]))
  {
  }

  /** The assignment that wraps a bare value changes one branch of a tree and no other. */
  lemma {:induction false} WrapsInPlace(m: Memory, r: Ref, t: Tree, path: Path, w: JsObject)
    requires Holds(m, r, t) && Separate(t) && LeafReached(m, r, path) && LeafIn(t, path)
    requires w !in Objects(t)
    ensures Holds(WrapIn(m, r, path, Some(w)), r, WrapTree(t, path, w))
    decreases |path|
  {
    var g, name, kid := WrapIn(m, r, path, Some(w)), path[0], Node(w, map["value" := t.kids[path[0]]]);
    KidsWithin(t);
    hide Holds, Objects, Separate, LeafReached, Owner, WrapIn;
    if |path| == 1 {
      LastIsWrapped(m, r, t, path, w);
    } else {
      InnerIsWrapped(m, r, t, path, w);
      WrapsInPlace(m, m[t.at][name], t.kids[name], path[1..], w);
      kid := WrapTree(t.kids[name], path[1..], w);
    }
    forall other | other in t.kids && other != name
      ensures Holds(g, g[t.at][other], t.kids[other])
    {
      OtherBranch(m, r, t, path, w, other);
    }
    HoldsReplaced(g, t, name, kid);
  }

  lemma LastIsWrapped(m: Memory, r: Ref, t: Tree, path: Path, w: JsObject)
    requires Holds(m, r, t) && LeafReached(m, r, path) && LeafIn(t, path) && |path| == 1 && t.at != w
    ensures var g := WrapIn(m, r, path, Some(w));
            && r == To(t.at) && t.at in g && g[t.at] == m[t.at][path[0] := To(w)] && m[t.at].Keys == t.kids.Keys
            && Holds(g, To(w), Node(w, map["value" := t.kids[path[0]]]))
  {
  }

  lemma InnerIsWrapped(m: Memory, r: Ref, t: Tree, path: Path, w: JsObject)
    requires Holds(m, r, t) && Separate(t) && LeafReached(m, r, path) && LeafIn(t, path) && |path| > 1
    requires w !in Objects(t)
    ensures var g, inner := WrapIn(m, r, path, Some(w)), m[t.at][path[0]];
            && r == To(t.at) && t.at in g && g[t.at] == m[t.at] && m[t.at].Keys == t.kids.Keys
            && Holds(m, inner, t.kids[path[0]]) && LeafReached(m, inner, path[1..])
            && WrapIn(m, inner, path[1..], Some(w)) == g
            && Separate(t.kids[path[0]]) && w !in Objects(t.kids[path[0]])
  {
    SameLeaf(m, m[t.at][path[0]], t.kids[path[0]], path[1..]);
    hide Objects;
    KidsWithin(t);
  }

  lemma OtherBranch(m: Memory, r: Ref, t: Tree, path: Path, w: JsObject, other: string)
    requires Holds(m, r, t) && Separate(t) && LeafReached(m, r, path) && LeafIn(t, path)
    requires w !in Objects(t) && other in t.kids && other != path[0]
    ensures Holds(WrapIn(m, r, path, Some(w)), m[t.at][other], t.kids[other])
  {
    OwnerElsewhere(m, r, t, path, other);
    KidsWithin(t);
    hide Objects, Separate, LeafReached, Owner, LeafIn;
    ObjectsHeld(m, m[t.at][other], t.kids[other]);
    hide Holds, WrapIn;
    WrapInIs(m, r, path, w);
    HoldsElsewhere(m, WrapIn(m, r, path, Some(w)), m[t.at][other], t.kids[other]);
  }

  lemma OwnerElsewhere(m: Memory, r: Ref, t: Tree, path: Path, other: string)
    requires Holds(m, r, t) && Separate(t) && LeafReached(m, r, path) && LeafIn(t, path)
    requires other in t.kids && other != path[0]
    ensures Owner(m, r, path) !in Objects(t.kids[other])
  {
    hide Objects;
    if |path| > 1 { SameLeaf(m, m[t.at][path[0]], t.kids[path[0]], path[1..]); }
  }

  /** On a request that is a tree, assigning in place is the specification `Wrap`: the
      request object then holds the wrapped value, and is a tree still. */
  lemma {:induction false} TreesAreWrapped(m: Memory, r: Ref, t: Tree, paths: seq<Path>, ws: seq<Option<JsObject>>)
    returns (u: Tree)
    requires Holds(m, r, t) && Separate(t) && Objects(t) <= m.Keys && Wrappers(m, r, paths, ws)
    ensures Holds(WrapAllIn(m, r, paths, ws), r, u) && Separate(u)
    ensures ValueOf(u) == Wrap(ValueOf(t), paths)
    decreases |paths|
  {
    u := t;
    if paths != [] {
      var g := WrapIn(m, r, paths[0], ws[0]);
      SameLeaf(m, r, t, paths[0]);
      if ws[0].Some? {
        WrapsInPlace(m, r, t, paths[0], ws[0].value);
        WrapTreeValue(t, paths[0], ws[0].value);
        WrapTreeObjects(t, paths[0], ws[0].value);
        u := TreesAreWrapped(g, r, WrapTree(t, paths[0], ws[0].value), paths[1..], ws[1..]);
      } else {
        WrapsOnlyLeaves(ValueOf(t), paths[0]);
        u := TreesAreWrapped(g, r, t, paths[1..], ws[1..]);
      }
    }
  }
}
