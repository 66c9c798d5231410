/** The mesh side of the scene code: welding vertices by key in first-appearance order
    (shared by the OBJ loader and the navmesh builder), the navmesh neighbour lists, the
    triangle filter of `clip_meshes` and the classification of loaded objects. */
module SceneMesh {
  import opened Vectors
  import opened Options
  import opened AStar
  import opened SceneAnimation

  // ---------------------------------------------------------------------------
  // Welding by key

  /** No earlier position holds the same key as position `i`. */
  ghost predicate FirstOf<K>(keys: seq<K>, i: int)
    requires 0 <= i < |keys|
  {
    forall h :: 0 <= h < i ==> keys[h] != keys[i]
  }

  /** `newIdxs` numbers the keys by first appearance and `firsts` lists, in order, the
      position of each key's first appearance: position `i` gets the number of its key, and
      key number `j` first appears at `firsts[j]`. */
  ghost predicate IsWeld<K>(keys: seq<K>, newIdxs: seq<int>, firsts: seq<int>)
  {
    && |newIdxs| == |keys|
    && (forall i :: 0 <= i < |keys| ==> 0 <= newIdxs[i] < |firsts| && 0 <= firsts[newIdxs[i]] < |keys|
                                        && keys[firsts[newIdxs[i]]] == keys[i])
    && (forall j :: 0 <= j < |firsts| ==> 0 <= firsts[j] < |keys| && newIdxs[firsts[j]] == j && FirstOf(keys, firsts[j]))
    && (forall j, k :: 0 <= j < k < |firsts| ==> firsts[j] < firsts[k])
  }

  /** The weld loop shared by `load_obj` and `get_navmesh`: each key is looked up in a map
      from key to new index; a key seen for the first time gets the next index and its
      position is recorded. */
  method Weld<K(==)>(keys: seq<K>) returns (newIdxs: seq<int>, firsts: seq<int>)
    ensures IsWeld(keys, newIdxs, firsts)
  {
    var seen: map<K, int> := map[];
    newIdxs, firsts := [], [];
    var i := 0;
    while i < |keys|
      invariant 0 <= i <= |keys| && |newIdxs| == i
      invariant forall h :: 0 <= h < i ==> keys[h] in seen && newIdxs[h] == seen[keys[h]]
      invariant forall j :: 0 <= j < |firsts| ==> 0 <= firsts[j] < i && newIdxs[firsts[j]] == j && FirstOf(keys, firsts[j])
      invariant forall k :: k in seen ==> 0 <= seen[k] < |firsts| && keys[firsts[seen[k]]] == k
      invariant forall j, k :: 0 <= j < k < |firsts| ==> firsts[j] < firsts[k]
    {
      var key := keys[i];
      if key !in seen {
        seen := seen[key := |firsts|];
        firsts := firsts + [i];
      }
      newIdxs := newIdxs + [seen[key]];
      i := i + 1;
    }
  }

  /** Two positions get the same new index exactly when they hold the same key. */
  lemma WeldSameKey<K>(keys: seq<K>, newIdxs: seq<int>, firsts: seq<int>, a: int, b: int)
    requires IsWeld(keys, newIdxs, firsts) && 0 <= a < |keys| && 0 <= b < |keys|
    ensures newIdxs[a] == newIdxs[b] <==> keys[a] == keys[b]
  {
    if keys[a] == keys[b] {
      var fa, fb := firsts[newIdxs[a]], firsts[newIdxs[b]];
      assert FirstOf(keys, fa) && FirstOf(keys, fb);
      assert fa == fb;
    }
  }

  /** New indices appear in order: the first position with a new index beyond every earlier
      one takes the next number, so the indices used by a prefix are `0..k-1`. */
  lemma WeldNumbersInOrder<K>(keys: seq<K>, newIdxs: seq<int>, firsts: seq<int>, i: int)
    requires IsWeld(keys, newIdxs, firsts) && 0 <= i < |keys|
    ensures forall j :: 0 <= j < newIdxs[i] ==> firsts[j] < i
  {
    forall j | 0 <= j < newIdxs[i]
      ensures firsts[j] < i
    {
      assert firsts[j] < firsts[newIdxs[i]];
      assert FirstOf(keys, firsts[newIdxs[i]]);
    }
  }

  // ---------------------------------------------------------------------------
  // Sorting with duplicates removed

  predicate Increasing(s: seq<int>)
  {
    forall i, j :: 0 <= i < j < |s| ==> s[i] < s[j]
  }

  /** `x` put into its place in a strictly increasing sequence, unless it is there already. */
  function Insert(s: seq<int>, x: int): (r: seq<int>)
    requires Increasing(s)
    ensures Increasing(r) && forall y :: y in r <==> y == x || y in s
  {
    if |s| == 0 then [x]
    else if x < s[0] then [x] + s
    else if x == s[0] then s
    else
      assert Increasing(s[1..]);
      var rest := Insert(s[1..], x);
      assert forall y :: y in rest ==> s[0] < y;
      var r := [s[0]] + rest;
      assert forall j :: 1 <= j < |r| ==> r[j] == rest[j - 1] && rest[j - 1] in rest;
      r
  }

  /** `sort` followed by `dedup`: the elements of `xs` in strictly increasing order. */
  function SortDedup(xs: seq<int>): (r: seq<int>)
    ensures Increasing(r) && forall y :: y in r <==> y in xs
  {
    if |xs| == 0 then [] else Insert(SortDedup(xs[..|xs| - 1]), xs[|xs| - 1])
  }

  /** A strictly increasing sequence is fixed by its elements, so `SortDedup` is the only
      sorted, duplicate-free arrangement of them. */
  lemma {:induction false} IncreasingUnique(a: seq<int>, b: seq<int>)
    requires Increasing(a) && Increasing(b) && forall y :: y in a <==> y in b
    ensures a == b
    decreases |a|
  {
    assert |a| > 0 <==> |b| > 0 by {
      if |a| > 0 {
        assert a[0] in a;
      }
      if |b| > 0 {
        assert b[0] in b;
      }
    }
    if |a| > 0 {
      assert a[0] == b[0] by {
        assert a[0] in a && b[0] in b;
      }
      forall y
        ensures y in a[1..] <==> y in b[1..]
      {
        if y in a[1..] {
          assert y in b && y != b[0];
        }
        if y in b[1..] {
          assert y in a && y != a[0];
        }
      }
      IncreasingUnique(a[1..], b[1..]);
      assert a == [a[0]] + a[1..] && b == [b[0]] + b[1..];
    }
  }

  // ---------------------------------------------------------------------------
  // `get_navmesh`

  datatype Tri = Tri(a: int, b: int, c: int)

  function Corners(t: Tri): set<int> { {t.a, t.b, t.c} }

  /** Every index in the buffer can index the vertex list. */
  predicate IndicesIn(idxs: seq<int>, n: int)
  {
    forall k :: 0 <= k < |idxs| ==> 0 <= idxs[k] < n
  }

  /** The welded triangles: each index triple of the buffer, each index replaced by the new
      index of its vertex. */
  function Welded(idxs: seq<int>, newIdxs: seq<int>): (r: seq<Tri>)
    requires |idxs| % 3 == 0 && IndicesIn(idxs, |newIdxs|)
    ensures |r| == |idxs| / 3
  {
    seq(|idxs| / 3, t requires 0 <= t < |idxs| / 3 =>
      Tri(newIdxs[idxs[3 * t]], newIdxs[idxs[3 * t + 1]], newIdxs[idxs[3 * t + 2]]))
  }

  /** The corners of every triangle that has `j` as a corner, `j` itself included. */
  function Around(tris: seq<Tri>, j: int): set<int>
  {
    if |tris| == 0 then {}
    else
      var last := tris[|tris| - 1];
      Around(tris[..|tris| - 1], j) + (if j in Corners(last) then Corners(last) else {})
  }

  /** Sharing a triangle is symmetric, so the neighbour relation is too. */
  lemma {:induction false} AroundSymmetric(tris: seq<Tri>, j: int, m: int)
    ensures m in Around(tris, j) <==> j in Around(tris, m)
  {
    if |tris| > 0 {
      AroundSymmetric(tris[..|tris| - 1], j, m);
    }
  }

  /** A node is among the corners around itself exactly when some triangle has it as a
      corner. */
  lemma {:induction false} AroundHasSelf(tris: seq<Tri>, j: int)
    ensures j in Around(tris, j) <==> exists t :: 0 <= t < |tris| && j in Corners(tris[t])
  {
    if |tris| > 0 {
      var init := tris[..|tris| - 1];
      AroundHasSelf(init, j);
      if j in Around(init, j) {
        var t :| 0 <= t < |init| && j in Corners(init[t]);
        assert tris[t] == init[t];
      }
      if exists t :: 0 <= t < |tris| && j in Corners(tris[t]) {
        var t :| 0 <= t < |tris| && j in Corners(tris[t]);
        if t < |init| {
          assert init[t] == tris[t];
        }
      }
    }
  }

  /** A node that is a corner of no triangle has nothing around it. */
  lemma {:induction false} AroundWithoutSelf(tris: seq<Tri>, j: int)
    ensures j !in Around(tris, j) ==> Around(tris, j) == {}
  {
    if |tris| > 0 {
      AroundWithoutSelf(tris[..|tris| - 1], j);
    }
  }

  /** Corners in range give neighbours in range. */
  lemma {:induction false} AroundBounded(tris: seq<Tri>, j: int, n: int)
    requires forall t :: 0 <= t < |tris| ==> 0 <= tris[t].a < n && 0 <= tris[t].b < n && 0 <= tris[t].c < n
    ensures forall m :: m in Around(tris, j) ==> 0 <= m < n
  {
    if |tris| > 0 {
      AroundBounded(tris[..|tris| - 1], j, n);
    }
  }

  /** The keys of the vertex positions under the quantisation function. */
  function Keys<K>(vtxs: seq<Vec3>, key: Vec3 -> K): (r: seq<K>)
    ensures |r| == |vtxs| && forall i :: 0 <= i < |vtxs| ==> r[i] == key(vtxs[i])
  {
    seq(|vtxs|, i requires 0 <= i < |vtxs| => key(vtxs[i]))
  }

  /** The navmesh node for welded index `j`: the position of its first vertex and the other
      corners of the triangles around it, sorted and without duplicates. */
  ghost predicate IsNavNode(node: NavNode, vtxs: seq<Vec3>, tris: seq<Tri>, firsts: seq<int>, j: int)
    requires 0 <= j < |firsts| && 0 <= firsts[j] < |vtxs|
  {
    node.pos == vtxs[firsts[j]] && Increasing(node.neighbours)
    && forall m :: m in node.neighbours <==> m in Around(tris, j) && m != j
  }

  /** `get_navmesh` after the mesh has been read: vertices whose quantised keys agree are
      welded to one node, numbered by first appearance; the index buffer is read in triples.
      It panics on an incomplete triple or an index outside the vertex list (when indexing
      `new_idxs` or the triple), and on a welded vertex that is in no triangle (when indexing
      the neighbour map). Otherwise node `j` sits at its first vertex and lists the other
      corners of the triangles around it. */
  method GetNavmesh<K(==)>(vtxs: seq<Vec3>, idxs: seq<int>, key: Vec3 -> K)
    returns (r: Option<seq<NavNode>>, newIdxs: seq<int>, firsts: seq<int>)
    ensures IsWeld(Keys(vtxs, key), newIdxs, firsts)
    ensures r.Some? <==> |idxs| % 3 == 0 && IndicesIn(idxs, |vtxs|)
                         && forall j :: 0 <= j < |firsts| ==> j in Around(Welded(idxs, newIdxs), j)
    ensures r.Some? ==> |r.value| == |firsts|
                        && forall j :: 0 <= j < |firsts| ==> IsNavNode(r.value[j], vtxs, Welded(idxs, newIdxs), firsts, j)
  {
    newIdxs, firsts := Weld(Keys(vtxs, key));
    assert |newIdxs| == |vtxs|;
    var adj;
    adj := Neighbourhoods(idxs, newIdxs);
    if adj.None? {
      return None, newIdxs, firsts;
    }
    ghost var tris := Welded(idxs, newIdxs);
    var nodes: seq<NavNode> := [];
    var j := 0;
    while j < |firsts|
      invariant 0 <= j <= |firsts| && |nodes| == j
      invariant forall h :: 0 <= h < j ==> h in Around(tris, h)
      invariant forall h :: 0 <= h < j ==> IsNavNode(nodes[h], vtxs, tris, firsts, h)
    {
      if j !in adj.value {
        assert j !in Around(tris, j);
        return None, newIdxs, firsts;
      }
      var neighbours := Others(adj.value[j], j);
      nodes := nodes + [NavNode(vtxs[firsts[j]], SortDedup(neighbours))];
      j := j + 1;
    }
    r := Some(nodes);
  }

  /** The elements of `xs` other than `j`, in order. */
  method Others(xs: seq<int>, j: int) returns (r: seq<int>)
    ensures forall m :: m in r <==> m in xs && m != j
  {
    r := [];
    for k := 0 to |xs|
      invariant forall m :: m in r <==> m in xs[..k] && m != j
    {
      assert xs[..k + 1] == xs[..k] + [xs[k]];
      if xs[k] != j {
        r := r + [xs[k]];
      }
    }
    assert xs[..|xs|] == xs;
  }

  /** The neighbour-map loop of `get_navmesh`: for each triple and each of its corners, the
      welded triple is appended to the corner's list. A node is a key of the map exactly when
      it is a corner of some triangle, and its list holds the corners around it. */
  method Neighbourhoods(idxs: seq<int>, newIdxs: seq<int>) returns (r: Option<map<int, seq<int>>>)
    ensures r.Some? <==> |idxs| % 3 == 0 && IndicesIn(idxs, |newIdxs|)
    ensures r.Some? ==> forall j :: (j in r.value <==> j in Around(Welded(idxs, newIdxs), j))
                                     && (j in r.value ==> forall m :: m in r.value[j] <==> m in Around(Welded(idxs, newIdxs), j))
  {
    var inRange := InRange(idxs, |newIdxs|);
    if |idxs| % 3 != 0 || !inRange {
      return None;
    }
    ghost var tris := Welded(idxs, newIdxs);
    var adj: map<int, seq<int>> := map[];
    var t := 0;
    while t < |idxs| / 3
      invariant 0 <= t <= |idxs| / 3
      invariant Covers(adj, tris[..t])
    {
      var tri := Tri(newIdxs[idxs[3 * t]], newIdxs[idxs[3 * t + 1]], newIdxs[idxs[3 * t + 2]]);
      assert tri == tris[t];
      assert tris[..t + 1] == tris[..t] + [tri];
      CoversStep(adj, tris[..t], tri);
      adj := AddTriangle(AddTriangle(AddTriangle(adj, tri.a, tri), tri.b, tri), tri.c, tri);
      t := t + 1;
    }
    assert tris[..t] == tris;
    r := Some(adj);
  }

  /** The neighbour map after a list of triangles: a node is a key exactly when some
      triangle has it as a corner, and its list holds the corners around it. */
  ghost predicate Covers(adj: map<int, seq<int>>, tris: seq<Tri>)
  {
    forall j :: (j in adj <==> j in Around(tris, j))
                && (j in adj ==> forall m :: m in adj[j] <==> m in Around(tris, j))
  }

  /** Appending one triangle to the lists of its three corners keeps `Covers`. */
  lemma CoversStep(adj: map<int, seq<int>>, tris: seq<Tri>, tri: Tri)
    requires Covers(adj, tris)
    ensures Covers(AddTriangle(AddTriangle(AddTriangle(adj, tri.a, tri), tri.b, tri), tri.c, tri), tris + [tri])
  {
    var tris' := tris + [tri];
    assert tris'[..|tris'| - 1] == tris;
    AddCorners(adj, tri);
    var adj' := AddTriangle(AddTriangle(AddTriangle(adj, tri.a, tri), tri.b, tri), tri.c, tri);
    forall j
      ensures (j in adj' <==> j in Around(tris', j))
              && (j in adj' ==> forall m :: m in adj'[j] <==> m in Around(tris', j))
    {
      assert Around(tris', j) == Around(tris, j) + (if j in Corners(tri) then Corners(tri) else {});
      AroundWithoutSelf(tris, j);
    }
  }

  /** The three appends of one triangle, taken together. */
  lemma AddCorners(adj: map<int, seq<int>>, tri: Tri)
    ensures var adj' := AddTriangle(AddTriangle(AddTriangle(adj, tri.a, tri), tri.b, tri), tri.c, tri);
            forall j :: (j in adj' <==> j in adj || j in Corners(tri))
                        && (j in adj' ==> forall m :: m in adj'[j] <==> (j in adj && m in adj[j]) || (j in Corners(tri) && m in Corners(tri)))
  {
    var adj1 := AddTriangle(adj, tri.a, tri);
    var adj2 := AddTriangle(adj1, tri.b, tri);
    var adj3 := AddTriangle(adj2, tri.c, tri);
    forall j | j in adj3
      ensures forall m :: m in adj3[j] <==> (j in adj && m in adj[j]) || (j in Corners(tri) && m in Corners(tri))
    {
    }
  }

  /** `entry(corner).or_insert(vec![]).extend(triangle)`. */
  function AddTriangle(adj: map<int, seq<int>>, corner: int, tri: Tri): (r: map<int, seq<int>>)
    ensures r.Keys == adj.Keys + {corner}
    ensures forall j :: j in r ==> forall m :: m in r[j] <==> (j in adj && m in adj[j]) || (j == corner && m in Corners(tri))
  {
    adj[corner := (if corner in adj then adj[corner] else []) + [tri.a, tri.b, tri.c]]
  }

  /** The range test of the index loop, as a loop over the buffer. */
  method InRange(idxs: seq<int>, n: int) returns (ok: bool)
    ensures ok <==> IndicesIn(idxs, n)
  {
    for k := 0 to |idxs|
      invariant IndicesIn(idxs[..k], n)
    {
      if !(0 <= idxs[k] < n) {
        return false;
      }
      assert idxs[..k + 1] == idxs[..k] + [idxs[k]];
    }
    assert idxs[..|idxs|] == idxs;
    return true;
  }

  /** The nodes `get_navmesh` builds are a graph the A* solver can search: every neighbour is
      a node index, no node is its own neighbour, and neighbourhood is symmetric. */
  lemma NavmeshIsGraph<K>(vtxs: seq<Vec3>, idxs: seq<int>, key: Vec3 -> K, nodes: seq<NavNode>, newIdxs: seq<int>, firsts: seq<int>)
    requires IsWeld(Keys(vtxs, key), newIdxs, firsts)
    requires |idxs| % 3 == 0 && IndicesIn(idxs, |vtxs|) && |nodes| == |firsts|
    requires forall j :: 0 <= j < |firsts| ==> IsNavNode(nodes[j], vtxs, Welded(idxs, newIdxs), firsts, j)
    ensures NeighboursInRange(nodes)
    ensures forall j :: 0 <= j < |nodes| ==> j !in nodes[j].neighbours
    ensures forall j, m :: 0 <= j < |nodes| && 0 <= m < |nodes| ==> (m in nodes[j].neighbours <==> j in nodes[m].neighbours)
  {
    var tris := Welded(idxs, newIdxs);
    forall t | 0 <= t < |tris|
      ensures 0 <= tris[t].a < |firsts| && 0 <= tris[t].b < |firsts| && 0 <= tris[t].c < |firsts|
    {
      assert 0 <= idxs[3 * t] < |vtxs| && 0 <= idxs[3 * t + 1] < |vtxs| && 0 <= idxs[3 * t + 2] < |vtxs|;
    }
    forall j | 0 <= j < |nodes|
      ensures IndicesBelow(nodes[j].neighbours, |nodes|)
    {
      AroundBounded(tris, j, |firsts|);
      assert forall k :: 0 <= k < |nodes[j].neighbours| ==> nodes[j].neighbours[k] in nodes[j].neighbours;
    }
    forall j, m | 0 <= j < |nodes| && 0 <= m < |nodes|
      ensures m in nodes[j].neighbours <==> j in nodes[m].neighbours
    {
      AroundSymmetric(tris, j, m);
    }
  }

  // ---------------------------------------------------------------------------
  // Meshes, object kinds and the OBJ loader

  /** A vertex of a render mesh: position, two texture coordinates and a normal (the colour
      is always white). */
  datatype MeshVertex = MeshVertex(pos: Vec3, uv: Vec2, uv2: Vec2, normal: Vec3)

  /** A mesh: its vertices, its index buffer and the name of its material, if any. */
  datatype Mesh = Mesh(vtxs: seq<MeshVertex>, idxs: seq<int>, material: Option<string>)

  datatype Kind =
    | MultiMesh(meshes: seq<Mesh>)
    | CollisionMesh(meshes: seq<Mesh>)
    | NavMesh(nodes: seq<NavNode>)
    | Light(intensity: real, color: Vec3)
    | Empty

  /** A scene object: its name, transform and animations, and what kind of thing it is. */
  datatype SceneObject = SceneObject(obj: Object, kind: Kind)

  predicate StartsWith(s: string, prefix: string)
  {
    |prefix| <= |s| && s[..|prefix|] == prefix
  }

  /** One corner of an OBJ face: a position index and optional texture and normal indices. */
  datatype ObjIndex = ObjIndex(v: int, t: Option<int>, n: Option<int>)

  /** An OBJ shape: a triangle, or some other primitive (a point or a line). */
  datatype Shape = Triangle(i1: ObjIndex, i2: ObjIndex, i3: ObjIndex) | OtherPrimitive

  /** The attribute lists of a parsed OBJ object (texture coordinates as `(u, v, w)`). */
  datatype ObjData = ObjData(vertices: seq<Vec3>, texVertices: seq<Vec3>, normals: seq<Vec3>)

  /** The vertex built for a corner when it is first seen: a missing texture coordinate or
      normal becomes zero, the second texture coordinate is zero; an index outside its list
      panics (`None`). */
  function ObjVertex(data: ObjData, idx: ObjIndex): (r: Option<MeshVertex>)
    ensures r.Some? <==> 0 <= idx.v < |data.vertices|
                         && (idx.t.Some? ==> 0 <= idx.t.value < |data.texVertices|)
                         && (idx.n.Some? ==> 0 <= idx.n.value < |data.normals|)
    ensures r.Some? ==> r.value.pos == data.vertices[idx.v] && r.value.uv2 == Vec2(0.0, 0.0)
    ensures r.Some? && idx.t.None? ==> r.value.uv == Vec2(0.0, 0.0)
    ensures r.Some? && idx.n.None? ==> r.value.normal == Zero3
  {
    if !(0 <= idx.v < |data.vertices|) then None
    else if idx.t.Some? && !(0 <= idx.t.value < |data.texVertices|) then None
    else if idx.n.Some? && !(0 <= idx.n.value < |data.normals|) then None
    else
      var uv := if idx.t.Some? then Vec2(data.texVertices[idx.t.value].x, data.texVertices[idx.t.value].y) else Vec2(0.0, 0.0);
      var normal := if idx.n.Some? then data.normals[idx.n.value] else Zero3;
      Some(MeshVertex(data.vertices[idx.v], uv, Vec2(0.0, 0.0), normal))
  }

  predicate AllTriangles(shapes: seq<Shape>)
  {
    forall i :: 0 <= i < |shapes| ==> shapes[i].Triangle?
  }

  /** The corners of the triangles, three per shape, in order. */
  function ObjCorners(shapes: seq<Shape>): (r: seq<ObjIndex>)
    requires AllTriangles(shapes)
    ensures |r| == 3 * |shapes|
  {
    if |shapes| == 0 then []
    else
      var last := shapes[|shapes| - 1];
      ObjCorners(shapes[..|shapes| - 1]) + [last.i1, last.i2, last.i3]
  }

  /** The corner loop of `load_obj` for one geometry: a non-triangle shape panics; each corner
      index triple is looked up in a map and gets a new vertex the first time it is seen. */
  method LoadObjGeometry(data: ObjData, shapes: seq<Shape>) returns (r: Option<(seq<MeshVertex>, seq<int>)>, ghost firsts: seq<int>)
    ensures r.Some? <==> AllTriangles(shapes)
                         && forall k :: 0 <= k < |ObjCorners(shapes)| ==> ObjVertex(data, ObjCorners(shapes)[k]).Some?
    ensures r.Some? ==> var (vtxs, idxs) := r.value;
                        && IsWeld(ObjCorners(shapes), idxs, firsts) && |vtxs| == |firsts|
                        && forall j :: 0 <= j < |vtxs| ==> Some(vtxs[j]) == ObjVertex(data, ObjCorners(shapes)[firsts[j]])
  {
    firsts := [];
    var corners := CollectCorners(shapes);
    if corners.None? {
      return None, firsts;
    }
    var cs := corners.value;
    var newIdxs, fs := Weld(cs);
    firsts := fs;
    var vtxs: seq<MeshVertex> := [];
    for j := 0 to |fs|
      invariant |vtxs| == j
      invariant forall h :: 0 <= h < j ==> Some(vtxs[h]) == ObjVertex(data, cs[fs[h]])
    {
      var v := ObjVertex(data, cs[fs[j]]);
      if v.None? {
        return None, firsts;
      }
      vtxs := vtxs + [v.value];
    }
    forall k | 0 <= k < |cs|
      ensures ObjVertex(data, cs[k]).Some?
    {
      assert cs[fs[newIdxs[k]]] == cs[k];
    }
    r := Some((vtxs, newIdxs));
  }

  /** The shape loop: the corners of the triangles in order, or a panic at a shape that is
      not a triangle. */
  method CollectCorners(shapes: seq<Shape>) returns (r: Option<seq<ObjIndex>>)
    ensures r.Some? <==> AllTriangles(shapes)
    ensures r.Some? ==> r.value == ObjCorners(shapes)
  {
    var cs: seq<ObjIndex> := [];
    for i := 0 to |shapes|
      invariant AllTriangles(shapes[..i]) && cs == ObjCorners(shapes[..i])
    {
      if !shapes[i].Triangle? {
        return None;
      }
      assert shapes[..i + 1][..i] == shapes[..i];
      cs := cs + [shapes[i].i1, shapes[i].i2, shapes[i].i3];
    }
    assert shapes[..|shapes|] == shapes;
    r := Some(cs);
  }

  /** The kind `load_obj` gives an object: an object named "Navmesh" is not implemented and
      panics; one whose name starts with "Collision" is a collision mesh; any other is a
      render mesh. */
  function ObjKind(name: string, meshes: seq<Mesh>): (r: Option<Kind>)
    ensures r.None? <==> name == "Navmesh"
    ensures r.Some? ==> (r.value.CollisionMesh? <==> StartsWith(name, "Collision"))
                        && (r.value.MultiMesh? <==> !StartsWith(name, "Collision"))
                        && (r.value.CollisionMesh? || r.value.MultiMesh?) && r.value.meshes == meshes
  {
    if name == "Navmesh" then None
    else if StartsWith(name, "Collision") then Some(CollisionMesh(meshes))
    else Some(MultiMesh(meshes))
  }

  /** The five branches of the node loop of `load_gltf`. */
  datatype NodeKind = NavMeshNode | LightNode | CollisionNode | MeshNode | EmptyNode

  /** `load_gltf` classifies a node by its name (missing: empty), then whether it has a light,
      then whether it has a mesh: the name "Navmesh" wins over everything, a light over a
      mesh, and the "Collision" prefix only matters for a mesh. */
  function GltfKind(name: Option<string>, hasLight: bool, hasMesh: bool): (r: NodeKind)
    ensures var n := if name.Some? then name.value else "";
            && (r == NavMeshNode <==> n == "Navmesh")
            && (r == LightNode <==> n != "Navmesh" && hasLight)
            && (r == CollisionNode <==> n != "Navmesh" && !hasLight && hasMesh && StartsWith(n, "Collision"))
            && (r == MeshNode <==> n != "Navmesh" && !hasLight && hasMesh && !StartsWith(n, "Collision"))
            && (r == EmptyNode <==> n != "Navmesh" && !hasLight && !hasMesh)
  {
    var n := if name.Some? then name.value else "";
    if n == "Navmesh" then NavMeshNode
    else if hasLight then LightNode
    else if hasMesh then (if StartsWith(n, "Collision") then CollisionNode else MeshNode)
    else EmptyNode
  }

  /** The two loaders agree on meshes: a mesh node of a glTF file gets the kind an OBJ object
      of the same name gets. */
  lemma LoadersAgreeOnMeshKinds(name: string, meshes: seq<Mesh>)
    requires name != "Navmesh"
    ensures ObjKind(name, meshes).value.CollisionMesh? <==> GltfKind(Some(name), false, true) == CollisionNode
  {
  }

  // ---------------------------------------------------------------------------
  // `clip_meshes`

  /** The index triples of a buffer whose length is a multiple of 3. */
  function Triples(idxs: seq<int>): (r: seq<Tri>)
    requires |idxs| % 3 == 0
    ensures |r| == |idxs| / 3
    ensures forall t :: 0 <= t < |r| ==> r[t] == Tri(idxs[3 * t], idxs[3 * t + 1], idxs[3 * t + 2])
  {
    seq(|idxs| / 3, t requires 0 <= t < |idxs| / 3 => Tri(idxs[3 * t], idxs[3 * t + 1], idxs[3 * t + 2]))
  }

  predicate TriIn(t: Tri, n: int)
  {
    0 <= t.a < n && 0 <= t.b < n && 0 <= t.c < n
  }

  /** The centre a triangle is tested at: the mean of its three vertex positions. */
  function Centre(vtxs: seq<MeshVertex>, t: Tri): Vec3
    requires TriIn(t, |vtxs|)
  {
    Scale3(1.0 / 3.0, Add3(Add3(vtxs[t.a].pos, vtxs[t.b].pos), vtxs[t.c].pos))
  }

  /** The triangles that are kept, flattened back into an index buffer, in their order. */
  function Kept(vtxs: seq<MeshVertex>, tris: seq<Tri>, keep: Vec3 -> bool): seq<int>
    requires forall t :: 0 <= t < |tris| ==> TriIn(tris[t], |vtxs|)
  {
    if |tris| == 0 then []
    else
      var last := tris[|tris| - 1];
      Kept(vtxs, tris[..|tris| - 1], keep) + (if keep(Centre(vtxs, last)) then [last.a, last.b, last.c] else [])
  }

  /** The index filter of `clip_meshes` for one mesh. Reading the buffer in chunks of 3
      panics on a short last chunk, and indexing the vertices panics on an index outside
      them; otherwise each triple is kept when its centre passes `keep`. */
  method ClipIndices(vtxs: seq<MeshVertex>, idxs: seq<int>, keep: Vec3 -> bool) returns (r: Option<seq<int>>)
    ensures r.Some? <==> |idxs| % 3 == 0 && IndicesIn(idxs, |vtxs|)
    ensures r.Some? ==> forall t :: 0 <= t < |Triples(idxs)| ==> TriIn(Triples(idxs)[t], |vtxs|)
    ensures r.Some? ==> r.value == Kept(vtxs, Triples(idxs), keep)
  {
    var inRange := InRange(idxs, |vtxs|);
    if |idxs| % 3 != 0 || !inRange {
      return None;
    }
    ghost var tris := Triples(idxs);
    TriplesIn(idxs, |vtxs|);
    var out: seq<int> := [];
    var t := 0;
    while t < |idxs| / 3
      invariant 0 <= t <= |idxs| / 3
      invariant out == Kept(vtxs, tris[..t], keep)
    {
      var tri := Tri(idxs[3 * t], idxs[3 * t + 1], idxs[3 * t + 2]);
      assert tris[..t + 1][..t] == tris[..t] && tris[..t + 1][t] == tri;
      if keep(Centre(vtxs, tri)) {
        out := out + [tri.a, tri.b, tri.c];
      }
      t := t + 1;
    }
    assert tris[..t] == tris;
    r := Some(out);
  }

  /** Indices inside the vertex list make triples inside it. */
  lemma TriplesIn(idxs: seq<int>, n: int)
    requires |idxs| % 3 == 0 && IndicesIn(idxs, n)
    ensures forall t :: 0 <= t < |Triples(idxs)| ==> TriIn(Triples(idxs)[t], n)
  {
    forall t | 0 <= t < |Triples(idxs)|
      ensures TriIn(Triples(idxs)[t], n)
    {
      assert 0 <= idxs[3 * t] < n && 0 <= idxs[3 * t + 1] < n && 0 <= idxs[3 * t + 2] < n;
    }
  }

  /** A triangle is in the kept buffer exactly when it is one of the triangles and its centre
      passes; the kept buffer is whole triangles and no longer than the original. */
  lemma {:induction false} KeptTriangles(vtxs: seq<MeshVertex>, tris: seq<Tri>, keep: Vec3 -> bool, x: Tri)
    requires forall t :: 0 <= t < |tris| ==> TriIn(tris[t], |vtxs|)
    ensures |Kept(vtxs, tris, keep)| % 3 == 0 && |Kept(vtxs, tris, keep)| <= 3 * |tris|
    ensures x in Triples(Kept(vtxs, tris, keep)) <==> x in tris && keep(Centre(vtxs, x))
  {
    if |tris| > 0 {
      var init, last := tris[..|tris| - 1], tris[|tris| - 1];
      KeptTriangles(vtxs, init, keep, x);
      var k0 := Kept(vtxs, init, keep);
      var k := Kept(vtxs, tris, keep);
      if keep(Centre(vtxs, last)) {
        assert k == k0 + [last.a, last.b, last.c];
        assert Triples(k) == Triples(k0) + [last];
      } else {
        assert k == k0;
      }
      assert tris == init + [last];
    }
  }

  /** The index buffer of a list of triangles. */
  function Flatten(tris: seq<Tri>): (r: seq<int>)
    ensures |r| == 3 * |tris|
  {
    if |tris| == 0 then [] else var last := tris[|tris| - 1]; Flatten(tris[..|tris| - 1]) + [last.a, last.b, last.c]
  }

  /** Reading a buffer in triples and writing the triples back gives the buffer. */
  lemma {:induction false} FlattenTriples(idxs: seq<int>)
    requires |idxs| % 3 == 0
    ensures Flatten(Triples(idxs)) == idxs
    decreases |idxs|
  {
    if |idxs| > 0 {
      var n := |idxs|;
      var init := idxs[..n - 3];
      var tris := Triples(idxs);
      forall t | 0 <= t < |tris| - 1
        ensures tris[..|tris| - 1][t] == Triples(init)[t]
      {
        assert init[3 * t] == idxs[3 * t] && init[3 * t + 1] == idxs[3 * t + 1] && init[3 * t + 2] == idxs[3 * t + 2];
      }
      assert tris[..|tris| - 1] == Triples(init);
      FlattenTriples(init);
      assert tris[|tris| - 1] == Tri(idxs[n - 3], idxs[n - 2], idxs[n - 1]);
      assert idxs == init + [idxs[n - 3], idxs[n - 2], idxs[n - 1]];
    }
  }

  /** Keeping every triangle keeps them all, in order. */
  lemma {:induction false} KeptAll(vtxs: seq<MeshVertex>, tris: seq<Tri>, keep: Vec3 -> bool)
    requires forall t :: 0 <= t < |tris| ==> TriIn(tris[t], |vtxs|)
    requires forall p :: keep(p)
    ensures Kept(vtxs, tris, keep) == Flatten(tris)
  {
    if |tris| > 0 {
      KeptAll(vtxs, tris[..|tris| - 1], keep);
    }
  }

  /** A mesh with its index buffer filtered; vertices and material stay. */
  function ClipMesh(m: Mesh, keep: Vec3 -> bool): Option<Mesh>
  {
    if |m.idxs| % 3 == 0 && IndicesIn(m.idxs, |m.vtxs|) then
      TriplesIn(m.idxs, |m.vtxs|);
      Some(m.(idxs := Kept(m.vtxs, Triples(m.idxs), keep)))
    else None
  }

  function ClipMeshList(ms: seq<Mesh>, keep: Vec3 -> bool): Option<seq<Mesh>>
  {
    if |ms| == 0 then Some([])
    else
      match (ClipMeshList(ms[..|ms| - 1], keep), ClipMesh(ms[|ms| - 1], keep))
      case (Some(init), Some(m)) => Some(init + [m])
      case _ => None
  }

  /** The new kind of one object: a collision mesh is not implemented and panics; render
      meshes are clipped; every other kind is copied. */
  function ClipKind(k: Kind, keep: Vec3 -> bool): Option<Kind>
  {
    match k
    case CollisionMesh(_) => None
    case MultiMesh(ms) => (match ClipMeshList(ms, keep) case Some(ms') => Some(MultiMesh(ms')) case None => None)
    case _ => Some(k)
  }

  function ClipObjects(objs: seq<SceneObject>, keep: Vec3 -> bool): Option<seq<SceneObject>>
  {
    if |objs| == 0 then Some([])
    else
      var last := objs[|objs| - 1];
      match (ClipObjects(objs[..|objs| - 1], keep), ClipKind(last.kind, keep))
      case (Some(init), Some(k)) => Some(init + [SceneObject(last.obj, k)])
      case _ => None
  }

  /** `Scene::clip_meshes`: a new scene whose objects are the old ones in order with their
      index buffers filtered. */
  method ClipMeshes(objs: seq<SceneObject>, keep: Vec3 -> bool) returns (r: Option<seq<SceneObject>>)
    ensures r == ClipObjects(objs, keep)
  {
    var out: seq<SceneObject> := [];
    for i := 0 to |objs|
      invariant ClipObjects(objs[..i], keep) == Some(out)
    {
      assert objs[..i + 1][..i] == objs[..i];
      var kind := ClipObjectKind(objs[i].kind, keep);
      if kind.None? {
        ClipObjectsNone(objs[..i + 1], objs, keep);
        return None;
      }
      out := out + [SceneObject(objs[i].obj, kind.value)];
    }
    assert objs[..|objs|] == objs;
    r := Some(out);
  }

  /** The match on the kind, with the mesh loop for render meshes. */
  method ClipObjectKind(k: Kind, keep: Vec3 -> bool) returns (r: Option<Kind>)
    ensures r == ClipKind(k, keep)
  {
    match k {
      case CollisionMesh(_) =>
        return None;
      case MultiMesh(ms) =>
        var out: seq<Mesh> := [];
        for i := 0 to |ms|
          invariant ClipMeshList(ms[..i], keep) == Some(out)
        {
          assert ms[..i + 1][..i] == ms[..i];
          var idxs := ClipIndices(ms[i].vtxs, ms[i].idxs, keep);
          if idxs.None? {
            ClipMeshListNone(ms[..i + 1], ms, keep);
            return None;
          }
          out := out + [ms[i].(idxs := idxs.value)];
        }
        assert ms[..|ms|] == ms;
        return Some(MultiMesh(out));
      case _ =>
        return Some(k);
    }
  }

  /** A panic in a prefix is a panic of the whole list. */
  lemma {:induction false} ClipMeshListNone(pre: seq<Mesh>, ms: seq<Mesh>, keep: Vec3 -> bool)
    requires pre <= ms && ClipMeshList(pre, keep).None?
    ensures ClipMeshList(ms, keep).None?
    decreases |ms|
  {
    if |ms| > |pre| {
      ClipMeshListNone(pre, ms[..|ms| - 1], keep);
    } else {
      assert pre == ms;
    }
  }

  lemma {:induction false} ClipObjectsNone(pre: seq<SceneObject>, objs: seq<SceneObject>, keep: Vec3 -> bool)
    requires pre <= objs && ClipObjects(pre, keep).None?
    ensures ClipObjects(objs, keep).None?
    decreases |objs|
  {
    if |objs| > |pre| {
      ClipObjectsNone(pre, objs[..|objs| - 1], keep);
    } else {
      assert pre == objs;
    }
  }

  /** What `clip_meshes` keeps: it panics exactly when some object is a collision mesh or
      has a mesh whose buffer cannot be read in triangles; otherwise every object keeps its
      place, name, transform and animations, its kind is the same kind, and only the index
      buffers of render meshes change. */
  lemma {:induction false} ClipObjectsShape(objs: seq<SceneObject>, keep: Vec3 -> bool)
    ensures ClipObjects(objs, keep).Some? <==> forall i :: 0 <= i < |objs| ==> ClipKind(objs[i].kind, keep).Some?
    ensures ClipObjects(objs, keep).Some? ==>
              var out := ClipObjects(objs, keep).value;
              |out| == |objs|
              && forall i :: 0 <= i < |objs| ==> out[i].obj == objs[i].obj && Some(out[i].kind) == ClipKind(objs[i].kind, keep)
  {
    if |objs| > 0 {
      ClipObjectsShape(objs[..|objs| - 1], keep);
      assert forall i :: 0 <= i < |objs| - 1 ==> objs[..|objs| - 1][i] == objs[i];
    }
  }

  /** Clipping one kind: collision meshes panic, render meshes keep their count, vertices and
      materials, and every other kind is unchanged. */
  lemma {:induction false} ClipMeshListShape(ms: seq<Mesh>, keep: Vec3 -> bool)
    ensures ClipMeshList(ms, keep).Some? <==> forall i :: 0 <= i < |ms| ==> ClipMesh(ms[i], keep).Some?
    ensures ClipMeshList(ms, keep).Some? ==>
              var out := ClipMeshList(ms, keep).value;
              |out| == |ms|
              && forall i :: 0 <= i < |ms| ==> out[i].vtxs == ms[i].vtxs && out[i].material == ms[i].material
                                               && Some(out[i]) == ClipMesh(ms[i], keep)
  {
    if |ms| > 0 {
      ClipMeshListShape(ms[..|ms| - 1], keep);
      assert forall i :: 0 <= i < |ms| - 1 ==> ms[..|ms| - 1][i] == ms[i];
    }
  }
}
