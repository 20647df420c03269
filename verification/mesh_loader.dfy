/**
  Vertex deduplication of the `screensaverxicara` model loader.

  The OBJ reader hands over a flat coordinate table (three numbers per
  position) and a list of shapes, each with the arity of every face and the
  face-vertex references of all faces laid end to end. The loader walks
  shapes, faces and face vertices in that order, reads the referenced
  position, and keeps a map from vertex to index so that every distinct
  position is stored once. The map lives across shapes.

  Coordinates are of an arbitrary type `R` with equality: the model keeps
  no float arithmetic. Each vertex the loader builds carries only its
  position (every other field is value-initialised), so vertex equality is
  position equality; the hash also reads only the position.
 */
module MeshLoader {

  datatype Vec3<R> = Vec3(x: R, y: R, z: R)

  /** A loaded vertex: only the position is ever set, so it is the whole
      identity. */
  datatype Vertex<R> = Vertex(position: Vec3<R>)

  /** A face-vertex reference; only the position index is used. */
  datatype Index = Index(vertexIndex: int)

  /** A shape: the arity of each face, and the references of all faces,
      face after face. */
  datatype Shape = Shape(numFaceVertices: seq<nat>, indices: seq<Index>)

  /** The position table: x, y, z of position `i` at `3*i`, `3*i+1`, `3*i+2`. */
  datatype Attrib<R> = Attrib(vertices: seq<R>)

  datatype Mesh<R> = Mesh(vertices: seq<Vertex<R>>, indices: seq<nat>)

  // ---------------------------------------------------------------------------
  // The input and the traversal order
  // ---------------------------------------------------------------------------

  function Sum(s: seq<nat>): nat {
    if s == [] then 0 else Sum(s[..|s| - 1]) + s[|s| - 1]
  }

  lemma {:induction false} SumPrefix(s: seq<nat>, f: nat)
    requires f <= |s|
    ensures Sum(s[..f]) <= Sum(s)
    decreases |s|
  {
    if f < |s| {
      assert s[..|s| - 1][..f] == s[..f];
      SumPrefix(s[..|s| - 1], f);
    } else {
      assert s[..f] == s;
    }
  }

  /** Adding the next face's arity to the running offset. */
  lemma SumStep(s: seq<nat>, f: nat)
    requires f < |s|
    ensures Sum(s[..f + 1]) == Sum(s[..f]) + s[f]
    ensures Sum(s[..f + 1]) <= Sum(s)
  {
    assert s[..f + 1][..f] == s[..f];
    SumPrefix(s, f + 1);
  }

  /** The coordinates read for a reference lie inside the table; the source
      reads them without a check. The offset `3 * vertex_index` is computed
      in 32-bit signed `int` arithmetic before it is widened, so it must not
      overflow either. */
  predicate ValidIndex<R(==)>(attrib: Attrib<R>, ix: Index) {
    && 0 <= ix.vertexIndex
    && 3 * ix.vertexIndex < 0x8000_0000
    && 3 * ix.vertexIndex + 2 < |attrib.vertices|
  }

  /** The faces of the shape use no more references than it has, and every
      reference used is inside the table. */
  predicate ValidShape<R(==)>(attrib: Attrib<R>, shape: Shape) {
    && Sum(shape.numFaceVertices) <= |shape.indices|
    && forall j :: 0 <= j < Sum(shape.numFaceVertices) ==> ValidIndex(attrib, shape.indices[j])
  }

  predicate ValidInput<R(==)>(attrib: Attrib<R>, shapes: seq<Shape>) {
    forall s :: 0 <= s < |shapes| ==> ValidShape(attrib, shapes[s])
  }

  /** The vertex a reference resolves to. */
  function VertexAt<R(==)>(attrib: Attrib<R>, ix: Index): Vertex<R>
    requires ValidIndex(attrib, ix)
  {
    var start := 3 * ix.vertexIndex;
    Vertex(Vec3(attrib.vertices[start], attrib.vertices[start + 1], attrib.vertices[start + 2]))
  }

  /** The vertices of a run of references, in order. */
  function Positions<R(==)>(attrib: Attrib<R>, ixs: seq<Index>): (vs: seq<Vertex<R>>)
    requires forall j :: 0 <= j < |ixs| ==> ValidIndex(attrib, ixs[j])
    ensures |vs| == |ixs|
    ensures forall j :: 0 <= j < |ixs| ==> vs[j] == VertexAt(attrib, ixs[j])
  {
    if ixs == [] then []
    else Positions(attrib, ixs[..|ixs| - 1]) + [VertexAt(attrib, ixs[|ixs| - 1])]
  }

  /** Number of face-vertex references of the shapes: the sum of all face
      arities. */
  function ReferenceCount(shapes: seq<Shape>): nat {
    if shapes == [] then 0
    else ReferenceCount(shapes[..|shapes| - 1]) + Sum(shapes[|shapes| - 1].numFaceVertices)
  }

  /** The vertices of the first `n` references of a shape. */
  function ShapePrefix<R(==)>(attrib: Attrib<R>, shape: Shape, n: nat): seq<Vertex<R>>
    requires ValidShape(attrib, shape) && n <= Sum(shape.numFaceVertices)
  {
    Positions(attrib, shape.indices[..n])
  }

  /** The vertices one shape references, in the order of its faces. */
  function ShapeRefs<R(==)>(attrib: Attrib<R>, shape: Shape): seq<Vertex<R>>
    requires ValidShape(attrib, shape)
  {
    ShapePrefix(attrib, shape, Sum(shape.numFaceVertices))
  }

  /** The vertices all shapes reference, shape after shape. */
  function Refs<R(==)>(attrib: Attrib<R>, shapes: seq<Shape>): (rs: seq<Vertex<R>>)
    requires ValidInput(attrib, shapes)
    ensures |rs| == ReferenceCount(shapes)
  {
    if shapes == [] then []
    else Refs(attrib, shapes[..|shapes| - 1]) + ShapeRefs(attrib, shapes[|shapes| - 1])
  }

  /** Reference `j` of shape `s` sits at position `ReferenceCount(shapes[..s]) + j`
      of the traversal, and resolves through that shape's own reference `j`. */
  lemma {:induction false} RefsAt<R>(attrib: Attrib<R>, shapes: seq<Shape>, s: nat, j: nat)
    requires ValidInput(attrib, shapes)
    requires s < |shapes| && j < Sum(shapes[s].numFaceVertices)
    ensures ReferenceCount(shapes[..s]) + j < |Refs(attrib, shapes)|
    ensures Refs(attrib, shapes)[ReferenceCount(shapes[..s]) + j] == VertexAt(attrib, shapes[s].indices[j])
    decreases |shapes|
  {
    var n := |shapes| - 1;
    assert shapes[..n] == shapes[..|shapes| - 1];
    if s == n {
      assert shapes[..s] == shapes[..|shapes| - 1];
    } else {
      assert shapes[..n][..s] == shapes[..s];
      assert shapes[..n][s] == shapes[s];
      RefsAt(attrib, shapes[..n], s, j);
    }
  }

  // ---------------------------------------------------------------------------
  // The deduplicating loop body
  // ---------------------------------------------------------------------------

  /** The state of the loop: the vertex-to-index map, `m_vertices` and
      `m_indices`. */
  datatype Builder<R(==)> = Builder(hash: map<Vertex<R>, nat>, vertices: seq<Vertex<R>>, indices: seq<nat>)

  /** The state after `m_vertices.clear()` and `m_indices.clear()`, with a
      fresh map. */
  function EmptyBuilder<R(==)>(): Builder<R> {
    Builder(map[], [], [])
  }

  /** One face vertex: a vertex not yet in the map gets the current vertex
      count as its index and is appended; then its index is appended. */
  function Insert<R(==)>(b: Builder<R>, v: Vertex<R>): Builder<R> {
    if v !in b.hash then
      var idx := |b.vertices|;
      Builder(b.hash[v := idx], b.vertices + [v], b.indices + [idx])
    else
      b.(indices := b.indices + [b.hash[v]])
  }

  /** The loop body applied to every vertex of `vs`, in order. */
  function InsertAll<R(==)>(b: Builder<R>, vs: seq<Vertex<R>>): Builder<R> {
    if vs == [] then b else Insert(InsertAll(b, vs[..|vs| - 1]), vs[|vs| - 1])
  }

  lemma InsertAllSnoc<R>(b: Builder<R>, vs: seq<Vertex<R>>, v: Vertex<R>)
    ensures InsertAll(b, vs + [v]) == Insert(InsertAll(b, vs), v)
  {
    assert (vs + [v])[..|vs + [v]| - 1] == vs;
  }

  /** The map and the vertex list are inverse to each other, and every
      index points into the vertex list. */
  predicate Consistent<R(==)>(b: Builder<R>) {
    && (forall v :: v in b.hash ==> b.hash[v] < |b.vertices| && b.vertices[b.hash[v]] == v)
    && (forall i :: 0 <= i < |b.vertices| ==> b.vertices[i] in b.hash && b.hash[b.vertices[i]] == i)
    && (forall k :: 0 <= k < |b.indices| ==> b.indices[k] < |b.vertices|)
  }

  /** First-occurrence order: the distinct elements of `vs`, each where it
      first appears. This definition is independent of the map. */
  function Dedup<T(==)>(vs: seq<T>): seq<T> {
    if vs == [] then []
    else
      var d := Dedup(vs[..|vs| - 1]);
      if vs[|vs| - 1] in d then d else d + [vs[|vs| - 1]]
  }

  predicate NoDuplicates<T(==)>(s: seq<T>) {
    forall i, j :: 0 <= i < j < |s| ==> s[i] != s[j]
  }

  /** `b` is what the loop has built after processing `vs`: a consistent
      state with one index per reference, each index naming the referenced
      vertex, the vertices in first-occurrence order, and the map holding
      exactly the vertices seen. */
  predicate BuiltFrom<R(==)>(b: Builder<R>, vs: seq<Vertex<R>>) {
    && Consistent(b)
    && |b.indices| == |vs|
    && (forall k :: 0 <= k < |vs| ==> b.vertices[b.indices[k]] == vs[k])
    && b.vertices == Dedup(vs)
    && (forall v :: v in b.hash ==> v in vs)
    && (forall k :: 0 <= k < |vs| ==> vs[k] in b.hash)
  }

  /** One step of the loop body keeps the map and the vertex list inverse
      to each other. */
  lemma InsertConsistent<R>(b: Builder<R>, v: Vertex<R>)
    requires Consistent(b)
    ensures Consistent(Insert(b, v))
    ensures v in Insert(b, v).hash && Insert(b, v).hash.Keys == b.hash.Keys + {v}
    ensures |Insert(b, v).indices| == |b.indices| + 1
    ensures Insert(b, v).vertices[Insert(b, v).indices[|b.indices|]] == v
    ensures forall k :: 0 <= k < |b.indices| ==>
              Insert(b, v).vertices[Insert(b, v).indices[k]] == b.vertices[b.indices[k]]
  {
    var b' := Insert(b, v);
    if v !in b.hash {
      forall i | 0 <= i < |b.vertices|
        ensures b'.vertices[i] in b'.hash && b'.hash[b'.vertices[i]] == i
      {
        assert b.vertices[i] != v;
      }
    }
  }

  /** One step in first-occurrence order: the vertex list grows by `v`
      exactly when `v` is new. */
  lemma InsertDedup<R>(b: Builder<R>, vs: seq<Vertex<R>>, v: Vertex<R>)
    requires Consistent(b)
    requires b.vertices == Dedup(vs)
    ensures Insert(b, v).vertices == Dedup(vs + [v])
  {
    var vs' := vs + [v];
    assert vs'[..|vs'| - 1] == vs;
    assert v in b.vertices <==> v in b.hash;
  }

  /** One step keeps every index naming the vertex of its reference. */
  lemma InsertFaithful<R>(b: Builder<R>, vs: seq<Vertex<R>>, v: Vertex<R>)
    requires Consistent(b) && |b.indices| == |vs|
    requires forall k :: 0 <= k < |vs| ==> b.vertices[b.indices[k]] == vs[k]
    ensures forall k :: 0 <= k < |vs + [v]| ==> Insert(b, v).vertices[Insert(b, v).indices[k]] == (vs + [v])[k]
  {
    InsertConsistent(b, v);
  }

  /** One step keeps the map holding exactly the vertices seen. */
  lemma InsertCovers<R>(b: Builder<R>, vs: seq<Vertex<R>>, v: Vertex<R>)
    requires forall u :: u in b.hash ==> u in vs
    requires forall k :: 0 <= k < |vs| ==> vs[k] in b.hash
    ensures forall u :: u in Insert(b, v).hash ==> u in vs + [v]
    ensures forall k :: 0 <= k < |vs + [v]| ==> (vs + [v])[k] in Insert(b, v).hash
  {
    assert Insert(b, v).hash.Keys == b.hash.Keys + {v};
  }

  lemma InsertStep<R>(b: Builder<R>, vs: seq<Vertex<R>>, v: Vertex<R>)
    requires BuiltFrom(b, vs)
    ensures BuiltFrom(Insert(b, v), vs + [v])
  {
    InsertConsistent(b, v);
    InsertDedup(b, vs, v);
    InsertFaithful(b, vs, v);
    InsertCovers(b, vs, v);
  }

  lemma {:induction false} InsertAllCorrect<R>(vs: seq<Vertex<R>>)
    ensures BuiltFrom(InsertAll(EmptyBuilder(), vs), vs)
  {
    if vs != [] {
      var init := vs[..|vs| - 1];
      InsertAllCorrect(init);
      assert init + [vs[|vs| - 1]] == vs;
      InsertStep(InsertAll(EmptyBuilder(), init), init, vs[|vs| - 1]);
    }
  }

  /** A consistent vertex list never holds the same vertex twice. */
  lemma ConsistentNoDuplicates<R>(b: Builder<R>)
    requires Consistent(b)
    ensures NoDuplicates(b.vertices)
  {
    forall i, j | 0 <= i < j < |b.vertices|
      ensures b.vertices[i] != b.vertices[j]
    {
      assert b.hash[b.vertices[i]] == i;
      assert b.hash[b.vertices[j]] == j;
    }
  }

  // ---------------------------------------------------------------------------
  // The loader
  // ---------------------------------------------------------------------------

  /** The mesh `loadModelFromFile` leaves in `m_vertices` and `m_indices`:
      one index per reference, every index inside the vertex list and
      naming the vertex of its reference, no vertex twice, and the vertices
      in the order they are first referenced. */
  function Load<R(==)>(attrib: Attrib<R>, shapes: seq<Shape>): (m: Mesh<R>)
    requires ValidInput(attrib, shapes)
    ensures |m.indices| == |Refs(attrib, shapes)|
    ensures forall k :: 0 <= k < |m.indices| ==> m.indices[k] < |m.vertices|
    ensures forall k :: 0 <= k < |m.indices| ==> m.vertices[m.indices[k]] == Refs(attrib, shapes)[k]
    ensures NoDuplicates(m.vertices)
    ensures m.vertices == Dedup(Refs(attrib, shapes))
  {
    var rs := Refs(attrib, shapes);
    var b := InsertAll(EmptyBuilder(), rs);
    InsertAllCorrect(rs);
    ConsistentNoDuplicates(b);
    Mesh(b.vertices, b.indices)
  }

  lemma {:induction false} DedupLength<T>(vs: seq<T>)
    ensures |Dedup(vs)| <= |vs|
  {
    if vs != [] {
      DedupLength(vs[..|vs| - 1]);
    }
  }

  /** One index per face-vertex reference, and never more vertices than
      references. */
  lemma LoadCounts<R>(attrib: Attrib<R>, shapes: seq<Shape>)
    requires ValidInput(attrib, shapes)
    ensures |Load(attrib, shapes).indices| == ReferenceCount(shapes)
    ensures |Load(attrib, shapes).vertices| <= |Load(attrib, shapes).indices|
  {
    DedupLength(Refs(attrib, shapes));
  }

  /** Reference `j` of shape `s` is read from the coordinate table at
      `3 * vertexIndex`, and the index stored for it leads back to exactly
      that position. */
  lemma LoadFaithful<R>(attrib: Attrib<R>, shapes: seq<Shape>, s: nat, j: nat)
    requires ValidInput(attrib, shapes)
    requires s < |shapes| && j < Sum(shapes[s].numFaceVertices)
    ensures ReferenceCount(shapes[..s]) + j < |Load(attrib, shapes).indices|
    ensures
      var m := Load(attrib, shapes);
      var v := m.vertices[m.indices[ReferenceCount(shapes[..s]) + j]];
      var start := 3 * shapes[s].indices[j].vertexIndex;
      v.position == Vec3(attrib.vertices[start], attrib.vertices[start + 1], attrib.vertices[start + 2])
  {
    RefsAt(attrib, shapes, s, j);
  }

  /** Processing more references only appends to the index list. */
  lemma {:induction false} InsertAllPrefix<R>(vs: seq<Vertex<R>>, k: nat)
    requires k <= |vs|
    ensures |InsertAll(EmptyBuilder(), vs).indices| == |vs|
    ensures InsertAll(EmptyBuilder(), vs[..k]).indices == InsertAll(EmptyBuilder(), vs).indices[..k]
    decreases |vs|
  {
    if k == |vs| {
      assert vs[..k] == vs;
      InsertAllCorrect(vs);
    } else {
      var init := vs[..|vs| - 1];
      assert init[..k] == vs[..k];
      InsertAllPrefix(init, k);
      var b := InsertAll(EmptyBuilder(), init);
      assert Insert(b, vs[|vs| - 1]).indices[..|b.indices|] == b.indices;
    }
  }

  lemma FirstOccurrenceIndex<R>(vs: seq<Vertex<R>>, k: nat)
    requires k < |vs| && vs[k] !in vs[..k]
    ensures k < |InsertAll(EmptyBuilder(), vs).indices|
    ensures InsertAll(EmptyBuilder(), vs).indices[k] == |Dedup(vs[..k])|
  {
    InsertAllPrefix(vs, k + 1);
    var b := InsertAll(EmptyBuilder(), vs[..k]);
    assert vs[k] !in b.hash && |b.indices| == k && |b.vertices| == |Dedup(vs[..k])| by {
      InsertAllCorrect(vs[..k]);
    }
    assert vs[..k + 1] == vs[..k] + [vs[k]];
    InsertAllSnoc(EmptyBuilder(), vs[..k], vs[k]);
    assert InsertAll(EmptyBuilder(), vs[..k + 1]) == Insert(b, vs[k]);
  }

  /** A position met for the first time at step `k` gets the number of
      distinct positions met before it as its index; so indices grow by one
      exactly at first occurrences. */
  lemma LoadFirstOccurrence<R>(attrib: Attrib<R>, shapes: seq<Shape>, k: nat)
    requires ValidInput(attrib, shapes)
    requires k < |Refs(attrib, shapes)|
    ensures Refs(attrib, shapes)[k] !in Refs(attrib, shapes)[..k] ==>
              Load(attrib, shapes).indices[k] == |Dedup(Refs(attrib, shapes)[..k])|
  {
    var rs := Refs(attrib, shapes);
    if rs[k] !in rs[..k] {
      FirstOccurrenceIndex(rs, k);
    }
  }

  /** Two references share an index exactly when they have the same
      position, whether or not they belong to the same shape: the map is
      not reset between shapes. */
  lemma LoadSameIndexIffSamePosition<R>(attrib: Attrib<R>, shapes: seq<Shape>, j: nat, k: nat)
    requires ValidInput(attrib, shapes)
    requires j < |Refs(attrib, shapes)| && k < |Refs(attrib, shapes)|
    ensures Load(attrib, shapes).indices[j] == Load(attrib, shapes).indices[k]
        <==> Refs(attrib, shapes)[j] == Refs(attrib, shapes)[k]
  {
    var m := Load(attrib, shapes);
    if m.indices[j] != m.indices[k] {
      assert m.vertices[m.indices[j]] != m.vertices[m.indices[k]];
    }
  }

  /** The same statement in terms of the input: reference `j1` of shape
      `s1` and reference `j2` of shape `s2` get one index exactly when the
      coordinates they read are equal, for any two shapes. */
  lemma LoadDedupsAcrossShapes<R>(attrib: Attrib<R>, shapes: seq<Shape>, s1: nat, j1: nat, s2: nat, j2: nat)
    requires ValidInput(attrib, shapes)
    requires s1 < |shapes| && j1 < Sum(shapes[s1].numFaceVertices)
    requires s2 < |shapes| && j2 < Sum(shapes[s2].numFaceVertices)
    ensures ReferenceCount(shapes[..s1]) + j1 < |Load(attrib, shapes).indices|
    ensures ReferenceCount(shapes[..s2]) + j2 < |Load(attrib, shapes).indices|
    ensures Load(attrib, shapes).indices[ReferenceCount(shapes[..s1]) + j1]
         == Load(attrib, shapes).indices[ReferenceCount(shapes[..s2]) + j2]
        <==> VertexAt(attrib, shapes[s1].indices[j1]) == VertexAt(attrib, shapes[s2].indices[j2])
  {
    RefsAt(attrib, shapes, s1, j1);
    RefsAt(attrib, shapes, s2, j2);
    LoadSameIndexIffSamePosition(attrib, shapes, ReferenceCount(shapes[..s1]) + j1, ReferenceCount(shapes[..s2]) + j2);
  }

  /** A sequence without repetitions has as many distinct elements as
      entries. */
  lemma {:induction false} DistinctCardinality<T>(s: seq<T>)
    requires NoDuplicates(s)
    ensures |set i | 0 <= i < |s| :: s[i]| == |s|
  {
    if s != [] {
      var init := s[..|s| - 1];
      DistinctCardinality(init);
      var a := set i | 0 <= i < |init| :: init[i];
      var whole := set i | 0 <= i < |s| :: s[i];
      assert whole == a + {s[|s| - 1]} by {
        forall v | v in whole ensures v in a + {s[|s| - 1]} {
          var i :| 0 <= i < |s| && s[i] == v;
          if i < |init| { assert init[i] == v; }
        }
      }
      assert s[|s| - 1] !in a;
    }
  }

  /** The loop state's vertex list holds exactly the vertices seen. */
  lemma BuiltFromSameElements<R>(b: Builder<R>, vs: seq<Vertex<R>>)
    requires BuiltFrom(b, vs)
    ensures (set k | 0 <= k < |vs| :: vs[k]) == (set i | 0 <= i < |b.vertices| :: b.vertices[i])
  {
    var seen := set k | 0 <= k < |vs| :: vs[k];
    var kept := set i | 0 <= i < |b.vertices| :: b.vertices[i];
    forall v | v in seen ensures v in kept {
      var k :| 0 <= k < |vs| && vs[k] == v;
      assert b.vertices[b.indices[k]] == v;
    }
    forall v | v in kept ensures v in seen {
      var i :| 0 <= i < |b.vertices| && b.vertices[i] == v;
      assert v in b.hash;
      var k :| 0 <= k < |vs| && vs[k] == v;
    }
  }

  /** The number of vertices is the number of distinct referenced
      positions. */
  lemma LoadDistinctCount<R>(attrib: Attrib<R>, shapes: seq<Shape>)
    requires ValidInput(attrib, shapes)
    ensures |Load(attrib, shapes).vertices| == |set k | 0 <= k < |Refs(attrib, shapes)| :: Refs(attrib, shapes)[k]|
  {
    var rs := Refs(attrib, shapes);
    var b := InsertAll(EmptyBuilder(), rs);
    InsertAllCorrect(rs);
    BuiltFromSameElements(b, rs);
    DistinctCardinality(Load(attrib, shapes).vertices);
  }

  /** Reading reference `at` extends the run of vertices by one. */
  lemma FaceStep<R>(b: Builder<R>, before: seq<Vertex<R>>, attrib: Attrib<R>, shape: Shape, at: nat)
    requires ValidShape(attrib, shape) && at < Sum(shape.numFaceVertices)
    requires b == InsertAll(EmptyBuilder(), before + ShapePrefix(attrib, shape, at))
    ensures Insert(b, VertexAt(attrib, shape.indices[at]))
         == InsertAll(EmptyBuilder(), before + ShapePrefix(attrib, shape, at + 1))
  {
    var v := VertexAt(attrib, shape.indices[at]);
    assert shape.indices[..at + 1][..at] == shape.indices[..at];
    assert Positions(attrib, shape.indices[..at + 1]) == Positions(attrib, shape.indices[..at]) + [v];
    assert before + ShapePrefix(attrib, shape, at + 1)
        == (before + ShapePrefix(attrib, shape, at)) + [v];
    InsertAllSnoc(EmptyBuilder(), before + ShapePrefix(attrib, shape, at), v);
  }

  /** The body of the innermost loop: look the vertex up, add it when it
      is new, and append its index. A new vertex is appended at the end of
      the list, and its index is the previous vertex count. */
  method InsertVertex<R(==)>(b: Builder<R>, vertex: Vertex<R>) returns (b': Builder<R>)
    ensures b' == Insert(b, vertex)
    ensures vertex !in b.hash ==> b'.vertices == b.vertices + [vertex] && b'.indices == b.indices + [|b.vertices|]
    ensures vertex in b.hash ==> b'.vertices == b.vertices && b'.indices == b.indices + [b.hash[vertex]]
  {
    b' := b;
    if vertex !in b'.hash {
      b' := b'.(hash := b'.hash[vertex := |b'.vertices|], vertices := b'.vertices + [vertex]);
    }
    b' := b'.(indices := b'.indices + [b'.hash[vertex]]);
  }

  /** One pass of the innermost loop: read reference `at` of the shape and
      feed its vertex to the map. */
  method AddFaceVertex<R(==)>(b: Builder<R>, ghost before: seq<Vertex<R>>, attrib: Attrib<R>, shape: Shape, at: nat)
      returns (b': Builder<R>)
    requires ValidShape(attrib, shape) && at < Sum(shape.numFaceVertices)
    requires b == InsertAll(EmptyBuilder(), before + ShapePrefix(attrib, shape, at))
    ensures b' == InsertAll(EmptyBuilder(), before + ShapePrefix(attrib, shape, at + 1))
  {
    var vertex := VertexAt(attrib, shape.indices[at]);
    FaceStep(b, before, attrib, shape, at);
    b' := InsertVertex(b, vertex);
  }

  /** The innermost loop of `loadModelFromFile`: the `n` vertices of the
      face whose references start at `offset`. */
  method AddFace<R(==)>(b: Builder<R>, ghost before: seq<Vertex<R>>, attrib: Attrib<R>, shape: Shape, offset: nat, n: nat)
      returns (b': Builder<R>)
    requires ValidShape(attrib, shape) && offset + n <= Sum(shape.numFaceVertices)
    requires b == InsertAll(EmptyBuilder(), before + ShapePrefix(attrib, shape, offset))
    ensures b' == InsertAll(EmptyBuilder(), before + ShapePrefix(attrib, shape, offset + n))
  {
    b' := b;
    var vertexNumber := 0;
    ghost var at := offset;
    while vertexNumber < n
      invariant 0 <= vertexNumber <= n && at == offset + vertexNumber
      invariant b' == InsertAll(EmptyBuilder(), before + ShapePrefix(attrib, shape, at))
    {
      b' := AddFaceVertex(b', before, attrib, shape, offset + vertexNumber);
      vertexNumber := vertexNumber + 1;
      at := at + 1;
    }
  }

  /** The face loop of `loadModelFromFile` for one shape; `indexOffset`
      starts at zero for every shape while the map carries over. */
  method AddShape<R(==)>(b: Builder<R>, ghost before: seq<Vertex<R>>, attrib: Attrib<R>, shape: Shape)
      returns (b': Builder<R>)
    requires ValidShape(attrib, shape)
    requires b == InsertAll(EmptyBuilder(), before)
    ensures b' == InsertAll(EmptyBuilder(), before + ShapeRefs(attrib, shape))
  {
    b' := b;
    var indexOffset := 0;
    var faceNumber := 0;
    assert shape.indices[..indexOffset] == [];
    assert before + ShapePrefix(attrib, shape, indexOffset) == before;
    while faceNumber < |shape.numFaceVertices|
      invariant 0 <= faceNumber <= |shape.numFaceVertices|
      invariant indexOffset == Sum(shape.numFaceVertices[..faceNumber])
      invariant indexOffset <= Sum(shape.numFaceVertices)
      invariant b' == InsertAll(EmptyBuilder(), before + ShapePrefix(attrib, shape, indexOffset))
    {
      var numFaceVertices := shape.numFaceVertices[faceNumber];
      SumStep(shape.numFaceVertices, faceNumber);
      b' := AddFace(b', before, attrib, shape, indexOffset, numFaceVertices);
      indexOffset := indexOffset + numFaceVertices;
      faceNumber := faceNumber + 1;
    }
    assert shape.numFaceVertices[..faceNumber] == shape.numFaceVertices;
  }

  /** `loadModelFromFile` after parsing: the shape loop as written, with a
      single map for all shapes. `prior` is the previous content of the
      mesh, which the two `clear()` calls discard. */
  method LoadModel<R(==)>(prior: Mesh<R>, attrib: Attrib<R>, shapes: seq<Shape>) returns (m: Mesh<R>)
    requires ValidInput(attrib, shapes)
    ensures m == Load(attrib, shapes)
    ensures |m.indices| == ReferenceCount(shapes)
    ensures forall k :: 0 <= k < |m.indices| ==> m.indices[k] < |m.vertices|
    ensures forall k :: 0 <= k < |m.indices| ==> m.vertices[m.indices[k]] == Refs(attrib, shapes)[k]
    ensures NoDuplicates(m.vertices)
  {
    var b: Builder<R> := EmptyBuilder();
    var s := 0;
    while s < |shapes|
      invariant 0 <= s <= |shapes|
      invariant b == InsertAll(EmptyBuilder(), Refs(attrib, shapes[..s]))
    {
      assert shapes[..s + 1][..s] == shapes[..s];
      b := AddShape(b, Refs(attrib, shapes[..s]), attrib, shapes[s]);
      s := s + 1;
    }
    assert shapes[..s] == shapes;
    m := Mesh(b.vertices, b.indices);
  }

  /** The input of the example below: two triangles sharing an edge. */
  const ExampleAttrib: Attrib<int> := Attrib([0, 0, 0, 1, 0, 0, 0, 1, 0, 1, 1, 0])
  const ExampleShape: Shape := Shape([3, 3], [Index(0), Index(1), Index(2), Index(0), Index(1), Index(3)])

  lemma ExampleValid()
    ensures Sum(ExampleShape.numFaceVertices) == 6
    ensures ValidInput(ExampleAttrib, [ExampleShape])
  {
    assert ExampleShape.numFaceVertices[..1] == [3];
    assert [3][..0] == [];
    assert ValidShape(ExampleAttrib, ExampleShape);
  }

  lemma ExampleRefs()
    ensures ValidInput(ExampleAttrib, [ExampleShape])
    ensures Refs(ExampleAttrib, [ExampleShape])
         == [Vertex(Vec3(0, 0, 0)), Vertex(Vec3(1, 0, 0)), Vertex(Vec3(0, 1, 0)),
             Vertex(Vec3(0, 0, 0)), Vertex(Vec3(1, 0, 0)), Vertex(Vec3(1, 1, 0))]
  {
    var attrib, shape := ExampleAttrib, ExampleShape;
    ExampleValid();
    var sr := ShapeRefs(attrib, shape);
    assert sr == [Vertex(Vec3(0, 0, 0)), Vertex(Vec3(1, 0, 0)), Vertex(Vec3(0, 1, 0)),
                  Vertex(Vec3(0, 0, 0)), Vertex(Vec3(1, 0, 0)), Vertex(Vec3(1, 1, 0))] by {
      assert shape.indices[..6] == shape.indices;
      assert sr == Positions(attrib, shape.indices);
    }
    assert Refs(attrib, [shape]) == sr by {
      assert [shape][..0] == [];
    }
  }

  lemma ExampleDedup<T>(p0: T, p1: T, p2: T, p3: T)
    requires p0 != p1 && p0 != p2 && p0 != p3 && p1 != p2 && p1 != p3 && p2 != p3
    ensures Dedup([p0, p1, p2, p0, p1, p3]) == [p0, p1, p2, p3]
  {
    var rs := [p0, p1, p2, p0, p1, p3];
    assert Dedup(rs[..1]) == [p0] by {
      assert rs[..1][..0] == [];
    }
    assert Dedup(rs[..2]) == [p0, p1] by {
      assert rs[..2][..1] == rs[..1];
    }
    assert Dedup(rs[..3]) == [p0, p1, p2] by {
      assert rs[..3][..2] == rs[..2];
    }
    assert Dedup(rs[..4]) == [p0, p1, p2] by {
      assert rs[..4][..3] == rs[..3];
    }
    assert Dedup(rs[..5]) == [p0, p1, p2] by {
      assert rs[..5][..4] == rs[..4];
    }
    assert rs[..5] == rs[..|rs| - 1];
  }

  /** In a list of four distinct vertices, each vertex has exactly one
      index. */
  lemma ExampleIndices<T>(vertices: seq<T>, indices: seq<nat>, p0: T, p1: T, p2: T, p3: T)
    requires p0 != p1 && p0 != p2 && p0 != p3 && p1 != p2 && p1 != p3 && p2 != p3
    requires vertices == [p0, p1, p2, p3] && |indices| == 6
    requires forall k :: 0 <= k < 6 ==> indices[k] < 4 && vertices[indices[k]] == [p0, p1, p2, p0, p1, p3][k]
    ensures indices == [0, 1, 2, 0, 1, 3]
  {
  }

  /** Two triangles sharing an edge: six references to four positions
      give four vertices in first-seen order and the indices 0 1 2 0 1 3. */
  lemma TwoTrianglesExample()
    ensures ValidInput(ExampleAttrib, [ExampleShape])
    ensures Load(ExampleAttrib, [ExampleShape]).vertices
         == [Vertex(Vec3(0, 0, 0)), Vertex(Vec3(1, 0, 0)), Vertex(Vec3(0, 1, 0)), Vertex(Vec3(1, 1, 0))]
    ensures Load(ExampleAttrib, [ExampleShape]).indices == [0, 1, 2, 0, 1, 3]
  {
    var p0, p1, p2, p3 := Vertex(Vec3(0, 0, 0)), Vertex(Vec3(1, 0, 0)), Vertex(Vec3(0, 1, 0)), Vertex(Vec3(1, 1, 0));
    ExampleRefs();
    ExampleDedup(p0, p1, p2, p3);
    var m := Load(ExampleAttrib, [ExampleShape]);
    ExampleIndices(m.vertices, m.indices, p0, p1, p2, p3);
  }

  // ---------------------------------------------------------------------------
  // standardize, structurally
  // ---------------------------------------------------------------------------

  /** `standardize` rewrites every position with one map, computed from the
      bounding box (the float arithmetic of that map is not modelled); the
      vertex count and the indices are untouched. */
  function Standardize<R(==)>(m: Mesh<R>, rescale: Vec3<R> -> Vec3<R>): (r: Mesh<R>)
    ensures r.indices == m.indices
    ensures |r.vertices| == |m.vertices|
    ensures forall i :: 0 <= i < |m.vertices| ==> r.vertices[i].position == rescale(m.vertices[i].position)
  {
    Mesh(seq(|m.vertices|, i requires 0 <= i < |m.vertices| => Vertex(rescale(m.vertices[i].position))), m.indices)
  }

  /** After `standardize` the indices are still in range and still point at
      the (rescaled) vertex of each reference; the vertices stay distinct
      when the rescaling is injective, which float rounding does not
      guarantee. */
  lemma StandardizeKeepsMesh<R>(attrib: Attrib<R>, shapes: seq<Shape>, rescale: Vec3<R> -> Vec3<R>, k: nat)
    requires ValidInput(attrib, shapes)
    requires k < |Refs(attrib, shapes)|
    ensures Standardize(Load(attrib, shapes), rescale).indices[k] < |Standardize(Load(attrib, shapes), rescale).vertices|
    ensures Standardize(Load(attrib, shapes), rescale).vertices[Standardize(Load(attrib, shapes), rescale).indices[k]].position
         == rescale(Refs(attrib, shapes)[k].position)
  {
    var m := Load(attrib, shapes);
    assert m.vertices[m.indices[k]] == Refs(attrib, shapes)[k];
  }

  /** An injective rescaling keeps the vertices distinct. */
  lemma StandardizeInjectiveNoDuplicates<R>(m: Mesh<R>, rescale: Vec3<R> -> Vec3<R>)
    requires NoDuplicates(m.vertices)
    requires forall p, q :: rescale(p) == rescale(q) ==> p == q
    ensures NoDuplicates(Standardize(m, rescale).vertices)
  {
    var r := Standardize(m, rescale);
    forall i, j | 0 <= i < j < |r.vertices| ensures r.vertices[i] != r.vertices[j] {
      assert m.vertices[i].position != m.vertices[j].position;
    }
  }
}
