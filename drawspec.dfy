/**
 * What drawing does, as functions of the GL state before it: one indexed
 * draw per primitive of a mesh (Window::drawMesh), the draw traversal as a
 * sequence of mesh draws (Window::drawModelNodes, Window::drawModel), and
 * what drawing after bindModel does.
 */
module DrawSpec {
  import opened Asset
  import opened Gl
  import opened Traversal
  import opened BindSpec

  /** The buffer view holding primitive `p`'s indices. */
  function IndexView(m: Model, p: Primitive): int
    requires 0 <= p.indices < |m.accessors|
  {
    m.accessors[p.indices].bufferView
  }

  /** Bind the index buffer named `h`, then draw `p` with its index accessor's count, type and offset. */
  function PrimitiveDraw(m: Model, p: Primitive, h: nat): (es: seq<Event>)
    requires 0 <= p.indices < |m.accessors|
    ensures |es| == 2 && es[0] == BindIndex(h) && es[1].Draw?
    ensures var a := m.accessors[p.indices];
      es[1] == Draw(p.mode, a.count, a.componentType, a.byteOffset)
  {
    var a := m.accessors[p.indices];
    [BindIndex(h), Draw(p.mode, a.count, a.componentType, a.byteOffset)]
  }

  /** Primitives `j..` of `mesh`: look the index view up without inserting (throwing when absent), bind it, draw. */
  function DrawFrom(m: Model, mesh: Mesh, j: nat, st: GlState): Run
    requires MeshDrawable(m, mesh) && j <= |mesh.primitives|
    decreases |mesh.primitives| - j
  {
    if j == |mesh.primitives| then Ok(st)
    else
      var p := mesh.primitives[j];
      var view := IndexView(m, p);
      if view !in st.vbos then Threw(st, MissingIndexBuffer(view))
      else DrawFrom(m, mesh, j + 1, st.(trace := st.trace + PrimitiveDraw(m, p, st.vbos[view])))
  }

  /** Every primitive of `mesh` from `j` on has its index view in the table. */
  predicate IndexedFrom(m: Model, vbos: map<int, nat>, mesh: Mesh, j: nat)
    requires MeshDrawable(m, mesh)
  {
    forall q :: j <= q < |mesh.primitives| ==> IndexView(m, mesh.primitives[q]) in vbos
  }

  /**
   * Drawing changes neither the table nor the name counter and only appends
   * events; it throws exactly when a remaining primitive's index view is not
   * in the table, and then with the first such view; without a throw it
   * issues two events per primitive.
   */
  lemma {:induction false} DrawFromEffect(m: Model, mesh: Mesh, j: nat, st: GlState)
    requires MeshDrawable(m, mesh) && j <= |mesh.primitives|
    ensures var r := DrawFrom(m, mesh, j, st);
      && r.st.vbos == st.vbos && r.st.next == st.next
      && st.trace <= r.st.trace
      && (r.Ok? <==> IndexedFrom(m, st.vbos, mesh, j))
      && (r.Ok? ==> |r.st.trace| == |st.trace| + 2 * (|mesh.primitives| - j))
      && (r.Threw? ==> exists q :: j <= q < |mesh.primitives| && IndexedFrom(m, st.vbos, Mesh(mesh.primitives[..q]), j)
                         && IndexView(m, mesh.primitives[q]) !in st.vbos
                         && r.fault == MissingIndexBuffer(IndexView(m, mesh.primitives[q])))
    decreases |mesh.primitives| - j
  {
    if j < |mesh.primitives| {
      var p := mesh.primitives[j];
      var view := IndexView(m, p);
      if view in st.vbos {
        var st1 := st.(trace := st.trace + PrimitiveDraw(m, p, st.vbos[view]));
        DrawFromEffect(m, mesh, j + 1, st1);
        var r := DrawFrom(m, mesh, j, st);
        if r.Threw? {
          var q :| j + 1 <= q < |mesh.primitives| && IndexedFrom(m, st.vbos, Mesh(mesh.primitives[..q]), j + 1)
                   && IndexView(m, mesh.primitives[q]) !in st.vbos
                   && r.fault == MissingIndexBuffer(IndexView(m, mesh.primitives[q]));
          assert IndexedFrom(m, st.vbos, Mesh(mesh.primitives[..q]), j);
        }
      } else {
        assert IndexedFrom(m, st.vbos, Mesh(mesh.primitives[..j]), j);
      }
    }
  }

  /**
   * Without a throw, primitive `q` is drawn at positions `2(q - j)` and
   * `2(q - j) + 1` of the new events: its index buffer is bound under the
   * name the table gives its index view, then it is drawn.
   */
  lemma {:induction false} DrawFromAt(m: Model, mesh: Mesh, j: nat, st: GlState, q: nat)
    requires MeshDrawable(m, mesh) && j <= q < |mesh.primitives| && DrawFrom(m, mesh, j, st).Ok?
    ensures IndexView(m, mesh.primitives[q]) in st.vbos
    ensures var r := DrawFrom(m, mesh, j, st).st;
      var e := |st.trace| + 2 * (q - j);
      && e + 1 < |r.trace|
      && r.trace[e .. e + 2] == PrimitiveDraw(m, mesh.primitives[q], st.vbos[IndexView(m, mesh.primitives[q])])
    decreases q - j
  {
    DrawFromEffect(m, mesh, j, st);
    var p := mesh.primitives[j];
    var view := IndexView(m, p);
    var st1 := st.(trace := st.trace + PrimitiveDraw(m, p, st.vbos[view]));
    DrawFromEffect(m, mesh, j + 1, st1);
    if q > j {
      DrawFromAt(m, mesh, j + 1, st1, q);
    } else {
      var r := DrawFrom(m, mesh, j, st).st;
      assert r.trace[|st.trace| .. |st.trace| + 2] == st1.trace[|st.trace|..];
    }
  }

  /** Drawing a mesh: its primitives in order. */
  function DrawMeshRun(m: Model, mesh: Mesh, st: GlState): Run
    requires MeshDrawable(m, mesh)
  {
    DrawFrom(m, mesh, 0, st)
  }

  /** Every mesh in `ks` exists and can be drawn. */
  predicate MeshesDrawable(m: Model, ks: seq<nat>)
  {
    forall k :: k in ks ==> k < |m.meshes| && MeshDrawable(m, m.meshes[k])
  }

  /** Drawing the meshes `ks` one after the other, stopping at the first throw. */
  function DrawMeshes(m: Model, ks: seq<nat>, st: GlState): Run
    requires MeshesDrawable(m, ks)
    decreases |ks|
  {
    if ks == [] then Ok(st)
    else
      assert ks[0] in ks;
      assert forall k :: k in ks[1..] ==> k in ks;
      var r := DrawMeshRun(m, m.meshes[ks[0]], st);
      if r.Threw? then r else DrawMeshes(m, ks[1..], r.st)
  }

  /** Drawing `a + b` is drawing `a`, then, unless that threw, drawing `b`. */
  lemma {:induction false} DrawMeshesAppend(m: Model, a: seq<nat>, b: seq<nat>, st: GlState)
    requires MeshesDrawable(m, a + b)
    ensures MeshesDrawable(m, a) && MeshesDrawable(m, b)
    ensures DrawMeshes(m, a + b, st)
         == var r := DrawMeshes(m, a, st); if r.Threw? then r else DrawMeshes(m, b, r.st)
    decreases |a|
  {
    assert forall k :: k in a ==> k in a + b;
    assert forall k :: k in b ==> k in a + b;
    if a != [] {
      assert (a + b)[1..] == a[1..] + b;
      assert (a + b)[0] == a[0];
      assert a[0] in a;
      var r := DrawMeshRun(m, m.meshes[a[0]], st);
      if r.Ok? {
        assert forall k :: k in a[1..] + b ==> k in a + b;
        DrawMeshesAppend(m, a[1..], b, r.st);
      }
    } else {
      assert a + b == b;
    }
  }

  /** Every primitive of every mesh in `ks` has its index view in the table. */
  predicate AllIndexed(m: Model, vbos: map<int, nat>, ks: seq<nat>)
    requires MeshesDrawable(m, ks)
  {
    forall k :: k in ks ==> IndexedFrom(m, vbos, m.meshes[k], 0)
  }

  /** Number of primitives over the meshes `ks`, counted once per visit. */
  function PrimitiveTotal(m: Model, ks: seq<nat>): nat
    requires forall k :: k in ks ==> k < |m.meshes|
    decreases |ks|
  {
    if ks == [] then 0
    else
      assert ks[0] in ks;
      assert forall k :: k in ks[1..] ==> k in ks;
      |m.meshes[ks[0]].primitives| + PrimitiveTotal(m, ks[1..])
  }

  lemma CountPairDraw(a: Event, b: Event)
    requires !a.Draw? && b.Draw?
    ensures CountWhere([a, b], IsDraw) == 1
  {
    assert [a, b][..1] == [a];
    assert [a][..0] == [];
    assert CountWhere([a], IsDraw) == 0 by {
      assert !IsDraw(a);
    }
    assert IsDraw(b);
  }

  /** Without a throw, drawing primitives `j..` issues one glDrawElements per primitive. */
  lemma {:induction false} DrawFromCount(m: Model, mesh: Mesh, j: nat, st: GlState)
    requires MeshDrawable(m, mesh) && j <= |mesh.primitives| && DrawFrom(m, mesh, j, st).Ok?
    ensures st.trace <= DrawFrom(m, mesh, j, st).st.trace
    ensures CountWhere(DrawFrom(m, mesh, j, st).st.trace[|st.trace|..], IsDraw) == |mesh.primitives| - j
    decreases |mesh.primitives| - j
  {
    DrawFromEffect(m, mesh, j, st);
    var r := DrawFrom(m, mesh, j, st).st;
    if j == |mesh.primitives| {
      assert r.trace[|st.trace|..] == [];
    } else {
      var p := mesh.primitives[j];
      var view := IndexView(m, p);
      var pd := PrimitiveDraw(m, p, st.vbos[view]);
      var st1 := st.(trace := st.trace + pd);
      DrawFromCount(m, mesh, j + 1, st1);
      SuffixSplit(st.trace, st1.trace, r.trace);
      assert st1.trace[|st.trace|..] == pd == [pd[0], pd[1]];
      CountPairDraw(pd[0], pd[1]);
      CountWhereAppend(pd, r.trace[|st1.trace|..], IsDraw);
    }
  }

  /**
   * Drawing a list of meshes leaves the table and the counter as they are;
   * it is free of throws exactly when every primitive of every listed mesh
   * has its index view in the table, and then it issues one glDrawElements
   * per primitive per visit.
   */
  lemma {:induction false} DrawMeshesEffect(m: Model, ks: seq<nat>, st: GlState)
    requires MeshesDrawable(m, ks)
    ensures var r := DrawMeshes(m, ks, st);
      && r.st.vbos == st.vbos && r.st.next == st.next
      && st.trace <= r.st.trace
      && (r.Ok? <==> AllIndexed(m, st.vbos, ks))
      && (r.Ok? ==> CountWhere(r.st.trace[|st.trace|..], IsDraw) == PrimitiveTotal(m, ks))
    decreases |ks|
  {
    var r := DrawMeshes(m, ks, st);
    if ks == [] {
      assert r.st.trace[|st.trace|..] == [];
    } else {
      assert ks[0] in ks;
      assert forall k :: k in ks[1..] ==> k in ks;
      var mesh := m.meshes[ks[0]];
      var r1 := DrawMeshRun(m, mesh, st);
      DrawFromEffect(m, mesh, 0, st);
      if r1.Ok? {
        DrawMeshesEffect(m, ks[1..], r1.st);
        DrawFromCount(m, mesh, 0, st);
        SuffixSplit(st.trace, r1.st.trace, r.st.trace);
        if r.Ok? {
          CountWhereAppend(r1.st.trace[|st.trace|..], r.st.trace[|r1.st.trace|..], IsDraw);
        }
        assert AllIndexed(m, st.vbos, ks) <==> AllIndexed(m, st.vbos, ks[1..]) by {
          forall k | k in ks ensures k == ks[0] || k in ks[1..] {
            var i :| 0 <= i < |ks| && ks[i] == k;
            if i > 0 {
              assert ks[1..][i - 1] == k;
            }
          }
        }
      } else {
        assert !AllIndexed(m, st.vbos, ks);
      }
    }
  }

  /** What drawing the model reads: an acyclic node graph, the default scene, and every visited mesh's index accessors. */
  predicate DrawReady(m: Model, rank: seq<nat>)
  {
    && RankedBy(m, rank)
    && SceneReady(m)
    && MeshesDrawable(m, SceneMeshes(m, rank))
  }

  /** drawModel: draw every mesh the default scene visits, in visiting order. */
  function DrawModelRun(m: Model, rank: seq<nat>, st: GlState): Run
    requires DrawReady(m, rank)
  {
    DrawMeshes(m, SceneMeshes(m, rank), st)
  }

  /**
   * Drawing right after a successful bindModel, when the default scene
   * visits some mesh, is free of throws exactly when every visited
   * primitive's index accessor reads an element-array buffer view (the only
   * views the pruning keeps); it then issues one glDrawElements per visited
   * primitive.
   */
  lemma DrawAfterBind(m: Model, stride: Stride, rank: seq<nat>, st: GlState)
    requires BindReady(m, rank) && DrawReady(m, rank)
    requires BindModelRun(m, stride, rank, st).Ok? && SceneMeshes(m, rank) != []
    ensures var b := BindModelRun(m, stride, rank, st).st;
      var d := DrawModelRun(m, rank, b);
      && (d.Ok? <==> forall k, q :: k in SceneMeshes(m, rank) && 0 <= q < |m.meshes[k].primitives| ==>
                       IsIndexView(m, IndexView(m, m.meshes[k].primitives[q])))
      && b.trace <= d.st.trace
      && (d.Ok? ==> CountWhere(d.st.trace[|b.trace|..], IsDraw) == PrimitiveTotal(m, SceneMeshes(m, rank)))
  {
    var b := BindModelRun(m, stride, rank, st).st;
    BindModelTable(m, stride, rank, st);
    DrawMeshesEffect(m, SceneMeshes(m, rank), b);
  }

  /** When the default scene visits no mesh, drawing issues nothing and cannot throw. */
  lemma DrawNothingVisited(m: Model, rank: seq<nat>, st: GlState)
    requires DrawReady(m, rank) && SceneMeshes(m, rank) == []
    ensures DrawModelRun(m, rank, st) == Ok(st)
  {
  }
}
