/**
 * The window's glTF part: it owns the loaded model, the GL name counter and
 * the effects issued so far, and the table of index buffers that drawing
 * reads (the second half of `vaoAndEbos`). Binding works on a table passed
 * in and handed back, as the C++ passes its std::map by reference. Every
 * method is proved to do exactly what the matching function of BindSpec or
 * DrawSpec says.
 */
module App {
  import opened Asset
  import opened Selectors
  import opened Gl
  import opened Traversal
  import opened BindSpec
  import opened DrawSpec

  class Window {
    /** The model loaded from file; loading is not part of this model. */
    const model: Model
    /** tinygltf's Accessor::ByteStride. */
    const byteStride: Stride
    /** A witness that the node graph is acyclic: ranks decrease towards children. */
    ghost const rank: seq<nat>

    /** The table kept for drawing (`vaoAndEbos.second`). */
    var ebos: map<int, nat>
    /** The next GL object name that glGenBuffers or glGenTextures hands out. */
    var next: nat
    /** The GL effects issued so far. */
    var trace: seq<Event>

    function State(): GlState
      reads this
    {
      GlState(ebos, next, trace)
    }

    /** The node graph is acyclic and the kept table is healthy; the effects issued so far do not matter. */
    ghost predicate Valid()
      reads this`ebos, this`next
    {
      RankedBy(model, rank) && Healthy(model, GlState(ebos, next, []))
    }

    /** A window over a loaded model whose node graph has no cycle; nothing bound yet. */
    constructor(model: Model, byteStride: Stride)
      requires exists rank :: RankedBy(model, rank)
      ensures this.model == model && this.byteStride == byteStride
      ensures ebos == map[] && next == 1 && trace == []
      ensures Valid()
    {
      this.model := model;
      this.byteStride := byteStride;
      ghost var r :| RankedBy(model, r);
      this.rank := r;
      ebos := map[];
      next := 1;
      trace := [];
    }

    /**
     * bindMesh: upload every buffer view with a target into `table`, then set
     * up each primitive's attributes and the first texture.
     */
    method BindMesh(table: map<int, nat>, mesh: Mesh) returns (table': map<int, nat>, thrown: Option<Fault>)
      requires Valid() && MeshReady(model, mesh)
      modifies this
      ensures Valid() && ebos == old(ebos) && next >= old(next)
      ensures RunOf(GlState(table', next, trace), thrown)
           == BindMeshRun(model, byteStride, mesh, GlState(table, old(next), old(trace)))
    {
      ghost var start := GlState(table, next, trace);
      var vbos;
      vbos, thrown := UploadViews(table);
      if thrown.Some? {
        return vbos, thrown;
      }
      var prims := mesh.primitives;
      var j := 0;
      while j < |prims|
        invariant 0 <= j <= |prims|
        invariant Valid() && ebos == old(ebos) && next >= old(next)
        invariant PrimitivesFrom(model, byteStride, prims, j, GlState(vbos, next, trace))
               == BindMeshRun(model, byteStride, mesh, start)
      {
        ghost var here := GlState(vbos, next, trace);
        vbos := SetUpAttributes(vbos, prims[j].attributes);
        ghost var attributed := GlState(vbos, next, trace);
        thrown := UploadTexture(vbos);
        ghost var r := TextureStep(model, attributed);
        assert PrimitivesFrom(model, byteStride, prims, j, here) == if r.Threw? then r else PrimitivesFrom(model, byteStride, prims, j + 1, r.st);
        if thrown.Some? {
          return vbos, thrown;
        }
        j := j + 1;
      }
      return vbos, None;
    }

    /** The first loop of bindMesh: a fresh buffer and an upload for every view with a target. */
    method UploadViews(table: map<int, nat>) returns (vbos: map<int, nat>, thrown: Option<Fault>)
      requires Valid() && UploadableViews(model)
      modifies this
      ensures Valid() && ebos == old(ebos) && next >= old(next)
      ensures RunOf(GlState(vbos, next, trace), thrown) == UploadFrom(model, 0, GlState(table, old(next), old(trace)))
    {
      ghost var start := GlState(table, next, trace);
      vbos, thrown := table, None;
      var i := 0;
      while i < |model.bufferViews| && thrown.None?
        invariant 0 <= i <= |model.bufferViews|
        invariant Valid() && ebos == old(ebos) && next >= old(next)
        invariant (if thrown.None? then UploadFrom(model, i, GlState(vbos, next, trace))
                   else RunOf(GlState(vbos, next, trace), thrown))
               == UploadFrom(model, 0, start)
      {
        var bufferView := model.bufferViews[i];
        if bufferView.target != 0 {
          var buffer := model.buffers[bufferView.buffer];
          var vbo := next;
          next := next + 1;
          vbos := vbos[i := vbo];
          if |buffer.data| == 0 {
            thrown := Some(EmptyBuffer(bufferView.buffer));
          } else {
            var bytes := buffer.data[bufferView.byteOffset .. bufferView.byteOffset + bufferView.byteLength];
            trace := trace + [Upload(bufferView.target, vbo, bytes)];
          }
        }
        i := i + 1;
      }
    }

    /** The attribute loop of one primitive, in the key order of its attribute map. */
    method SetUpAttributes(table: map<int, nat>, attrs: Attributes) returns (vbos: map<int, nat>)
      requires Valid() && AttrsReady(model, attrs)
      modifies this
      ensures Valid() && ebos == old(ebos) && next == old(next)
      ensures GlState(vbos, next, trace) == AttribsFrom(model, byteStride, attrs, 0, GlState(table, old(next), old(trace)))
    {
      ghost var start := GlState(table, next, trace);
      vbos := table;
      var k := 0;
      while k < |attrs|
        invariant 0 <= k <= |attrs|
        invariant Valid() && ebos == old(ebos) && next == old(next)
        invariant AttribsFrom(model, byteStride, attrs, k, GlState(vbos, next, trace))
               == AttribsFrom(model, byteStride, attrs, 0, start)
      {
        AttribsFromStep(model, byteStride, attrs, k, GlState(vbos, next, trace));
        vbos := SetUpAttribute(vbos, attrs[k]);
        k := k + 1;
      }
    }

    /**
     * One attribute: its view's buffer is bound, looked up with an inserting
     * `operator[]`, and a known semantic name gets its slot enabled and pointed.
     */
    method SetUpAttribute(table: map<int, nat>, attr: (string, int)) returns (vbos: map<int, nat>)
      requires Valid() && AttributeRefOk(model, attr.1)
      modifies this
      ensures Valid() && ebos == old(ebos) && next == old(next)
      ensures GlState(vbos, next, trace) == AttribSetUp(model, byteStride, attr, GlState(table, old(next), old(trace)))
    {
      ghost var here := GlState(table, next, trace);
      var name := attr.0;
      var accessor := model.accessors[attr.1];
      var stride := byteStride(accessor, model.bufferViews[accessor.bufferView]);
      vbos := table;
      if accessor.bufferView !in vbos {
        vbos := vbos[accessor.bufferView := 0];
      }
      trace := trace + [BindArray(vbos[accessor.bufferView])];
      var size := ComponentCount(accessor.shape);
      var vaa := AttribSlot(name);
      if vaa > -1 {
        var enable := EnableAttrib(vaa, size, accessor.componentType, accessor.normalized,
                                   stride, accessor.byteOffset);
        assert enable == EnableEvent(model, byteStride, attr);
        trace := trace + [enable];
      }
      assert trace == here.trace + AttribEvents(model, byteStride, attr, vbos[accessor.bufferView]);
    }

    /** The texture part of one primitive: the first texture's image, with format and type chosen from the image. */
    method UploadTexture(vbos: map<int, nat>) returns (thrown: Option<Fault>)
      requires Valid() && TextureReady(model)
      modifies this
      ensures Valid() && ebos == old(ebos) && next >= old(next)
      ensures RunOf(GlState(vbos, next, trace), thrown) == TextureStep(model, GlState(vbos, old(next), old(trace)))
    {
      if |model.textures| > 0 {
        var tex := model.textures[0];
        if tex.source > -1 {
          var texid := next;
          next := next + 1;
          var image := model.images[tex.source];
          var format := PixelFormat(image.component);
          var pixelType := PixelType(image.bits);
          if |image.pixels| == 0 {
            return Some(EmptyImage(tex.source));
          }
          trace := trace + [TexImage(texid, GL_RGBA, image.width, image.height, format, pixelType, image.pixels)];
        }
      }
      return None;
    }

    /** bindModelNodes: bind node `n`'s own mesh, then each child subtree in order. */
    method BindModelNodes(table: map<int, nat>, n: nat) returns (table': map<int, nat>, thrown: Option<Fault>)
      requires Valid() && n < |model.nodes| && MeshesReady(model, NodeMeshes(model, rank, n))
      modifies this
      ensures Valid() && ebos == old(ebos) && next >= old(next)
      ensures RunOf(GlState(table', next, trace), thrown)
           == BindMeshes(model, byteStride, NodeMeshes(model, rank, n), GlState(table, old(next), old(trace)))
      decreases rank[n], 1
    {
      ghost var start := GlState(table, next, trace);
      var node := model.nodes[n];
      assert Below(model, rank, node.children, rank[n]);
      ghost var own := OwnMesh(model, n);
      BindMeshesAppend(model, byteStride, own, ListMeshes(model, rank, node.children, 0, rank[n]), start);
      table' := table;
      thrown := None;
      if 0 <= node.mesh < |model.meshes| {
        assert own[0] in own;
        table', thrown := BindMesh(table', model.meshes[node.mesh]);
      }
      if thrown.None? {
        table', thrown := BindChildren(table', n);
      }
    }

    /** The child loop of bindModelNodes: each child subtree of node `n`, in order, stopping at a throw. */
    method BindChildren(table: map<int, nat>, n: nat) returns (table': map<int, nat>, thrown: Option<Fault>)
      requires Valid() && n < |model.nodes|
      requires MeshesReady(model, ListMeshes(model, rank, model.nodes[n].children, 0, rank[n]))
      modifies this
      ensures Valid() && ebos == old(ebos) && next >= old(next)
      ensures RunOf(GlState(table', next, trace), thrown)
           == BindMeshes(model, byteStride, ListMeshes(model, rank, model.nodes[n].children, 0, rank[n]),
                         GlState(table, old(next), old(trace)))
      decreases rank[n], 0
    {
      ghost var start := GlState(table, next, trace);
      var children := model.nodes[n].children;
      table', thrown := table, None;
      var i := 0;
      ghost var todo := ListMeshes(model, rank, children, 0, rank[n]);
      while i < |children| && thrown.None?
        invariant 0 <= i <= |children|
        invariant Valid() && ebos == old(ebos) && next >= old(next)
        invariant todo == ListMeshes(model, rank, children, i, rank[n])
        invariant MeshesReady(model, todo)
        invariant (if thrown.None? then BindMeshes(model, byteStride, todo, GlState(table', next, trace))
                   else RunOf(GlState(table', next, trace), thrown))
               == BindMeshes(model, byteStride, ListMeshes(model, rank, children, 0, rank[n]), start)
      {
        var child := children[i];
        ghost var rest := ListMeshes(model, rank, children, i + 1, rank[n]);
        assert todo == NodeMeshes(model, rank, child as nat) + rest;
        BindMeshesAppend(model, byteStride, NodeMeshes(model, rank, child as nat), rest, GlState(table', next, trace));
        table', thrown := BindModelNodes(table', child as nat);
        i := i + 1;
        todo := rest;
      }
    }

    /**
     * bindModel: bind the default scene's nodes into a fresh table, then
     * delete and erase every entry whose view is not an element-array buffer.
     */
    method BindModel() returns (table: map<int, nat>, thrown: Option<Fault>)
      requires Valid() && BindReady(model, rank)
      modifies this
      ensures Valid() && ebos == old(ebos)
      ensures RunOf(GlState(table, next, trace), thrown) == BindModelRun(model, byteStride, rank, old(State()))
    {
      ghost var start := GlState(map[], next, trace);
      var vbos: map<int, nat> := map[];
      thrown := None;
      var scene := model.scenes[model.defaultScene];
      assert Below(model, rank, scene.nodes, Top(rank));
      var i := 0;
      ghost var todo := SceneMeshes(model, rank);
      while i < |scene.nodes| && thrown.None?
        invariant 0 <= i <= |scene.nodes|
        invariant Valid() && ebos == old(ebos) && next >= old(next)
        invariant todo == ListMeshes(model, rank, scene.nodes, i, Top(rank))
        invariant MeshesReady(model, todo)
        invariant (if thrown.None? then BindMeshes(model, byteStride, todo, GlState(vbos, next, trace))
                   else RunOf(GlState(vbos, next, trace), thrown))
               == BindMeshes(model, byteStride, SceneMeshes(model, rank), start)
      {
        var root := scene.nodes[i];
        ghost var rest := ListMeshes(model, rank, scene.nodes, i + 1, Top(rank));
        assert todo == NodeMeshes(model, rank, root as nat) + rest;
        BindMeshesAppend(model, byteStride, NodeMeshes(model, rank, root as nat), rest, GlState(vbos, next, trace));
        vbos, thrown := BindModelNodes(vbos, root as nat);
        i := i + 1;
        todo := rest;
      }
      table := vbos;
      if thrown.None? {
        assert todo == [];
        BindMeshesTable(model, byteStride, SceneMeshes(model, rank), start);
        table := PruneTable(vbos);
      }
    }

    /** The cleanup loop of bindModel: delete and erase every entry whose view is not an element-array buffer. */
    method PruneTable(vbos: map<int, nat>) returns (table: map<int, nat>)
      requires Valid() && KeysInRange(model, vbos)
      modifies this
      ensures Valid() && ebos == old(ebos) && next == old(next)
      ensures GlState(table, next, trace) == PruneFrom(model, 0, GlState(vbos, old(next), old(trace)))
    {
      ghost var bound := GlState(vbos, next, trace);
      table := vbos;
      var k := 0;
      while k < |model.bufferViews|
        invariant 0 <= k <= |model.bufferViews|
        invariant Valid() && ebos == old(ebos) && next == old(next)
        invariant PruneFrom(model, k, GlState(table, next, trace)) == PruneFrom(model, 0, bound)
      {
        if k in table && model.bufferViews[k].target != GL_ELEMENT_ARRAY_BUFFER {
          trace := trace + [DeleteBuffer(table[k])];
          table := table - {k};
        }
        k := k + 1;
      }
    }

    /** Bind the model and keep the resulting table for drawing; a throw leaves the kept table as it was. */
    method InitializeBuffers() returns (thrown: Option<Fault>)
      requires Valid() && BindReady(model, rank)
      modifies this
      ensures Valid()
      ensures var r := BindModelRun(model, byteStride, rank, old(State()));
        && RunOf(GlState(r.st.vbos, next, trace), thrown) == r
        && ebos == if thrown.None? then r.st.vbos else old(ebos)
    {
      ghost var st := State();
      var table;
      table, thrown := BindModel();
      BindModelHealthy(model, byteStride, rank, st);
      if thrown.None? {
        ebos := table;
      }
    }

    /** drawMesh: bind each primitive's index buffer, looked up without inserting, and draw it. */
    method DrawMesh(mesh: Mesh) returns (thrown: Option<Fault>)
      requires Valid() && MeshDrawable(model, mesh)
      modifies this
      ensures Valid() && ebos == old(ebos) && next == old(next)
      ensures RunOf(State(), thrown) == DrawMeshRun(model, mesh, old(State()))
    {
      var j := 0;
      while j < |mesh.primitives|
        invariant 0 <= j <= |mesh.primitives|
        invariant Valid() && ebos == old(ebos) && next == old(next)
        invariant DrawFrom(model, mesh, j, State()) == DrawFrom(model, mesh, 0, old(State()))
      {
        var primitive := mesh.primitives[j];
        var indexAccessor := model.accessors[primitive.indices];
        if indexAccessor.bufferView !in ebos {
          return Some(MissingIndexBuffer(indexAccessor.bufferView));
        }
        trace := trace + [BindIndex(ebos[indexAccessor.bufferView]),
                          Draw(primitive.mode, indexAccessor.count, indexAccessor.componentType, indexAccessor.byteOffset)];
        j := j + 1;
      }
      return None;
    }

    /** drawModelNodes: draw node `n`'s own mesh, then each child subtree in order. */
    method DrawModelNodes(n: nat) returns (thrown: Option<Fault>)
      requires Valid() && n < |model.nodes| && MeshesDrawable(model, NodeMeshes(model, rank, n))
      modifies this
      ensures Valid() && ebos == old(ebos) && next == old(next)
      ensures RunOf(State(), thrown) == DrawMeshes(model, NodeMeshes(model, rank, n), old(State()))
      decreases rank[n], 1
    {
      ghost var start := State();
      var node := model.nodes[n];
      assert Below(model, rank, node.children, rank[n]);
      ghost var own := OwnMesh(model, n);
      DrawMeshesAppend(model, own, ListMeshes(model, rank, node.children, 0, rank[n]), start);
      thrown := None;
      if 0 <= node.mesh < |model.meshes| {
        assert own[0] in own;
        thrown := DrawMesh(model.meshes[node.mesh]);
      }
      if thrown.None? {
        thrown := DrawChildren(n);
      }
    }

    /** The child loop of drawModelNodes: each child subtree of node `n`, in order, stopping at a throw. */
    method DrawChildren(n: nat) returns (thrown: Option<Fault>)
      requires Valid() && n < |model.nodes|
      requires MeshesDrawable(model, ListMeshes(model, rank, model.nodes[n].children, 0, rank[n]))
      modifies this
      ensures Valid() && ebos == old(ebos) && next == old(next)
      ensures RunOf(State(), thrown) == DrawMeshes(model, ListMeshes(model, rank, model.nodes[n].children, 0, rank[n]), old(State()))
      decreases rank[n], 0
    {
      ghost var start := State();
      var children := model.nodes[n].children;
      thrown := None;
      var i := 0;
      ghost var todo := ListMeshes(model, rank, children, 0, rank[n]);
      while i < |children| && thrown.None?
        invariant 0 <= i <= |children|
        invariant Valid() && ebos == old(ebos) && next == old(next)
        invariant todo == ListMeshes(model, rank, children, i, rank[n])
        invariant MeshesDrawable(model, todo)
        invariant (if thrown.None? then DrawMeshes(model, todo, State()) else RunOf(State(), thrown))
               == DrawMeshes(model, ListMeshes(model, rank, children, 0, rank[n]), start)
      {
        var child := children[i];
        ghost var rest := ListMeshes(model, rank, children, i + 1, rank[n]);
        assert todo == NodeMeshes(model, rank, child as nat) + rest;
        DrawMeshesAppend(model, NodeMeshes(model, rank, child as nat), rest, State());
        thrown := DrawModelNodes(child as nat);
        i := i + 1;
        todo := rest;
      }
    }

    /** drawModel: draw the default scene's nodes in order. */
    method DrawModel() returns (thrown: Option<Fault>)
      requires Valid() && DrawReady(model, rank)
      modifies this
      ensures Valid() && ebos == old(ebos) && next == old(next)
      ensures RunOf(State(), thrown) == DrawModelRun(model, rank, old(State()))
    {
      ghost var start := State();
      var scene := model.scenes[model.defaultScene];
      assert Below(model, rank, scene.nodes, Top(rank));
      var i := 0;
      ghost var todo := SceneMeshes(model, rank);
      while i < |scene.nodes|
        invariant 0 <= i <= |scene.nodes|
        invariant Valid() && ebos == old(ebos) && next == old(next)
        invariant todo == ListMeshes(model, rank, scene.nodes, i, Top(rank))
        invariant MeshesDrawable(model, todo)
        invariant DrawMeshes(model, todo, State()) == DrawMeshes(model, SceneMeshes(model, rank), start)
      {
        var root := scene.nodes[i];
        ghost var rest := ListMeshes(model, rank, scene.nodes, i + 1, Top(rank));
        assert todo == NodeMeshes(model, rank, root as nat) + rest;
        DrawMeshesAppend(model, NodeMeshes(model, rank, root as nat), rest, State());
        thrown := DrawModelNodes(root as nat);
        if thrown.Some? {
          return thrown;
        }
        i := i + 1;
        todo := rest;
      }
      assert todo == [];
      return None;
    }
  }
}
