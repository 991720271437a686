/**
 * The parsed glTF 2.0 asset, as the tinygltf loader hands it to the window:
 * only the parts that buffer binding, attribute setup, texture upload and
 * drawing read. Every cross-reference is an index into one of the model's
 * flat arrays, exactly as in the glTF document.
 */
module Asset {

  /** OpenGL buffer binding targets (GLenum values). */
  const GL_ARRAY_BUFFER: int := 0x8892
  const GL_ELEMENT_ARRAY_BUFFER: int := 0x8893

  /** tinygltf's accessor type codes: VEC2..VEC4 are 2..4, MAT2..MAT4 are 32 + 2..4, SCALAR is 64 + 1. */
  const TYPE_VEC2: int := 2
  const TYPE_VEC3: int := 3
  const TYPE_VEC4: int := 4
  const TYPE_MAT2: int := 34
  const TYPE_MAT3: int := 35
  const TYPE_MAT4: int := 36
  const TYPE_SCALAR: int := 65

  datatype Buffer = Buffer(data: seq<bv8>)

  /** A contiguous byte range of one buffer; a target of 0 means "not classified". */
  datatype BufferView = BufferView(buffer: int, byteOffset: nat, byteLength: nat, target: int)

  /** A typed view over a buffer view; `shape` is the glTF accessor type. */
  datatype Accessor = Accessor(bufferView: int, shape: int, componentType: int,
                               count: nat, byteOffset: nat, normalized: bool)

  /** A decoded image: `component` channels of `bits` bits each. */
  datatype Image = Image(width: int, height: int, component: int, bits: int, pixels: seq<bv8>)

  datatype Texture = Texture(source: int)

  /** Lexicographic order on strings, the order of std::string keys in a std::map. */
  predicate StrLess(a: string, b: string)
  {
    if a == [] then b != []
    else if b == [] then false
    else if a[0] != b[0] then a[0] < b[0]
    else StrLess(a[1..], b[1..])
  }

  predicate NamesAscending(attrs: seq<(string, int)>)
  {
    forall j :: 0 < j < |attrs| ==> StrLess(attrs[j - 1].0, attrs[j].0)
  }

  /** A primitive's attribute table (semantic name to accessor index), kept in key order like the std::map it is. */
  type Attributes = attrs: seq<(string, int)> | NamesAscending(attrs) witness []

  datatype Primitive = Primitive(indices: int, attributes: Attributes, mode: int, material: int)

  datatype Mesh = Mesh(primitives: seq<Primitive>)

  datatype Node = Node(mesh: int, children: seq<int>)

  datatype Scene = Scene(nodes: seq<int>)

  datatype Model = Model(
    buffers: seq<Buffer>,
    bufferViews: seq<BufferView>,
    accessors: seq<Accessor>,
    images: seq<Image>,
    textures: seq<Texture>,
    meshes: seq<Mesh>,
    nodes: seq<Node>,
    scenes: seq<Scene>,
    defaultScene: int)

  /** View `v` names an existing buffer and, unless that buffer is empty (which throws), lies inside it. */
  predicate ViewInBuffer(m: Model, v: BufferView)
  {
    && 0 <= v.buffer < |m.buffers|
    && (|m.buffers[v.buffer].data| == 0 || v.byteOffset + v.byteLength <= |m.buffers[v.buffer].data|)
  }

  /** View `i` has a non-zero target, so every bind of a mesh uploads it. */
  predicate Targeted(m: Model, i: int)
  {
    0 <= i < |m.bufferViews| && m.bufferViews[i].target != 0
  }

  /** View `i` is classified as an index (element-array) buffer. */
  predicate IsIndexView(m: Model, i: int)
  {
    0 <= i < |m.bufferViews| && m.bufferViews[i].target == GL_ELEMENT_ARRAY_BUFFER
  }

  /** Every view that gets uploaded reads inside its buffer. */
  predicate UploadableViews(m: Model)
  {
    forall i :: 0 <= i < |m.bufferViews| && m.bufferViews[i].target != 0 ==> ViewInBuffer(m, m.bufferViews[i])
  }

  /** Accessor `ai` exists and names an existing buffer view. */
  predicate AttributeRefOk(m: Model, ai: int)
  {
    0 <= ai < |m.accessors| && 0 <= m.accessors[ai].bufferView < |m.bufferViews|
  }

  predicate PrimitiveReady(m: Model, p: Primitive)
  {
    && 0 <= p.indices < |m.accessors|
    && forall k :: 0 <= k < |p.attributes| ==> AttributeRefOk(m, p.attributes[k].1)
  }

  /** If the first texture has a source, that image exists. */
  predicate TextureReady(m: Model)
  {
    |m.textures| > 0 && m.textures[0].source > -1 ==> m.textures[0].source < |m.images|
  }

  /** What binding `mesh` reads: all uploadable views, its primitives' accessors, and the first texture's image. */
  predicate MeshReady(m: Model, mesh: Mesh)
  {
    && UploadableViews(m)
    && (forall j :: 0 <= j < |mesh.primitives| ==> PrimitiveReady(m, mesh.primitives[j]))
    && (|mesh.primitives| > 0 ==> TextureReady(m))
  }

  /** What drawing `mesh` reads: the index accessor of each primitive. */
  predicate MeshDrawable(m: Model, mesh: Mesh)
  {
    forall j :: 0 <= j < |mesh.primitives| ==> 0 <= mesh.primitives[j].indices < |m.accessors|
  }

  /**
   * The node graph is acyclic: `rank` strictly decreases from every node to each
   * of its children, and every child index names an existing node.
   */
  predicate RankedBy(m: Model, rank: seq<nat>)
  {
    && |rank| == |m.nodes|
    && forall n, c :: 0 <= n < |m.nodes| && 0 <= c < |m.nodes[n].children| ==>
         0 <= m.nodes[n].children[c] < |m.nodes| && rank[m.nodes[n].children[c]] < rank[n]
  }

  /** The default scene exists and its root indices name existing nodes. */
  predicate SceneReady(m: Model)
  {
    && 0 <= m.defaultScene < |m.scenes|
    && forall i :: 0 <= i < |m.scenes[m.defaultScene].nodes| ==>
         0 <= m.scenes[m.defaultScene].nodes[i] < |m.nodes|
  }
}
