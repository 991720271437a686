# glTF binding and drawing in the viewer window

This project models the glTF 2.0 part of the viewer's `Window` class: how an
already parsed asset is turned into OpenGL buffers, vertex attribute set-up and
a texture (`bindMesh`, `bindModelNodes`, `bindModel`), and how the node
hierarchy is drawn again with one indexed draw per primitive (`drawMesh`,
`drawModelNodes`, `drawModel`).

OpenGL is reduced to what can be observed of it:

- the table from buffer-view index to buffer name (`std::map<int, GLuint>`);
- the counter that hands out fresh object names;
- the sequence of GL effects issued so far (`Gl.Event`).

The name counter starts at 1, since GL names are non-zero. Buffers and
textures draw from the same counter.

A `.at()` lookup that throws `std::out_of_range` ends the operation with a
`Gl.Run.Threw`. It carries the state as it was at the throw and the reason
(`Gl.Fault`).

Modules:

- `Asset`: the parsed asset as datatypes. Every cross-reference is an index
  into a flat array. The module also holds the conditions each operation reads
  under, for example that a view lies inside its buffer, that an attribute's
  accessor exists, or that the node graph is acyclic.
  - Acyclicity is stated with a ghost rank that strictly decreases from a node
    to each of its children.
  - A primitive's attribute map is a sequence whose names strictly ascend.
    This is the iteration order of the `std::map<std::string, int>`.
- `Selectors`: the pure choices made inside `bindMesh`. These are the attribute
  slot of a semantic name, the component count of an accessor, and the pixel
  format and type of the texture image.
- `Gl`: the events, the GL state, runs that end normally or by a throw, and
  counting events.
- `Traversal`: the meshes the two traversals visit, in order. The walk is
  depth first and pre-order, starting from the default scene's roots.
- `BindSpec`: the binding operations as functions of the state before them.
  The module also holds the lemmas about upload, attribute set-up, texture
  upload, mesh binding, pruning and the whole of `bindModel`.
- `DrawSpec`: the same for drawing, plus what drawing right after `bindModel`
  does.
- `App`: class `Window`, written imperatively with the source's loops.
  - Each method is proved to produce exactly the run that the matching
    function of `BindSpec` or `DrawSpec` gives.
  - Each method keeps the class invariant: the kept table names only buffer
    views, and names only handles already handed out.
  - Two loops are split out of the methods that hold them, so that each proof
    stays small: the child loops of the recursive functions (`BindChildren`,
    `DrawChildren`) and the clean-up loop of `bindModel` (`PruneTable`). So is
    the body of the attribute loop (`SetUpAttribute`).

Two behaviours of the code are kept deliberately:

- `bindMesh` uploads every buffer view with a target on every call, whatever
  mesh it is given. The last name stored for a view replaces the earlier one.
- The attribute loop reads the table with the inserting `operator[]`. A view
  that is not in the table therefore gets the entry 0 and buffer 0 bound.

The clean-up loop in `bindModel` walks the `std::map` in ascending key order.
It is modelled as an ascending scan over the buffer-view indices that acts on
the indices present in the table. Every key is a buffer-view index
(`BindSpec.BindMeshesTable`, `BindSpec.BindMeshesHealthy`), which
`App.Window.PruneTable` requires, so the scan meets the same keys in the same
order.

## Model

| member | source | states |
|---|---|---|
| Selectors.AttribSlot | src/App/Window.cpp:334-337 | The slot is -1, 0, 1 or 2. A slot of 0 or more is the one whose semantic name equals the attribute name. The slot is -1 exactly when the name is none of POSITION, NORMAL, TEXCOORD_0. |
| Selectors.SlotOfSemanticName | src/App/Window.cpp:334-337 | POSITION gets slot 0, NORMAL slot 1 and TEXCOORD_0 slot 2. Each slot is reached from its own name. |
| Selectors.ComponentCount | src/App/Window.cpp:329-332 | The count is 1 for a scalar accessor and the accessor's type code otherwise. This ensures restates the selection rule; `Selectors.ComponentCountValid` proves what the count means. |
| Selectors.ComponentCountValid | src/App/Window.cpp:329-332 | The count is one OpenGL accepts (1 to 4) exactly for scalar and vector accessors. A vector passes its own component count. |
| Selectors.PixelFormat | src/App/Window.cpp:368-378 | The format is always one of RED, RG, RGB, RGBA. |
| Selectors.PixelFormatChannels | src/App/Window.cpp:368-378 | The chosen format carries the image's channel count for 1 to 3 channels, and 4 channels for any other count. Every format is the choice for its own channel count. |
| Selectors.PixelType | src/App/Window.cpp:380-387 | The type is UNSIGNED_SHORT exactly when the image has 16 bits per channel. Any other depth, supported or not, gives UNSIGNED_BYTE. This ensures restates the selection rule; `Selectors.PixelTypeMatchesDepth` proves what the type means. |
| Selectors.PixelTypeMatchesDepth | src/App/Window.cpp:380-387 | The type's channel width equals the image's bit depth exactly for 8-bit and 16-bit images. |
| Traversal.OwnMesh | src/App/Window.cpp:233-235 | A node contributes its mesh exactly when the mesh index is in range, and then contributes only that mesh. This ensures restates the guard; `Traversal.ChildSubtreeVisited` proves the visit order built on it. |
| Traversal.SceneMeshes | src/App/Window.cpp:250-254 | Every mesh visited from the default scene exists. |
| Traversal.NodeMeshesExist | src/App/Window.cpp:231-241 | Every mesh visited from a node exists. An out-of-range mesh index contributes nothing. |
| Traversal.ListMeshesExist | src/App/Window.cpp:237-240 | Every mesh visited from a list of sibling nodes exists. |
| Traversal.ListMeshesSplit | src/App/Window.cpp:237-240 | The siblings from `i` on are visited as those before `c` followed by those from `c` on. |
| Traversal.ListMeshesAt | src/App/Window.cpp:237-240 | The whole subtree of sibling `c` is visited after the subtrees of the siblings before it and before those after it. |
| Traversal.ChildSubtreeVisited | src/App/Window.cpp:231-241 | Pre-order: a node's own mesh comes first, then each child's whole subtree in declared order. This holds even when the node's mesh index is out of range. |
| BindSpec.ViewBytes | src/App/Window.cpp:315-316 | For a view whose buffer is not empty, the bytes uploaded are exactly as long as the view. |
| BindSpec.UploadFromThrows | src/App/Window.cpp:278-317 | The upload loop throws exactly when some view with a target has a buffer with no data, whatever that view's offset and length. |
| BindSpec.UploadFromTable | src/App/Window.cpp:278-317 | Each view with a target is stored under a fresh name, replacing any earlier entry. The names follow view order, one per view with a target. Views with target 0 and all other keys keep their entries, or stay absent. The counter advances by the number of uploads. |
| BindSpec.UploadFromEvents | src/App/Window.cpp:278-317 | The loop only appends to the trace. Without a throw, no view with a target has an empty buffer, and what the loop appends is exactly the upload list. |
| BindSpec.UploadEventsLength | src/App/Window.cpp:288-317 | The upload list has one event per view with a target, and every event in it is an upload. |
| BindSpec.UploadEventAt | src/App/Window.cpp:302-316 | The upload of view `k` is at its position among the views with a target. It has the view's own target, the name handed out for it, and the slice `[byteOffset, byteOffset + byteLength)` of its buffer. |
| BindSpec.UploadHandlesFresh | src/App/Window.cpp:306-308 | Every view with a target ends up with a fresh name, and distinct views get distinct names. |
| BindSpec.UploadFromPartialKeys | src/App/Window.cpp:278-317 | Even when the loop throws, every key it has added is a buffer-view index. |
| BindSpec.AttribView | src/App/Window.cpp:324-327 | An attribute's view is an existing buffer view. |
| BindSpec.EnableEvent | src/App/Window.cpp:341-345 | The enabled slot is the one of the attribute's semantic name. The component count is the one chosen for the accessor's type. The component type, normalized flag and byte offset are the accessor's own. The stride is the one `ByteStride` gives for the accessor and its view. |
| BindSpec.AttribEvents | src/App/Window.cpp:327-347 | One attribute issues a bind of its buffer, then an enable exactly when its name has a slot, and nothing else. This ensures restates the branch; `BindSpec.AttribsFromEnablesSound` and `BindSpec.AttribsFromEnablesComplete` prove what the attribute loop enables. |
| BindSpec.AttribsFromKeeps | src/App/Window.cpp:323-348 | The attribute loop takes no new names and keeps every existing table entry. |
| BindSpec.AttribsFromInserts | src/App/Window.cpp:327 | The loop adds only entries of value 0, and only for an attribute's view that was absent. |
| BindSpec.AttribsFromCovers | src/App/Window.cpp:327 | After the loop every attribute's view is in the table. |
| BindSpec.AttribsFromKinds | src/App/Window.cpp:323-348 | The loop only appends array-buffer binds and attribute enables. |
| BindSpec.AttribsFromEnablesSound | src/App/Window.cpp:334-345 | Every enable that is issued belongs to an attribute whose name has a slot, with that attribute's pointer set-up. |
| BindSpec.AttribsFromEnablesComplete | src/App/Window.cpp:334-345 | Every attribute whose name has a slot gets that slot enabled and described. |
| BindSpec.AttribsFromEffect | src/App/Window.cpp:323-348 | The loop leaves the counter as it was and keeps every entry. Every added key is a buffer view entered with 0. Only binds and enables are issued. |
| BindSpec.TextureStepEvents | src/App/Window.cpp:350-391 | The texture step leaves the table alone. It issues at most the upload of the first texture's image, with internal format RGBA, the chosen format and type, and the image's size and pixels. |
| BindSpec.TextureStepCounts | src/App/Window.cpp:350-391 | Without a throw, the texture step uploads one image and takes one name exactly when there is a texture whose source is not -1. Otherwise it uploads nothing and takes no name. |
| BindSpec.PrimitiveStep | src/App/Window.cpp:319-393 | One primitive issues no buffer upload. Any image it uploads is the first texture's image. |
| BindSpec.PrimitivesFromTable | src/App/Window.cpp:319-393 | The primitive loop keeps every table entry. It adds only 0 entries, for buffer views. Names are never taken back. |
| BindSpec.PrimitivesFromThrows | src/App/Window.cpp:389-390 | The primitive loop throws exactly when a primitive is left and the first texture's image has no pixels. |
| BindSpec.PrimitivesFromTextures | src/App/Window.cpp:350-391 | Every image uploaded is `images[textures[0].source]`, whatever the primitive's material. Without a throw it is uploaded once per primitive, and one name is taken per primitive. |
| BindSpec.BindMeshEffect | src/App/Window.cpp:277-394 | After binding any mesh, every view with a target has an entry holding the name this bind's upload loop gave it (the counter before the bind plus its position among the views with a target), and the keys stay buffer views. There is one buffer upload per view with a target. There is one image upload per primitive when the first texture is enabled, and none otherwise. |
| BindSpec.BindMeshesAppend | src/App/Window.cpp:231-254 | Binding a visit list `a + b` is binding `a`, then `b` unless `a` threw. |
| BindSpec.BindMeshesTable | src/App/Window.cpp:231-254 | Binding visited meshes keeps the keys inside the buffer views. After one or more binds, every view with a target has an entry. Binding nothing changes nothing. |
| BindSpec.BindMeshesLast | src/App/Window.cpp:306-308 | After binding `a + [k]` without a throw, every view with a target holds the name the last bind's upload loop gave it; earlier binds' names are overwritten. |
| BindSpec.BindMeshesUploads | src/App/Window.cpp:231-317 | Every visit re-uploads every view with a target. `n` visits without a throw upload `n` times as many buffers as there are views with a target. |
| BindSpec.PruneEffect | src/App/Window.cpp:258-272 | The clean-up keeps exactly the element-array keys, with their names unchanged. Every erased entry gets a delete of its name. Nothing else is issued, and the counter is unchanged. |
| BindSpec.BindModelTable | src/App/Window.cpp:243-275 | After `bindModel` without a throw, when some mesh is visited, the table's keys are exactly the element-array views. When no mesh is visited, the table is empty and nothing is issued. Buffer uploads number visits times views with a target. |
| BindSpec.BindModelIndexNames | src/App/Window.cpp:243-275 | After `bindModel` without a throw that visits some mesh, every element-array view is kept under the name the last visited mesh's bind gave it. |
| BindSpec.UploadFromHealthy | src/App/Window.cpp:278-317 | The upload loop keeps the table healthy (keys are views, names already handed out), even when it throws. |
| BindSpec.PrimitivesFromHealthy | src/App/Window.cpp:319-393 | The primitive loop keeps the table healthy, even when it throws. |
| BindSpec.BindMeshHealthy | src/App/Window.cpp:277-394 | Binding a mesh keeps the table healthy and never takes back a name. |
| BindSpec.BindMeshesHealthy | src/App/Window.cpp:231-254 | Binding a visit list keeps the table healthy. |
| BindSpec.BindModelHealthy | src/App/Window.cpp:243-275 | `bindModel` leaves a healthy table, even when it throws, and never takes back a name. |
| DrawSpec.PrimitiveDraw | src/App/Window.cpp:401-405 | A primitive issues two events: a bind of its index buffer, then a draw with the primitive's mode and the index accessor's count, component type and byte offset. This ensures restates the two calls; `DrawSpec.DrawFromAt` proves where they land in a mesh's draw. |
| DrawSpec.DrawFromEffect | src/App/Window.cpp:396-407 | Drawing a mesh changes neither the table nor the counter. It throws exactly when some primitive's index view is not in the table, and then names the first such view. Without a throw it issues two events per primitive. |
| DrawSpec.DrawFromAt | src/App/Window.cpp:396-407 | Primitive `q`'s bind and draw are at positions `2q` and `2q+1`, with the name the table holds for its index view. |
| DrawSpec.DrawFromCount | src/App/Window.cpp:396-407 | Without a throw, drawing a mesh issues exactly one draw per primitive. |
| DrawSpec.DrawMeshesAppend | src/App/Window.cpp:410-426 | Drawing a visit list `a + b` is drawing `a`, then `b` unless `a` threw. |
| DrawSpec.DrawMeshesEffect | src/App/Window.cpp:410-426 | Drawing visited meshes leaves the table and the counter as they are. It is free of throws exactly when every visited primitive's index view is in the table. It then issues one draw per primitive per visit. |
| DrawSpec.DrawAfterBind | src/App/Window.cpp:419-430 | Right after a successful `bindModel` that visits some mesh, drawing is free of throws exactly when every visited primitive's index accessor reads an element-array view. It then issues one draw per visited primitive. |
| DrawSpec.DrawNothingVisited | src/App/Window.cpp:419-430 | When the default scene visits no mesh, drawing issues nothing and cannot throw. |
| App.Window.UploadViews | src/App/Window.cpp:278-317 | The upload loop produces exactly the run `BindSpec.UploadFrom` describes, and keeps the invariant. |
| App.Window.SetUpAttribute | src/App/Window.cpp:324-347 | One attribute's set-up is `BindSpec.AttribSetUp`: the inserting lookup, the bind, and the enable when the name has a slot. |
| App.Window.SetUpAttributes | src/App/Window.cpp:323-348 | The attribute loop, in key order, is `BindSpec.AttribsFrom`. |
| App.Window.UploadTexture | src/App/Window.cpp:350-392 | The texture part of one primitive is `BindSpec.TextureStep`, including the throw on an empty image. |
| App.Window.BindMesh | src/App/Window.cpp:277-394 | `bindMesh` on a given table produces exactly `BindSpec.BindMeshRun`, never takes back a name and keeps the invariant. |
| App.Window.BindModelNodes | src/App/Window.cpp:231-241 | `bindModelNodes` binds exactly the meshes `Traversal.NodeMeshes` lists, in that order, stopping at a throw. |
| App.Window.BindChildren | src/App/Window.cpp:237-240 | The child loop binds the children's subtrees in declared order, stopping at a throw. |
| App.Window.PruneTable | src/App/Window.cpp:258-272 | For a table whose keys are buffer views, the clean-up loop is `BindSpec.PruneFrom` over all view indices. |
| App.Window.BindModel | src/App/Window.cpp:243-275 | `bindModel` produces exactly `BindSpec.BindModelRun`: an empty table, the scene's visits, then the clean-up. It leaves the kept table alone. |
| App.Window.InitializeBuffers | src/App/Window.cpp:80-81 | The result of `bindModel` becomes the kept index-buffer table when it does not throw. A throw leaves the kept table as it was. The invariant holds either way. |
| App.Window.DrawMesh | src/App/Window.cpp:396-407 | `drawMesh` against the kept table is exactly `DrawSpec.DrawMeshRun`, and leaves the table and the counter unchanged. |
| App.Window.DrawModelNodes | src/App/Window.cpp:410-418 | `drawModelNodes` draws exactly the meshes `Traversal.NodeMeshes` lists, in that order, stopping at a throw. |
| App.Window.DrawChildren | src/App/Window.cpp:415-417 | The child loop draws the children's subtrees in declared order, stopping at a throw. |
| App.Window.DrawModel | src/App/Window.cpp:419-430 | `drawModel` is exactly `DrawSpec.DrawModelRun` over the default scene's visits. |

## Left out

- The Qt widget, FPS label, timer and frame loop: user interface and timing.
- Shader creation, uniforms, matrices and the view/projection numerics: these
  are floating point and foreign library code.
- `loadModel` and tinygltf's parser: file and JSON input. The window starts
  from an already parsed `Asset.Model`.
- `Accessor::ByteStride`: tinygltf code that is not part of this model. It is
  the parameter `byteStride` of the window.
- The vertex array object that `bindModel` and `drawModel` bind and release,
  and the first half of `vaoAndEbos`. They carry no state the model observes.
- What the GPU does with the calls:
  - each gl* call is an event in the trace;
  - `glBindTexture`, `glPixelStorei` and the four texture parameters are folded
    into the single `TexImage` event;
  - whether a deleted vertex buffer is still usable is not modelled.
- The `std::cout` messages, which have no other effect.
- The `assert()` calls and the unchecked indexing: they are preconditions.
  - Child and root indices must name nodes.
  - Primitive and attribute accessors must exist.
  - An attribute accessor must name a buffer view, so no key is ever negative.
    With a negative key, the clean-up loop's `continue` at line 262 would never
    advance the iterator.
  - A view with a target must lie inside its buffer, unless its buffer is
    empty, which throws.
  - The node graph must be acyclic, so that the recursion ends.
- The negative-key `continue` of the clean-up loop: with the preconditions
  above it cannot be reached, so the scan has no branch for it.
- A view shared by two meshes is uploaded again on every mesh bind, and the
  model does the same.
- An unsupported bit depth silently gets `GL_UNSIGNED_BYTE`, and the model does
  the same.
- The trace drops the GL calls issued just before a throw. Each such group is
  one combined event that the throw cuts off whole.
  - When a buffer is empty, the `glBindBuffer` at line 309 is not recorded. Its
    name is still taken and stored in the table.
  - When the texture image is empty, the `glBindTexture`, `glPixelStorei` and
    `glTexParameter*` calls at lines 361-366 are not recorded. The texture's
    name is still taken.
- Empty data is not reported: an empty buffer or image makes `.at(0)` throw,
  and the model ends the run with that throw.
- The code that is commented out in the source.
