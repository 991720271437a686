/**
 * What binding the model does, as functions of the GL state before it:
 * the upload of buffer views and the attribute and texture set-up of one
 * mesh (Window::bindMesh), the bind traversal as a sequence of mesh binds
 * (Window::bindModelNodes), the pruning of the table (Window::bindModel),
 * and the properties these have.
 */
module BindSpec {
  import opened Asset
  import opened Selectors
  import opened Gl
  import opened Traversal

  /** tinygltf's Accessor::ByteStride, which is not part of this model: the caller supplies it. */
  type Stride = (Accessor, BufferView) -> int

  /** Every key of the table is a buffer-view index. */
  predicate KeysInRange(m: Model, vbos: map<int, nat>)
  {
    forall k :: k in vbos ==> 0 <= k < |m.bufferViews|
  }

  /** The table only names buffer views, and every name in it was handed out already (names start at 1). */
  predicate Healthy(m: Model, st: GlState)
  {
    && st.next >= 1
    && KeysInRange(m, st.vbos)
    && forall k :: k in st.vbos ==> st.vbos[k] < st.next
  }

  lemma SuffixSplit(a: seq<Event>, b: seq<Event>, c: seq<Event>)
    requires a <= b <= c
    ensures c[|a|..] == b[|a|..] + c[|b|..]
  {
    assert c == b + c[|b|..];
  }

  // ---------------------------------------------------------------------
  // Upload of every buffer view (Window.cpp 278-317)

  /** The bytes of view `i`: [byteOffset, byteOffset + byteLength) of its buffer. */
  function ViewBytes(m: Model, i: int): (bytes: seq<bv8>)
    requires Targeted(m, i) && UploadableViews(m) && !EmptySource(m, i)
    ensures |bytes| == m.bufferViews[i].byteLength
  {
    var v := m.bufferViews[i];
    m.buffers[v.buffer].data[v.byteOffset .. v.byteOffset + v.byteLength]
  }

  /** View `i`'s buffer has no bytes, so taking the address of its first byte throws. */
  predicate EmptySource(m: Model, i: int)
    requires Targeted(m, i) && UploadableViews(m)
  {
    |m.buffers[m.bufferViews[i].buffer].data| == 0
  }

  /** No view from `i` on with a target has an empty buffer. */
  predicate SourcesFrom(m: Model, i: nat)
    requires UploadableViews(m)
  {
    forall k :: i <= k < |m.bufferViews| && Targeted(m, k) ==> !EmptySource(m, k)
  }

  /** Upload of views `i..`: skip a view with target 0, otherwise take a fresh name for it, record it, upload its bytes. */
  function UploadFrom(m: Model, i: nat, st: GlState): Run
    requires i <= |m.bufferViews| && UploadableViews(m)
    decreases |m.bufferViews| - i
  {
    if i == |m.bufferViews| then Ok(st)
    else if m.bufferViews[i].target == 0 then UploadFrom(m, i + 1, st)
    else
      var v := m.bufferViews[i];
      var st1 := st.(vbos := st.vbos[i := st.next], next := st.next + 1);
      if |m.buffers[v.buffer].data| == 0 then Threw(st1, EmptyBuffer(v.buffer))
      else UploadFrom(m, i + 1, st1.(trace := st1.trace + [Upload(v.target, st.next, ViewBytes(m, i))]))
  }

  /** Number of views with a non-zero target among the first `i`. */
  function Uploads(m: Model, i: nat): (n: nat)
    requires i <= |m.bufferViews|
    ensures n <= i
  {
    if i == 0 then 0 else Uploads(m, i - 1) + (if m.bufferViews[i - 1].target != 0 then 1 else 0)
  }

  /** `Uploads` grows with `i`, strictly past each view with a target. */
  lemma {:induction false} UploadsIncrease(m: Model, a: nat, b: nat)
    requires a <= b <= |m.bufferViews|
    ensures Uploads(m, a) <= Uploads(m, b)
    ensures a < b && Targeted(m, a) ==> Uploads(m, a) < Uploads(m, b)
    decreases b - a
  {
    if a < b {
      UploadsIncrease(m, a, b - 1);
    }
  }

  /** The upload loop throws exactly when some view with a target, from `i` on, has an empty buffer. */
  lemma {:induction false} UploadFromThrows(m: Model, i: nat, st: GlState)
    requires i <= |m.bufferViews| && UploadableViews(m)
    ensures UploadFrom(m, i, st).Threw? <==>
            exists k :: i <= k < |m.bufferViews| && Targeted(m, k) && EmptySource(m, k)
    decreases |m.bufferViews| - i
  {
    if i < |m.bufferViews| {
      var v := m.bufferViews[i];
      if v.target == 0 {
        UploadFromThrows(m, i + 1, st);
      } else if |m.buffers[v.buffer].data| != 0 {
        var st1 := st.(vbos := st.vbos[i := st.next], next := st.next + 1);
        UploadFromThrows(m, i + 1, st1.(trace := st1.trace + [Upload(v.target, st.next, ViewBytes(m, i))]));
        if exists k :: i <= k < |m.bufferViews| && Targeted(m, k) && EmptySource(m, k) {
          var k :| i <= k < |m.bufferViews| && Targeted(m, k) && EmptySource(m, k);
          assert k != i;
        }
      } else {
        assert Targeted(m, i) && EmptySource(m, i);
      }
    }
  }

  /**
   * The table after the upload loop: view `k` (from `i` on) with a target is
   * stored under the name `next + Uploads(k) - Uploads(i)`, overwriting any
   * earlier entry, the names used are exactly the next ones in order, and
   * every other key keeps its entry (or stays absent).
   */
  lemma {:induction false} UploadFromTable(m: Model, i: nat, st: GlState)
    requires i <= |m.bufferViews| && UploadableViews(m)
    requires UploadFrom(m, i, st).Ok?
    ensures var r := UploadFrom(m, i, st).st;
      && r.next == st.next + Uploads(m, |m.bufferViews|) - Uploads(m, i)
      && (forall k :: i <= k < |m.bufferViews| && Targeted(m, k) ==>
            k in r.vbos && r.vbos[k] == st.next + Uploads(m, k) - Uploads(m, i))
      && (forall k :: !(i <= k < |m.bufferViews| && Targeted(m, k)) ==>
            (k in r.vbos <==> k in st.vbos) && (k in st.vbos ==> r.vbos[k] == st.vbos[k]))
    decreases |m.bufferViews| - i
  {
    if i < |m.bufferViews| {
      var v := m.bufferViews[i];
      if v.target == 0 {
        UploadFromTable(m, i + 1, st);
      } else {
        var st1 := st.(vbos := st.vbos[i := st.next], next := st.next + 1);
        UploadFromTable(m, i + 1, st1.(trace := st1.trace + [Upload(v.target, st.next, ViewBytes(m, i))]));
      }
    }
  }

  /** The uploads the loop issues for views `i..` when nothing throws, naming them from `h` on. */
  function UploadEvents(m: Model, i: nat, h: nat): seq<Event>
    requires i <= |m.bufferViews| && UploadableViews(m) && SourcesFrom(m, i)
    decreases |m.bufferViews| - i
  {
    if i == |m.bufferViews| then []
    else if m.bufferViews[i].target == 0 then UploadEvents(m, i + 1, h)
    else [Upload(m.bufferViews[i].target, h, ViewBytes(m, i))] + UploadEvents(m, i + 1, h + 1)
  }

  lemma {:induction false} UploadFromEvents(m: Model, i: nat, st: GlState)
    requires i <= |m.bufferViews| && UploadableViews(m)
    ensures st.trace <= UploadFrom(m, i, st).st.trace
    ensures UploadFrom(m, i, st).Ok? ==>
              SourcesFrom(m, i) && UploadFrom(m, i, st).st.trace == st.trace + UploadEvents(m, i, st.next)
    decreases |m.bufferViews| - i
  {
    if i < |m.bufferViews| {
      var v := m.bufferViews[i];
      if v.target == 0 {
        UploadFromEvents(m, i + 1, st);
      } else if |m.buffers[v.buffer].data| != 0 {
        var u := Upload(v.target, st.next, ViewBytes(m, i));
        var st1 := st.(vbos := st.vbos[i := st.next], next := st.next + 1);
        var st2 := st1.(trace := st1.trace + [u]);
        UploadFromEvents(m, i + 1, st2);
        if UploadFrom(m, i + 1, st2).Ok? {
          assert st.trace + [u] + UploadEvents(m, i + 1, st.next + 1) == st.trace + ([u] + UploadEvents(m, i + 1, st.next + 1));
        }
      }
    }
  }

  /** The upload events are one per view with a target and nothing else. */
  lemma {:induction false} UploadEventsLength(m: Model, i: nat, h: nat)
    requires i <= |m.bufferViews| && UploadableViews(m) && SourcesFrom(m, i)
    ensures |UploadEvents(m, i, h)| == Uploads(m, |m.bufferViews|) - Uploads(m, i)
    ensures forall e :: e in UploadEvents(m, i, h) ==> e.Upload?
    decreases |m.bufferViews| - i
  {
    if i < |m.bufferViews| {
      var h' := if m.bufferViews[i].target == 0 then h else h + 1;
      UploadEventsLength(m, i + 1, h');
    }
  }

  /** View `k`'s upload sits at position `Uploads(k) - Uploads(i)`, with its own target, name and bytes. */
  lemma {:induction false} UploadEventAt(m: Model, i: nat, h: nat, k: nat)
    requires i <= k < |m.bufferViews| && UploadableViews(m) && Targeted(m, k) && SourcesFrom(m, i)
    ensures Uploads(m, i) <= Uploads(m, k) < Uploads(m, |m.bufferViews|)
    ensures |UploadEvents(m, i, h)| == Uploads(m, |m.bufferViews|) - Uploads(m, i)
    ensures UploadEvents(m, i, h)[Uploads(m, k) - Uploads(m, i)]
         == Upload(m.bufferViews[k].target, h + Uploads(m, k) - Uploads(m, i), ViewBytes(m, k))
    decreases k - i
  {
    UploadsIncrease(m, i, k);
    UploadsIncrease(m, k, |m.bufferViews|);
    UploadEventsLength(m, i, h);
    var t := m.bufferViews[i].target;
    if k > i {
      var h' := if t == 0 then h else h + 1;
      UploadEventAt(m, i + 1, h', k);
      assert Uploads(m, i + 1) == Uploads(m, i) + (if t == 0 then 0 else 1);
      if t != 0 {
        var rest := UploadEvents(m, i + 1, h');
        assert UploadEvents(m, i, h) == [Upload(t, h, ViewBytes(m, i))] + rest;
      }
    }
  }

  /** Distinct views get distinct names, all of them fresh (at or above the counter before the loop). */
  lemma UploadHandlesFresh(m: Model, st: GlState)
    requires UploadableViews(m) && UploadFrom(m, 0, st).Ok?
    ensures var r := UploadFrom(m, 0, st).st;
      && (forall k :: Targeted(m, k) ==> k in r.vbos && st.next <= r.vbos[k] < r.next)
      && (forall k1, k2 :: Targeted(m, k1) && Targeted(m, k2) && k1 != k2 ==> r.vbos[k1] != r.vbos[k2])
  {
    UploadFromTable(m, 0, st);
    forall k | Targeted(m, k)
      ensures Uploads(m, k) < Uploads(m, |m.bufferViews|)
    {
      UploadsIncrease(m, k, |m.bufferViews|);
    }
    forall k1, k2 | Targeted(m, k1) && Targeted(m, k2) && k1 < k2
      ensures Uploads(m, k1) < Uploads(m, k2)
    {
      UploadsIncrease(m, k1, k2);
    }
  }

  // ---------------------------------------------------------------------
  // Attribute set-up of one primitive (Window.cpp 323-348)

  predicate AttrsReady(m: Model, attrs: seq<(string, int)>)
  {
    forall k :: 0 <= k < |attrs| ==> AttributeRefOk(m, attrs[k].1)
  }

  /** The buffer view an attribute's accessor reads. */
  function AttribView(m: Model, attr: (string, int)): (view: int)
    requires AttributeRefOk(m, attr.1)
    ensures 0 <= view < |m.bufferViews|
  {
    m.accessors[attr.1].bufferView
  }

  /**
   * The attribute-pointer set-up of an attribute whose name has a slot: the
   * slot is the one of that semantic name, and the accessor's component type,
   * normalized flag and byte offset are passed through unchanged, and the
   * stride is the one ByteStride gives for the accessor and its view.
   */
  function EnableEvent(m: Model, stride: Stride, attr: (string, int)): (e: Event)
    requires AttributeRefOk(m, attr.1) && AttribSlot(attr.0) >= 0
    ensures e.EnableAttrib? && e.slot < 3 && SemanticName(e.slot) == attr.0
    ensures var a := m.accessors[attr.1];
      && e.size == ComponentCount(a.shape)
      && e.componentType == a.componentType && e.normalized == a.normalized && e.offset == a.byteOffset
      && e.stride == stride(a, m.bufferViews[a.bufferView])
  {
    var a := m.accessors[attr.1];
    EnableAttrib(AttribSlot(attr.0), ComponentCount(a.shape), a.componentType, a.normalized,
                 stride(a, m.bufferViews[a.bufferView]), a.byteOffset)
  }

  /**
   * The events for one attribute: bind the buffer named `h`, then, when the
   * attribute's name has a slot, enable and describe that slot.
   */
  function AttribEvents(m: Model, stride: Stride, attr: (string, int), h: nat): (es: seq<Event>)
    requires AttributeRefOk(m, attr.1)
    ensures 1 <= |es| <= 2 && es[0] == BindArray(h)
    ensures |es| == 2 <==> AttribSlot(attr.0) >= 0
    ensures |es| == 2 ==> es[1] == EnableEvent(m, stride, attr)
    ensures forall e :: e in es ==> e.BindArray? || e.EnableAttrib?
  {
    if AttribSlot(attr.0) > -1 then [BindArray(h), EnableEvent(m, stride, attr)] else [BindArray(h)]
  }

  /** One attribute: look its view up with inserting semantics (an absent view gets name 0), then issue its events. */
  function AttribSetUp(m: Model, stride: Stride, attr: (string, int), st: GlState): GlState
    requires AttributeRefOk(m, attr.1)
  {
    var view := AttribView(m, attr);
    var vbos := if view in st.vbos then st.vbos else st.vbos[view := 0];
    st.(vbos := vbos, trace := st.trace + AttribEvents(m, stride, attr, vbos[view]))
  }

  /** Attributes `j..`, in key order. */
  function AttribsFrom(m: Model, stride: Stride, attrs: Attributes, j: nat, st: GlState): GlState
    requires j <= |attrs| && AttrsReady(m, attrs)
    decreases |attrs| - j
  {
    if j == |attrs| then st
    else AttribsFrom(m, stride, attrs, j + 1, AttribSetUp(m, stride, attrs[j], st))
  }

  /** The attribute loop is one attribute's set-up after another. */
  lemma AttribsFromStep(m: Model, stride: Stride, attrs: Attributes, j: nat, st: GlState)
    requires j < |attrs| && AttrsReady(m, attrs)
    ensures AttribsFrom(m, stride, attrs, j, st) == AttribsFrom(m, stride, attrs, j + 1, AttribSetUp(m, stride, attrs[j], st))
  {
  }

  /** Attribute set-up takes no names and keeps every table entry. */
  lemma {:induction false} AttribsFromKeeps(m: Model, stride: Stride, attrs: Attributes, j: nat, st: GlState)
    requires j <= |attrs| && AttrsReady(m, attrs)
    ensures var r := AttribsFrom(m, stride, attrs, j, st);
      && r.next == st.next
      && (forall k :: k in st.vbos ==> k in r.vbos && r.vbos[k] == st.vbos[k])
    decreases |attrs| - j
  {
    if j < |attrs| {
      var view := AttribView(m, attrs[j]);
      var st1 := AttribSetUp(m, stride, attrs[j], st);
      assert st1.vbos == if view in st.vbos then st.vbos else st.vbos[view := 0];
      assert st1.next == st.next && forall k :: k in st.vbos ==> k in st1.vbos && st1.vbos[k] == st.vbos[k];
      AttribsFromKeeps(m, stride, attrs, j + 1, st1);
      assert AttribsFrom(m, stride, attrs, j, st) == AttribsFrom(m, stride, attrs, j + 1, st1);
    }
  }

  /** Attribute set-up inserts the name 0 for each attribute view that was absent, and for nothing else. */
  lemma {:induction false} AttribsFromInserts(m: Model, stride: Stride, attrs: Attributes, j: nat, st: GlState)
    requires j <= |attrs| && AttrsReady(m, attrs)
    ensures var r := AttribsFrom(m, stride, attrs, j, st);
      forall k :: k in r.vbos && k !in st.vbos ==>
        r.vbos[k] == 0 && exists q :: j <= q < |attrs| && AttribView(m, attrs[q]) == k
    decreases |attrs| - j
  {
    if j < |attrs| {
      var view := AttribView(m, attrs[j]);
      var st1 := AttribSetUp(m, stride, attrs[j], st);
      assert st1.vbos == if view in st.vbos then st.vbos else st.vbos[view := 0];
      AttribsFromInserts(m, stride, attrs, j + 1, st1);
      AttribsFromKeeps(m, stride, attrs, j + 1, st1);
      var r := AttribsFrom(m, stride, attrs, j, st);
      assert r == AttribsFrom(m, stride, attrs, j + 1, st1);
      forall k | k in r.vbos && k !in st.vbos
        ensures r.vbos[k] == 0 && exists q :: j <= q < |attrs| && AttribView(m, attrs[q]) == k
      {
        if k in st1.vbos {
          assert k == view;
        }
      }
    }
  }

  /** After the attribute set-up of `attrs[j..]`, every one of their views is in the table. */
  lemma {:induction false} AttribsFromCovers(m: Model, stride: Stride, attrs: Attributes, j: nat, st: GlState)
    requires j <= |attrs| && AttrsReady(m, attrs)
    ensures var r := AttribsFrom(m, stride, attrs, j, st);
      forall q :: j <= q < |attrs| ==> AttribView(m, attrs[q]) in r.vbos
    decreases |attrs| - j
  {
    if j < |attrs| {
      var view := AttribView(m, attrs[j]);
      var st1 := AttribSetUp(m, stride, attrs[j], st);
      assert view in st1.vbos;
      AttribsFromCovers(m, stride, attrs, j + 1, st1);
      AttribsFromKeeps(m, stride, attrs, j + 1, st1);
      assert AttribsFrom(m, stride, attrs, j, st) == AttribsFrom(m, stride, attrs, j + 1, st1);
    }
  }

  /** Attribute set-up only binds array buffers and enables slots. */
  lemma {:induction false} AttribsFromKinds(m: Model, stride: Stride, attrs: Attributes, j: nat, st: GlState)
    requires j <= |attrs| && AttrsReady(m, attrs)
    ensures var r := AttribsFrom(m, stride, attrs, j, st);
      && st.trace <= r.trace
      && (forall e :: e in r.trace[|st.trace|..] ==> e.BindArray? || e.EnableAttrib?)
    decreases |attrs| - j
  {
    if j < |attrs| {
      var st1 := AttribSetUp(m, stride, attrs[j], st);
      AttribsFromKinds(m, stride, attrs, j + 1, st1);
      var r := AttribsFrom(m, stride, attrs, j, st);
      SuffixSplit(st.trace, st1.trace, r.trace);
      var mine := st1.trace[|st.trace|..];
      assert mine == AttribEvents(m, stride, attrs[j], st1.vbos[AttribView(m, attrs[j])]);
    }
  }

  /** Every slot enabled by the attribute set-up of `attrs[j..]` is enabled for one of those attributes whose name has that slot. */
  lemma {:induction false} AttribsFromEnablesSound(m: Model, stride: Stride, attrs: Attributes, j: nat, st: GlState)
    requires j <= |attrs| && AttrsReady(m, attrs)
    ensures var r := AttribsFrom(m, stride, attrs, j, st);
      && st.trace <= r.trace
      && (forall e :: e in r.trace[|st.trace|..] && e.EnableAttrib? ==>
            exists q :: j <= q < |attrs| && AttribSlot(attrs[q].0) >= 0 && e == EnableEvent(m, stride, attrs[q]))
    decreases |attrs| - j
  {
    if j < |attrs| {
      var st1 := AttribSetUp(m, stride, attrs[j], st);
      AttribsFromEnablesSound(m, stride, attrs, j + 1, st1);
      var r := AttribsFrom(m, stride, attrs, j, st);
      SuffixSplit(st.trace, st1.trace, r.trace);
      var mine := st1.trace[|st.trace|..];
      var later := r.trace[|st1.trace|..];
      assert mine == AttribEvents(m, stride, attrs[j], st1.vbos[AttribView(m, attrs[j])]);
      forall e | e in r.trace[|st.trace|..] && e.EnableAttrib?
        ensures exists q :: j <= q < |attrs| && AttribSlot(attrs[q].0) >= 0 && e == EnableEvent(m, stride, attrs[q])
      {
        if e in mine {
          assert AttribSlot(attrs[j].0) >= 0 && e == EnableEvent(m, stride, attrs[j]);
        } else {
          assert e in later;
        }
      }
    }
  }

  /** Every attribute of `attrs[j..]` whose name has a slot gets that slot enabled and described. */
  lemma {:induction false} AttribsFromEnablesComplete(m: Model, stride: Stride, attrs: Attributes, j: nat, st: GlState)
    requires j <= |attrs| && AttrsReady(m, attrs)
    ensures var r := AttribsFrom(m, stride, attrs, j, st);
      && st.trace <= r.trace
      && (forall q :: j <= q < |attrs| && AttribSlot(attrs[q].0) >= 0 ==>
            EnableEvent(m, stride, attrs[q]) in r.trace[|st.trace|..])
    decreases |attrs| - j
  {
    if j < |attrs| {
      var st1 := AttribSetUp(m, stride, attrs[j], st);
      AttribsFromEnablesComplete(m, stride, attrs, j + 1, st1);
      var r := AttribsFrom(m, stride, attrs, j, st);
      SuffixSplit(st.trace, st1.trace, r.trace);
      var mine := st1.trace[|st.trace|..];
      var later := r.trace[|st1.trace|..];
      assert mine == AttribEvents(m, stride, attrs[j], st1.vbos[AttribView(m, attrs[j])]);
      forall q | j <= q < |attrs| && AttribSlot(attrs[q].0) >= 0
        ensures EnableEvent(m, stride, attrs[q]) in r.trace[|st.trace|..]
      {
        if q == j {
          assert mine[1] == EnableEvent(m, stride, attrs[q]);
        } else {
          assert EnableEvent(m, stride, attrs[q]) in later;
        }
      }
    }
  }

  /** Both halves of the attribute set-up's effect. */
  lemma AttribsFromEffect(m: Model, stride: Stride, attrs: Attributes, j: nat, st: GlState)
    requires j <= |attrs| && AttrsReady(m, attrs)
    ensures var r := AttribsFrom(m, stride, attrs, j, st);
      && r.next == st.next
      && st.trace <= r.trace
      && (forall k :: k in st.vbos ==> k in r.vbos && r.vbos[k] == st.vbos[k])
      && (forall k :: k in r.vbos && k !in st.vbos ==> 0 <= k < |m.bufferViews| && r.vbos[k] == 0)
      && (forall e :: e in r.trace[|st.trace|..] ==> e.BindArray? || e.EnableAttrib?)
  {
    AttribsFromKeeps(m, stride, attrs, j, st);
    AttribsFromInserts(m, stride, attrs, j, st);
    AttribsFromKinds(m, stride, attrs, j, st);
  }

  // ---------------------------------------------------------------------
  // Texture upload of one primitive (Window.cpp 350-392)

  /** The asset has a texture and the first one names an image. */
  predicate TextureEnabled(m: Model)
  {
    |m.textures| > 0 && m.textures[0].source > -1
  }

  /** `e` uploads the first texture's image with the chosen format and type and internal format RGBA. */
  predicate FirstTextureImage(m: Model, e: Event)
    requires TextureReady(m)
  {
    && TextureEnabled(m)
    && e.TexImage?
    && var img := m.images[m.textures[0].source];
       && e.internalFormat == GL_RGBA
       && e.width == img.width && e.height == img.height
       && e.format == PixelFormat(img.component)
       && e.pixelType == PixelType(img.bits)
       && e.pixels == img.pixels
  }

  /** A fresh texture name and the upload of the first texture's image; throws when that image has no pixels. */
  function TextureStep(m: Model, st: GlState): Run
    requires TextureReady(m)
  {
    if !TextureEnabled(m) then Ok(st)
    else
      var src := m.textures[0].source;
      var img := m.images[src];
      var st1 := st.(next := st.next + 1);
      if |img.pixels| == 0 then Threw(st1, EmptyImage(src))
      else Ok(st1.(trace := st1.trace + [TexImage(st.next, GL_RGBA, img.width, img.height,
                                                  PixelFormat(img.component), PixelType(img.bits), img.pixels)]))
  }

  // ---------------------------------------------------------------------
  // The primitives of one mesh (Window.cpp 319-393) and the whole of bindMesh

  predicate PrimsReady(m: Model, prims: seq<Primitive>)
  {
    && (forall q :: 0 <= q < |prims| ==> PrimitiveReady(m, prims[q]))
    && (|prims| > 0 ==> TextureReady(m))
  }

  /** Primitives `j..`: attribute set-up, then the texture upload. */
  function PrimitivesFrom(m: Model, stride: Stride, prims: seq<Primitive>, j: nat, st: GlState): Run
    requires j <= |prims| && PrimsReady(m, prims)
    decreases |prims| - j
  {
    if j == |prims| then Ok(st)
    else
      var r := TextureStep(m, AttribsFrom(m, stride, prims[j].attributes, 0, st));
      if r.Threw? then r else PrimitivesFrom(m, stride, prims, j + 1, r.st)
  }

  /** The primitive loop keeps every table entry and adds only 0 entries, for buffer views; names only grow. */
  lemma {:induction false} PrimitivesFromTable(m: Model, stride: Stride, prims: seq<Primitive>, j: nat, st: GlState)
    requires j <= |prims| && PrimsReady(m, prims)
    ensures var r := PrimitivesFrom(m, stride, prims, j, st);
      && r.st.next >= st.next
      && (forall k :: k in st.vbos ==> k in r.st.vbos && r.st.vbos[k] == st.vbos[k])
      && (forall k :: k in r.st.vbos && k !in st.vbos ==> 0 <= k < |m.bufferViews| && r.st.vbos[k] == 0)
    decreases |prims| - j
  {
    if j < |prims| {
      var a := AttribsFrom(m, stride, prims[j].attributes, 0, st);
      AttribsFromEffect(m, stride, prims[j].attributes, 0, st);
      var tx := TextureStep(m, a);
      if tx.Ok? {
        PrimitivesFromTable(m, stride, prims, j + 1, tx.st);
      }
    }
  }

  /** The primitive loop throws exactly when a primitive is left and the enabled first texture has no pixels. */
  lemma PrimitivesFromThrows(m: Model, stride: Stride, prims: seq<Primitive>, j: nat, st: GlState)
    requires j <= |prims| && PrimsReady(m, prims)
    ensures PrimitivesFrom(m, stride, prims, j, st).Threw? <==>
            j < |prims| && TextureEnabled(m) && |m.images[m.textures[0].source].pixels| == 0
    decreases |prims| - j
  {
    if j < |prims| {
      var tx := TextureStep(m, AttribsFrom(m, stride, prims[j].attributes, 0, st));
      if tx.Ok? {
        PrimitivesFromThrows(m, stride, prims, j + 1, tx.st);
      }
    }
  }

  /** One texture step issues at most the first texture's image upload, and nothing else. */
  lemma TextureStepEvents(m: Model, st: GlState)
    requires TextureReady(m)
    ensures var tx := TextureStep(m, st);
      && st.trace <= tx.st.trace
      && tx.st.vbos == st.vbos
      && (forall e :: e in tx.st.trace[|st.trace|..] ==> FirstTextureImage(m, e))
  {
    var tx := TextureStep(m, st);
    var tNew := tx.st.trace[|st.trace|..];
    if tx.Ok? && TextureEnabled(m) {
      var img := m.images[m.textures[0].source];
      var e := TexImage(st.next, GL_RGBA, img.width, img.height, PixelFormat(img.component), PixelType(img.bits), img.pixels);
      assert tNew == [e];
      assert FirstTextureImage(m, e);
    } else {
      assert tNew == [];
    }
  }

  /** Without a throw, one texture step uploads the image and takes a name exactly when the first texture is enabled. */
  lemma TextureStepCounts(m: Model, st: GlState)
    requires TextureReady(m)
    ensures var tx := TextureStep(m, st);
      && st.trace <= tx.st.trace
      && (tx.Ok? ==> CountWhere(tx.st.trace[|st.trace|..], IsTexImage) == if TextureEnabled(m) then 1 else 0)
      && (tx.Ok? ==> tx.st.next == st.next + if TextureEnabled(m) then 1 else 0)
  {
    var tx := TextureStep(m, st);
    var tNew := tx.st.trace[|st.trace|..];
    if tx.Ok? && TextureEnabled(m) {
      var img := m.images[m.textures[0].source];
      var e := TexImage(st.next, GL_RGBA, img.width, img.height, PixelFormat(img.component), PixelType(img.bits), img.pixels);
      assert tNew == [e];
      assert [e][..0] == [];
      assert IsTexImage(e);
      assert CountWhere([e], IsTexImage) == CountWhere([], IsTexImage) + 1;
    } else {
      assert tNew == [];
    }
  }

  /** One primitive's set-up, attributes then texture, and what it issues. */
  lemma PrimitiveStep(m: Model, stride: Stride, p: Primitive, st: GlState)
    requires PrimitiveReady(m, p) && TextureReady(m)
    ensures var tx := TextureStep(m, AttribsFrom(m, stride, p.attributes, 0, st));
      && st.trace <= tx.st.trace
      && (forall e :: e in tx.st.trace[|st.trace|..] ==> !e.Upload? && (e.TexImage? ==> FirstTextureImage(m, e)))
      && (tx.Ok? ==> CountWhere(tx.st.trace[|st.trace|..], IsTexImage) == if TextureEnabled(m) then 1 else 0)
      && (tx.Ok? ==> tx.st.next == st.next + if TextureEnabled(m) then 1 else 0)
  {
    var a := AttribsFrom(m, stride, p.attributes, 0, st);
    AttribsFromEffect(m, stride, p.attributes, 0, st);
    TextureStepEvents(m, a);
    TextureStepCounts(m, a);
    var tx := TextureStep(m, a);
    SuffixSplit(st.trace, a.trace, tx.st.trace);
    var aNew := a.trace[|st.trace|..];
    var tNew := tx.st.trace[|a.trace|..];
    assert tx.st.trace[|st.trace|..] == aNew + tNew;
    CountWhereNone(aNew, IsTexImage);
    CountWhereAppend(aNew, tNew, IsTexImage);
  }

  /**
   * The primitive loop uploads no buffer, and every texture image it
   * uploads is the first texture's image, whatever a primitive's material;
   * without a throw it uploads that image once per primitive and takes one
   * name per primitive for it.
   */
  lemma {:induction false} PrimitivesFromTextures(m: Model, stride: Stride, prims: seq<Primitive>, j: nat, st: GlState)
    requires j <= |prims| && PrimsReady(m, prims)
    ensures var r := PrimitivesFrom(m, stride, prims, j, st);
      && st.trace <= r.st.trace
      && (forall e :: e in r.st.trace[|st.trace|..] ==> !e.Upload? && (e.TexImage? ==> FirstTextureImage(m, e)))
      && (r.Ok? ==> CountWhere(r.st.trace[|st.trace|..], IsTexImage) == if TextureEnabled(m) then |prims| - j else 0)
      && (r.Ok? ==> r.st.next == st.next + if TextureEnabled(m) then |prims| - j else 0)
    decreases |prims| - j
  {
    var r := PrimitivesFrom(m, stride, prims, j, st);
    if j == |prims| {
      assert r.st.trace[|st.trace|..] == [];
    } else {
      var tx := TextureStep(m, AttribsFrom(m, stride, prims[j].attributes, 0, st));
      PrimitiveStep(m, stride, prims[j], st);
      if tx.Ok? {
        PrimitivesFromTextures(m, stride, prims, j + 1, tx.st);
        assert r == PrimitivesFrom(m, stride, prims, j + 1, tx.st);
        SuffixSplit(st.trace, tx.st.trace, r.st.trace);
        var mine := tx.st.trace[|st.trace|..];
        var later := r.st.trace[|tx.st.trace|..];
        assert r.st.trace[|st.trace|..] == mine + later;
        if r.Ok? {
          CountWhereAppend(mine, later, IsTexImage);
        }
      } else {
        assert r == tx;
      }
    }
  }

  /** Binding a mesh: upload every buffer view of the model, then set up the mesh's primitives. */
  function BindMeshRun(m: Model, stride: Stride, mesh: Mesh, st: GlState): Run
    requires MeshReady(m, mesh)
  {
    var r := UploadFrom(m, 0, st);
    if r.Threw? then r else PrimitivesFrom(m, stride, mesh.primitives, 0, r.st)
  }

  /**
   * After binding any mesh, every view with a target has an entry, whatever
   * that mesh reads, holding the name this bind's upload loop gave it; the table still names only buffer views; the buffer
   * uploads are one per view with a target; and the texture uploads one per
   * primitive when the first texture is enabled, none otherwise.
   */
  lemma BindMeshEffect(m: Model, stride: Stride, mesh: Mesh, st: GlState)
    requires MeshReady(m, mesh)
    ensures var r := BindMeshRun(m, stride, mesh, st);
      && st.trace <= r.st.trace
      && (KeysInRange(m, st.vbos) ==> KeysInRange(m, r.st.vbos))
      && (r.Ok? ==> forall k :: Targeted(m, k) ==> k in r.st.vbos && r.st.vbos[k] == st.next + Uploads(m, k))
      && (r.Ok? ==> CountWhere(r.st.trace[|st.trace|..], IsUpload) == Uploads(m, |m.bufferViews|))
      && (r.Ok? ==> CountWhere(r.st.trace[|st.trace|..], IsTexImage)
                    == if TextureEnabled(m) then |mesh.primitives| else 0)
  {
    var u := UploadFrom(m, 0, st);
    UploadFromEvents(m, 0, st);
    var r := BindMeshRun(m, stride, mesh, st);
    if u.Threw? {
      assert r == u;
      assert KeysInRange(m, st.vbos) ==> KeysInRange(m, r.st.vbos) by {
        if u.st.vbos != st.vbos {
          assert UploadFrom(m, 0, st).Threw?;
          UploadFromPartialKeys(m, 0, st);
        }
      }
    } else {
      UploadEventsLength(m, 0, st.next);
      UploadFromTable(m, 0, st);
      PrimitivesFromTable(m, stride, mesh.primitives, 0, u.st);
      PrimitivesFromTextures(m, stride, mesh.primitives, 0, u.st);
      SuffixSplit(st.trace, u.st.trace, r.st.trace);
      var uNew := u.st.trace[|st.trace|..];
      var pNew := r.st.trace[|u.st.trace|..];
      assert uNew == UploadEvents(m, 0, st.next);
      assert r.st.trace[|st.trace|..] == uNew + pNew;
      if r.Ok? {
        CountWhereAll(uNew, IsUpload);
        CountWhereNone(pNew, IsUpload);
        CountWhereAppend(uNew, pNew, IsUpload);
        CountWhereNone(uNew, IsTexImage);
        CountWhereAppend(uNew, pNew, IsTexImage);
      }
    }
  }

  /** Even when the upload loop throws, every key it leaves names a buffer view. */
  lemma {:induction false} UploadFromPartialKeys(m: Model, i: nat, st: GlState)
    requires i <= |m.bufferViews| && UploadableViews(m)
    ensures forall k :: k in UploadFrom(m, i, st).st.vbos ==> k in st.vbos || i <= k < |m.bufferViews|
    decreases |m.bufferViews| - i
  {
    if i < |m.bufferViews| {
      var v := m.bufferViews[i];
      var st1 := st.(vbos := st.vbos[i := st.next], next := st.next + 1);
      if v.target == 0 {
        UploadFromPartialKeys(m, i + 1, st);
      } else if |m.buffers[v.buffer].data| != 0 {
        UploadFromPartialKeys(m, i + 1, st1.(trace := st1.trace + [Upload(v.target, st.next, ViewBytes(m, i))]));
      }
    }
  }

  // ---------------------------------------------------------------------
  // The bind traversal (Window.cpp 231-254): one mesh bind per visited mesh

  predicate MeshesReady(m: Model, ks: seq<nat>)
  {
    forall k :: k in ks ==> k < |m.meshes| && MeshReady(m, m.meshes[k])
  }

  /** Binding the meshes `ks` one after the other, stopping at the first throw. */
  function BindMeshes(m: Model, stride: Stride, ks: seq<nat>, st: GlState): Run
    requires MeshesReady(m, ks)
    decreases |ks|
  {
    if ks == [] then Ok(st)
    else
      assert ks[0] in ks;
      assert forall k :: k in ks[1..] ==> k in ks;
      var r := BindMeshRun(m, stride, m.meshes[ks[0]], st);
      if r.Threw? then r else BindMeshes(m, stride, ks[1..], r.st)
  }

  /** Binding `a + b` is binding `a`, then, unless that threw, binding `b`. */
  lemma {:induction false} BindMeshesAppend(m: Model, stride: Stride, a: seq<nat>, b: seq<nat>, st: GlState)
    requires MeshesReady(m, a + b)
    ensures MeshesReady(m, a) && MeshesReady(m, b)
    ensures BindMeshes(m, stride, a + b, st)
         == var r := BindMeshes(m, stride, a, st); if r.Threw? then r else BindMeshes(m, stride, b, r.st)
    decreases |a|
  {
    assert forall k :: k in a ==> k in a + b;
    assert forall k :: k in b ==> k in a + b;
    if a != [] {
      assert (a + b)[1..] == a[1..] + b;
      assert (a + b)[0] == a[0];
      assert a[0] in a;
      var r := BindMeshRun(m, stride, m.meshes[a[0]], st);
      if r.Ok? {
        assert forall k :: k in a[1..] + b ==> k in a + b;
        BindMeshesAppend(m, stride, a[1..], b, r.st);
      }
    } else {
      assert a + b == b;
    }
  }

  /**
   * Binding a list of meshes keeps the table's keys inside the buffer views;
   * after at least one bind every view with a target has an entry; binding
   * none changes nothing.
   */
  lemma {:induction false} BindMeshesTable(m: Model, stride: Stride, ks: seq<nat>, st: GlState)
    requires MeshesReady(m, ks) && KeysInRange(m, st.vbos)
    ensures var r := BindMeshes(m, stride, ks, st);
      && st.trace <= r.st.trace
      && KeysInRange(m, r.st.vbos)
      && (ks == [] ==> r == Ok(st))
      && (r.Ok? && ks != [] ==> forall k :: Targeted(m, k) ==> k in r.st.vbos)
    decreases |ks|
  {
    if ks != [] {
      assert ks[0] in ks;
      var r1 := BindMeshRun(m, stride, m.meshes[ks[0]], st);
      BindMeshEffect(m, stride, m.meshes[ks[0]], st);
      if r1.Ok? {
        assert forall k :: k in ks[1..] ==> k in ks;
        BindMeshesTable(m, stride, ks[1..], r1.st);
      }
    }
  }

  /**
   * Every bind overwrites the entry of every view with a target, so after
   * binding `a + [k0]` without a throw each such view holds the name the
   * last bind's upload loop gave it.
   */
  lemma BindMeshesLast(m: Model, stride: Stride, a: seq<nat>, k0: nat, st: GlState)
    requires MeshesReady(m, a + [k0])
    ensures MeshesReady(m, a)
    ensures var r := BindMeshes(m, stride, a + [k0], st);
      var s := BindMeshes(m, stride, a, st).st;
      r.Ok? ==> forall k :: Targeted(m, k) ==> k in r.st.vbos && r.st.vbos[k] == s.next + Uploads(m, k)
  {
    BindMeshesAppend(m, stride, a, [k0], st);
    var ra := BindMeshes(m, stride, a, st);
    if ra.Ok? {
      assert k0 in a + [k0];
      BindMeshEffect(m, stride, m.meshes[k0], ra.st);
      assert [k0][1..] == [];
    }
  }

  lemma MulStep(x: nat, u: nat)
    ensures (x + 1) * u == u + x * u
  {
  }

  /**
   * Every mesh bind re-uploads every view with a target, so binding `ks`
   * without a throw issues `|ks|` times as many buffer uploads as there are
   * such views.
   */
  lemma {:induction false} BindMeshesUploads(m: Model, stride: Stride, ks: seq<nat>, st: GlState)
    requires MeshesReady(m, ks)
    ensures var r := BindMeshes(m, stride, ks, st);
      && st.trace <= r.st.trace
      && (r.Ok? ==> CountWhere(r.st.trace[|st.trace|..], IsUpload) == |ks| * Uploads(m, |m.bufferViews|))
    decreases |ks|
  {
    var r := BindMeshes(m, stride, ks, st);
    if ks == [] {
      assert r.st.trace[|st.trace|..] == [];
    } else {
      assert ks[0] in ks;
      var r1 := BindMeshRun(m, stride, m.meshes[ks[0]], st);
      BindMeshEffect(m, stride, m.meshes[ks[0]], st);
      if r1.Ok? {
        assert forall k :: k in ks[1..] ==> k in ks;
        BindMeshesUploads(m, stride, ks[1..], r1.st);
        assert r == BindMeshes(m, stride, ks[1..], r1.st);
        SuffixSplit(st.trace, r1.st.trace, r.st.trace);
        if r.Ok? {
          var u := Uploads(m, |m.bufferViews|);
          CountWhereAppend(r1.st.trace[|st.trace|..], r.st.trace[|r1.st.trace|..], IsUpload);
          MulStep(|ks[1..]|, u);
        }
      }
    }
  }

  // ---------------------------------------------------------------------
  // Pruning of the table (Window.cpp 258-272)

  /**
   * Keys `k..` in ascending order (the std::map's order): a key whose view is
   * not an element-array buffer has its buffer deleted and is erased.
   */
  function PruneFrom(m: Model, k: nat, st: GlState): GlState
    requires k <= |m.bufferViews|
    decreases |m.bufferViews| - k
  {
    if k == |m.bufferViews| then st
    else if k in st.vbos && m.bufferViews[k].target != GL_ELEMENT_ARRAY_BUFFER then
      PruneFrom(m, k + 1, st.(vbos := st.vbos - {k}, trace := st.trace + [DeleteBuffer(st.vbos[k])]))
    else PruneFrom(m, k + 1, st)
  }

  /**
   * Pruning keeps exactly the keys that name element-array views (and those
   * below `k`), with their names unchanged; it issues a delete for the name of
   * every erased entry and no other event; the name counter is untouched.
   */
  lemma {:induction false} PruneEffect(m: Model, k: nat, st: GlState)
    requires k <= |m.bufferViews| && KeysInRange(m, st.vbos)
    ensures var r := PruneFrom(m, k, st);
      && r.next == st.next
      && st.trace <= r.trace
      && (forall key :: key in r.vbos <==> key in st.vbos && (key < k || IsIndexView(m, key)))
      && (forall key :: key in r.vbos ==> r.vbos[key] == st.vbos[key])
      && (forall key :: k <= key && key in st.vbos && !IsIndexView(m, key) ==>
            DeleteBuffer(st.vbos[key]) in r.trace[|st.trace|..])
      && (forall e :: e in r.trace[|st.trace|..] ==>
            exists key :: k <= key && key in st.vbos && !IsIndexView(m, key) && e == DeleteBuffer(st.vbos[key]))
    decreases |m.bufferViews| - k
  {
    var r := PruneFrom(m, k, st);
    if k == |m.bufferViews| {
      assert r.trace[|st.trace|..] == [];
    } else if k in st.vbos && m.bufferViews[k].target != GL_ELEMENT_ARRAY_BUFFER {
      var st1 := st.(vbos := st.vbos - {k}, trace := st.trace + [DeleteBuffer(st.vbos[k])]);
      PruneEffect(m, k + 1, st1);
      SuffixSplit(st.trace, st1.trace, r.trace);
      assert r.trace[|st.trace|..] == [DeleteBuffer(st.vbos[k])] + r.trace[|st1.trace|..];
    } else {
      PruneEffect(m, k + 1, st);
    }
  }

  // ---------------------------------------------------------------------
  // The whole of bindModel (Window.cpp 243-275)

  /** What binding the model reads: an acyclic node graph, the default scene, and every visited mesh. */
  predicate BindReady(m: Model, rank: seq<nat>)
  {
    && RankedBy(m, rank)
    && SceneReady(m)
    && MeshesReady(m, SceneMeshes(m, rank))
  }

  /** bindModel: start from an empty table, bind every visited mesh, then prune. */
  function BindModelRun(m: Model, stride: Stride, rank: seq<nat>, st: GlState): Run
    requires BindReady(m, rank)
  {
    var r := BindMeshes(m, stride, SceneMeshes(m, rank), st.(vbos := map[]));
    if r.Threw? then r else Ok(PruneFrom(m, 0, r.st))
  }

  /**
   * After bindModel, when the default scene reaches some mesh, the table's
   * keys are exactly the element-array buffer views; when it reaches none,
   * the table is empty and nothing was issued. Every visited mesh re-uploads
   * every view with a target.
   */
  lemma BindModelTable(m: Model, stride: Stride, rank: seq<nat>, st: GlState)
    requires BindReady(m, rank)
    ensures var r := BindModelRun(m, stride, rank, st);
      && st.trace <= r.st.trace
      && KeysInRange(m, r.st.vbos)
      && (r.Ok? && SceneMeshes(m, rank) == [] ==> r.st.vbos == map[] && r.st.trace == st.trace)
      && (r.Ok? && SceneMeshes(m, rank) != [] ==> forall k :: k in r.st.vbos <==> IsIndexView(m, k))
      && (r.Ok? ==> CountWhere(r.st.trace[|st.trace|..], IsUpload)
                    == |SceneMeshes(m, rank)| * Uploads(m, |m.bufferViews|))
  {
    var ks := SceneMeshes(m, rank);
    var st0 := st.(vbos := map[]);
    BindMeshesTable(m, stride, ks, st0);
    BindMeshesUploads(m, stride, ks, st0);
    var b := BindMeshes(m, stride, ks, st0);
    if b.Ok? {
      PruneEffect(m, 0, b.st);
      var p := PruneFrom(m, 0, b.st);
      SuffixSplit(st.trace, b.st.trace, p.trace);
      var bNew := b.st.trace[|st.trace|..];
      var pNew := p.trace[|b.st.trace|..];
      assert p.trace[|st.trace|..] == bNew + pNew;
      assert forall e :: e in pNew ==> e.DeleteBuffer?;
      CountWhereNone(pNew, IsUpload);
      CountWhereAppend(bNew, pNew, IsUpload);
      if ks == [] {
        assert b.st.vbos == map[];
        forall key ensures key !in p.vbos {
          assert key !in b.st.vbos;
        }
        assert p.vbos == map[];
        if pNew != [] {
          assert pNew[0] in pNew;
        }
      } else {
        forall k ensures k in p.vbos <==> IsIndexView(m, k) {
          if IsIndexView(m, k) {
            assert Targeted(m, k);
          }
        }
      }
    }
  }

  /**
   * The index buffers bindModel keeps are those of the last visited mesh's
   * bind: each element-array view holds the name that bind's upload loop gave it.
   */
  lemma BindModelIndexNames(m: Model, stride: Stride, rank: seq<nat>, st: GlState)
    requires BindReady(m, rank)
    ensures var ks := SceneMeshes(m, rank); ks != [] ==> MeshesReady(m, ks[..|ks| - 1])
    ensures var ks := SceneMeshes(m, rank);
      var r := BindModelRun(m, stride, rank, st);
      r.Ok? && ks != [] ==>
        var s := BindMeshes(m, stride, ks[..|ks| - 1], st.(vbos := map[])).st;
        forall k :: IsIndexView(m, k) ==> k in r.st.vbos && r.st.vbos[k] == s.next + Uploads(m, k)
  {
    var ks := SceneMeshes(m, rank);
    if ks != [] {
      var st0 := st.(vbos := map[]);
      var a := ks[..|ks| - 1];
      assert ks == a + [ks[|ks| - 1]];
      BindMeshesLast(m, stride, a, ks[|ks| - 1], st0);
      BindMeshesTable(m, stride, ks, st0);
      var b := BindMeshes(m, stride, ks, st0);
      if b.Ok? {
        PruneEffect(m, 0, b.st);
        forall k | IsIndexView(m, k) ensures Targeted(m, k) { }
      }
    }
  }

  // ---------------------------------------------------------------------
  // The table stays healthy: keys are buffer views, names were handed out

  lemma {:induction false} UploadFromHealthy(m: Model, i: nat, st: GlState)
    requires i <= |m.bufferViews| && UploadableViews(m) && Healthy(m, st)
    ensures var r := UploadFrom(m, i, st).st; Healthy(m, r) && r.next >= st.next
    decreases |m.bufferViews| - i
  {
    if i < |m.bufferViews| {
      var v := m.bufferViews[i];
      var st1 := st.(vbos := st.vbos[i := st.next], next := st.next + 1);
      if v.target == 0 {
        UploadFromHealthy(m, i + 1, st);
      } else if |m.buffers[v.buffer].data| != 0 {
        UploadFromHealthy(m, i + 1, st1.(trace := st1.trace + [Upload(v.target, st.next, ViewBytes(m, i))]));
      }
    }
  }

  lemma {:induction false} PrimitivesFromHealthy(m: Model, stride: Stride, prims: seq<Primitive>, j: nat, st: GlState)
    requires j <= |prims| && PrimsReady(m, prims) && Healthy(m, st)
    ensures var r := PrimitivesFrom(m, stride, prims, j, st).st; Healthy(m, r) && r.next >= st.next
    decreases |prims| - j
  {
    if j < |prims| {
      var a := AttribsFrom(m, stride, prims[j].attributes, 0, st);
      AttribsFromEffect(m, stride, prims[j].attributes, 0, st);
      assert Healthy(m, a);
      var tx := TextureStep(m, a);
      assert Healthy(m, tx.st);
      if tx.Ok? {
        PrimitivesFromHealthy(m, stride, prims, j + 1, tx.st);
      }
    }
  }

  /** A mesh bind, even one that throws, keeps the table healthy and never takes back a name. */
  lemma BindMeshHealthy(m: Model, stride: Stride, mesh: Mesh, st: GlState)
    requires MeshReady(m, mesh) && Healthy(m, st)
    ensures var r := BindMeshRun(m, stride, mesh, st).st; Healthy(m, r) && r.next >= st.next
  {
    UploadFromHealthy(m, 0, st);
    var u := UploadFrom(m, 0, st);
    if u.Ok? {
      PrimitivesFromHealthy(m, stride, mesh.primitives, 0, u.st);
    }
  }

  lemma {:induction false} BindMeshesHealthy(m: Model, stride: Stride, ks: seq<nat>, st: GlState)
    requires MeshesReady(m, ks) && Healthy(m, st)
    ensures var r := BindMeshes(m, stride, ks, st).st; Healthy(m, r) && r.next >= st.next
    decreases |ks|
  {
    if ks != [] {
      assert ks[0] in ks;
      var r1 := BindMeshRun(m, stride, m.meshes[ks[0]], st);
      BindMeshHealthy(m, stride, m.meshes[ks[0]], st);
      if r1.Ok? {
        assert forall k :: k in ks[1..] ==> k in ks;
        BindMeshesHealthy(m, stride, ks[1..], r1.st);
      }
    }
  }

  /**
   * bindModel, even one that throws, leaves a table whose keys are buffer
   * views and whose names were all handed out, and never takes back a name.
   */
  lemma BindModelHealthy(m: Model, stride: Stride, rank: seq<nat>, st: GlState)
    requires BindReady(m, rank) && st.next >= 1
    ensures var r := BindModelRun(m, stride, rank, st).st; Healthy(m, r) && r.next >= st.next
  {
    var st0 := st.(vbos := map[]);
    BindMeshesHealthy(m, stride, SceneMeshes(m, rank), st0);
    var b := BindMeshes(m, stride, SceneMeshes(m, rank), st0);
    if b.Ok? {
      PruneEffect(m, 0, b.st);
    }
  }
}
