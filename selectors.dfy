/**
 * The side-effect-free choices made while binding a mesh: the vertex
 * attribute slot of a semantic name, the component count of an accessor,
 * and the pixel format and type of a texture image.
 */
module Selectors {
  import opened Asset

  /** Pixel formats and pixel types (GLenum values). */
  const GL_RED: int := 0x1903
  const GL_RG: int := 0x8227
  const GL_RGB: int := 0x1907
  const GL_RGBA: int := 0x1908
  const GL_UNSIGNED_BYTE: int := 0x1401
  const GL_UNSIGNED_SHORT: int := 0x1403

  /** The semantic name bound to each of the three supported attribute slots. */
  function SemanticName(slot: nat): string
    requires slot < 3
  {
    if slot == 0 then "POSITION" else if slot == 1 then "NORMAL" else "TEXCOORD_0"
  }

  /**
   * The vertex attribute slot for a semantic name, or -1 for a name that
   * has no slot (such an attribute is only reported, never enabled).
   */
  function AttribSlot(name: string): (slot: int)
    ensures -1 <= slot < 3
    ensures slot >= 0 ==> SemanticName(slot) == name
    ensures slot == -1 <==> forall k :: 0 <= k < 3 ==> SemanticName(k) != name
  {
    if name == "TEXCOORD_0" then 2
    else if name == "NORMAL" then 1
    else if name == "POSITION" then 0
    else -1
  }

  /** Each supported slot is reached from exactly its own name. */
  lemma SlotOfSemanticName(k: nat)
    requires k < 3
    ensures AttribSlot(SemanticName(k)) == k
  {
  }

  /** Number of components handed to the attribute pointer for an accessor of this shape. */
  function ComponentCount(shape: int): (size: int)
    ensures shape == TYPE_SCALAR ==> size == 1
    ensures shape != TYPE_SCALAR ==> size == shape
  {
    if shape != TYPE_SCALAR then shape else 1
  }

  /** OpenGL accepts 1 to 4 components per vertex attribute. */
  predicate GlAttribSize(size: int)
  {
    1 <= size <= 4
  }

  /**
   * The component count is a size OpenGL accepts exactly for scalar and
   * vector accessors; matrix shapes pass their raw type code.
   */
  lemma ComponentCountValid(shape: int)
    requires shape in {TYPE_SCALAR, TYPE_VEC2, TYPE_VEC3, TYPE_VEC4, TYPE_MAT2, TYPE_MAT3, TYPE_MAT4}
    ensures GlAttribSize(ComponentCount(shape)) <==> shape in {TYPE_SCALAR, TYPE_VEC2, TYPE_VEC3, TYPE_VEC4}
    ensures shape in {TYPE_VEC2, TYPE_VEC3, TYPE_VEC4} ==> ComponentCount(shape) == shape
  {
  }

  /** Pixel format for an image with `component` channels. */
  function PixelFormat(component: int): (format: int)
    ensures format in {GL_RED, GL_RG, GL_RGB, GL_RGBA}
  {
    if component == 1 then GL_RED
    else if component == 2 then GL_RG
    else if component == 3 then GL_RGB
    else GL_RGBA
  }

  /** Number of channels a pixel format carries. */
  function Channels(format: int): nat
  {
    if format == GL_RED then 1
    else if format == GL_RG then 2
    else if format == GL_RGB then 3
    else 4
  }

  /**
   * The chosen format carries exactly the image's channels when it has 1 to 4
   * of them (anything else is treated as four-channel), and every format is
   * chosen by its own channel count.
   */
  lemma PixelFormatChannels(component: int, format: int)
    requires format in {GL_RED, GL_RG, GL_RGB, GL_RGBA}
    ensures Channels(PixelFormat(component)) == if 1 <= component <= 3 then component else 4
    ensures PixelFormat(Channels(format)) == format
  {
  }

  /** Pixel type for an image whose channels have `bits` bits. */
  function PixelType(bits: int): (pixelType: int)
    ensures pixelType == GL_UNSIGNED_SHORT <==> bits == 16
    ensures pixelType == GL_UNSIGNED_BYTE <==> bits != 16
  {
    if bits == 8 then GL_UNSIGNED_BYTE
    else if bits == 16 then GL_UNSIGNED_SHORT
    else GL_UNSIGNED_BYTE
  }

  /** Width in bits of one channel of a pixel type. */
  function TypeBits(pixelType: int): nat
  {
    if pixelType == GL_UNSIGNED_SHORT then 16 else 8
  }

  /** The pixel type matches the image's bit depth exactly for 8- and 16-bit images. */
  lemma PixelTypeMatchesDepth(bits: int)
    ensures TypeBits(PixelType(bits)) == bits <==> bits == 8 || bits == 16
  {
  }
}
