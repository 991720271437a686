/**
 * The OpenGL side of binding and drawing, reduced to what can be observed:
 * the table from buffer-view index to buffer name, the source of fresh
 * object names, and the sequence of GL effects issued so far.
 */
module Gl {

  /** One GL effect, in the order the window issues them. */
  datatype Event =
      /** glGenBuffers, glBindBuffer(target) and glBufferData of `bytes`. */
    | Upload(target: int, handle: nat, bytes: seq<bv8>)
      /** glBindBuffer(GL_ARRAY_BUFFER, handle). */
    | BindArray(handle: nat)
      /** glEnableVertexAttribArray(slot) and glVertexAttribPointer on it. */
    | EnableAttrib(slot: nat, size: int, componentType: int, normalized: bool, stride: int, offset: nat)
      /** glGenTextures, the texture parameters, and glTexImage2D. */
    | TexImage(texture: nat, internalFormat: int, width: int, height: int,
               format: int, pixelType: int, pixels: seq<bv8>)
      /** glDeleteBuffers of one buffer. */
    | DeleteBuffer(handle: nat)
      /** glBindBuffer(GL_ELEMENT_ARRAY_BUFFER, handle). */
    | BindIndex(handle: nat)
      /** glDrawElements. */
    | Draw(mode: int, count: nat, componentType: int, offset: nat)

  predicate IsUpload(e: Event) { e.Upload? }
  predicate IsTexImage(e: Event) { e.TexImage? }
  predicate IsDraw(e: Event) { e.Draw? }

  /** An exception thrown by a `.at` lookup. */
  datatype Fault =
    | EmptyBuffer(buffer: int)
    | EmptyImage(image: int)
    | MissingIndexBuffer(view: int)

  datatype Option<T> = None | Some(value: T)

  /** `vbos` is the buffer-view table, `next` the next unused GL object name. */
  datatype GlState = GlState(vbos: map<int, nat>, next: nat, trace: seq<Event>)

  /** The state after an operation, and whether it ended by throwing. */
  datatype Run = Ok(st: GlState) | Threw(st: GlState, fault: Fault)

  function RunOf(st: GlState, thrown: Option<Fault>): Run
  {
    if thrown.Some? then Threw(st, thrown.value) else Ok(st)
  }

  /** Number of events in `s` that satisfy `p`. */
  function CountWhere(s: seq<Event>, p: Event -> bool): nat
  {
    if s == [] then 0 else CountWhere(s[..|s| - 1], p) + (if p(s[|s| - 1]) then 1 else 0)
  }

  lemma {:induction false} CountWhereAppend(a: seq<Event>, b: seq<Event>, p: Event -> bool)
    ensures CountWhere(a + b, p) == CountWhere(a, p) + CountWhere(b, p)
    decreases |b|
  {
    if b == [] {
      assert a + b == a;
    } else {
      assert (a + b)[..|a + b| - 1] == a + b[..|b| - 1];
      CountWhereAppend(a, b[..|b| - 1], p);
    }
  }

  lemma {:induction false} CountWhereAll(s: seq<Event>, p: Event -> bool)
    requires forall e :: e in s ==> p(e)
    ensures CountWhere(s, p) == |s|
    decreases |s|
  {
    if s != [] {
      assert forall e :: e in s[..|s| - 1] ==> e in s;
      CountWhereAll(s[..|s| - 1], p);
    }
  }

  lemma {:induction false} CountWhereNone(s: seq<Event>, p: Event -> bool)
    requires forall e :: e in s ==> !p(e)
    ensures CountWhere(s, p) == 0
    decreases |s|
  {
    if s != [] {
      assert forall e :: e in s[..|s| - 1] ==> e in s;
      CountWhereNone(s[..|s| - 1], p);
    }
  }
}
