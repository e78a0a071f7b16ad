/** Tensors and the buffers that hold them, as far as the encoder looks at them. */
module Tensors {
  import opened GpuMemory

  const GPUD_ALIGN := 64

  datatype Option<T> = None | Some(value: T)

  /** `ours`: one of this backend's two buffer types. A tensor without a buffer has NoBuffer. */
  datatype Buffer = NoBuffer | Buffer(id: nat, ours: bool, base: int, size: nat)

  /** `q8Blocks`: number of 32-element blocks, which fixes the size of the q8_1 form. */
  datatype Tensor = Tensor(id: nat, buffer: Buffer, data: int, nbytes: nat, q8Blocks: nat)

  function Range(t: Tensor): Rng {
    Rng(t.data, t.data + t.nbytes)
  }

  /** Offset of a binding, aligned down, and the byte remainder the shader adds. */
  datatype Binding = Binding(buffer: Buffer, off: nat, rem: nat)

  /** gpud_encoder::bind. The subtraction is unsigned 64 bit, so data below the buffer fails the size test. */
  function Bind(t: Tensor): (r: Option<Binding>)
    ensures r.Some? ==>
      && r.value.off % GPUD_ALIGN == 0 && r.value.rem < GPUD_ALIGN
      && t.buffer.Buffer? && t.buffer.base + r.value.off + r.value.rem == t.data
      && r.value.off + r.value.rem < t.buffer.size
  {
    if t.buffer.Buffer? && t.buffer.ours && 0 <= t.data - t.buffer.base < t.buffer.size then
      var off := t.data - t.buffer.base;
      Some(Binding(t.buffer, off - off % GPUD_ALIGN, off % GPUD_ALIGN))
    else
      None
  }

  /** The tensor begins inside one of this backend's buffers. */
  predicate OnDevice(t: Tensor) {
    t.buffer.Buffer? && t.buffer.ours && t.buffer.base <= t.data < t.buffer.base + t.buffer.size
  }

  /** A tensor can be bound exactly if it is on the device, and the remainder tells whether it begins on a multiple of a
      load unit of its buffer. */
  lemma BindExactly(t: Tensor, unit: nat)
    requires unit == 1 || unit == 2 || unit == 16
    ensures Bind(t).Some? <==> OnDevice(t)
    ensures Bind(t).Some? ==> (Bind(t).value.rem % unit == 0 <==> (t.data - t.buffer.base) % unit == 0)
  {
    if Bind(t).Some? { RemainderOf(t.data - t.buffer.base, unit); }
  }

  lemma RemainderOf(off: nat, unit: nat)
    requires unit == 1 || unit == 2 || unit == 16
    ensures off % GPUD_ALIGN % unit == off % unit
  {
    var q, r := off / GPUD_ALIGN, off % GPUD_ALIGN;
    if unit == 16 {
      LastOf16(4 * q + r / 16, r % 16);
    } else if unit == 2 {
      LastOf2(32 * q + r / 2, r % 2);
    }
  }

  lemma LastOf16(x: nat, d: nat)
    requires d < 16
    ensures (16 * x + d) % 16 == d
  {
  }

  lemma LastOf2(x: nat, d: nat)
    requires d < 2
    ensures (2 * x + d) % 2 == d
  {
  }

  /** The whole tensor lies inside its buffer. */
  predicate InBuffer(t: Tensor)
    requires t.buffer.Buffer?
  {
    t.data - t.buffer.base + t.nbytes <= t.buffer.size
  }

  /** For a tensor that can be bound: none of its bytes lies outside the buffer. */
  lemma InBufferExactly(t: Tensor)
    requires Bind(t).Some?
    ensures InBuffer(t) <==> forall a :: a in Span(Range(t)) ==> t.buffer.base <= a < t.buffer.base + t.buffer.size
  {
    if !InBuffer(t) {
      assert t.data + t.nbytes - 1 in Span(Range(t));
    }
  }

  function AlignUp16(n: nat): (r: nat)
    ensures r % 16 == 0 && n <= r < n + 16
  {
    (n + 15) / 16 * 16
  }

  /** Bytes of the q8_1 form of `x`: one 4-byte header per block, padded to 16, then 32 bytes per block. */
  function Need(x: Tensor): nat {
    AlignUp16(x.q8Blocks * 4) + x.q8Blocks * 32
  }

  /** 36 bytes per block, up to the next multiple of 16. */
  lemma NeedExactly(x: Tensor)
    ensures Need(x) % 16 == 0 && 36 * x.q8Blocks <= Need(x) < 36 * x.q8Blocks + 16
  {
    var n := x.q8Blocks * 4;
    LastOf16((n + 15) / 16 + 2 * x.q8Blocks, 0);
    assert AlignUp16(n) == 16 * ((n + 15) / 16);
    hide AlignUp16;
  }

  /** gpud_writes_over: same buffer and overlapping byte ranges. */
  predicate WritesOver(t: Tensor, x: Tensor) {
    t.buffer.Buffer? && t.buffer == x.buffer && t.data < x.data + x.nbytes && x.data < t.data + t.nbytes
  }

  /** Tensors of different buffers share no byte. */
  predicate Apart(t: Tensor, x: Tensor) {
    t != x && (t.buffer.NoBuffer? || t.buffer != x.buffer) ==> Span(Range(t)) !! Span(Range(x))
  }

  lemma NoOverwrite(t: Tensor, x: Tensor)
    requires Apart(t, x) && x.buffer.Buffer? && !WritesOver(t, x)
    ensures Span(Range(t)) !! Span(Range(x))
  {
  }
}
