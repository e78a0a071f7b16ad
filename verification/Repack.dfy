/** Transfers between the CPU and a native device buffer, in chunks through a staging buffer; q6_K blocks are stored
    with 224 bytes instead of 210 (gpud_nat_buffer_set_tensor, _get_tensor and their helpers). */
module Repack {
  import opened Bytes

  const BLOCK: nat := 210
  const STRIDE: nat := 224
  const STAGING_CAP: nat := 33554432

  /** A tensor's shape: 256 weights to a q6_K block. */
  datatype Tensor = Tensor(ne0: nat, rows: nat)
  {
    predicate Repacked() {
      ne0 % 256 == 0
    }

    function Blocks(): nat {
      ne0 / 256 * rows
    }

    /** ggml_nbytes */
    function Bytes(): nat {
      ne0 / 256 * BLOCK * rows
    }

    /** gpud_nat_buft_get_alloc_size */
    function AllocSize(): nat {
      ne0 / 256 * STRIDE * rows
    }
  }

  /** The allocation holds every stored block, and the byte count gives the block count back. */
  lemma AllocFits(t: Tensor)
    ensures t.Bytes() == BLOCK * t.Blocks() && t.Bytes() / BLOCK == t.Blocks() && t.AllocSize() == STRIDE * t.Blocks()
  {
    var q := t.ne0 / 256;
    assert q * BLOCK * t.rows == BLOCK * (q * t.rows);
    assert q * STRIDE * t.rows == STRIDE * (q * t.rows);
  }

  /** The device holds the blocks of `data` from `base` on. */
  ghost predicate Stored(mem: seq<byte>, base: nat, data: seq<byte>, nblk: nat)
    requires base + STRIDE * nblk <= |mem| && BLOCK * nblk <= |data|
  {
    forall b, k :: 0 <= b < nblk && 0 <= k < BLOCK ==> mem[Place(base, b, k)] == data[BLOCK * b + k]
  }

  /** Where byte k of block b lies on the device. */
  function Place(base: nat, b: nat, k: nat): nat {
    base + STRIDE * b + k
  }

  /** Reading what was stored gives the tensor back, whatever the padding holds. */
  lemma StoredOnce(mem: seq<byte>, base: nat, data: seq<byte>, out: seq<byte>, nblk: nat)
    requires base + STRIDE * nblk <= |mem| && |data| == |out| == BLOCK * nblk
    requires Stored(mem, base, data, nblk) && Stored(mem, base, out, nblk)
    ensures out == data
  {
    forall i | 0 <= i < |data| ensures out[i] == data[i] {
      var b, k := i / BLOCK, i % BLOCK;
      assert mem[Place(base, b, k)] == data[BLOCK * b + k] == out[BLOCK * b + k];
    }
  }

  /** Two tensors in disjoint allocations do not disturb each other. */
  lemma StoredApart(mem: seq<byte>, mem': seq<byte>, base: nat, data: seq<byte>, nblk: nat, other: nat, size: nat)
    requires |mem| == |mem'| && base + STRIDE * nblk <= |mem| && |data| == BLOCK * nblk && Stored(mem, base, data, nblk)
    requires base + STRIDE * nblk <= other || other + size <= base
    requires forall i :: 0 <= i < |mem| && !(other <= i < other + size) ==> mem'[i] == mem[i]
    ensures Stored(mem', base, data, nblk)
  {
    forall b, k | 0 <= b < nblk && 0 <= k < BLOCK ensures mem'[Place(base, b, k)] == data[BLOCK * b + k] {
      assert mem[Place(base, b, k)] == data[BLOCK * b + k];
    }
  }

  function Min(a: nat, b: nat): nat {
    if a < b then a else b
  }

  class NativeBuffer {
    const mem: array<byte>
    var staging: array<byte>

    ghost predicate Valid()
      reads this
    {
      mem != staging
    }

    constructor (size: nat)
      ensures Valid() && fresh(mem) && fresh(staging) && mem.Length == size && staging.Length == 0
    {
      mem := new byte[size];
      staging := new byte[0];
    }

    /** gpud_staging_ensure: at least min(bytes, 32 MB) of staging, in whole megabytes. */
    method EnsureStaging(bytes: nat)
      requires Valid()
      modifies this`staging
      ensures Valid() && staging.Length >= Min(bytes, STAGING_CAP) && (staging == old(staging) || fresh(staging))
    {
      var want := Min(bytes, STAGING_CAP);
      if staging.Length >= want && staging.Length > 0 { return; }
      staging := new byte[(want + 0xFFFFF) / 0x100000 * 0x100000];
    }

    /** A COPY request. The daemon refuses an empty one and any that leaves one of the two buffers. */
    method Copy(src: array<byte>, so: nat, dst: array<byte>, do: nat, n: nat)
      requires src != dst && n != 0 && so + n <= src.Length && do + n <= dst.Length
      modifies dst
      ensures forall m :: 0 <= m < dst.Length ==> dst[m] == if do <= m < do + n then src[so + m - do] else old(dst[m])
    {
      forall i | 0 <= i < n { dst[do + i] := src[so + i]; }
    }

    // ---------------------------------------------------------------- plain transfers

    /** One chunk of an upload: into the staging buffer, from there to the device. */
    method UploadChunk(dst: nat, data: seq<byte>, pos: nat, n: nat)
      requires Valid() && n != 0 && n <= staging.Length && pos + n <= |data| && dst + |data| <= mem.Length
      modifies staging, mem
      ensures forall m :: 0 <= m < mem.Length ==>
          mem[m] == if dst + pos <= m < dst + pos + n then data[m - dst] else old(mem[m])
    {
      forall i | 0 <= i < n { staging[i] := data[pos + i]; }
      Copy(staging, 0, mem, dst + pos, n);
    }

    /** gpud_nat_upload */
    method Upload(dst: nat, data: seq<byte>)
      requires Valid() && dst + |data| <= mem.Length
      modifies this`staging, staging, mem
      ensures Valid()
      ensures forall m :: 0 <= m < mem.Length ==>
          mem[m] == if dst <= m < dst + |data| then data[m - dst] else old(mem[m])
    {
      EnsureStaging(|data|);
      var pos := 0;
      while pos < |data|
        invariant Valid() && pos <= |data| && (staging == old(staging) || fresh(staging))
          && staging.Length >= Min(|data|, STAGING_CAP)
        invariant forall m :: 0 <= m < mem.Length ==>
            mem[m] == if dst <= m < dst + pos then data[m - dst] else old(mem[m])
      {
        var n := Min(|data| - pos, staging.Length);
        UploadChunk(dst, data, pos, n);
        pos := pos + n;
      }
    }

    /** One chunk of a download. */
    method DownloadChunk(src: nat, data: array<byte>, pos: nat, n: nat)
      requires Valid() && data != mem && data != staging
      requires n != 0 && n <= staging.Length && pos + n <= data.Length && src + data.Length <= mem.Length
      modifies staging, data
      ensures forall m :: 0 <= m < data.Length ==> data[m] == if pos <= m < pos + n then mem[src + m] else old(data[m])
    {
      Copy(mem, src + pos, staging, 0, n);
      forall i | 0 <= i < n { data[pos + i] := staging[i]; }
    }

    /** gpud_nat_download */
    method Download(src: nat, size: nat) returns (data: array<byte>)
      requires Valid() && src + size <= mem.Length
      modifies this`staging, staging
      ensures Valid() && fresh(data) && data.Length == size && forall m :: 0 <= m < size ==> data[m] == mem[src + m]
    {
      EnsureStaging(size);
      data := new byte[size];
      var pos := 0;
      while pos < size
        invariant Valid() && pos <= size && (staging == old(staging) || fresh(staging))
          && staging.Length >= Min(size, STAGING_CAP)
        invariant data != mem && data != staging && forall m :: 0 <= m < pos ==> data[m] == mem[src + m]
      {
        var n := Min(size - pos, staging.Length);
        DownloadChunk(src, data, pos, n);
        pos := pos + n;
      }
    }

    // ---------------------------------------------------------------- repacked tensors

    /** Spreads n blocks over the staging buffer; the bytes between them stay what they were. */
    method Spread(data: seq<byte>, blk: nat, n: nat)
      requires Valid() && BLOCK * (blk + n) <= |data| && STRIDE * n <= staging.Length
      modifies staging
      ensures forall i, k :: 0 <= i < n && 0 <= k < BLOCK ==> staging[Place(0, i, k)] == data[BLOCK * (blk + i) + k]
    {
      for i := 0 to n
        invariant forall j, k :: 0 <= j < i && 0 <= k < BLOCK ==> staging[Place(0, j, k)] == data[BLOCK * (blk + j) + k]
      {
        forall k | 0 <= k < BLOCK { staging[STRIDE * i + k] := data[BLOCK * (blk + i) + k]; }
      }
    }

    /** One chunk of the repacking upload: n blocks from block blk on. */
    method StoreChunk(base: nat, data: seq<byte>, blk: nat, n: nat)
      requires Valid() && n >= 1 && BLOCK * (blk + n) <= |data| && STRIDE * n <= staging.Length
        && base + STRIDE * (blk + n) <= mem.Length
      modifies staging, mem
      ensures forall b, k :: blk <= b < blk + n && 0 <= k < BLOCK ==> mem[Place(base, b, k)] == data[BLOCK * b + k]
      ensures forall m :: 0 <= m < mem.Length && !(Place(base, blk, 0) <= m < Place(base, blk + n, 0)) ==>
          mem[m] == old(mem[m])
    {
      Spread(data, blk, n);
      Copy(staging, 0, mem, base + STRIDE * blk, STRIDE * n);
      forall b, k | blk <= b < blk + n && 0 <= k < BLOCK ensures mem[Place(base, b, k)] == data[BLOCK * b + k] {
        assert staging[Place(0, b - blk, k)] == data[BLOCK * (blk + (b - blk)) + k];
      }
    }

    /** gpud_nat_buffer_set_tensor for a repacked tensor. */
    method SetTensor(t: Tensor, base: nat, data: seq<byte>)
      requires Valid() && t.Repacked() && |data| == t.Bytes() && base + t.AllocSize() <= mem.Length
      modifies this`staging, staging, mem
      ensures Valid() && base + STRIDE * t.Blocks() <= mem.Length && BLOCK * t.Blocks() == |data|
      ensures Stored(mem[..], base, data, t.Blocks())
      ensures forall m :: 0 <= m < mem.Length && !(base <= m < base + t.AllocSize()) ==> mem[m] == old(mem[m])
    {
      AllocFits(t);
      EnsureStaging(STAGING_CAP);
      var nblk, per := |data| / BLOCK, staging.Length / STRIDE;
      var blk := 0;
      while blk < nblk
        invariant Valid() && blk <= nblk && (staging == old(staging) || fresh(staging))
          && staging.Length >= STRIDE * per && per >= 1
        invariant forall b, k :: 0 <= b < blk && 0 <= k < BLOCK ==> mem[Place(base, b, k)] == data[BLOCK * b + k]
        invariant forall m :: 0 <= m < mem.Length && !(base <= m < base + STRIDE * nblk) ==> mem[m] == old(mem[m])
      {
        var n := Min(nblk - blk, per);
        StoreChunk(base, data, blk, n);
        blk := blk + n;
      }
    }

    /** One chunk of the repacking download. */
    method LoadChunk(base: nat, data: array<byte>, blk: nat, n: nat)
      requires Valid() && data != mem && data != staging
      requires n >= 1 && BLOCK * (blk + n) <= data.Length && STRIDE * n <= staging.Length
        && base + STRIDE * (blk + n) <= mem.Length
      modifies staging, data
      ensures forall b, k :: blk <= b < blk + n && 0 <= k < BLOCK ==> data[BLOCK * b + k] == mem[Place(base, b, k)]
      ensures forall m :: 0 <= m < BLOCK * blk ==> data[m] == old(data[m])
    {
      Copy(mem, base + STRIDE * blk, staging, 0, STRIDE * n);
      for i := 0 to n
        invariant forall m :: 0 <= m < STRIDE * n ==> staging[m] == mem[base + STRIDE * blk + m]
        invariant forall b, k :: blk <= b < blk + i && 0 <= k < BLOCK ==> data[BLOCK * b + k] == mem[Place(base, b, k)]
        invariant forall m :: 0 <= m < BLOCK * blk ==> data[m] == old(data[m])
      {
        forall k | 0 <= k < BLOCK { data[BLOCK * (blk + i) + k] := staging[STRIDE * i + k]; }
      }
    }

    /** gpud_nat_buffer_get_tensor for a repacked tensor: returns the bytes the device stores, without the padding. */
    method GetTensor(t: Tensor, base: nat) returns (data: array<byte>)
      requires Valid() && t.Repacked() && base + t.AllocSize() <= mem.Length
      modifies this`staging, staging
      ensures Valid() && fresh(data) && data.Length == t.Bytes()
      ensures base + STRIDE * t.Blocks() <= mem.Length && BLOCK * t.Blocks() == data.Length
      ensures Stored(mem[..], base, data[..], t.Blocks())
    {
      AllocFits(t);
      EnsureStaging(STAGING_CAP);
      data := new byte[t.Bytes()];
      var nblk, per := data.Length / BLOCK, staging.Length / STRIDE;
      var blk := 0;
      while blk < nblk
        invariant Valid() && blk <= nblk && (staging == old(staging) || fresh(staging))
          && staging.Length >= STRIDE * per && per >= 1
        invariant data != mem && data != staging
        invariant forall b, k :: 0 <= b < blk && 0 <= k < BLOCK ==> data[BLOCK * b + k] == mem[Place(base, b, k)]
      {
        var n := Min(nblk - blk, per);
        LoadChunk(base, data, blk, n);
        blk := blk + n;
      }
    }
  }
}
