/** Device memory and pipeline stages, as the graph encoder and the daemon both see them.

    Memory is a total map from byte addresses to bytes. A stage declares byte ranges it
    reads and byte ranges it writes. Its kernel is a function of exactly the bytes it
    declares, so no kernel can look outside its declared ranges; bytes of the write ranges
    that the kernel does not produce keep their old value (strided or partial writes). */
module GpuMemory {

  type Byte = bv8

  /** The part of memory a kernel is given, or the part it produces. */
  type View = map<int, Byte>

  type Mem = m: imap<int, Byte> | forall a: int :: a in m ghost witness imap a: int | true :: 0

  type Kernel = View -> View

  /** Half-open byte range. */
  datatype Rng = Rng(lo: int, hi: int)

  /** One dispatch. `skipBarrier` is bit 0 of the stage flags on the wire. */
  datatype Stage = Stage(ins: seq<Rng>, outs: seq<Rng>, kernel: Kernel, skipBarrier: bool)

  predicate Has(r: Rng, a: int) {
    r.lo <= a < r.hi
  }

  function Span(r: Rng): set<int> {
    set a | r.lo <= a < r.hi && Has(r, a)
  }

  function Bytes(rs: seq<Rng>): set<int> {
    set i, a | 0 <= i < |rs| && a in Span(rs[i]) :: a
  }

  function Footprint(s: Stage): set<int> {
    Bytes(s.ins) + Bytes(s.outs)
  }

  ghost function Restrict(m: Mem, at: set<int>): View {
    map a | a in at :: m[a]
  }

  /** The byte the kernel leaves at `a`, given the bytes `v` of its footprint. */
  function Out(k: Kernel, v: View, a: int): Byte
    requires a in v
  {
    if a in k(v) then k(v)[a] else v[a]
  }

  ghost function Apply(s: Stage, m: Mem): Mem {
    var v := Restrict(m, Footprint(s));
    imap a: int | true :: if a in Bytes(s.outs) then Out(s.kernel, v, a) else m[a]
  }

  /** The reference: stages one after another, in list order. */
  ghost function SeqExec(ss: seq<Stage>, m: Mem): Mem {
    if ss == [] then m else Apply(ss[|ss| - 1], SeqExec(ss[..|ss| - 1], m))
  }

  lemma SameMem(m: Mem, m': Mem)
    requires forall a: int :: m[a] == m'[a]
    ensures m == m'
  {
    assert forall a: int :: a in m;
    assert forall a: int :: a in m';
    assert m.Keys == m'.Keys;
    assert forall a: int | a in m :: m[a] == m'[a];
  }

  lemma SeqExecStep(ss: seq<Stage>, s: Stage, m: Mem)
    ensures SeqExec(ss + [s], m) == Apply(s, SeqExec(ss, m))
  {
    assert (ss + [s])[..|ss|] == ss;
  }

  /** Read-after-write, write-after-read or write-after-write on some byte. */
  ghost predicate Conflict(s: Stage, t: Stage) {
    exists a: int ::
      || (a in Bytes(s.outs) && a in Footprint(t))
      || (a in Footprint(s) && a in Bytes(t.outs))
  }
}
