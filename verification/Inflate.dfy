/** Decoding one compressed block into a growing output buffer (stbi__parse_huffman_block, stbi__zexpand). */
module Inflate {
  import opened Bytes
  import opened Canonical
  import opened Huffman
  import opened BitReader
  import opened Deflate

  const UINT_MAX: nat := 0xFFFF_FFFF

  datatype Outcome = Done | Corrupt | NoSpace

  // ------------------------------------------------------------------ copies

  /** Copying from one byte back repeats the last byte: the decoder's shortcut. */
  lemma {:induction false} CopyRepeats(out: seq<byte>, n: nat)
    requires |out| >= 1
    ensures CopyBytes(out, 1, n)[|out| + n - 1] == out[|out| - 1]
  {
    if n > 0 { CopyRepeats(out, n - 1); }
  }

  lemma CopyNothing(out: seq<byte>, dist: nat)
    requires 1 <= dist <= |out|
    ensures CopyBytes(out, dist, 0) == out
  {
  }

  lemma CopyStep(out: seq<byte>, dist: nat, n: nat)
    requires 1 <= dist <= |out|
    ensures CopyBytes(out, dist, n + 1) == CopyBytes(out, dist, n) + [CopyBytes(out, dist, n)[|out| + n - dist]]
  {
  }

  // ------------------------------------------------------------------ one more token

  lemma Extend(c: Codes, data: seq<nat>, p: nat, out: seq<byte>, ts: seq<Token>, t: Token)
    requires TokensAt(c, data, p, ts) && AllLegal(out, ts)
    requires TokenAt(c, data, p + Width(c, ts), t) && Legal(Run(out, ts), t)
    ensures TokensAt(c, data, p, ts + [t]) && AllLegal(out, ts + [t])
    ensures Width(c, ts + [t]) == Width(c, ts) + Size(c, t) && Run(out, ts + [t]) == Emit(Run(out, ts), t)
  {
    hide SymbolAt, Field, Size, Legal, Emit;
    assert (ts + [t])[..|ts + [t]| - 1] == ts;
  }

  /** The tokens ts have been read from bit p to bit at, and turned `out` into `now`. */
  ghost predicate Progress(c: Codes, data: seq<nat>, p: nat, at: nat, out: seq<byte>, ts: seq<Token>, now: seq<byte>) {
    TokensAt(c, data, p, ts) && at == p + Width(c, ts) && AllLegal(out, ts) && now == Run(out, ts)
  }

  lemma OneMore(c: Codes, data: seq<nat>, p: nat, at: nat, out: seq<byte>, ts: seq<Token>, now: seq<byte>, t: Token)
    requires Progress(c, data, p, at, out, ts, now) && TokenAt(c, data, at, t) && Legal(now, t)
    ensures Progress(c, data, p, at + Size(c, t), out, ts + [t], Emit(now, t))
  {
    hide TokensAt, TokenAt, Width, AllLegal, Run, Emit, Legal, Size;
    Extend(c, data, p, out, ts, t);
  }

  lemma OneMoreLiteral(c: Codes, data: seq<nat>, p: nat, at: nat, out: seq<byte>, ts: seq<Token>, now: seq<byte>,
      b: nat)
    requires Progress(c, data, p, at, out, ts, now) && b < 256 && SymbolAt(c.ll, data, at, b)
    ensures Progress(c, data, p, at + c.ll[b], out, ts + [Literal(b)], now + [b as byte])
  {
    hide TokensAt, Width, AllLegal, Run, Key, Code, Progress;
    OneMore(c, data, p, at, out, ts, now, Literal(b));
  }

  /** A whole legal block stands at bits p..q and turns `out` into `now`. */
  ghost predicate Finished(c: Codes, data: seq<nat>, p: nat, q: nat, out: seq<byte>, now: seq<byte>) {
    exists ts :: BlockAt(c, data, p, ts, q) && AllLegal(out, ts) && now == Run(out, ts)
  }

  /** After some legal tokens from bit p on, nothing legal ends inside the data; and unless the end of the data has
      been noticed, nothing legal follows at all. */
  ghost predicate Stopped(c: Codes, data: seq<nat>, p: nat, out: seq<byte>, eof: bool) {
    exists ts :: TokensAt(c, data, p, ts) && AllLegal(out, ts) && Blocked(c, data, p + Width(c, ts), Run(out, ts), eof)
  }

  /** Bit q is a place at which a symbol is looked up with fewer than 16 of the first `known` bits left: q itself,
      or the distance symbol of a match that stands at q. */
  ghost predicate Short(c: Codes, data: seq<nat>, q: nat, known: nat) {
    || q + 16 > known
    || exists ls ::
         0 <= ls < 29 && SymbolAt(c.ll, data, q, 257 + ls) && q + c.ll[257 + ls] + LengthExtra(ls) + 16 > known
  }

  /** Some legal tokens from bit p on lead to such a place. */
  ghost predicate RunsShort(c: Codes, data: seq<nat>, p: nat, out: seq<byte>, known: nat) {
    exists ts :: TokensAt(c, data, p, ts) && AllLegal(out, ts) && Short(c, data, p + Width(c, ts), known)
  }

  /** The legal tokens from bit p on produce more than half of `quota`. */
  ghost predicate Overflows(c: Codes, data: seq<nat>, p: nat, out: seq<byte>, quota: nat) {
    exists ts :: TokensAt(c, data, p, ts) && AllLegal(out, ts) && 2 * |Run(out, ts)| > quota
  }

  lemma Finish(c: Codes, data: seq<nat>, p: nat, at: nat, out: seq<byte>, ts: seq<Token>, now: seq<byte>)
    requires Progress(c, data, p, at, out, ts, now) && SymbolAt(c.ll, data, at, END_OF_BLOCK)
    ensures Finished(c, data, p, at + c.ll[END_OF_BLOCK], out, now)
  {
    hide TokensAt, Width, AllLegal, Run, Key, Code;
    assert BlockAt(c, data, p, ts, at + c.ll[END_OF_BLOCK]);
  }

  lemma ShortHere(c: Codes, data: seq<nat>, p: nat, at: nat, out: seq<byte>, ts: seq<Token>, now: seq<byte>, known: nat)
    requires Progress(c, data, p, at, out, ts, now) && Short(c, data, at, known)
    ensures RunsShort(c, data, p, out, known)
  {
    hide TokensAt, Width, AllLegal, Run, Short;
  }

  lemma Stop(c: Codes, data: seq<nat>, p: nat, at: nat, out: seq<byte>, ts: seq<Token>, now: seq<byte>, eof: bool)
    requires Progress(c, data, p, at, out, ts, now) && Blocked(c, data, at, now, eof)
    ensures Stopped(c, data, p, out, eof)
  {
    hide TokensAt, Width, AllLegal, Run, Blocked;
  }

  lemma Overflow(c: Codes, data: seq<nat>, p: nat, at: nat, out: seq<byte>, ts: seq<Token>, now: seq<byte>, quota: nat)
    requires Progress(c, data, p, at, out, ts, now) && 2 * |now| > quota
    ensures Overflows(c, data, p, out, quota)
  {
    hide TokensAt, Width, AllLegal, Run;
  }

  lemma Begin(c: Codes, data: seq<nat>, p: nat, out: seq<byte>)
    ensures Progress(c, data, p, p, out, [], out)
  {
  }

  // ------------------------------------------------------------------ why decoding may stop

  lemma NothingThere(c: Codes, data: seq<nat>, p: nat, out: seq<byte>, eof: bool)
    requires (eof && p > 8 * |data|) || forall u: nat :: !SymbolAt(c.ll, data, p, u)
    ensures Blocked(c, data, p, out, eof)
  {
    hide Key, Code, Field;
  }

  lemma EndTooLate(c: Codes, data: seq<nat>, p: nat, out: seq<byte>)
    requires Lengths(c) && SymbolAt(c.ll, data, p, END_OF_BLOCK) && p + c.ll[END_OF_BLOCK] > 8 * |data|
    ensures Blocked(c, data, p, out, true)
  {
    hide Key, Code, TokenAt;
    forall t ensures !TokenAt(c, data, p, t) { EndIsNoToken(c, data, p, t); }
  }

  lemma ReservedLength(c: Codes, data: seq<nat>, p: nat, out: seq<byte>, v: nat, eof: bool)
    requires Lengths(c) && SymbolAt(c.ll, data, p, v) && v >= 286
    ensures Blocked(c, data, p, out, eof)
  {
    hide Key, Code, Field;
    forall u: nat | SymbolAt(c.ll, data, p, u) ensures u == v { SymbolUnique(c.ll, data, p, u, v); }
  }

  lemma MatchOnly(c: Codes, data: seq<nat>, p: nat, ls: nat, t: Token)
    requires Lengths(c) && ls < 29 && SymbolAt(c.ll, data, p, 257 + ls) && TokenAt(c, data, p, t)
    ensures t.Match? && t.ls == ls
  {
    hide Key, Code, Field;
    SymbolUnique(c.ll, data, p, 257 + ls, if t.Literal? then t.b else 257 + t.ls);
  }

  /** No match with this length symbol ends inside the data, or none stands there at all. */
  ghost predicate MatchFails(c: Codes, data: seq<nat>, p: nat, eof: bool) {
    forall t :: TokenAt(c, data, p, t) ==> eof && p + Size(c, t) > 8 * |data|
  }

  lemma BadMatch(c: Codes, data: seq<nat>, p: nat, ls: nat, out: seq<byte>, eof: bool)
    requires Lengths(c) && ls < 29 && SymbolAt(c.ll, data, p, 257 + ls) && MatchFails(c, data, p, eof)
    ensures Blocked(c, data, p, out, eof)
  {
    hide Key, Code, TokenAt;
    if SymbolAt(c.ll, data, p, END_OF_BLOCK) { SymbolUnique(c.ll, data, p, 257 + ls, END_OF_BLOCK); }
  }

  lemma BadDistance(c: Codes, data: seq<nat>, p: nat, t: Token, out: seq<byte>, eof: bool)
    requires Lengths(c) && t.Match? && TokenAt(c, data, p, t) && |out| < Distance(t)
    ensures Blocked(c, data, p, out, eof)
  {
    hide Size, Distance, Key, Code, Field;
    forall u | TokenAt(c, data, p, u) ensures u == t { TokenUnique(c, data, p, u, t); }
    if SymbolAt(c.ll, data, p, END_OF_BLOCK) { EndIsNoToken(c, data, p, t); }
  }

  lemma DistanceMissing(c: Codes, data: seq<nat>, p: nat, ls: nat, eof: bool)
    requires Lengths(c) && ls < 29 && SymbolAt(c.ll, data, p, 257 + ls)
    requires var p2 := p + c.ll[257 + ls] + LengthExtra(ls);
             (eof && p2 > 8 * |data|) || forall v: nat :: SymbolAt(c.dl, data, p2, v) ==> v >= 30
    ensures MatchFails(c, data, p, eof)
  {
    hide Key, Code, Field, LengthExtra, DistExtra;
    forall t | TokenAt(c, data, p, t) ensures eof && p + Size(c, t) > 8 * |data| {
      MatchOnly(c, data, p, ls, t);
      assert SymbolAt(c.dl, data, p + c.ll[257 + ls] + LengthExtra(ls), t.ds);
    }
  }

  // ------------------------------------------------------------------ round trip

  ghost predicate Written(c: Codes, data: seq<nat>, p: nat, ts: seq<Token>, out: seq<byte>) {
    && Usable(c.ll) && Usable(c.dl) && Accepted(c.ll) && Accepted(c.dl) && |c.ll| > END_OF_BLOCK
    && c.ll[END_OF_BLOCK] > 0
    && AllFit(c, ts) && (forall t :: t in ts ==> Writable(c, t)) && AllLegal(out, ts)
    && Holds(data, p, BlockBits(c, ts)) && p + |BlockBits(c, ts)| <= 8 * |data|
  }

  /** Any block written with accepted codes decodes to what its tokens mean and takes exactly its own bits. */
  lemma WrittenFinishes(c: Codes, data: seq<nat>, p: nat, ts: seq<Token>, out: seq<byte>, q: nat, now: seq<byte>)
    requires Written(c, data, p, ts, out) && Finished(c, data, p, q, out, now)
    ensures q == p + |BlockBits(c, ts)| && now == Run(out, ts)
  {
    hide TokensAt, BlockBits, Key, Code, Accepted, Holds, Run, AllLegal;
    BlockBitsStand(c, data, p, ts);
    var us :| BlockAt(c, data, p, us, q) && AllLegal(out, us) && now == Run(out, us);
    BlockUnique(c, data, p, ts, p + |BlockBits(c, ts)|, us, q);
  }

  /** The decoder does not call it corrupt. */
  lemma WrittenNeverStops(c: Codes, data: seq<nat>, p: nat, ts: seq<Token>, out: seq<byte>, eof: bool)
    requires Written(c, data, p, ts, out)
    ensures !Stopped(c, data, p, out, eof)
  {
    hide BlockBits, BlockAt, Accepted, Holds, Run, AllLegal, Blocked, Usable, TokenAt, AllFit, Width;
    BlockBitsStand(c, data, p, ts);
    WrittenLengths(c);
    if us :| TokensAt(c, data, p, us) && AllLegal(out, us) && Blocked(c, data, p + Width(c, us), Run(out, us), eof) {
      BlockedExcludes(c, data, p, out, us, ts, p + |BlockBits(c, ts)|, eof);
    }
  }

  /** It runs out of space only if the allocator would not grant twice the block's output. */
  lemma WrittenOverflows(c: Codes, data: seq<nat>, p: nat, ts: seq<Token>, out: seq<byte>, quota: nat)
    requires Written(c, data, p, ts, out) && Overflows(c, data, p, out, quota)
    ensures 2 * |Run(out, ts)| > quota
  {
    hide TokensAt, BlockBits, Accepted, Holds, Run, AllLegal, Usable, Key, Code;
    BlockBitsStand(c, data, p, ts);
    WrittenLengths(c);
    var us :| TokensAt(c, data, p, us) && AllLegal(out, us) && 2 * |Run(out, us)| > quota;
    NoLonger(c, data, p, ts, us);
    TokensAgree(c, data, p, us, ts);
    PrefixLegal(out, ts, |us|);
  }

  lemma WrittenLengths(c: Codes)
    requires Usable(c.ll) && Usable(c.dl)
    ensures Lengths(c)
  {
  }

  // ------------------------------------------------------------------ the decoder

  lemma OnlyReserved(c: Codes, data: seq<nat>, p: nat, z: int, eof: bool)
    requires Lengths(c) && -1 <= z && (z < 0 || z >= 30)
    requires if z < 0 then (eof && p > 8 * |data|)
      || forall v: nat :: !SymbolAt(c.dl, data, p, v) else SymbolAt(c.dl, data, p, z)
    ensures (eof && p > 8 * |data|) || forall v: nat :: SymbolAt(c.dl, data, p, v) ==> v >= 30
  {
    hide Key, Code;
    if z >= 30 {
      forall v: nat | SymbolAt(c.dl, data, p, v) ensures v == z { SymbolUnique(c.dl, data, p, v, z); }
    }
  }

  lemma MatchStands(c: Codes, data: seq<nat>, p: nat, t: Token)
    requires t.Match? && Fits(c, t) && SymbolAt(c.ll, data, p, 257 + t.ls)
    requires var p1 := p + c.ll[257 + t.ls]; var p2 := p1 + LengthExtra(t.ls); var p3 := p2 + c.dl[t.ds];
             t.le == Field(data, p1, LengthExtra(t.ls)) && SymbolAt(c.dl, data, p2, t.ds)
               && t.de == Field(data, p3, DistExtra(t.ds))
    ensures TokenAt(c, data, p, t)
    ensures Size(c, t) == c.ll[257 + t.ls] + LengthExtra(t.ls) + c.dl[t.ds] + DistExtra(t.ds)
  {
    hide Key, Code, Field;
  }

  lemma LookedUpShort(c: Codes, data: seq<nat>, q: nat, known: nat)
    requires q + 16 > known
    ensures Short(c, data, q, known)
  {
  }

  /** A place that is short of more bits is short of fewer. */
  lemma LessKnown(c: Codes, data: seq<nat>, q: nat, known: nat, more: nat)
    requires Short(c, data, q, more) && known <= more
    ensures Short(c, data, q, known)
  {
    hide SymbolAt, LengthExtra;
  }

  class Inflater {
    const r: Reader
    const zl: Table
    const zd: Table
    const expandable: bool
    /** The largest block the allocator grants. */
    const quota: nat
    var buf: array<byte>
    var zout: nat

    /** The tables are those of the block's codes. */
    ghost predicate Tables(c: Codes)
      reads zl.fast, zl.firstcode, zl.maxcode, zl.firstsymbol, zl.size, zl.value,
            zd.fast, zd.firstcode, zd.maxcode, zd.firstsymbol, zd.size, zd.value
    {
      Usable(c.ll) && Usable(c.dl) && zl.Shape() && zd.Shape() && zl.Represents(c.ll) && zd.Represents(c.dl)
    }

    ghost predicate Valid()
      reads this
    {
      zout <= buf.Length && 1 <= buf.Length <= UINT_MAX && quota <= UINT_MAX
    }

    constructor (reader: Reader, lengths: Table, distances: Table, mayGrow: bool, granted: nat, initial: nat)
      requires 1 <= initial <= UINT_MAX && granted <= UINT_MAX
      ensures Valid() && fresh(buf) && zout == 0
      ensures r == reader && zl == lengths && zd == distances && expandable == mayGrow && quota == granted
    {
      r, zl, zd, expandable, quota := reader, lengths, distances, mayGrow, granted;
      buf := new byte[initial];
      zout := 0;
    }

    /** stbi__zexpand: makes room for n more bytes after the first `cur`, keeping those. */
    method Expand(cur: nat, n: nat) returns (ok: bool)
      requires Valid() && cur <= buf.Length < cur + n
      modifies this`buf, this`zout
      ensures Valid() && zout == cur && buf[..cur] == old(buf[..cur])
      ensures if ok then fresh(buf) && cur + n <= buf.Length else buf == old(buf)
      ensures !ok ==> !expandable || 2 * (cur + n) > quota
    {
      zout := cur;
      if !expandable { return false; }
      var limit := buf.Length;
      if UINT_MAX - cur < n { return false; }
      while cur + n > limit
        invariant 1 <= limit <= UINT_MAX && limit < 2 * (cur + n)
        decreases cur + n - limit
      {
        if limit > UINT_MAX / 2 { return false; }
        limit := 2 * limit;
      }
      if limit > quota { return false; }
      var q := new byte[limit];
      forall i | 0 <= i < buf.Length { q[i] := buf[i]; }
      buf := q;
      return true;
    }

    /** The copy loop for runs of one byte. */
    method CopyRun(z: nat, n: nat)
      requires 1 <= z && z + n <= buf.Length
      modifies buf
      ensures buf[..z + n] == CopyBytes(old(buf[..z]), 1, n)
    {
      hide CopyBytes;
      ghost var out := buf[..z];
      CopyNothing(out, 1);
      var v := buf[z - 1];
      for k := 0 to n
        invariant buf[..z + k] == CopyBytes(out, 1, k)
      {
        CopyRepeats(out, k);
        CopyStep(out, 1, k);
        buf[z + k] := v;
        assert buf[..z + k + 1] == buf[..z + k] + [v];
      }
    }

    /** The copy loop: n bytes, one at a time, from dist bytes back. */
    method CopyBack(z: nat, dist: nat, n: nat)
      requires 1 <= dist <= z && z + n <= buf.Length
      modifies buf
      ensures buf[..z + n] == CopyBytes(old(buf[..z]), dist, n)
    {
      hide CopyBytes;
      ghost var out := buf[..z];
      CopyNothing(out, dist);
      for k := 0 to n
        invariant buf[..z + k] == CopyBytes(out, dist, k)
      {
        CopyStep(out, dist, k);
        assert buf[z + k - dist] == buf[..z + k][z + k - dist];
        buf[z + k] := buf[z + k - dist];
        assert buf[..z + k + 1] == buf[..z + k] + [buf[z + k]];
      }
    }

    /** Extra bits are received only where there are any. */
    method ReadExtra(n: nat) returns (x: nat)
      requires r.Valid() && n <= 13
      modifies r
      ensures r.Valid() && x == Field(r.data, old(r.at), n) && r.at == old(r.at) + n
      ensures r.hitEof == old(r.hitEof) && r.pads >= old(r.pads)
    {
      x := 0;
      if n > 0 { x := r.Receive(n); }
    }

    lemma TablesFit(c: Codes)
      requires Tables(c)
      ensures Lengths(c)
    {
    }

    /** Decodes a literal, a length symbol or the end mark. */
    method DecodeLength(c: Codes) returns (v: int)
      requires r.Valid() && Tables(c)
      modifies r
      ensures r.Valid() && -1 <= v && r.pads >= old(r.pads) && (old(r.hitEof) ==> r.hitEof)
      ensures v != -1 ==> SymbolAt(c.ll, r.data, old(r.at), v) && r.at == old(r.at) + c.ll[v]
      ensures v == -1 ==> r.at == old(r.at)
      ensures v == -1 ==> (r.hitEof && r.at > 8 * |r.data|) || forall u: nat :: !SymbolAt(c.ll, r.data, r.at, u)
      ensures r.hitEof && !old(r.hitEof) ==> old(r.at) + 16 > 8 * |r.data| + old(r.pads)
    {
      v := r.Decode(zl, c.ll);
    }

    /** Reads the rest of a match after its length symbol 257 + ls, which stood at bit p. */
    method ReadMatch(c: Codes, ls: nat, ghost p: nat) returns (ok: bool, ghost t: Token, len: nat, dist: nat)
      requires r.Valid() && Tables(c) && ls < 29 && SymbolAt(c.ll, r.data, p, 257 + ls) && r.at == p + c.ll[257 + ls]
      modifies r
      ensures r.Valid()
      ensures ok ==>
          TokenAt(c, r.data, p, t) && t.Match? && r.at == p + Size(c, t) && len == Length(t) && dist == Distance(t)
      ensures !ok ==> MatchFails(c, r.data, p, r.hitEof)
      ensures r.pads >= old(r.pads) && (old(r.hitEof) ==> r.hitEof)
      ensures r.hitEof && !old(r.hitEof) ==> Short(c, r.data, p, 8 * |r.data| + old(r.pads))
    {
      hide Key, Code, Field, TokenAt, Size, MatchFails, FastTable, SortedLists, CodeTables, Buffers;
      var le := ReadExtra(LengthExtra(ls));
      ghost var p2 := r.at;
      var z := r.Decode(zd, c.dl);
      if z < 0 || z >= 30 {
        OnlyReserved(c, r.data, p2, z, r.hitEof);
        DistanceMissing(c, r.data, p, ls, r.hitEof);
        return false, Literal(0), 0, 0;
      }
      var de := ReadExtra(DistExtra(z));
      t := Match(ls, le, z, de);
      MatchStands(c, r.data, p, t);
      return true, t, LengthBase(ls) + le, DistBase(z) + de;
    }

    /** Stores a literal byte after the first z bytes. */
    method PutLiteral(z: nat, b: nat) returns (ok: bool)
      requires Valid() && z <= buf.Length && b < 256
      modifies this`buf, this`zout, buf
      ensures Valid() && (fresh(buf) || buf == old(buf))
      ensures ok ==> z + 1 <= buf.Length && buf[..z + 1] == old(buf[..z]) + [b as byte]
      ensures !ok ==> !expandable || 2 * (z + 1) > quota
    {
      if z >= buf.Length {
        ok := Expand(z, 1);
        if !ok { return; }
      }
      buf[z] := b as byte;
      return true;
    }

    /** Stores a match after the first z bytes. */
    method PutMatch(z: nat, dist: nat, len: nat) returns (ok: bool)
      requires Valid() && 1 <= dist <= z <= buf.Length
      modifies this`buf, this`zout, buf
      ensures Valid() && (fresh(buf) || buf == old(buf))
      ensures ok ==> z + len <= buf.Length && buf[..z + len] == CopyBytes(old(buf[..z]), dist, len)
      ensures !ok ==> !expandable || 2 * (z + len) > quota
    {
      hide CopyBytes;
      if len > buf.Length - z {
        ok := Expand(z, len);
        if !ok { return; }
      }
      if dist == 1 { CopyRun(z, len); } else { CopyBack(z, dist, len); }
      return true;
    }

    /** The literal branch: reading went from bit `at` to r.at; the state advances by one token. */
    method StepLiteral(c: Codes, z: nat, b: nat, ghost p: nat, ghost at: nat, ghost out: seq<byte>,
        ghost ts: seq<Token>)
      returns (ok: bool)
      requires Valid() && z <= buf.Length && Progress(c, r.data, p, at, out, ts, buf[..z])
      requires b < 256 && SymbolAt(c.ll, r.data, at, b)
      modifies this`buf, this`zout, buf
      ensures Valid() && (fresh(buf) || buf == old(buf))
      ensures ok ==> z + 1 <= buf.Length && Progress(c, r.data, p, at + c.ll[b], out, ts + [Literal(b)], buf[..z + 1])
      ensures !ok ==> !expandable || Overflows(c, r.data, p, out, quota)
    {
      hide Progress, Key, Code, Overflows;
      ghost var now := buf[..z];
      OneMoreLiteral(c, r.data, p, at, out, ts, now, b);
      ok := PutLiteral(z, b);
      if !ok && expandable {
        Overflow(c, r.data, p, at + c.ll[b], out, ts + [Literal(b)], now + [b as byte], quota);
      }
    }

    method StepMatch(c: Codes, z: nat, dist: nat, len: nat, ghost t: Token,
                     ghost p: nat, ghost at: nat, ghost out: seq<byte>, ghost ts: seq<Token>)
      returns (ok: bool)
      requires Valid() && z <= buf.Length && Progress(c, r.data, p, at, out, ts, buf[..z])
      requires TokenAt(c, r.data, at, t) && t.Match? && dist == Distance(t) && len == Length(t) && dist <= z
      modifies this`buf, this`zout, buf
      ensures Valid() && (fresh(buf) || buf == old(buf))
      ensures ok ==> z + len <= buf.Length && Progress(c, r.data, p, at + Size(c, t), out, ts + [t], buf[..z + len])
      ensures !ok ==> !expandable || Overflows(c, r.data, p, out, quota)
    {
      hide Progress, SymbolAt, Field, Overflows, Length, Distance, CopyBytes;
      ghost var now := buf[..z];
      OneMore(c, r.data, p, at, out, ts, now, t);
      ok := PutMatch(z, dist, len);
      if !ok && expandable {
        Overflow(c, r.data, p, at + Size(c, t), out, ts + [t], Emit(now, t), quota);
      }
    }

    /** The branch for a length symbol, which stood at bit `at`. */
    method MatchSymbol(c: Codes, z: nat, ls: nat, ghost p: nat, ghost at: nat, ghost out: seq<byte>,
        ghost ts: seq<Token>,
                       ghost known: nat, ghost noticed: bool)
      returns (stop: bool, why: Outcome, len: nat, ghost t: Token)
      requires r.Valid() && Tables(c) && Lengths(c) && Valid() && z <= buf.Length
      requires Progress(c, r.data, p, at, out, ts, buf[..z])
      requires ls < 29 && SymbolAt(c.ll, r.data, at, 257 + ls) && r.at == at + c.ll[257 + ls]
      requires known <= 8 * |r.data| + r.pads && (noticed ==> r.hitEof)
      requires r.hitEof && !noticed ==> RunsShort(c, r.data, p, out, known)
      modifies this`buf, this`zout, buf, r
      ensures r.Valid() && Valid() && (fresh(buf) || buf == old(buf))
      ensures known <= 8 * |r.data| + r.pads && (noticed ==> r.hitEof)
      ensures r.hitEof && !noticed ==> RunsShort(c, r.data, p, out, known)
      ensures stop ==> why.Corrupt? || why.NoSpace?
      ensures stop && why.Corrupt? ==> Stopped(c, r.data, p, out, r.hitEof)
      ensures stop && why.NoSpace? ==> !expandable || Overflows(c, r.data, p, out, quota)
      ensures !stop ==> 0 < len && z + len <= buf.Length && Progress(c, r.data, p, r.at, out, ts + [t], buf[..z + len])
    {
      hide Key, Code, Field, TokenAt, Size, MatchFails, FastTable, SortedLists, CodeTables, Buffers, Blocked, Short;
      hide Progress, Stopped, RunsShort, Overflows, Distance, Legal, SymbolAt, TokensAt, Width, AllLegal, Run, Tables;
      len, why := 0, Corrupt;
      ghost var eof, more := r.hitEof, 8 * |r.data| + r.pads;
      var ok, u, n, dist := ReadMatch(c, ls, at);
      t := u;
      if r.hitEof && !eof {
        LessKnown(c, r.data, at, known, more);
        ShortHere(c, r.data, p, at, out, ts, buf[..z], known);
      }
      if !ok {
        BadMatch(c, r.data, at, ls, buf[..z], r.hitEof);
        Stop(c, r.data, p, at, out, ts, buf[..z], r.hitEof);
        return true, Corrupt, 0, t;
      }
      if z < dist {
        BadDistance(c, r.data, at, t, buf[..z], r.hitEof);
        Stop(c, r.data, p, at, out, ts, buf[..z], r.hitEof);
        return true, Corrupt, 0, t;
      }
      ok := StepMatch(c, z, dist, n, t, p, at, out, ts);
      return !ok, NoSpace, n, t;
    }

    /** stbi__parse_huffman_block. Done: a legal block was read and written out in full, inside the data unless zeros
        were put behind it unnoticed. Corrupt: the legal tokens read so far cannot go on inside the data; if the end of
        the data was not noticed, they cannot go on at all. NoSpace: the output may not grow enough. */
    method ParseBlock(c: Codes) returns (outcome: Outcome)
      requires r.Valid() && Tables(c) && Valid()
      modifies this`buf, this`zout, buf, r
      ensures r.Valid() && Valid()
      ensures outcome.Done? ==> Finished(c, r.data, old(r.at), r.at, old(buf[..zout]), buf[..zout])
      ensures outcome.Done? && r.pads == 0 ==> r.at <= 8 * |r.data|
      ensures outcome.Corrupt? ==> Stopped(c, r.data, old(r.at), old(buf[..zout]), r.hitEof)
      ensures r.hitEof && !old(r.hitEof) ==>
                RunsShort(c, r.data, old(r.at), old(buf[..zout]), 8 * |r.data| + old(r.pads))
      ensures outcome.NoSpace? ==> !expandable || Overflows(c, r.data, old(r.at), old(buf[..zout]), quota)
    {
      hide Key, Code, Field, TokenAt, Size, MatchFails, FastTable, SortedLists, CodeTables, Buffers, Blocked, Short;
      hide Progress, Finished, Stopped, RunsShort, Overflows, Length, Distance, Legal, SymbolAt, Table.Represents;
      hide TokensAt, Width, AllLegal, Run, Tables;
      TablesFit(c);
      ghost var p, out, ts := r.at, buf[..zout], [];
      ghost var known, noticed := 8 * |r.data| + r.pads, r.hitEof;
      Begin(c, r.data, p, out);
      var z := zout;
      while true
        invariant r.Valid() && Tables(c) && Valid() && z <= buf.Length && (fresh(buf) || buf == old(buf))
        invariant Progress(c, r.data, p, r.at, out, ts, buf[..z])
        invariant known <= 8 * |r.data| + r.pads && (noticed ==> r.hitEof)
        invariant r.hitEof && !noticed ==> RunsShort(c, r.data, p, out, known)
        decreases UINT_MAX - z
      {
        ghost var at, eof := r.at, r.hitEof;
        var sym := DecodeLength(c);
        if r.hitEof && !eof {
          LookedUpShort(c, r.data, at, known);
          ShortHere(c, r.data, p, at, out, ts, buf[..z], known);
        }
        if sym < 0 {
          NothingThere(c, r.data, at, buf[..z], r.hitEof);
          Stop(c, r.data, p, at, out, ts, buf[..z], r.hitEof);
          return Corrupt;
        } else if sym < 256 {
          var ok := StepLiteral(c, z, sym, p, at, out, ts);
          if !ok { return NoSpace; }
          ts := ts + [Literal(sym)];
          z := z + 1;
        } else if sym == 256 {
          zout := z;
          if r.hitEof && r.numBits < 16 {
            EndTooLate(c, r.data, at, buf[..z]);
            Stop(c, r.data, p, at, out, ts, buf[..z], true);
            return Corrupt;
          }
          Finish(c, r.data, p, at, out, ts, buf[..z]);
          return Done;
        } else if sym >= 286 {
          ReservedLength(c, r.data, at, buf[..z], sym, r.hitEof);
          Stop(c, r.data, p, at, out, ts, buf[..z], r.hitEof);
          return Corrupt;
        } else {
          var stop, why, len, t := MatchSymbol(c, z, sym - 257, p, at, out, ts, known, noticed);
          if stop { return why; }
          ts := ts + [t];
          z := z + len;
        }
      }
    }
  }
}
