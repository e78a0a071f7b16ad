/** From the session to the device: the stages a client sent, and the memory the device leaves after running them. */
module Execution {
  import opened Wire
  import opened Requests
  import opened GpuClient
  import Daemon
  import Encoder
  import GpuMemory
  import opened Backend

  /** What a loaded shader does with a stage's bindings, push constants and group counts: the ranges it reads and writes
      and its kernel. */
  type Meaning = Stage -> GpuMemory.Stage

  /** The same for a stage as the client describes it, with its buffers. */
  type Intent = ClientStage -> GpuMemory.Stage

  /** The stage as the device sees it: bit 0 of the flags on the wire says whether the barrier is skipped. */
  function Lowered(mean: Meaning, w: Stage): GpuMemory.Stage {
    mean(w).(skipBarrier := w.flags % 2 == 1)
  }

  function AllLowered(mean: Meaning, ws: seq<Stage>): (st: seq<GpuMemory.Stage>)
    ensures |st| == |ws|
  {
    seq(|ws|, i requires 0 <= i < |ws| => Lowered(mean, ws[i]))
  }

  /** What the daemon records for the last batch of the session (run_stages3). */
  function Recorded(mean: Meaning, t: Tables): seq<Daemon.Cmd> {
    Daemon.Commands(AllLowered(mean, t.ran), t.noBarriers)
  }

  /** Which dispatches the daemon puts a barrier in front of. */
  lemma {:induction false} RecordedBarriers(mean: Meaning, ws: seq<Stage>, noBarriers: bool, i: nat)
    requires i < |ws|
    ensures var cs, ds :=
        Daemon.Commands(AllLowered(mean, ws[..i]), noBarriers), Daemon.Commands(AllLowered(mean, ws), noBarriers);
            var barrier := i > 0 && !noBarriers && ws[i].flags % 2 == 0;
            var own := (if barrier then [Daemon.Barrier] else []) + [Daemon.Dispatch(Lowered(mean, ws[i]))];
            cs + own <= ds
    decreases |ws|
  {
    var n := |ws| - 1;
    assert AllLowered(mean, ws)[..n] == AllLowered(mean, ws[..n]);
    if i < n {
      RecordedBarriers(mean, ws[..n], noBarriers, i);
      assert ws[..n][..i] == ws[..i];
    }
  }

  /** A batch with the encoder's flags, recorded by a session that does not suppress barriers, ends in the memory of its
      stages run one after another, whatever the device overlaps. */
  lemma RunsAsEncoded(mean: Meaning, t: Tables, es: seq<GpuMemory.Stage>, m: GpuMemory.Mem, m': GpuMemory.Mem)
    requires Encoder.Greedy(es) && AllLowered(mean, t.ran) == es && !t.noBarriers
    requires Daemon.Outcome(Recorded(mean, t), m, m')
    ensures m' == GpuMemory.SeqExec(es, m)
  {
    Encoder.BatchIsSequential(es, m, m');
  }

  /** The client's stages are those of the encoder's batch, with its barrier flags in bit 0. */
  ghost predicate Carries(intent: Intent, st: seq<ClientStage>, es: seq<GpuMemory.Stage>) {
    |es| == |st| && forall i :: 0 <= i < |st| ==> es[i] == intent(st[i]).(skipBarrier := st[i].flags % 2 == 1)
  }

  /** On the device a stage does with the handles what the client means with the buffers that have them. */
  ghost predicate Resolves(mean: Meaning, intent: Intent, st: seq<ClientStage>)
    reads set s <- st, b <- s.binds | b.buf != null :: b.buf
  {
    forall i, w :: 0 <= i < |st| && Conveys(w, st[i]) ==> mean(w) == intent(st[i])
  }

  lemma SentIsEncoded(mean: Meaning, intent: Intent, st: seq<ClientStage>, es: seq<GpuMemory.Stage>, ws: seq<Stage>)
    requires Carries(intent, st, es) && Resolves(mean, intent, st) && |ws| == |st|
    requires forall i :: 0 <= i < |st| ==> Conveys(ws[i], st[i])
    ensures AllLowered(mean, ws) == es
  {
    forall i | 0 <= i < |st| ensures Lowered(mean, ws[i]) == es[i] {
      FlagsConveyed(ws[i], st[i]);
    }
  }

  lemma FlagsConveyed(w: Stage, s: ClientStage)
    requires Conveys(w, s)
    ensures w.flags == s.flags
  {
  }

  /** Main result over both ends: an encoded batch that the client sends, with whatever buffers it imports on the way,
      leaves the memory of its stages run one after another. */
  method RunBatch(c: Client, st: seq<ClientStage>, ghost lacking: set<ZBuf>, ghost mean: Meaning, ghost intent: Intent,
      ghost es: seq<GpuMemory.Stage>)
    returns (r: int)
    requires c.Valid() && c.Lacking(lacking) && StagesFor(st, c.daemon.t.sh, c.daemon.align, c.bufs)
    requires Carries(intent, st, es) && Encoder.Greedy(es) && !c.daemon.t.noBarriers
    modifies c`nimported, c.up, c.down, c.daemon`t, c.bufs`gpuH
    ensures c.Valid() && (r == 0 || r == -1)
    ensures r == 0 && Resolves(mean, intent, st) ==>
              forall m: GpuMemory.Mem, m': GpuMemory.Mem :: Daemon.Outcome(Recorded(mean, c.daemon.t), m, m') ==>
                m' == GpuMemory.SeqExec(es, m)
  {
    hide *;
    r := c.Batch(st, lacking);
    if r == 0 && Resolves(mean, intent, st) {
      SentIsEncoded(mean, intent, st, es, c.daemon.t.ran);
      forall m: GpuMemory.Mem, m': GpuMemory.Mem | Daemon.Outcome(Recorded(mean, c.daemon.t), m, m')
        ensures m' == GpuMemory.SeqExec(es, m)
      {
        RunsAsEncoded(mean, c.daemon.t, es, m, m');
      }
    }
  }

  /** The backend's flush over the wire: sending its pending batch through the session leaves the memory that
      Backend.Flush promises, so the main result about graphs holds for batches that go this way. */
  method FlushOverWire(b: Backend, c: Client, st: seq<ClientStage>, ghost lacking: set<ZBuf>, ghost mean: Meaning,
      ghost intent: Intent)
    returns (r: int)
    requires b.Valid() && c.Valid() && c.Lacking(lacking) && StagesFor(st, c.daemon.t.sh, c.daemon.align, c.bufs)
    requires Carries(intent, st, b.enc.st) && !c.daemon.t.noBarriers
    modifies c`nimported, c.up, c.down, c.daemon`t, c.bufs`gpuH
    ensures c.Valid() && (r == 0 || r == -1)
    ensures r == 0 && Resolves(mean, intent, st) ==>
              forall m': GpuMemory.Mem :: Daemon.Outcome(Recorded(mean, c.daemon.t), b.mem, m') ==> m' == b.Pending()
  {
    assert Encoder.Greedy(b.enc.st);
    r := RunBatch(c, st, lacking, mean, intent, b.enc.st);
  }
}
