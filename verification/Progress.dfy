/** Nothing gets stuck: writers always finish, and a reader waits only when it has returned everything. */
module Progress {
  import opened ByteStrings
  import opened Primitives
  import opened Wire
  import opened Records
  import opened Concurrency

  // ---------- writers ----------

  /** A bound on the steps a thread still needs once it may run. */
  function Rank(pc: Writer): nat {
    match pc
    case WWait(b) => 3 + LoopRank(|b|)
    case WLoop(b, w) => 2 + LoopRank(|b| - w)
    case WSealed(b, w, chunk, _) => 4 + LoopRank(|b| - w - |chunk|)
    case WHeader(b, w, chunk, _) => 3 + LoopRank(|b| - w - |chunk|)
    case WExit(_, _) => 1
    case WDone(_, _) => 0
  }

  function LoopRank(left: int): nat {
    if left > 0 then 3 * left else 0
  }

  /** Every step of a thread that is inside Write, or finds the lock free, brings it nearer to its end. */
  lemma RankFalls(a: Aead, key: Bytes, t: nat, s: Shared, pc: Writer)
    requires !pc.WDone? && (pc.WWait? ==> s.writeMu == None)
    ensures Rank(WriterStep(a, key, t, s, pc).pc) < Rank(pc)
  {
  }

  function Moves(t: nat, k: nat): seq<Event> {
    seq(k, i => WriterMoves(t))
  }

  function RunFrom(a: Aead, key: Bytes, s: System, es: seq<Event>): System
    decreases |es|
  {
    if es == [] then s else RunFrom(a, key, Step(a, key, s, es[0]), es[1..])
  }

  lemma {:induction false} RunOn(a: Aead, key: Bytes, es: seq<Event>, more: seq<Event>)
    ensures RunFrom(a, key, Run(a, key, es), more) == Run(a, key, es + more)
    decreases |more|
  {
    if more == [] {
      assert es + more == es;
    } else {
      var next := es + [more[0]];
      assert next[..|es|] == es && next + more[1..] == es + more;
      RunOn(a, key, next, more[1..]);
    }
  }

  lemma {:induction false} RunFromAppend(a: Aead, key: Bytes, s: System, es: seq<Event>, fs: seq<Event>)
    ensures RunFrom(a, key, s, es + fs) == RunFrom(a, key, RunFrom(a, key, s, es), fs)
    decreases |es|
  {
    if es == [] {
      assert es + fs == fs;
    } else {
      assert (es + fs)[1..] == es[1..] + fs;
      RunFromAppend(a, key, Step(a, key, s, es[0]), es[1..], fs);
    }
  }

  /** The writers of the two systems agree except at `t`. */
  ghost predicate OnlyMoved(s: System, s': System, t: nat) {
    s'.writers.Keys == s.writers.Keys && forall u :: u in s.writers && u != t ==> s'.writers[u] == s.writers[u]
  }

  /** A thread that holds the write lock, or finds it free, finishes and leaves it free. */
  lemma {:induction false} FinishOne(a: Aead, key: Bytes, s: System, t: nat) returns (k: nat)
    requires Exclusive(s) && t in s.writers && s.shared.writeMu in {None, Some(t)}
    ensures var s' := RunFrom(a, key, s, Moves(t, k));
            Exclusive(s') && OnlyMoved(s, s', t) && s'.writers[t].WDone? && s'.shared.writeMu == None
    decreases Rank(s.writers[t])
  {
    if s.writers[t].WDone? {
      k := 0;
    } else {
      var next := Step(a, key, s, WriterMoves(t));
      ExclusiveKept(a, key, s, WriterMoves(t));
      RankFalls(a, key, t, s.shared, s.writers[t]);
      LockStays(a, key, s, t);
      var j := FinishOne(a, key, next, t);
      k := j + 1;
      assert Moves(t, k)[0] == WriterMoves(t) && Moves(t, k)[1..] == Moves(t, j);
    }
  }

  lemma LockStays(a: Aead, key: Bytes, s: System, t: nat)
    requires Exclusive(s) && t in s.writers && s.shared.writeMu in {None, Some(t)} && !s.writers[t].WDone?
    ensures Step(a, key, s, WriterMoves(t)).shared.writeMu in {None, Some(t)}
  {
  }

  ghost predicate AllDone(s: System, ts: set<nat>) {
    forall t :: t in ts && t in s.writers ==> s.writers[t].WDone?
  }

  lemma {:induction false} FinishSet(a: Aead, key: Bytes, s: System, ts: set<nat>) returns (es: seq<Event>)
    requires Exclusive(s) && s.shared.writeMu == None && ts <= s.writers.Keys
    requires AllDone(s, s.writers.Keys - ts)
    ensures AllDone(RunFrom(a, key, s, es), s.writers.Keys)
    ensures RunFrom(a, key, s, es).writers.Keys == s.writers.Keys && RunFrom(a, key, s, es).shared.writeMu == None
    decreases |ts|
  {
    if ts == {} {
      es := [];
    } else {
      var t :| t in ts;
      var k := FinishOne(a, key, s, t);
      var s' := RunFrom(a, key, s, Moves(t, k));
      var rest := FinishSet(a, key, s', ts - {t});
      es := Moves(t, k) + rest;
      RunFromAppend(a, key, s, Moves(t, k), rest);
    }
  }

  /** From every reachable state all Writes under way can run to their end, whatever the readers do. */
  lemma WritersFinish(a: Aead, key: Bytes, es: seq<Event>) returns (more: seq<Event>)
    ensures var s := Run(a, key, es + more);
            && s.shared.writeMu == None
            && s.writers.Keys == Run(a, key, es).writers.Keys
            && AllDone(s, s.writers.Keys)
  {
    var s := Run(a, key, es);
    RunKeeps(a, key, es);
    var first: seq<Event> := [];
    if s.shared.writeMu.Some? {
      var t := s.shared.writeMu.value;
      var k := FinishOne(a, key, s, t);
      first := Moves(t, k);
    }
    var s' := RunFrom(a, key, s, first);
    var rest := FinishSet(a, key, s', s'.writers.Keys);
    more := first + rest;
    RunFromAppend(a, key, s, first, rest);
    RunOn(a, key, es, more);
  }

  // ---------- readers ----------

  /** A reader that holds the lock and lacks bytes to go on. */
  predicate Starved(s: Shared, r: Caller) {
    || (r.RLocked? && s.readBuf == [] && |s.wire| < 4)
    || (r.RHeader? && |s.wire| < r.n)
  }

  function ReadRank(r: Caller): nat {
    match r
    case RWait(_) => 5
    case RLocked(_) => 4
    case RHeader(_, _) => 3
    case RFrame(_, _) => 2
    case RExit(_) => 1
    case RDone(_) => 0
  }

  /** Every other step brings a reader nearer to its end. */
  lemma ReadRankFalls(a: Aead, key: Bytes, t: nat, s: Shared, r: Caller)
    requires !r.RDone? && !Starved(s, r) && (r.RWait? ==> s.readMu == None)
    ensures ReadRank(CallerStep(a, key, t, s, r).pc) < ReadRank(r)
  {
  }

  lemma NoFrames(cs: seq<Bytes>)
    requires |FrameAll(cs)| < 4
    ensures cs == []
  {
  }

  /** A header taken off with no record unfinished has its payload on the wire. */
  lemma PayloadThere(a: Aead, key: Bytes, done: seq<Bytes>, n: nat, wire: Bytes, cap: nat, len: nat)
    requires WireOk(a, key, done, [], n, wire, RHeader(cap, len))
    ensures |wire| >= len
  {
    var flying := done[n..];
    var records := SealAll(a, key, n, flying);
    assert |BigEndian(len, 4) + wire| >= 4;
    assert FrameAll(records) + [] == FrameAll(records);
    assert flying != [];
    var c := Seal(a, key, n, flying[0]);
    FrontRecord(a, key, n, flying, []);
    SameLength(len, wire, c, FrameAll(SealAll(a, key, n + 1, flying[1..])) + []);
  }

  lemma NothingLeft(a: Aead, key: Bytes, s: Shared, w: Writer, r: Caller)
    requires SharedInv(a, key, s, w, r) && !Pending(w) && r.RLocked? && s.readBuf == [] && |s.wire| < 4
    ensures s.returned == s.stream
  {
    var flying := s.sealed[s.readSeq..];
    var records := SealAll(a, key, s.readSeq, flying);
    assert [] + s.wire == s.wire && FrameAll(records) + [] == FrameAll(records);
    NoFrames(records);
    assert s.sealed[..s.readSeq] == s.sealed;
    assert s.stream == Concat(s.sealed) && s.returned + s.readBuf == Concat(s.sealed[..s.readSeq]);
  }

  /**
   In every reachable state where no writer is half-way through a record, a reader that
   cannot go on has nothing left to read: all that was sealed has been returned.
   */
  lemma WaitsOnlyWhenDrained(a: Aead, key: Bytes, es: seq<Event>)
    ensures var s := Run(a, key, es);
            Starved(s.shared, ActiveCaller(s)) && !Pending(ActiveWriter(s)) ==> s.shared.returned == s.shared.stream
  {
    RunKeeps(a, key, es);
    var s := Run(a, key, es);
    var w, r := ActiveWriter(s), ActiveCaller(s);
    if Starved(s.shared, r) && !Pending(w) {
      if r.RHeader? {
        PayloadThere(a, key, s.shared.sealed, s.shared.readSeq, s.shared.wire, r.cap, r.n);
        assert false;
      }
      NothingLeft(a, key, s.shared, w, r);
    }
  }
}
