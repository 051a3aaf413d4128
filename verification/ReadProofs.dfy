/** What every step of the read protocol keeps, and what follows for whole runs. */
module ReadProofs {
  import opened Bytes
  import opened ReadProtocol

  // --------------------------------------------------------------- invariant

  /** The piece is held, or the session still has a reason to download it. */
  predicate Wanted(s: State, p: nat) {
    p in s.have || (p in s.prio && s.prio[p] > 0)
  }

  predicate InQueue(queue: seq<Alert>, p: nat) {
    exists i | 0 <= i < |queue| :: queue[i].ReadPiece? && queue[i].piece == p
  }

  /** Every piece the call will need is wanted. */
  predicate Covered(c: Config, s: State, q: Req)
    requires c.Valid() && q.fileStart + q.fileSize <= |c.content|
  {
    forall p | p in Pieces(c, q, q.offset, Want(q)) :: Wanted(s, p)
  }

  predicate Counters(q: Req, r: Reader) {
    q.offset <= r.cur && r.cur - q.offset + r.rem == Want(q) && q.offset < q.fileSize
  }

  predicate InPass(pc: PC) { pc.Check? || pc.Raise? || pc.Lower? || pc.Ahead? }

  predicate InCopy(pc: PC) { pc.Have? || pc.PollHave? || pc.Lookup? || pc.PollBuffer? }

  predicate PassInv(c: Config, s: State, q: Req, r: Reader)
    requires c.Valid() && q.fileStart + q.fileSize <= |c.content| && InStep(q, r)
  {
    var run := Pieces(c, q, q.offset, Want(q));
    Counters(q, r) && r.out == [] && r.required <= run && Pieces(c, q, r.cur, r.rem) <= run &&
    (forall p | p in run :: p in Pieces(c, q, r.cur, r.rem) || Wanted(s, p)) &&
    (r.pc.Lower? || r.pc.Ahead? ==> Wanted(s, PieceOf(c, q, r.cur)))
  }

  predicate WaitInv(c: Config, s: State, q: Req, r: Reader)
    requires c.Valid() && q.fileStart + q.fileSize <= |c.content|
  {
    var run := Pieces(c, q, q.offset, Want(q));
    q.offset < q.fileSize && Covered(c, s, q) && r.out == [] && r.required <= run &&
    (r.pc.Reissue? ==> r.pc.todo <= run)
  }

  predicate CopyInv(c: Config, s: State, q: Req, r: Reader)
    requires c.Valid() && q.fileStart + q.fileSize <= |c.content| && InStep(q, r)
  {
    var run := Pieces(c, q, q.offset, Want(q));
    Counters(q, r) && Covered(c, s, q) && Pieces(c, q, r.cur, r.rem) <= run &&
    r.out == Slice(c, q)[..r.cur - q.offset] &&
    (r.pc.Lookup? || r.pc.PollBuffer? ==> PieceOf(c, q, r.cur) in s.have) &&
    (r.pc.PollBuffer? ==> PieceOf(c, q, r.cur) in s.asked)
  }

  predicate ReaderInv(c: Config, s: State, q: Req, r: Reader)
    requires c.Valid() && q.fileStart + q.fileSize <= |c.content|
  {
    InStep(q, r) &&
    (r.pc.Idle? ==> r.out == []) &&
    (InPass(r.pc) ==> PassInv(c, s, q, r)) &&
    (r.pc.Acquire? || r.pc.Reissue? ==> WaitInv(c, s, q, r)) &&
    (InCopy(r.pc) ==> CopyInv(c, s, q, r)) &&
    (r.pc.Release? || r.pc.Finished? ==> r.out == Slice(c, q))
  }

  ghost predicate SessionInv(c: Config, s: State) {
    (forall p | p in s.buffers :: IsPiece(c, p) && s.buffers[p] == PieceData(c, p)) &&
    (forall i | 0 <= i < |s.queue| :: AlertOk(c, s, s.queue[i])) &&
    (forall p | p in s.owed :: p in s.have) &&
    (forall p | p in s.have :: IsPiece(c, p)) &&
    (forall p | p in s.asked :: p in s.have && (p in s.buffers || InQueue(s.queue, p) || p in s.owed))
  }

  predicate AlertOk(c: Config, s: State, a: Alert) {
    a.ReadPiece? ==> IsPiece(c, a.piece) && a.data == PieceData(c, a.piece) && a.piece in s.have
  }

  /** Only the holder of the mutex is between lock and unlock. */
  predicate MutexInv(s: State) {
    (s.holder.Some? ==> s.holder.value < |s.readers|) &&
    forall t | 0 <= t < |s.readers| :: Critical(s.readers[t].pc) <==> s.holder == Some(t)
  }

  ghost predicate Inv(c: Config, s: State) {
    c.Valid() && |s.readers| == |c.reqs| && SessionInv(c, s) && MutexInv(s) &&
    forall t | 0 <= t < |s.readers| :: ReaderInv(c, s, c.reqs[t], s.readers[t])
  }

  // ------------------------------------------------------------------ frames

  /** The session only moves forward. */
  ghost predicate Grows(s: State, s': State) {
    s.have <= s'.have && s.asked <= s'.asked && forall p | Wanted(s, p) :: Wanted(s', p)
  }

  lemma ReaderFrame(c: Config, s: State, s': State, q: Req, r: Reader)
    requires c.Valid() && q.fileStart + q.fileSize <= |c.content|
    requires ReaderInv(c, s, q, r) && Grows(s, s')
    ensures ReaderInv(c, s', q, r)
  {
  }

  lemma InitialInv(c: Config, s: State)
    requires Initial(c, s)
    ensures Inv(c, s)
  {
  }

  // --------------------------------------------------------- session's steps

  lemma {:induction false} FillIs(c: Config, s: State, buffers: map<nat, Bytes>, queue: seq<Alert>)
    requires forall p | p in buffers :: IsPiece(c, p) && buffers[p] == PieceData(c, p)
    requires forall i | 0 <= i < |queue| :: AlertOk(c, s, queue[i])
    ensures var filled := Fill(buffers, queue);
            (forall p | p in filled :: IsPiece(c, p) && filled[p] == PieceData(c, p)) &&
            (forall p :: p in filled <==> p in buffers || InQueue(queue, p))
    decreases queue
  {
    if queue == [] {
    } else {
      var rest := queue[1..];
      var buffers' := if queue[0].ReadPiece? then buffers[queue[0].piece := queue[0].data] else buffers;
      assert AlertOk(c, s, queue[0]);
      FillIs(c, s, buffers', rest);
      forall p ensures InQueue(queue, p) <==> (queue[0].ReadPiece? && queue[0].piece == p) || InQueue(rest, p) {
        QueueHead(queue, p);
      }
    }
  }

  lemma QueueHead(queue: seq<Alert>, p: nat)
    requires queue != []
    ensures InQueue(queue, p) <==> (queue[0].ReadPiece? && queue[0].piece == p) || InQueue(queue[1..], p)
  {
    if InQueue(queue, p) {
      var i :| 0 <= i < |queue| && queue[i].ReadPiece? && queue[i].piece == p;
      if i > 0 {
        assert queue[1..][i - 1] == queue[i];
      }
    }
    if InQueue(queue[1..], p) {
      var i :| 0 <= i < |queue[1..]| && queue[1..][i].ReadPiece? && queue[1..][i].piece == p;
      assert queue[i + 1] == queue[1..][i];
    }
  }

  /** Whoever polls, nothing that was asked for is lost. */
  lemma PollKeeps(c: Config, s: State)
    requires SessionInv(c, s)
    ensures SessionInv(c, Poll(s)) && Grows(s, Poll(s))
    ensures forall p | p in s.asked :: p in Poll(s).buffers || p in s.owed
  {
    FillIs(c, s, s.buffers, s.queue);
  }

  lemma AskKeeps(c: Config, s: State, p: nat)
    requires SessionInv(c, s) && p in s.have
    ensures SessionInv(c, Ask(s, p)) && Grows(s, Ask(s, p))
  {
  }

  lemma PrioritiseKeeps(c: Config, s: State, p: nat, n: nat)
    requires SessionInv(c, s) && n > 0
    ensures SessionInv(c, Prioritise(s, p, n)) && Grows(s, Prioritise(s, p, n)) && Wanted(Prioritise(s, p, n), p)
  {
  }

  lemma LowerRaiseKeep(c: Config, s: State, p: nat)
    requires c.Valid() && SessionInv(c, s)
    ensures SessionInv(c, LowerBefore(s, p)) && Grows(s, LowerBefore(s, p))
    ensures SessionInv(c, RaiseAfter(c, s, p)) && Grows(s, RaiseAfter(c, s, p))
    ensures LowerBefore(s, p).readers == s.readers == RaiseAfter(c, s, p).readers
  {
    if p > 1 {
      PrioritiseKeeps(c, s, p - 1, 1);
    }
    PrioritiseKeeps(c, s, p + 1, 7);
  }

  lemma QueueMore(queue: seq<Alert>, a: Alert, p: nat)
    ensures InQueue(queue, p) ==> InQueue(queue + [a], p)
    ensures a.ReadPiece? && a.piece == p ==> InQueue(queue + [a], p)
  {
    if InQueue(queue, p) {
      var i :| 0 <= i < |queue| && queue[i].ReadPiece? && queue[i].piece == p;
      assert (queue + [a])[i] == queue[i];
    }
    assert (queue + [a])[|queue|] == a;
  }

  lemma SessionStepKeeps(c: Config, s: State, step: Step)
    requires Inv(c, s) && Enabled(c, s, step) && !step.Move?
    ensures Inv(c, Apply(c, s, step))
  {
    var s' := Apply(c, s, step);
    match step {
      case Complete(p) =>
      case Deliver(p) =>
        var a := ReadPiece(p, PieceData(c, p));
        forall x | x in s.asked ensures x in s'.buffers || InQueue(s'.queue, x) || x in s'.owed {
          QueueMore(s.queue, a, x);
        }
      case Noise =>
        forall x | x in s.asked ensures x in s'.buffers || InQueue(s'.queue, x) || x in s'.owed {
          QueueMore(s.queue, Other, x);
        }
    }
    forall t | 0 <= t < |s'.readers| ensures ReaderInv(c, s', c.reqs[t], s'.readers[t]) {
      ReaderFrame(c, s, s', c.reqs[t], s.readers[t]);
    }
  }

  // --------------------------------------------------------- readers' steps

  /** What remains to be shown when reader t has moved. */
  lemma ReaderMoved(c: Config, s: State, s': State, t: nat)
    requires Inv(c, s) && t < |s.readers| == |s'.readers|
    requires SessionInv(c, s') && Grows(s, s')
    requires forall u | 0 <= u < |s.readers| && u != t :: s'.readers[u] == s.readers[u]
    requires ReaderInv(c, s', c.reqs[t], s'.readers[t])
    requires MutexInv(s')
    ensures Inv(c, s')
  {
    forall u | 0 <= u < |s'.readers| ensures ReaderInv(c, s', c.reqs[u], s'.readers[u]) {
      if u != t {
        ReaderFrame(c, s, s', c.reqs[u], s.readers[u]);
      }
    }
  }

  /** The round of the priority pass over one piece. */
  lemma PassAdvances(c: Config, s: State, q: Req, r: Reader)
    requires c.Valid() && q.fileStart + q.fileSize <= |c.content| && r.rem > 0 && InStep(q, r)
    requires PassInv(c, s, q, r) && Wanted(s, PieceOf(c, q, r.cur))
    ensures InStep(q, NextPiece(c, q, r)) && PassInv(c, s, q, NextPiece(c, q, r))
  {
  }

  /** A reader's own counters and buffer in its next state, and the session's. */
  ghost predicate Moved(c: Config, s: State, s': State, t: nat)
    requires c.Valid() && t < |s.readers| == |c.reqs|
  {
    |s'.readers| == |s.readers| && SessionInv(c, s') && Grows(s, s') &&
    ReaderInv(c, s', c.reqs[t], s'.readers[t])
  }

  ghost predicate Ready(c: Config, s: State, t: nat) {
    c.Valid() && t < |s.readers| == |c.reqs| && SessionInv(c, s) && ReaderInv(c, s, c.reqs[t], s.readers[t])
  }

  lemma SetMoves(c: Config, s: State, s1: State, s': State, t: nat, r: Reader)
    requires c.Valid() && t < |s.readers| == |s1.readers| == |c.reqs|
    requires SessionInv(c, s1) && Grows(s, s1) && ReaderInv(c, s1, c.reqs[t], r) && s' == Set(s1, t, r)
    ensures Moved(c, s, s', t)
  {
    ReaderFrame(c, s1, s', c.reqs[t], r);
  }

  lemma StartMoves(c: Config, s: State, t: nat)
    requires Ready(c, s, t) && Enabled(c, s, Move(t)) && s.readers[t].pc.Idle?
    ensures Moved(c, s, MoveReader(c, s, t), t)
  {
    var q, r := c.reqs[t], s.readers[t];
    SetMoves(c, s, s, MoveReader(c, s, t), t, if q.offset >= q.fileSize then r.(pc := Finished)
                         else r.(pc := Check, cur := q.offset, rem := Want(q), required := {}));
  }

  lemma CheckMoves(c: Config, s: State, t: nat)
    requires Ready(c, s, t) && Enabled(c, s, Move(t)) && s.readers[t].pc.Check?
    ensures Moved(c, s, MoveReader(c, s, t), t)
  {
    var q, r := c.reqs[t], s.readers[t];
    if r.rem == 0 {
      SetMoves(c, s, s, MoveReader(c, s, t), t, r.(pc := Acquire));
    } else if PieceOf(c, q, r.cur) in s.have {
      PassAdvances(c, s, q, r);
      SetMoves(c, s, s, MoveReader(c, s, t), t, NextPiece(c, q, r));
    } else {
      assert PieceOf(c, q, r.cur) in Pieces(c, q, r.cur, r.rem);
      SetMoves(c, s, s, MoveReader(c, s, t), t, r.(pc := Raise, required := r.required + {PieceOf(c, q, r.cur)}));
    }
  }

  lemma RaiseMoves(c: Config, s: State, t: nat)
    requires Ready(c, s, t) && Enabled(c, s, Move(t)) && s.readers[t].pc.Raise?
    ensures Moved(c, s, MoveReader(c, s, t), t)
  {
    var q, r, p := c.reqs[t], s.readers[t], PieceOf(c, c.reqs[t], s.readers[t].cur);
    PrioritiseKeeps(c, s, p, 7);
    ReaderFrame(c, s, Prioritise(s, p, 7), q, r);
    SetMoves(c, s, Prioritise(s, p, 7), MoveReader(c, s, t), t, r.(pc := Lower));
  }

  lemma LowerMoves(c: Config, s: State, t: nat)
    requires Ready(c, s, t) && Enabled(c, s, Move(t)) && s.readers[t].pc.Lower?
    ensures Moved(c, s, MoveReader(c, s, t), t)
  {
    var q, r, p := c.reqs[t], s.readers[t], PieceOf(c, c.reqs[t], s.readers[t].cur);
    LowerRaiseKeep(c, s, p);
    ReaderFrame(c, s, LowerBefore(s, p), q, r);
    SetMoves(c, s, LowerBefore(s, p), MoveReader(c, s, t), t, r.(pc := Ahead));
  }

  lemma AheadMoves(c: Config, s: State, t: nat)
    requires Ready(c, s, t) && Enabled(c, s, Move(t)) && s.readers[t].pc.Ahead?
    ensures Moved(c, s, MoveReader(c, s, t), t)
  {
    var q, r, p := c.reqs[t], s.readers[t], PieceOf(c, c.reqs[t], s.readers[t].cur);
    PassAdvances(c, s, q, r);
    LowerRaiseKeep(c, s, p);
    ReaderFrame(c, s, RaiseAfter(c, s, p), q, NextPiece(c, q, r));
    SetMoves(c, s, RaiseAfter(c, s, p), MoveReader(c, s, t), t, NextPiece(c, q, r));
  }

  lemma AcquireMoves(c: Config, s: State, t: nat)
    requires Ready(c, s, t) && Enabled(c, s, Move(t)) && s.readers[t].pc.Acquire?
    ensures Moved(c, s, MoveReader(c, s, t), t)
  {
    var q, r := c.reqs[t], s.readers[t];
    ReaderFrame(c, s, s.(holder := Some(t)), q, r);
    SetMoves(c, s, s.(holder := Some(t)), MoveReader(c, s, t), t, r.(pc := Reissue(r.required)));
  }

  lemma ReleaseMoves(c: Config, s: State, t: nat)
    requires Ready(c, s, t) && Enabled(c, s, Move(t)) && s.readers[t].pc.Release?
    ensures Moved(c, s, MoveReader(c, s, t), t)
  {
    var q, r := c.reqs[t], s.readers[t];
    ReaderFrame(c, s, s.(holder := None), q, r);
    SetMoves(c, s, s.(holder := None), MoveReader(c, s, t), t, r.(pc := Finished));
  }

  lemma ReissueMoves(c: Config, s: State, t: nat)
    requires Ready(c, s, t) && Enabled(c, s, Move(t)) && s.readers[t].pc.Reissue?
    ensures Moved(c, s, MoveReader(c, s, t), t)
  {
    var q, r, todo := c.reqs[t], s.readers[t], s.readers[t].pc.todo;
    if todo == {} {
      SetMoves(c, s, s, MoveReader(c, s, t), t, r.(pc := Have, cur := q.offset, rem := Want(q)));
    } else {
      var p := Least(todo);
      var s1 := if p in s.have then Ask(s, p) else s;
      if p in s.have {
        AskKeeps(c, s, p);
      }
      ReaderFrame(c, s, s1, q, r);
      SetMoves(c, s, s1, MoveReader(c, s, t), t, r.(pc := Reissue(todo - {p})));
    }
  }

  lemma SliceIs(c: Config, q: Req)
    requires q.fileStart + q.fileSize <= |c.content| && q.offset < q.fileSize
    ensures Slice(c, q) == c.content[q.fileStart + q.offset..q.fileStart + q.offset + Want(q)]
  {
    PieceSlice(c.content, q.fileStart, q.fileSize, q.offset, Want(q));
  }

  lemma SliceExtends(x: Bytes, a: nat, b: nat, k: nat, n: nat)
    requires a <= b <= |x| && a + k + n <= b
    ensures x[a..b][..k] + x[a + k..a + k + n] == x[a..b][..k + n]
  {
  }

  lemma PieceSlice(x: Bytes, start: nat, size: nat, b: nat, n: nat)
    requires start + size <= |x| && b + n <= size
    ensures x[start..start + size][b..b + n] == x[start + b..start + b + n]
  {
    var y, z := x[start..start + size][b..b + n], x[start + b..start + b + n];
    assert |y| == |z| && forall i | 0 <= i < n :: y[i] == z[i];
  }

  /** What one round copies are the next bytes of the slice. */
  lemma RoundBytes(c: Config, q: Req, r: Reader)
    requires c.Valid() && q.fileStart + q.fileSize <= |c.content| && r.rem > 0 && InStep(q, r) && Counters(q, r)
    ensures var p, b, n := PieceOf(c, q, r.cur), Begin(c, q, r.cur), ReadSize(c, q, r.cur, r.rem);
            var k := r.cur - q.offset;
            b + n <= |PieceData(c, p)| && k + n <= |Slice(c, q)| &&
            Slice(c, q)[..k] + PieceData(c, p)[b..b + n] == Slice(c, q)[..k + n]
  {
    var p, b, n := PieceOf(c, q, r.cur), Begin(c, q, r.cur), ReadSize(c, q, r.cur, r.rem);
    assert PieceStart(c, p) + b == q.fileStart + r.cur;
    PieceSlice(c.content, PieceStart(c, p), PieceSize(c, p), b, n);
    SliceIs(c, q);
    SliceExtends(c.content, q.fileStart + q.offset, q.fileStart + q.offset + Want(q), r.cur - q.offset, n);
  }

  /** One round of the copy loop appends the next bytes of the slice. */
  lemma CopyAppends(c: Config, s: State, q: Req, r: Reader)
    requires c.Valid() && q.fileStart + q.fileSize <= |c.content| && r.rem > 0 && InStep(q, r)
    requires CopyInv(c, s, q, r)
    ensures var r' := CopyPiece(c, q, r, PieceData(c, PieceOf(c, q, r.cur)));
            InStep(q, r') && CopyInv(c, s, q, r') && r'.pc.Have? && r'.rem < r.rem
  {
    RoundBytes(c, q, r);
  }

  lemma HaveMoves(c: Config, s: State, t: nat)
    requires Ready(c, s, t) && Enabled(c, s, Move(t)) && s.readers[t].pc.Have?
    ensures Moved(c, s, MoveReader(c, s, t), t)
  {
    var q, r := c.reqs[t], s.readers[t];
    if r.rem == 0 {
      assert Slice(c, q)[..r.cur - q.offset] == Slice(c, q);
      SetMoves(c, s, s, MoveReader(c, s, t), t, r.(pc := Release));
    } else {
      SetMoves(c, s, s, MoveReader(c, s, t), t, r.(pc := if PieceOf(c, q, r.cur) in s.have then Lookup else PollHave));
    }
  }

  lemma PollHaveMoves(c: Config, s: State, t: nat)
    requires Ready(c, s, t) && Enabled(c, s, Move(t)) && s.readers[t].pc.PollHave?
    ensures Moved(c, s, MoveReader(c, s, t), t)
  {
    var q, r := c.reqs[t], s.readers[t];
    PollKeeps(c, s);
    ReaderFrame(c, s, Poll(s), q, r);
    SetMoves(c, s, Poll(s), MoveReader(c, s, t), t, r.(pc := Have));
  }

  /** A round of the copy loop ends, the buffers being those of s1. */
  lemma CopyMoves(c: Config, s: State, s1: State, s': State, t: nat)
    requires Ready(c, s, t) && |s1.readers| == |s.readers| && s1.readers[t] == s.readers[t]
    requires SessionInv(c, s1) && Grows(s, s1) && InCopy(s.readers[t].pc) && s.readers[t].rem > 0
    requires var p := PieceOf(c, c.reqs[t], s.readers[t].cur);
             p in s1.buffers && s' == Set(s1, t, CopyPiece(c, c.reqs[t], s.readers[t], s1.buffers[p]))
    ensures Moved(c, s, s', t)
  {
    var q, r := c.reqs[t], s.readers[t];
    var p := PieceOf(c, q, r.cur);
    ReaderFrame(c, s, s1, q, r);
    CopyAppends(c, s1, q, r);
    SetMoves(c, s, s1, s', t, CopyPiece(c, q, r, s1.buffers[p]));
  }

  lemma LookupMoves(c: Config, s: State, t: nat)
    requires Ready(c, s, t) && Enabled(c, s, Move(t)) && s.readers[t].pc.Lookup?
    ensures Moved(c, s, MoveReader(c, s, t), t)
  {
    var q, r, p := c.reqs[t], s.readers[t], PieceOf(c, c.reqs[t], s.readers[t].cur);
    if p in s.buffers {
      CopyMoves(c, s, s, MoveReader(c, s, t), t);
    } else {
      AskKeeps(c, s, p);
      ReaderFrame(c, s, Ask(s, p), q, r);
      SetMoves(c, s, Ask(s, p), MoveReader(c, s, t), t, r.(pc := PollBuffer));
    }
  }

  lemma PollBufferMoves(c: Config, s: State, t: nat)
    requires Ready(c, s, t) && Enabled(c, s, Move(t)) && s.readers[t].pc.PollBuffer?
    ensures Moved(c, s, MoveReader(c, s, t), t)
  {
    var q, r, p := c.reqs[t], s.readers[t], PieceOf(c, c.reqs[t], s.readers[t].cur);
    PollKeeps(c, s);
    if p in Poll(s).buffers {
      CopyMoves(c, s, Poll(s), MoveReader(c, s, t), t);
    } else {
      ReaderFrame(c, s, Poll(s), q, r);
      SetMoves(c, s, Poll(s), MoveReader(c, s, t), t, r);
    }
  }

  lemma ReaderMoves(c: Config, s: State, t: nat)
    requires Ready(c, s, t) && Enabled(c, s, Move(t))
    ensures Moved(c, s, MoveReader(c, s, t), t)
  {
    match s.readers[t].pc {
      case Idle => StartMoves(c, s, t);
      case Check => CheckMoves(c, s, t);
      case Raise => RaiseMoves(c, s, t);
      case Lower => LowerMoves(c, s, t);
      case Ahead => AheadMoves(c, s, t);
      case Acquire => AcquireMoves(c, s, t);
      case Reissue(_) => ReissueMoves(c, s, t);
      case Have => HaveMoves(c, s, t);
      case PollHave => PollHaveMoves(c, s, t);
      case Lookup => LookupMoves(c, s, t);
      case PollBuffer => PollBufferMoves(c, s, t);
      case Release => ReleaseMoves(c, s, t);
    }
  }

  /** The mutex changes hands only at lock and unlock. */
  lemma MutexMoves(c: Config, s: State, t: nat)
    requires MutexInv(s) && Enabled(c, s, Move(t))
    ensures var s' := MoveReader(c, s, t);
            MutexInv(s') && |s'.readers| == |s.readers| &&
            forall u | 0 <= u < |s.readers| && u != t :: s'.readers[u] == s.readers[u]
  {
    HolderMoves(c, s, t);
  }

  lemma HolderMoves(c: Config, s: State, t: nat)
    requires Enabled(c, s, Move(t)) && (Critical(s.readers[t].pc) <==> s.holder == Some(t))
    ensures var s' := MoveReader(c, s, t);
            s'.readers == s.readers[t := s'.readers[t]] &&
            s'.holder == (if s.readers[t].pc.Acquire? then Some(t)
                          else if s.readers[t].pc.Release? then None else s.holder) &&
            (Critical(s'.readers[t].pc) <==> s'.holder == Some(t))
  {
    PcMoves(c, s, t);
  }

  /** The priority pass stays outside the critical section. */
  lemma PassPc(c: Config, s: State, t: nat)
    requires Enabled(c, s, Move(t)) && (s.readers[t].pc.Idle? || InPass(s.readers[t].pc))
    ensures !Critical(MoveReader(c, s, t).readers[t].pc)
  {
  }

  /** The copy loop stays within it. */
  lemma CopyPc(c: Config, s: State, t: nat)
    requires Enabled(c, s, Move(t)) && (s.readers[t].pc.Reissue? || InCopy(s.readers[t].pc))
    ensures Critical(MoveReader(c, s, t).readers[t].pc)
  {
  }

  /** Which steps enter and leave the critical section. */
  lemma PcMoves(c: Config, s: State, t: nat)
    requires Enabled(c, s, Move(t))
    ensures var pc := MoveReader(c, s, t).readers[t].pc;
            Critical(pc) <==> s.readers[t].pc.Acquire? || (Critical(s.readers[t].pc) && !s.readers[t].pc.Release?)
  {
    var pc := s.readers[t].pc;
    if pc.Idle? || InPass(pc) {
      PassPc(c, s, t);
    } else if pc.Reissue? || InCopy(pc) {
      CopyPc(c, s, t);
    }
  }

  /** Every step of every reader and of the session keeps the invariant. */
  lemma StepKeeps(c: Config, s: State, step: Step)
    requires Inv(c, s) && Enabled(c, s, step)
    ensures Inv(c, Apply(c, s, step))
  {
    match step {
      case Move(t) =>
        assert Ready(c, s, t);
        ReaderMoves(c, s, t);
        MutexMoves(c, s, t);
        ReaderMoved(c, s, MoveReader(c, s, t), t);
      case _ => SessionStepKeeps(c, s, step);
    }
  }

  lemma {:induction false} RunKeeps(c: Config, s: State, steps: seq<Step>)
    requires Inv(c, s) && CanRun(c, s, steps)
    ensures Inv(c, RunSteps(c, s, steps))
    decreases |steps|
  {
    if steps == [] {
    } else {
      StepKeeps(c, s, steps[0]);
      RunKeeps(c, Apply(c, s, steps[0]), steps[1..]);
    }
  }
}
