/** FS::read of FS.cpp run by several threads at once, against a torrent session that
    completes pieces and delivers alerts when it likes. Each step is one call into the
    session, one use of the mutex, or work that only the holder of the mutex can see; a
    have_piece with the read_piece that follows it is one step, as held pieces stay held. */
module ReadProtocol {
  import opened Bytes

  // ------------------------------------------------------------- the torrent

  /** One call of FS::read: `count` bytes at `offset` of a file that occupies `fileSize`
      bytes of the torrent from `fileStart` on. */
  datatype Req = Req(fileStart: nat, fileSize: nat, count: nat, offset: nat)

  datatype Config = Config(content: Bytes, pieceLength: nat, reqs: seq<Req>) {
    predicate Valid() {
      0 < pieceLength && forall t | 0 <= t < |reqs| :: reqs[t].fileStart + reqs[t].fileSize <= |content|
    }

    function NumPieces(): nat
      requires 0 < pieceLength
    {
      (|content| + pieceLength - 1) / pieceLength
    }
  }

  /** Where a piece begins, how long it is, and its bytes. */
  function PieceStart(c: Config, p: nat): nat { p * c.pieceLength }

  function PieceSize(c: Config, p: nat): int { Min(c.pieceLength, |c.content| - PieceStart(c, p)) }

  predicate IsPiece(c: Config, p: nat) { PieceStart(c, p) < |c.content| }

  function PieceData(c: Config, p: nat): Bytes
    requires IsPiece(c, p)
  {
    c.content[PieceStart(c, p)..PieceStart(c, p) + PieceSize(c, p)]
  }

  /** map_file: the piece of a file position, and the position within it. */
  function PieceOf(c: Config, q: Req, cur: nat): nat
    requires 0 < c.pieceLength
  {
    (q.fileStart + cur) / c.pieceLength
  }

  function Begin(c: Config, q: Req, cur: nat): nat
    requires 0 < c.pieceLength
  {
    (q.fileStart + cur) % c.pieceLength
  }

  /** The bytes a call has to return, and how many they are. */
  function Want(q: Req): nat {
    if q.offset >= q.fileSize then 0 else Min(q.count, q.fileSize - q.offset)
  }

  function Slice(c: Config, q: Req): Bytes
    requires q.fileStart + q.fileSize <= |c.content|
  {
    var file := c.content[q.fileStart..q.fileStart + q.fileSize];
    if q.offset >= q.fileSize then [] else file[q.offset..q.offset + Want(q)]
  }

  /** What one round of either loop reads from its piece. */
  function ReadSize(c: Config, q: Req, cur: nat, rem: nat): (n: int)
    requires c.Valid() && 0 < rem && cur + rem <= q.fileSize && q.fileStart + q.fileSize <= |c.content|
    ensures 1 <= n <= rem
    ensures IsPiece(c, PieceOf(c, q, cur))
    ensures PieceStart(c, PieceOf(c, q, cur)) + Begin(c, q, cur) == q.fileStart + cur
    ensures Begin(c, q, cur) + n <= PieceSize(c, PieceOf(c, q, cur))
  {
    var x := q.fileStart + cur;
    assert x == (x / c.pieceLength) * c.pieceLength + x % c.pieceLength;
    Min(PieceSize(c, PieceOf(c, q, cur)) - Begin(c, q, cur), rem)
  }

  /** The pieces both loops visit from a position on. */
  function Pieces(c: Config, q: Req, cur: nat, rem: nat): set<nat>
    requires c.Valid() && q.fileStart + q.fileSize <= |c.content| && (rem > 0 ==> cur + rem <= q.fileSize)
    decreases rem
  {
    if rem == 0 then {}
    else
      var n := ReadSize(c, q, cur, rem);
      {PieceOf(c, q, cur)} + Pieces(c, q, cur + n, rem - n)
  }

  // ------------------------------------------------------------------- states

  /** The program counter of one call. */
  datatype PC =
    | Idle                        // not started
    | Check                       // priority pass: loop test and have_piece
    | Raise                       // piece_priority(p, 7)
    | Lower                       // piece_priority(p - 1, 1)
    | Ahead                       // piece_priority(p + 1, 7), and on to the next piece
    | Acquire                     // fsmtx.lock()
    | Reissue(todo: set<nat>)     // read_piece for the required pieces that are held
    | Have                        // copy loop: loop test and have_piece
    | PollHave                    // get_piece_buffers while the piece is not held
    | Lookup                      // is the buffer there? if not, read_piece
    | PollBuffer                  // get_piece_buffers until it is
    | Release                     // fsmtx.unlock()
    | Finished

  datatype Reader = Reader(pc: PC, cur: nat, rem: nat, required: set<nat>, out: Bytes)

  datatype Alert = ReadPiece(piece: nat, data: Bytes) | Other

  /** `owed` are the pieces the session has been asked to read and has not yet posted an
      alert for; `asked` remembers every read_piece call. */
  datatype State = State(have: set<nat>, prio: map<nat, nat>, owed: multiset<nat>, queue: seq<Alert>,
                         buffers: map<nat, Bytes>, holder: Option<nat>, readers: seq<Reader>, asked: set<nat>)

  datatype Step =
    | Move(t: nat)                // a reader
    | Complete(p: nat)            // the session finishes a piece
    | Deliver(p: nat)             // the session posts the alert of a read
    | Noise                       // the session posts another alert

  predicate Critical(pc: PC) {
    pc.Reissue? || pc.Have? || pc.PollHave? || pc.Lookup? || pc.PollBuffer? || pc.Release?
  }

  /** get_piece_buffers: the popped alerts go into piece_buffer_map. */
  function Fill(buffers: map<nat, Bytes>, queue: seq<Alert>): map<nat, Bytes>
    decreases queue
  {
    if queue == [] then buffers
    else match queue[0]
      case ReadPiece(p, data) => Fill(buffers[p := data], queue[1..])
      case Other => Fill(buffers, queue[1..])
  }

  function Poll(s: State): State { s.(buffers := Fill(s.buffers, s.queue), queue := []) }

  /** read_piece(p) */
  function Ask(s: State, p: nat): State { s.(owed := s.owed + multiset{p}, asked := s.asked + {p}) }

  /** piece_priority(p, n) */
  function Prioritise(s: State, p: nat, n: nat): State { s.(prio := s.prio[p := n]) }

  function LowerBefore(s: State, p: nat): State {
    if p > 1 then Prioritise(s, p - 1, 1) else s
  }

  function RaiseAfter(c: Config, s: State, p: nat): State
    requires c.Valid()
  {
    if p < c.NumPieces() - 1 then Prioritise(s, p + 1, 7) else s
  }

  function Set(s: State, t: nat, r: Reader): State
    requires t < |s.readers|
  {
    s.(readers := s.readers[t := r])
  }

  /** Where the counters of a call can be; every reachable state has them there. */
  predicate InStep(q: Req, r: Reader) {
    (r.rem > 0 ==> r.cur + r.rem <= q.fileSize) &&
    (AtPiece(r.pc) ==> r.rem > 0)
  }

  /** The call is in the middle of a round of one of its loops. */
  predicate AtPiece(pc: PC) {
    pc.Raise? || pc.Lower? || pc.Ahead? || pc.PollHave? || pc.Lookup? || pc.PollBuffer?
  }

  predicate Enabled(c: Config, s: State, step: Step) {
    c.Valid() && |s.readers| == |c.reqs| &&
    match step
    case Move(t) =>
      t < |s.readers| && !s.readers[t].pc.Finished? && (s.readers[t].pc.Acquire? ==> s.holder.None?) &&
      InStep(c.reqs[t], s.readers[t])
    case Complete(p) => IsPiece(c, p)
    case Deliver(p) => p in s.owed && IsPiece(c, p)
    case Noise => true
  }

  /** The reader after the round of the priority pass over the piece at `cur`. */
  function NextPiece(c: Config, q: Req, r: Reader): Reader
    requires c.Valid() && q.fileStart + q.fileSize <= |c.content| && r.rem > 0 && InStep(q, r)
  {
    var n := ReadSize(c, q, r.cur, r.rem);
    r.(pc := Check, cur := r.cur + n, rem := r.rem - n)
  }

  function MoveReader(c: Config, s: State, t: nat): State
    requires Enabled(c, s, Move(t))
  {
    var q, r := c.reqs[t], s.readers[t];
    match r.pc
    case Idle =>
      if q.offset >= q.fileSize then Set(s, t, r.(pc := Finished))
      else Set(s, t, r.(pc := Check, cur := q.offset, rem := Want(q), required := {}))
    case Check =>
      if r.rem == 0 then Set(s, t, r.(pc := Acquire))
      else if PieceOf(c, q, r.cur) in s.have then Set(s, t, NextPiece(c, q, r))
      else Set(s, t, r.(pc := Raise, required := r.required + {PieceOf(c, q, r.cur)}))
    case Raise =>
      Set(Prioritise(s, PieceOf(c, q, r.cur), 7), t, r.(pc := Lower))
    case Lower =>
      Set(LowerBefore(s, PieceOf(c, q, r.cur)), t, r.(pc := Ahead))
    case Ahead =>
      Set(RaiseAfter(c, s, PieceOf(c, q, r.cur)), t, NextPiece(c, q, r))
    case Acquire =>
      Set(s.(holder := Some(t)), t, r.(pc := Reissue(r.required)))
    case Reissue(todo) =>
      if todo == {} then Set(s, t, r.(pc := Have, cur := q.offset, rem := Want(q)))
      else
        var p := Least(todo);
        Set(if p in s.have then Ask(s, p) else s, t, r.(pc := Reissue(todo - {p})))
    case Have =>
      if r.rem == 0 then Set(s, t, r.(pc := Release))
      else Set(s, t, r.(pc := if PieceOf(c, q, r.cur) in s.have then Lookup else PollHave))
    case PollHave =>
      Set(Poll(s), t, r.(pc := Have))
    case Lookup =>
      var p := PieceOf(c, q, r.cur);
      if p in s.buffers then Set(s, t, CopyPiece(c, q, r, s.buffers[p]))
      else Set(Ask(s, p), t, r.(pc := PollBuffer))
    case PollBuffer =>
      var s' := Poll(s);
      var p := PieceOf(c, q, r.cur);
      Set(s', t, if p in s'.buffers then CopyPiece(c, q, r, s'.buffers[p]) else r)
    case Release =>
      Set(s.(holder := None), t, r.(pc := Finished))
  }

  predicate IsLeast(p: nat, ps: set<nat>) { p in ps && forall x | x in ps :: p <= x }

  /** Iteration over a std::map goes in ascending order. */
  function Least(ps: set<nat>): (p: nat)
    requires ps != {}
    ensures IsLeast(p, ps)
  {
    LeastExists(ps);
    var p :| IsLeast(p, ps);
    assert forall x | IsLeast(x, ps) :: x == p;
    p
  }

  lemma {:induction false} LeastExists(ps: set<nat>)
    requires ps != {}
    ensures exists p :: IsLeast(p, ps)
    decreases |ps|
  {
    var p :| p in ps;
    if ps == {p} {
      assert IsLeast(p, ps);
    } else {
      assert ps == {p} + (ps - {p});
      LeastExists(ps - {p});
      var m :| IsLeast(m, ps - {p});
      assert IsLeast(if p < m then p else m, ps);
    }
  }

  /** The two memcpy calls and the end of the round of the copy loop. A buffer that is too
      short would be read beyond its end; the invariant excludes it. */
  function CopyPiece(c: Config, q: Req, r: Reader, buffer: Bytes): Reader
    requires c.Valid() && q.fileStart + q.fileSize <= |c.content| && r.rem > 0 && InStep(q, r)
  {
    var n := ReadSize(c, q, r.cur, r.rem);
    var b := Begin(c, q, r.cur);
    r.(pc := Have, cur := r.cur + n, rem := r.rem - n,
       out := r.out + if b + n <= |buffer| then buffer[b..b + n] else [])
  }

  function Apply(c: Config, s: State, step: Step): State
    requires Enabled(c, s, step)
  {
    match step
    case Move(t) => MoveReader(c, s, t)
    case Complete(p) => s.(have := s.have + {p})
    case Deliver(p) => s.(owed := s.owed - multiset{p}, queue := s.queue + [ReadPiece(p, PieceData(c, p))])
    case Noise => s.(queue := s.queue + [Other])
  }

  /** When init_bitfs has returned: pieces from 10 on have priority 0, and no call has begun. */
  predicate Initial(c: Config, s: State) {
    c.Valid() && |s.readers| == |c.reqs| &&
    (forall p | p in s.have :: IsPiece(c, p)) &&
    (forall p | 0 <= p < c.NumPieces() :: p in s.prio && (s.prio[p] == 0 <==> p >= 10)) &&
    s.owed == multiset{} && (forall i | 0 <= i < |s.queue| :: s.queue[i].Other?) &&
    s.buffers == map[] && s.holder.None? && s.asked == {} &&
    forall t | 0 <= t < |s.readers| :: s.readers[t].pc.Idle? && s.readers[t].rem == 0 && s.readers[t].out == []
  }

  /** The last loop of init_bitfs, on a session that has just added the torrent and so has
      a priority other than 0 for every piece. */
  method InitPriorities(numPieces: nat, added: map<nat, nat>) returns (prio: map<nat, nat>)
    requires forall p | 0 <= p < numPieces :: p in added && added[p] > 0
    ensures forall p | 0 <= p < numPieces :: p in prio && (prio[p] == 0 <==> p >= 10)
  {
    prio := added;
    var i := 10;
    while i < numPieces
      invariant 10 <= i && forall p | 0 <= p < numPieces :: p in prio && (prio[p] == 0 <==> 10 <= p < i)
    {
      prio := prio[i := 0];
      i := i + 1;
    }
  }

  predicate CanRun(c: Config, s: State, steps: seq<Step>)
    decreases |steps|
  {
    steps == [] || (Enabled(c, s, steps[0]) && CanRun(c, Apply(c, s, steps[0]), steps[1..]))
  }

  function RunSteps(c: Config, s: State, steps: seq<Step>): State
    requires CanRun(c, s, steps)
    decreases |steps|
  {
    if steps == [] then s else RunSteps(c, Apply(c, s, steps[0]), steps[1..])
  }
}
