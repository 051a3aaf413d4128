/** FS::read over whole runs: what finished calls have returned, what is never lost, and
    that every call can always be brought to its end. */
module ReadTheorems {
  import opened Bytes
  import opened ReadProtocol
  import opened ReadProofs

  // ------------------------------------------------------------------ safety

  /** After init_bitfs, under any interleaving of readers, completed pieces and delivered
      alerts, a finished read has returned exactly its slice of the file. */
  lemma FinishedReadsAreSlices(c: Config, s: State, steps: seq<Step>, t: nat)
    requires Initial(c, s) && CanRun(c, s, steps) && t < |c.reqs|
    ensures var end := RunSteps(c, s, steps);
            |end.readers| == |c.reqs| &&
            (end.readers[t].pc.Finished? ==>
               end.readers[t].out == Slice(c, c.reqs[t]) && |end.readers[t].out| == Want(c.reqs[t]))
  {
    InitialInv(c, s);
    RunKeeps(c, s, steps);
    var end := RunSteps(c, s, steps);
    assert ReaderInv(c, end, c.reqs[t], end.readers[t]);
  }

  /** In the numbers of the call: a finished read has returned as many bytes as it was asked
      for, or as there are from its offset on, and the i-th is byte offset + i of the file. */
  lemma FinishedReadsReturn(c: Config, s: State, steps: seq<Step>, t: nat)
    requires Initial(c, s) && CanRun(c, s, steps) && t < |c.reqs|
    requires |RunSteps(c, s, steps).readers| == |c.reqs| && RunSteps(c, s, steps).readers[t].pc.Finished?
    ensures var q, out := c.reqs[t], RunSteps(c, s, steps).readers[t].out;
            |out| == (if q.offset >= q.fileSize then 0
                      else if q.count <= q.fileSize - q.offset then q.count
                      else q.fileSize - q.offset) &&
            (forall i | 0 <= i < |out| ::
               q.fileStart + q.offset + i < |c.content| && out[i] == c.content[q.fileStart + q.offset + i])
  {
    FinishedReadsAreSlices(c, s, steps, t);
    InitialInv(c, s);
    var q := c.reqs[t];
    if q.offset < q.fileSize {
      SliceIs(c, q);
    }
  }

  /** In every reachable state at most one call is between lock and unlock; a piece is only
      read once it is held; and whatever was asked of the session is in the map, or in the
      alert queue, or still to be posted. */
  lemma NothingIsLost(c: Config, s: State, steps: seq<Step>)
    requires Initial(c, s) && CanRun(c, s, steps)
    ensures var end := RunSteps(c, s, steps);
            (forall t, u | 0 <= t < u < |end.readers| ::
               !(Critical(end.readers[t].pc) && Critical(end.readers[u].pc))) &&
            end.asked <= end.have &&
            (forall p | p in end.asked :: p in end.buffers || InQueue(end.queue, p) || p in end.owed) &&
            (forall p | p in end.buffers :: IsPiece(c, p) && end.buffers[p] == PieceData(c, p))
  {
    InitialInv(c, s);
    RunKeeps(c, s, steps);
  }

  predicate PassIsOver(pc: PC) { pc.Acquire? || pc.Reissue? || InCopy(pc) }

  /** From the end of a call's priority pass on, every piece that it will copy is held or
      has a priority other than 0, whatever the other calls do to the priorities. */
  lemma NeededPiecesStayWanted(c: Config, s: State, steps: seq<Step>, t: nat, p: nat)
    requires Initial(c, s) && CanRun(c, s, steps) && t < |c.reqs|
    requires |RunSteps(c, s, steps).readers| == |c.reqs| && PassIsOver(RunSteps(c, s, steps).readers[t].pc)
    requires var q := c.reqs[t];
             Want(q) > 0 && PieceOf(c, q, q.offset) <= p <= PieceOf(c, q, q.offset + Want(q) - 1)
    ensures Wanted(RunSteps(c, s, steps), p)
  {
    InitialInv(c, s);
    RunKeeps(c, s, steps);
    var end, q := RunSteps(c, s, steps), c.reqs[t];
    assert ReaderInv(c, end, q, end.readers[t]);
    PiecesAreConsecutive(c, q, q.offset, Want(q), p);
  }

  /** Both loops visit the consecutive run of pieces that the bytes to be read lie in. */
  lemma {:induction false} PiecesAreConsecutive(c: Config, q: Req, cur: nat, rem: nat, p: nat)
    requires c.Valid() && q.fileStart + q.fileSize <= |c.content| && (rem > 0 ==> cur + rem <= q.fileSize)
    ensures p in Pieces(c, q, cur, rem) <==>
            rem > 0 && PieceOf(c, q, cur) <= p <= PieceOf(c, q, cur + rem - 1)
    decreases rem
  {
    if rem == 0 {
    } else {
      var n := ReadSize(c, q, cur, rem);
      PiecesAreConsecutive(c, q, cur + n, rem - n, p);
      RoundInPiece(c, q, cur, rem);
    }
  }

  /** A round reads to the end of its piece or to the end of the bytes to be read. */
  lemma RoundInPiece(c: Config, q: Req, cur: nat, rem: nat)
    requires c.Valid() && q.fileStart + q.fileSize <= |c.content| && rem > 0 && cur + rem <= q.fileSize
    ensures var n := ReadSize(c, q, cur, rem);
            if n == rem then PieceOf(c, q, cur + rem - 1) == PieceOf(c, q, cur)
            else PieceOf(c, q, cur + n) == PieceOf(c, q, cur) + 1 <= PieceOf(c, q, cur + rem - 1)
  {
    var n, first := ReadSize(c, q, cur, rem), PieceOf(c, q, cur);
    assert PieceStart(c, first + 1) == PieceStart(c, first) + c.pieceLength;
    if n == rem {
      InPiece(c, q, cur + rem - 1, first);
    } else {
      InPiece(c, q, cur + n, first + 1);
      InLaterPiece(c, q, cur + n, cur + rem - 1);
    }
  }

  lemma InPiece(c: Config, q: Req, cur: nat, p: nat)
    requires 0 < c.pieceLength && PieceStart(c, p) <= q.fileStart + cur < PieceStart(c, p) + c.pieceLength
    ensures PieceOf(c, q, cur) == p
  {
    var x, y := q.fileStart + cur, PieceOf(c, q, cur);
    assert x == y * c.pieceLength + x % c.pieceLength;
    assert (y + 1) * c.pieceLength == y * c.pieceLength + c.pieceLength;
    assert (p + 1) * c.pieceLength == p * c.pieceLength + c.pieceLength;
    if y < p {
      Multiples(y + 1, p, c.pieceLength);
    }
    if y > p {
      Multiples(p + 1, y, c.pieceLength);
    }
  }

  lemma InLaterPiece(c: Config, q: Req, a: nat, b: nat)
    requires 0 < c.pieceLength && a <= b
    ensures PieceOf(c, q, a) <= PieceOf(c, q, b)
  {
    var x, y := q.fileStart + a, q.fileStart + b;
    var i, j := PieceOf(c, q, a), PieceOf(c, q, b);
    assert x == i * c.pieceLength + x % c.pieceLength && y == j * c.pieceLength + y % c.pieceLength;
    assert (j + 1) * c.pieceLength == j * c.pieceLength + c.pieceLength;
    if j < i {
      Multiples(j + 1, i, c.pieceLength);
    }
  }

  // ------------------------------------------------- what the calls ask for

  lemma NumPiecesIs(c: Config, p: nat)
    requires c.Valid()
    ensures p < c.NumPieces() <==> IsPiece(c, p)
  {
    var n, len := c.NumPieces(), c.pieceLength;
    assert |c.content| + len - 1 == n * len + (|c.content| + len - 1) % len;
    if p < n {
      Multiples(p + 1, n, len);
      assert (p + 1) * len == p * len + len;
    } else {
      Multiples(n, p, len);
    }
  }

  /** The priority pass over a piece that is missing, when no other call comes between: the
      piece gets priority 7, the piece before it 1 unless that is piece 0, the piece behind
      it 7 if there is one; no other priority changes, and the piece is noted. */
  lemma MissingPieceRound(c: Config, s: State, t: nat)
    requires Enabled(c, s, Move(t)) && s.readers[t].pc.Check? && s.readers[t].rem > 0
    requires PieceOf(c, c.reqs[t], s.readers[t].cur) !in s.have
    ensures var r, p := s.readers[t], PieceOf(c, c.reqs[t], s.readers[t].cur);
            var steps := [Move(t), Move(t), Move(t), Move(t)];
            CanRun(c, s, steps) &&
            var end := RunSteps(c, s, steps);
            var n := ReadSize(c, c.reqs[t], r.cur, r.rem);
            end == s.(prio := end.prio, readers := end.readers) &&
            end.readers == s.readers[t := Reader(Check, r.cur + n, r.rem - n, r.required + {p}, r.out)] &&
            end.prio.Keys == s.prio.Keys + {p} + (if p > 1 then {p - 1} else {}) +
                             (if IsPiece(c, p + 1) then {p + 1} else {}) &&
            forall x | x in end.prio ::
              end.prio[x] == if x == p then 7 else if x == p - 1 && p > 1 then 1
                             else if x == p + 1 && IsPiece(c, p + 1) then 7
                             else if x in s.prio then s.prio[x] else 0
  {
    var p := PieceOf(c, c.reqs[t], s.readers[t].cur);
    RoundState(c, s, t);
    FourMoves(c, s, t);
    PrioritiesAfter(c, s, p);
  }

  lemma RoundState(c: Config, s: State, t: nat)
    requires Enabled(c, s, Move(t)) && s.readers[t].pc.Check? && s.readers[t].rem > 0
    requires PieceOf(c, c.reqs[t], s.readers[t].cur) !in s.have
    ensures var s1 := MoveReader(c, s, t);
            Enabled(c, s1, Move(t)) &&
            var s2 := MoveReader(c, s1, t);
            Enabled(c, s2, Move(t)) &&
            var s3 := MoveReader(c, s2, t);
            Enabled(c, s3, Move(t)) &&
            var r, p := s.readers[t], PieceOf(c, c.reqs[t], s.readers[t].cur);
            var n := ReadSize(c, c.reqs[t], r.cur, r.rem);
            MoveReader(c, s3, t) ==
            Set(RaiseAfter(c, LowerBefore(Prioritise(s, p, 7), p), p), t,
                Reader(Check, r.cur + n, r.rem - n, r.required + {p}, r.out))
  {
  }

  lemma PrioritiesAfter(c: Config, s: State, p: nat)
    requires c.Valid()
    ensures var prio := RaiseAfter(c, LowerBefore(Prioritise(s, p, 7), p), p).prio;
            prio.Keys == s.prio.Keys + {p} + (if p > 1 then {p - 1} else {}) +
                         (if IsPiece(c, p + 1) then {p + 1} else {}) &&
            forall x | x in prio ::
              prio[x] == if x == p then 7 else if x == p - 1 && p > 1 then 1
                         else if x == p + 1 && IsPiece(c, p + 1) then 7
                         else if x in s.prio then s.prio[x] else 0
  {
    NumPiecesIs(c, p + 1);
  }

  lemma OneStep(c: Config, s: State, step: Step, rest: seq<Step>)
    requires Enabled(c, s, step) && CanRun(c, Apply(c, s, step), rest)
    ensures CanRun(c, s, [step] + rest) && RunSteps(c, s, [step] + rest) == RunSteps(c, Apply(c, s, step), rest)
  {
    assert ([step] + rest)[1..] == rest;
  }

  lemma FourMoves(c: Config, s: State, t: nat)
    requires Enabled(c, s, Move(t))
    requires var s1 := MoveReader(c, s, t);
             Enabled(c, s1, Move(t)) &&
             var s2 := MoveReader(c, s1, t);
             Enabled(c, s2, Move(t)) && Enabled(c, MoveReader(c, s2, t), Move(t))
    ensures var steps := [Move(t), Move(t), Move(t), Move(t)];
            CanRun(c, s, steps) &&
            RunSteps(c, s, steps) == MoveReader(c, MoveReader(c, MoveReader(c, MoveReader(c, s, t), t), t), t)
  {
    var m, s1 := Move(t), MoveReader(c, s, t);
    var s2 := MoveReader(c, s1, t);
    var s3 := MoveReader(c, s2, t);
    OneStep(c, s3, m, []);
    OneStep(c, s2, m, [m]);
    OneStep(c, s1, m, [m, m]);
    OneStep(c, s, m, [m, m, m]);
    assert [m] + [] == [m] && [m] + [m] == [m, m] && [m] + [m, m] == [m, m, m] && [m] + [m, m, m] == [m, m, m, m];
  }

  /** The pass over a piece that is held changes no priority and notes nothing. */
  lemma HeldPieceRound(c: Config, s: State, t: nat)
    requires Enabled(c, s, Move(t)) && s.readers[t].pc.Check? && s.readers[t].rem > 0
    requires PieceOf(c, c.reqs[t], s.readers[t].cur) in s.have
    ensures var r := s.readers[t];
            var n := ReadSize(c, c.reqs[t], r.cur, r.rem);
            MoveReader(c, s, t) == s.(readers := s.readers[t := r.(cur := r.cur + n, rem := r.rem - n)])
  {
  }

  function Repeat(step: Step, n: nat): seq<Step> { if n == 0 then [] else [step] + Repeat(step, n - 1) }

  /** The state after the noted pieces `todo` have been gone through. */
  function Asked(s: State, t: nat, todo: set<nat>, left: set<nat>): State
    requires t < |s.readers|
  {
    s.(owed := s.owed + multiset(todo * s.have), asked := s.asked + todo * s.have,
       readers := s.readers[t := s.readers[t].(pc := Reissue(left))])
  }

  lemma AskedFirst(c: Config, s: State, t: nat, todo: set<nat>)
    requires Enabled(c, s, Move(t)) && s.readers[t].pc == Reissue(todo) && todo != {}
    ensures var p := Least(todo);
            p in todo && MoveReader(c, s, t) == Asked(s, t, {p}, todo - {p})
  {
    var p := Least(todo);
    assert {p} * s.have == if p in s.have then {p} else {};
    assert multiset({p}) == multiset{p};
  }

  lemma AskedThen(s: State, t: nat, p: nat, rest: set<nat>)
    requires t < |s.readers| && p !in rest
    ensures Asked(Asked(s, t, {p}, rest), t, rest, {}) == Asked(s, t, {p} + rest, {})
  {
    assert ({p} + rest) * s.have == {p} * s.have + rest * s.have;
    assert multiset(({p} + rest) * s.have) == multiset({p} * s.have) + multiset(rest * s.have);
  }

  lemma AskedStep(c: Config, s: State, t: nat, todo: set<nat>)
    requires Enabled(c, s, Move(t)) && s.readers[t].pc == Reissue(todo) && todo != {}
    ensures var rest, s' := todo - {Least(todo)}, MoveReader(c, s, t);
            |rest| == |todo| - 1 && Enabled(c, s', Move(t)) && s'.readers[t].pc == Reissue(rest) &&
            Asked(s', t, rest, {}) == Asked(s, t, todo, {})
  {
    var p := Least(todo);
    AskedFirst(c, s, t, todo);
    AskedThen(s, t, p, todo - {p});
    assert {p} + (todo - {p}) == todo;
  }

  /** With the mutex taken, the session is asked to read each noted piece that is held, once,
      and no other. */
  lemma {:induction false} HeldPiecesAreAskedFor(c: Config, s: State, t: nat, todo: set<nat>)
    requires Enabled(c, s, Move(t)) && s.readers[t].pc == Reissue(todo)
    ensures CanRun(c, s, Repeat(Move(t), |todo|))
    ensures RunSteps(c, s, Repeat(Move(t), |todo|)) == Asked(s, t, todo, {})
    decreases |todo|
  {
    if todo == {} {
      assert multiset(todo * s.have) == multiset{} && todo * s.have == {};
      assert s.readers[t := s.readers[t]] == s.readers;
    } else {
      var rest := todo - {Least(todo)};
      AskedStep(c, s, t, todo);
      HeldPiecesAreAskedFor(c, MoveReader(c, s, t), t, rest);
      OneStep(c, s, Move(t), Repeat(Move(t), |rest|));
    }
  }

  /** Everywhere else the session is asked only in the copy loop, for a held piece whose
      bytes are not in the map. */
  lemma AskedOnlyWhenMissing(c: Config, s: State, t: nat)
    requires Enabled(c, s, Move(t)) && !s.readers[t].pc.Reissue?
    ensures var p, s' := PieceOf(c, c.reqs[t], s.readers[t].cur), MoveReader(c, s, t);
            if s.readers[t].pc.Lookup? && p !in s.buffers
            then s'.owed == s.owed + multiset{p} && s'.asked == s.asked + {p}
            else s'.owed == s.owed && s'.asked == s.asked
  {
  }

  /** The piece that a step asks the session to read, if any. */
  function AskedFor(c: Config, s: State, step: Step): Option<nat>
    requires Enabled(c, s, step)
  {
    match step
    case Move(t) =>
      var p := PieceOf(c, c.reqs[t], s.readers[t].cur);
      (match s.readers[t].pc
       case Reissue(todo) => if todo != {} && Least(todo) in s.have then Some(Least(todo)) else None
       case Lookup => if p in s.buffers then None else Some(p)
       case _ => None)
    case _ => None
  }

  lemma OwedAfter(c: Config, s: State, step: Step, p: nat)
    requires Enabled(c, s, step)
    ensures Apply(c, s, step).owed[p] + (if step == Deliver(p) then 1 else 0) ==
            s.owed[p] + (if AskedFor(c, s, step) == Some(p) then 1 else 0)
  {
    match step
    case Move(t) =>
      if s.readers[t].pc.Reissue? {
        var todo := s.readers[t].pc.todo;
        if todo != {} {
          AskedFirst(c, s, t, todo);
        }
      } else {
        AskedOnlyWhenMissing(c, s, t);
      }
    case _ =>
  }

  function Requested(c: Config, s: State, steps: seq<Step>, p: nat): nat
    requires CanRun(c, s, steps)
    decreases |steps|
  {
    if steps == [] then 0
    else (if AskedFor(c, s, steps[0]) == Some(p) then 1 else 0) + Requested(c, Apply(c, s, steps[0]), steps[1..], p)
  }

  function Posted(steps: seq<Step>, p: nat): nat {
    if steps == [] then 0 else (if steps[0] == Deliver(p) then 1 else 0) + Posted(steps[1..], p)
  }

  /** Every request leads to one alert: at any time those still owed and those posted add up
      to the requests. */
  lemma {:induction false} OneAlertPerRequest(c: Config, s: State, steps: seq<Step>, p: nat)
    requires CanRun(c, s, steps)
    ensures RunSteps(c, s, steps).owed[p] + Posted(steps, p) == s.owed[p] + Requested(c, s, steps, p)
    decreases |steps|
  {
    if steps == [] {
    } else {
      OwedAfter(c, s, steps[0], p);
      OneAlertPerRequest(c, Apply(c, s, steps[0]), steps[1..], p);
    }
  }

  /** What init_bitfs leaves behind is an initial state: the priorities of a fresh session,
      0 from piece 10 on, no request and no call begun. */
  lemma StartIsInitial(c: Config, have: set<nat>, prio: map<nat, nat>)
    requires c.Valid() && forall p | p in have :: IsPiece(c, p)
    requires forall p: nat | IsPiece(c, p) :: p in prio && (prio[p] == 0 <==> p >= 10)
    ensures var idle := seq(|c.reqs|, _ => Reader(Idle, 0, 0, {}, []));
            Initial(c, State(have, prio, multiset{}, [], map[], None, idle, {}))
  {
    forall p | 0 <= p < c.NumPieces() ensures p in prio && (prio[p] == 0 <==> p >= 10) {
      NumPiecesIs(c, p);
    }
  }

  // ---------------------------------------------------------------- progress

  /** A reader that has not finished can always move, unless it waits for the mutex. */
  lemma ReadersAreNeverStuck(c: Config, s: State, t: nat)
    requires Inv(c, s) && t < |s.readers| && !s.readers[t].pc.Finished?
    ensures Enabled(c, s, Move(t)) <==> !(s.readers[t].pc.Acquire? && s.holder.Some?)
  {
    assert ReaderInv(c, s, c.reqs[t], s.readers[t]);
  }

  /** What may happen without the help of readers outside `ts`: the session only completes
      pieces it has a priority for. */
  predicate Fair(s: State, step: Step, ts: set<nat>) {
    match step
    case Move(t) => t in ts
    case Complete(p) => p in s.prio && s.prio[p] > 0
    case Deliver(_) => true
    case Noise => false
  }

  predicate FairRun(c: Config, s: State, steps: seq<Step>, ts: set<nat>): (b: bool)
    ensures b ==> CanRun(c, s, steps)
    decreases |steps|
  {
    steps == [] ||
    (Enabled(c, s, steps[0]) && Fair(s, steps[0], ts) && FairRun(c, Apply(c, s, steps[0]), steps[1..], ts))
  }

  lemma {:induction false} Concatenate(c: Config, s: State, a: seq<Step>, b: seq<Step>, ts: set<nat>, us: set<nat>)
    requires FairRun(c, s, a, ts) && FairRun(c, RunSteps(c, s, a), b, us)
    ensures FairRun(c, s, a + b, ts + us)
    ensures RunSteps(c, s, a + b) == RunSteps(c, RunSteps(c, s, a), b)
    decreases |a| + |b|
  {
    if a == [] {
      assert a + b == b;
      if b != [] {
        Concatenate(c, Apply(c, s, b[0]), [], b[1..], ts, us);
        assert [] + b[1..] == b[1..];
      }
    } else {
      assert (a + b)[1..] == a[1..] + b;
      Concatenate(c, Apply(c, s, a[0]), a[1..], b, ts, us);
    }
  }

  /** The piece the call is at has arrived or is about to be popped. */
  ghost predicate Arrived(c: Config, s: State, p: nat) { p in s.buffers || InQueue(s.queue, p) }

  /** The step that brings reader t forward. */
  ghost function NextStep(c: Config, s: State, t: nat): Step
    requires c.Valid() && t < |s.readers| == |c.reqs|
  {
    var q, r := c.reqs[t], s.readers[t];
    var p := PieceOf(c, q, r.cur);
    if (r.pc.Have? || r.pc.PollHave?) && r.rem > 0 && p !in s.have then Complete(p)
    else if r.pc.PollBuffer? && !Arrived(c, s, p) then Deliver(p)
    else Move(t)
  }

  /** How far reader t is from its end: the loop it is in, the rounds left in it, and what
      is left of the round. */
  ghost function Rank(c: Config, s: State, t: nat): (nat, nat, nat)
    requires c.Valid() && t < |s.readers| == |c.reqs|
  {
    var q, r := c.reqs[t], s.readers[t];
    var p := PieceOf(c, q, r.cur);
    match r.pc
    case Idle => (6, 0, 0)
    case Check => (5, r.rem, 3)
    case Raise => (5, r.rem, 2)
    case Lower => (5, r.rem, 1)
    case Ahead => (5, r.rem, 0)
    case Acquire => (4, 0, 0)
    case Reissue(todo) => (3, |todo|, 0)
    case PollHave => (2, r.rem, if p in s.have then 4 else 5)
    case Have => (2, r.rem, if p in s.have then 3 else 5)
    case Lookup => (2, r.rem, 2)
    case PollBuffer => (2, r.rem, if Arrived(c, s, p) then 0 else 1)
    case Release => (1, 0, 0)
    case Finished => (0, 0, 0)
  }

  predicate Smaller(a: (nat, nat, nat), b: (nat, nat, nat)) {
    a.0 < b.0 || (a.0 == b.0 && (a.1 < b.1 || (a.1 == b.1 && a.2 < b.2)))
  }

  /** The lock holder waits only for something that is still to come: for a piece that has
      a priority, or for an alert that the session owes. */
  lemma NextStepIsFair(c: Config, s: State, t: nat)
    requires Inv(c, s) && t < |s.readers| && !s.readers[t].pc.Finished?
    requires s.holder.None? || s.holder == Some(t)
    ensures Enabled(c, s, NextStep(c, s, t)) && Fair(s, NextStep(c, s, t), {t})
  {
    var q, r := c.reqs[t], s.readers[t];
    var p := PieceOf(c, q, r.cur);
    assert ReaderInv(c, s, q, r) && (Critical(r.pc) <==> s.holder == Some(t));
    if (r.pc.Have? || r.pc.PollHave?) && r.rem > 0 && p !in s.have {
      assert p in Pieces(c, q, r.cur, r.rem);
      var n := ReadSize(c, q, r.cur, r.rem);
    }
  }

  /** A move in the priority pass. */
  lemma PassComesCloser(c: Config, s: State, t: nat)
    requires c.Valid() && Enabled(c, s, Move(t))
    requires s.readers[t].pc.Idle? || InPass(s.readers[t].pc)
    ensures Smaller(Rank(c, MoveReader(c, s, t), t), Rank(c, s, t))
  {
    var q, r := c.reqs[t], s.readers[t];
    if r.rem > 0 {
      var next := NextPiece(c, q, r);
      assert next.rem < r.rem;
    }
  }

  /** A move at the mutex or over the required pieces. */
  lemma LockComesCloser(c: Config, s: State, t: nat)
    requires c.Valid() && Enabled(c, s, Move(t))
    requires s.readers[t].pc.Acquire? || s.readers[t].pc.Reissue? || s.readers[t].pc.Release?
    ensures Smaller(Rank(c, MoveReader(c, s, t), t), Rank(c, s, t))
  {
  }

  /** A move in the copy loop that does not wait for an alert. */
  lemma CopyComesCloser(c: Config, s: State, t: nat)
    requires c.Valid() && Enabled(c, s, Move(t))
    requires s.readers[t].pc.Have? || s.readers[t].pc.PollHave? || s.readers[t].pc.Lookup?
    requires NextStep(c, s, t) == Move(t)
    ensures Smaller(Rank(c, MoveReader(c, s, t), t), Rank(c, s, t))
  {
    var q, r := c.reqs[t], s.readers[t];
    if r.rem > 0 {
      assert forall b :: CopyPiece(c, q, r, b).rem < r.rem;
    }
  }

  /** A poll that brings the piece in. */
  lemma PollComesCloser(c: Config, s: State, t: nat)
    requires SessionInv(c, s) && Enabled(c, s, Move(t)) && s.readers[t].pc.PollBuffer?
    requires Arrived(c, s, PieceOf(c, c.reqs[t], s.readers[t].cur))
    ensures Smaller(Rank(c, MoveReader(c, s, t), t), Rank(c, s, t))
  {
    FillIs(c, s, s.buffers, s.queue);
    var q, r := c.reqs[t], s.readers[t];
    assert CopyPiece(c, q, r, Poll(s).buffers[PieceOf(c, q, r.cur)]).rem < r.rem;
  }

  lemma SessionComesCloser(c: Config, s: State, t: nat)
    requires c.Valid() && t < |s.readers| == |c.reqs|
    requires Enabled(c, s, NextStep(c, s, t)) && !NextStep(c, s, t).Move?
    ensures Smaller(Rank(c, Apply(c, s, NextStep(c, s, t)), t), Rank(c, s, t))
  {
    var p := PieceOf(c, c.reqs[t], s.readers[t].cur);
    if s.readers[t].pc.PollBuffer? {
      QueueMore(s.queue, ReadPiece(p, PieceData(c, p)), p);
    }
  }

  lemma NextStepComesCloser(c: Config, s: State, t: nat)
    requires Inv(c, s) && t < |s.readers| && !s.readers[t].pc.Finished? && Enabled(c, s, NextStep(c, s, t))
    ensures var s' := Apply(c, s, NextStep(c, s, t));
            |s'.readers| == |s.readers| && Smaller(Rank(c, s', t), Rank(c, s, t))
  {
    if NextStep(c, s, t).Move? {
      MutexMoves(c, s, t);
      if s.readers[t].pc.PollBuffer? {
        PollComesCloser(c, s, t);
      } else if s.readers[t].pc.Idle? || InPass(s.readers[t].pc) {
        PassComesCloser(c, s, t);
      } else if InCopy(s.readers[t].pc) {
        CopyComesCloser(c, s, t);
      } else {
        LockComesCloser(c, s, t);
      }
    } else {
      SessionComesCloser(c, s, t);
    }
  }

  /** The next step of one call leaves the others where they are, and the mutex with it. */
  lemma NextStepKeepsOthers(c: Config, s: State, t: nat)
    requires Inv(c, s) && t < |s.readers| && Enabled(c, s, NextStep(c, s, t))
    requires s.holder.None? || s.holder == Some(t)
    ensures var s' := Apply(c, s, NextStep(c, s, t));
            |s'.readers| == |s.readers| && (s'.holder.None? || s'.holder == Some(t)) &&
            forall u | 0 <= u < |s.readers| && u != t :: s'.readers[u] == s.readers[u]
  {
    if NextStep(c, s, t).Move? {
      MutexMoves(c, s, t);
    }
  }

  // ------------------------------------------------- steps in any other order

  /** Only the two polls touch the map and the queue. */
  lemma BuffersMove(c: Config, s: State, u: nat)
    requires Enabled(c, s, Move(u))
    ensures var s' := MoveReader(c, s, u);
            if s.readers[u].pc.PollHave? || s.readers[u].pc.PollBuffer?
            then s'.buffers == Fill(s.buffers, s.queue) && s'.queue == []
            else s'.buffers == s.buffers && s'.queue == s.queue
  {
  }

  /** What has arrived stays, whoever polls. */
  lemma ArrivedStays(c: Config, s: State, step: Step, p: nat)
    requires SessionInv(c, s) && Enabled(c, s, step) && Arrived(c, s, p)
    ensures Arrived(c, Apply(c, s, step), p)
  {
    match step
    case Move(u) =>
      BuffersMove(c, s, u);
      FillIs(c, s, s.buffers, s.queue);
    case Complete(_) =>
    case Deliver(d) => QueueMore(s.queue, ReadPiece(d, PieceData(c, d)), p);
    case Noise => QueueMore(s.queue, Other, p);
  }

  lemma HaveStays(c: Config, s: State, step: Step)
    requires Inv(c, s) && Enabled(c, s, step)
    ensures s.have <= Apply(c, s, step).have
  {
    if step.Move? {
      assert Ready(c, s, step.t);
      ReaderMoves(c, s, step.t);
    }
  }

  lemma ReaderStays(c: Config, s: State, step: Step, t: nat)
    requires Inv(c, s) && Enabled(c, s, step) && t < |s.readers| && step != Move(t)
    ensures |Apply(c, s, step).readers| == |s.readers| && Apply(c, s, step).readers[t] == s.readers[t]
  {
    if step.Move? {
      MutexMoves(c, s, step.t);
    }
  }

  lemma RankStays(c: Config, s: State, s': State, t: nat)
    requires c.Valid() && t < |s.readers| == |s'.readers| == |c.reqs|
    requires s'.readers[t] == s.readers[t] && s.have <= s'.have
    requires var p := PieceOf(c, c.reqs[t], s.readers[t].cur);
             Arrived(c, s, p) ==> Arrived(c, s', p)
    ensures !Smaller(Rank(c, s, t), Rank(c, s', t))
  {
  }

  /** No step of another call or of the session takes a call further from its end, in any
      state that the invariant allows. */
  lemma OthersNeverSetBack(c: Config, s: State, step: Step, t: nat)
    requires Inv(c, s) && Enabled(c, s, step) && t < |s.readers| && step != Move(t)
    ensures var s' := Apply(c, s, step);
            |s'.readers| == |s.readers| && !Smaller(Rank(c, s, t), Rank(c, s', t))
  {
    var p := PieceOf(c, c.reqs[t], s.readers[t].cur);
    ReaderStays(c, s, step, t);
    HaveStays(c, s, step);
    if Arrived(c, s, p) {
      ArrivedStays(c, s, step, p);
    }
    RankStays(c, s, Apply(c, s, step), t);
  }

  /** Nor does a move of its own while it polls for what is still missing. */
  lemma WaitingNeverSetsBack(c: Config, s: State, t: nat)
    requires Inv(c, s) && t < |s.readers| && Enabled(c, s, Move(t)) && NextStep(c, s, t) != Move(t)
    ensures var s' := MoveReader(c, s, t);
            |s'.readers| == |s.readers| && !Smaller(Rank(c, s, t), Rank(c, s', t))
  {
    if s.readers[t].pc.PollBuffer? {
      FillIs(c, s, s.buffers, s.queue);
    }
  }

  // ---------------------------------------------------------- bounded progress

  /** The rank as one number; the rounds of a loop are never more than the bytes to read. */
  ghost function Distance(c: Config, s: State, t: nat): nat
    requires c.Valid() && t < |s.readers| == |c.reqs|
  {
    Height(Rank(c, s, t), Want(c.reqs[t]))
  }

  function Height(rank: (nat, nat, nat), want: nat): nat {
    (rank.0 * (want + 1) + rank.1) * 6 + rank.2
  }

  lemma HeightOrders(a: (nat, nat, nat), b: (nat, nat, nat), want: nat)
    requires a.1 <= want && b.1 <= want && a.2 <= 5 && b.2 <= 5
    ensures Smaller(a, b) <==> Height(a, want) < Height(b, want)
  {
    if a.0 < b.0 {
      Multiples(a.0 + 1, b.0, want + 1);
      assert (a.0 + 1) * (want + 1) == a.0 * (want + 1) + (want + 1);
    } else if b.0 < a.0 {
      Multiples(b.0 + 1, a.0, want + 1);
      assert (b.0 + 1) * (want + 1) == b.0 * (want + 1) + (want + 1);
    }
  }

  lemma {:induction false} FewPieces(c: Config, q: Req, cur: nat, rem: nat)
    requires c.Valid() && q.fileStart + q.fileSize <= |c.content| && (rem > 0 ==> cur + rem <= q.fileSize)
    ensures |Pieces(c, q, cur, rem)| <= rem
    decreases rem
  {
    if rem == 0 {
    } else {
      var n := ReadSize(c, q, cur, rem);
      FewPieces(c, q, cur + n, rem - n);
    }
  }

  lemma SubsetSize(a: set<nat>, b: set<nat>)
    requires a <= b
    ensures |a| <= |b|
  {
    assert b == a + (b - a);
  }

  lemma RankBounded(c: Config, s: State, t: nat)
    requires Inv(c, s) && t < |s.readers|
    ensures Rank(c, s, t).1 <= Want(c.reqs[t]) && Rank(c, s, t).2 <= 5
  {
    var q, r := c.reqs[t], s.readers[t];
    assert ReaderInv(c, s, q, r);
    if r.pc.Reissue? {
      FewPieces(c, q, q.offset, Want(q));
      SubsetSize(r.pc.todo, Pieces(c, q, q.offset, Want(q)));
    }
  }

  /** The step is the one that brings the unfinished call t forward. */
  ghost predicate Helps(c: Config, s: State, step: Step, t: nat) {
    c.Valid() && t < |s.readers| == |c.reqs| && !s.readers[t].pc.Finished? && step == NextStep(c, s, t)
  }

  /** No step whatsoever takes a call further from its end, and those that help bring it
      closer. */
  lemma DistanceFalls(c: Config, s: State, step: Step, t: nat)
    requires Inv(c, s) && Enabled(c, s, step) && t < |s.readers|
    ensures var s' := Apply(c, s, step);
            Inv(c, s') && |s'.readers| == |s.readers| &&
            Distance(c, s', t) + (if Helps(c, s, step, t) then 1 else 0) <= Distance(c, s, t)
  {
    var s' := Apply(c, s, step);
    StepKeeps(c, s, step);
    RankBounded(c, s, t);
    RankBounded(c, s', t);
    if Helps(c, s, step, t) {
      NextStepComesCloser(c, s, t);
    } else if step == Move(t) {
      WaitingNeverSetsBack(c, s, t);
    } else {
      OthersNeverSetBack(c, s, step, t);
    }
    HeightOrders(Rank(c, s', t), Rank(c, s, t), Want(c.reqs[t]));
    HeightOrders(Rank(c, s, t), Rank(c, s', t), Want(c.reqs[t]));
  }

  /** How many steps of a run help call t. */
  ghost function Helped(c: Config, s: State, steps: seq<Step>, t: nat): nat
    requires CanRun(c, s, steps)
    decreases |steps|
  {
    if steps == [] then 0
    else (if Helps(c, s, steps[0], t) then 1 else 0) + Helped(c, Apply(c, s, steps[0]), steps[1..], t)
  }

  lemma {:induction false} HelpIsBounded(c: Config, s: State, steps: seq<Step>, t: nat)
    requires Inv(c, s) && CanRun(c, s, steps) && t < |s.readers|
    ensures var end := RunSteps(c, s, steps);
            Inv(c, end) && |end.readers| == |s.readers| &&
            Distance(c, end, t) + Helped(c, s, steps, t) <= Distance(c, s, t)
    decreases |steps|
  {
    if steps == [] {
    } else {
      DistanceFalls(c, s, steps[0], t);
      HelpIsBounded(c, Apply(c, s, steps[0]), steps[1..], t);
    }
  }

  /** In any run after init_bitfs, with whatever steps in between, a call is helped at most
      36 * (bytes to read + 1) times; once it has been, it has returned its slice. */
  lemma EnoughHelpFinishes(c: Config, s: State, steps: seq<Step>, t: nat)
    requires Initial(c, s) && CanRun(c, s, steps) && t < |c.reqs|
    ensures Helped(c, s, steps, t) <= 36 * (Want(c.reqs[t]) + 1)
    ensures var end := RunSteps(c, s, steps);
            |end.readers| == |c.reqs| &&
            (Helped(c, s, steps, t) == 36 * (Want(c.reqs[t]) + 1) ==>
               end.readers[t].pc.Finished? && end.readers[t].out == Slice(c, c.reqs[t]))
  {
    InitialInv(c, s);
    HelpIsBounded(c, s, steps, t);
    FinishedReadsAreSlices(c, s, steps, t);
    var end, want := RunSteps(c, s, steps), Want(c.reqs[t]);
    assert Distance(c, s, t) == 36 * (want + 1);
    if Distance(c, end, t) == 0 && Rank(c, end, t).0 > 0 {
      Multiples(1, Rank(c, end, t).0, want + 1);
    }
  }

  /** All the help that the first n calls still need at most. */
  ghost function Total(c: Config, s: State, n: nat): nat
    requires c.Valid() && n <= |s.readers| == |c.reqs|
  {
    if n == 0 then 0 else Total(c, s, n - 1) + Distance(c, s, n - 1)
  }

  ghost predicate HelpsSome(c: Config, s: State, step: Step) {
    exists t: nat :: t < |s.readers| && Helps(c, s, step, t)
  }

  /** No call further from its end in s' than in s. */
  ghost predicate NoneFurther(c: Config, s: State, s': State) {
    c.Valid() && |s'.readers| == |s.readers| == |c.reqs| &&
    forall t: nat | t < |s.readers| :: Distance(c, s', t) <= Distance(c, s, t)
  }

  lemma {:induction false} TotalStays(c: Config, s: State, s': State, n: nat)
    requires NoneFurther(c, s, s') && n <= |s.readers|
    ensures Total(c, s', n) <= Total(c, s, n)
    decreases n
  {
    if n == 0 {
    } else {
      TotalStays(c, s, s', n - 1);
    }
  }

  lemma {:induction false} TotalFalls(c: Config, s: State, s': State, n: nat, t: nat)
    requires NoneFurther(c, s, s') && t < n <= |s.readers| && Distance(c, s', t) < Distance(c, s, t)
    ensures Total(c, s', n) < Total(c, s, n)
    decreases n
  {
    if t == n - 1 {
      TotalStays(c, s, s', n - 1);
    } else {
      TotalFalls(c, s, s', n - 1, t);
    }
  }

  lemma NoStepSetsBack(c: Config, s: State, step: Step)
    requires Inv(c, s) && Enabled(c, s, step)
    ensures Inv(c, Apply(c, s, step)) && NoneFurther(c, s, Apply(c, s, step))
    ensures HelpsSome(c, s, step) ==> Total(c, Apply(c, s, step), |s.readers|) < Total(c, s, |s.readers|)
  {
    var s' := Apply(c, s, step);
    StepKeeps(c, s, step);
    forall t: nat | t < |s.readers| ensures Distance(c, s', t) <= Distance(c, s, t) {
      DistanceFalls(c, s, step, t);
    }
    ReadersStay(c, s, step);
    if HelpsSome(c, s, step) {
      var t: nat :| t < |s.readers| && Helps(c, s, step, t);
      DistanceFalls(c, s, step, t);
      TotalFalls(c, s, s', |s.readers|, t);
    }
  }

  lemma ReadersStay(c: Config, s: State, step: Step)
    requires Inv(c, s) && Enabled(c, s, step)
    ensures |Apply(c, s, step).readers| == |s.readers|
  {
    if step.Move? {
      MutexMoves(c, s, step.t);
    }
  }

  /** How many steps of a run help any call. */
  ghost function HelpedSome(c: Config, s: State, steps: seq<Step>): nat
    requires CanRun(c, s, steps)
    decreases |steps|
  {
    if steps == [] then 0
    else (if HelpsSome(c, s, steps[0]) then 1 else 0) + HelpedSome(c, Apply(c, s, steps[0]), steps[1..])
  }

  lemma {:induction false} TotalHelpIsBounded(c: Config, s: State, steps: seq<Step>)
    requires Inv(c, s) && CanRun(c, s, steps)
    ensures var end := RunSteps(c, s, steps);
            Inv(c, end) && |end.readers| == |s.readers| &&
            Total(c, end, |s.readers|) + HelpedSome(c, s, steps) <= Total(c, s, |s.readers|)
    decreases |steps|
  {
    if steps == [] {
    } else {
      var s' := Apply(c, s, steps[0]);
      NoStepSetsBack(c, s, steps[0]);
      TotalStays(c, s, s', |s.readers|);
      TotalHelpIsBounded(c, s', steps[1..]);
    }
  }

  lemma {:induction false} NoDistanceLeft(c: Config, s: State, n: nat, t: nat)
    requires c.Valid() && t < n <= |s.readers| == |c.reqs| && Total(c, s, n) == 0
    ensures s.readers[t].pc.Finished?
    decreases n
  {
    if t == n - 1 {
      if Rank(c, s, t).0 > 0 {
        Multiples(1, Rank(c, s, t).0, Want(c.reqs[t]) + 1);
      }
    } else {
      NoDistanceLeft(c, s, n - 1, t);
    }
  }

  /** The same for all calls together: only so many steps of a run can help any of them, and
      once that many have been taken every call has returned its slice. */
  lemma EnoughHelpFinishesAll(c: Config, s: State, steps: seq<Step>)
    requires Initial(c, s) && CanRun(c, s, steps)
    ensures HelpedSome(c, s, steps) <= Total(c, s, |c.reqs|)
    ensures var end := RunSteps(c, s, steps);
            |end.readers| == |c.reqs| &&
            (HelpedSome(c, s, steps) == Total(c, s, |c.reqs|) ==>
               forall t | 0 <= t < |c.reqs| :: end.readers[t].pc.Finished? && end.readers[t].out == Slice(c, c.reqs[t]))
  {
    InitialInv(c, s);
    TotalHelpIsBounded(c, s, steps);
    var end := RunSteps(c, s, steps);
    if Total(c, end, |c.reqs|) == 0 {
      forall t | 0 <= t < |c.reqs|
        ensures end.readers[t].pc.Finished? && end.readers[t].out == Slice(c, c.reqs[t])
      {
        NoDistanceLeft(c, end, |c.reqs|, t);
        FinishedReadsAreSlices(c, s, steps, t);
      }
    }
  }

  /** While no other call holds the mutex, a call can be brought to its end by the session
      and its own steps alone; the mutex is then free and the other calls are where they were. */
  lemma {:induction false} CallCanFinish(c: Config, s: State, t: nat) returns (steps: seq<Step>)
    requires Inv(c, s) && t < |s.readers|
    requires s.holder.None? || s.holder == Some(t)
    ensures FairRun(c, s, steps, {t})
    ensures var end := RunSteps(c, s, steps);
            Inv(c, end) && end.holder.None? && |end.readers| == |s.readers| && end.readers[t].pc.Finished? &&
            forall u | 0 <= u < |s.readers| && u != t :: end.readers[u] == s.readers[u]
    decreases Rank(c, s, t).0, Rank(c, s, t).1, Rank(c, s, t).2
  {
    if s.readers[t].pc.Finished? {
      steps := [];
    } else {
      var step := NextStep(c, s, t);
      NextStepIsFair(c, s, t);
      NextStepComesCloser(c, s, t);
      NextStepKeepsOthers(c, s, t);
      StepKeeps(c, s, step);
      var rest := CallCanFinish(c, Apply(c, s, step), t);
      steps := [step] + rest;
      assert steps[1..] == rest;
    }
  }

  ghost function Unfinished(s: State): set<nat> {
    set t: nat | t < |s.readers| && !s.readers[t].pc.Finished?
  }

  /** From every state that the invariant allows there is a continuation in which the
      session only completes wanted pieces and posts what it owes, and every call finishes. */
  lemma {:induction false} AllCallsCanFinish(c: Config, s: State) returns (steps: seq<Step>)
    requires Inv(c, s)
    ensures FairRun(c, s, steps, Unfinished(s))
    ensures var end := RunSteps(c, s, steps);
            Inv(c, end) && |end.readers| == |s.readers| && Unfinished(end) == {}
    decreases |Unfinished(s)|
  {
    if Unfinished(s) == {} {
      steps := [];
    } else {
      var t := NextToFinish(s);
      var first := CallCanFinish(c, s, t);
      var mid := RunSteps(c, s, first);
      OneFinished(s, mid, t);
      var rest := AllCallsCanFinish(c, mid);
      Concatenate(c, s, first, rest, {t}, Unfinished(mid));
      steps := first + rest;
    }
  }

  /** The holder of the mutex goes first. */
  lemma NextToFinish(s: State) returns (t: nat)
    requires MutexInv(s) && Unfinished(s) != {}
    ensures t in Unfinished(s) && (s.holder.None? || s.holder == Some(t))
  {
    if s.holder.Some? {
      t := s.holder.value;
      assert Critical(s.readers[t].pc);
    } else {
      t :| t in Unfinished(s);
    }
  }

  /** While a call is unfinished, the session and the calls can always take a step that helps
      one of them; by TotalHelpIsBounded only so many can be taken before all are finished. */
  lemma HelpIsAtHand(c: Config, s: State) returns (step: Step)
    requires Inv(c, s) && Unfinished(s) != {}
    ensures Enabled(c, s, step) && Fair(s, step, Unfinished(s)) && HelpsSome(c, s, step)
  {
    var t := NextToFinish(s);
    step := NextStep(c, s, t);
    NextStepIsFair(c, s, t);
    assert Helps(c, s, step, t);
  }

  lemma OneFinished(s: State, s': State, t: nat)
    requires t in Unfinished(s) && |s'.readers| == |s.readers| && s'.readers[t].pc.Finished?
    requires forall u | 0 <= u < |s.readers| && u != t :: s'.readers[u] == s.readers[u]
    ensures {t} + Unfinished(s') == Unfinished(s) && |Unfinished(s')| < |Unfinished(s)|
  {
    assert {t} + Unfinished(s') == Unfinished(s);
    assert t !in Unfinished(s');
  }

  /** In particular no reachable state is a deadlock, and none loses a read for good. */
  lemma EveryRunCanBeCompleted(c: Config, s: State, steps: seq<Step>)
    returns (more: seq<Step>)
    requires Initial(c, s) && CanRun(c, s, steps)
    ensures CanRun(c, RunSteps(c, s, steps), more)
    ensures var end := RunSteps(c, RunSteps(c, s, steps), more);
            |end.readers| == |c.reqs| &&
            forall t | 0 <= t < |c.reqs| :: end.readers[t].pc.Finished? && end.readers[t].out == Slice(c, c.reqs[t])
  {
    InitialInv(c, s);
    RunKeeps(c, s, steps);
    var now := RunSteps(c, s, steps);
    more := AllCallsCanFinish(c, now);
    var end := RunSteps(c, now, more);
    forall t: nat | t < |c.reqs| ensures end.readers[t].pc.Finished? && end.readers[t].out == Slice(c, c.reqs[t]) {
      assert ReaderInv(c, end, c.reqs[t], end.readers[t]);
      assert t !in Unfinished(end);
    }
  }
}
