/** What the list and dictionary interfaces answer to any sequence of calls. */
module CursorProtocol {
  import opened Bytes
  import opened Loose
  import opened CursorModel
  import opened CursorProofs
  import opened CursorRange

  datatype Call = HasNext | GetNext

  /** How many of the calls are get_next. */
  function Gets(calls: seq<Call>): nat {
    if calls == [] then 0 else (if calls[0].GetNext? then 1 else 0) + Gets(calls[1..])
  }

  // ---------------------------------------------------------------- any calls

  /** The answers of an interface to a sequence of calls, one state leading to the next. */
  function RunCalls<S, R>(answer: (S, Call) -> Run<(S, R)>, s: S, calls: seq<Call>): Run<seq<R>>
    decreases |calls|
  {
    if calls == [] then Done([])
    else
      var (next, reply) :- answer(s, calls[0]);
      After(reply, RunCalls(answer, next, calls[1..]))
  }

  /** One answer, and then the others, unless they fault. */
  function After<R>(first: R, rest: Run<seq<R>>): Run<seq<R>> {
    match rest
    case Done(replies) => Done([first] + replies)
    case Fault => Fault
  }

  /** Both fault, or they give the same answer and related states. */
  predicate Agree<S, T, R(==)>(a: Run<(S, R)>, b: Run<(T, R)>, related: (S, T) -> bool) {
    if a.Fault? || b.Fault? then a.Fault? && b.Fault?
    else a.value.1 == b.value.1 && related(a.value.0, b.value.0)
  }

  /** Two interfaces that agree on single calls agree on every sequence of calls. */
  lemma {:induction false} SameAnswers<S(!new), T(!new), R>(
    answer: (S, Call) -> Run<(S, R)>, model: (T, Call) -> Run<(T, R)>, related: (S, T) -> bool,
    s: S, t: T, calls: seq<Call>)
    requires related(s, t)
    requires forall s', t', call | related(s', t') :: Agree(answer(s', call), model(t', call), related)
    ensures RunCalls(answer, s, calls) == RunCalls(model, t, calls)
    decreases |calls|
  {
    if calls == [] {
    } else {
      assert Agree(answer(s, calls[0]), model(t, calls[0]), related);
      if answer(s, calls[0]).Done? {
        SameAnswers(answer, model, related, answer(s, calls[0]).value.0, model(t, calls[0]).value.0, calls[1..]);
      }
    }
  }

  // ------------------------------------------------------------------- lists

  datatype ListReply = Has(more: bool) | At(pos: int) | NoItem | Invalid

  /** One call of the list interface: the cursor it leaves and its answer. */
  function CallList(buf: Bytes, be: Cur, call: Call): Run<(Cur, ListReply)> {
    match call
    case HasNext =>
      var (more, be') :- ListHasNext(buf, be);
      Done((be', Has(more)))
    case GetNext =>
      var step :- ListGetNext(buf, be);
      Done((step.be, if step.ret == 1 then At(step.item.str) else if step.ret == 0 then NoItem else Invalid))
  }

  /** What it should do when the items `vs` are left and the first of them is at `p`: it
      faults only on a number that overflows in an item that a get_next steps over. */
  function ExpectItem(p: int, vs: seq<Item>, call: Call): Run<((int, seq<Item>), ListReply)> {
    match call
    case HasNext => Done(((p, vs), Has(vs != [])))
    case GetNext =>
      if vs == [] then Done(((p, vs), NoItem))
      else if Fits(vs[0]) then Done(((p + |Text(vs[0])|, vs[1..]), At(p)))
      else Fault
  }

  predicate OverList(buf: Bytes, be: Cur, p: int, vs: seq<Item>) {
    ListCursor(buf, be, vs) && ItemPos(be) == p
  }

  function ListCalls(buf: Bytes): (Cur, Call) -> Run<(Cur, ListReply)> { (be, call) => CallList(buf, be, call) }

  function ItemCalls(): ((int, seq<Item>), Call) -> Run<((int, seq<Item>), ListReply)> {
    (left: (int, seq<Item>), call) => ExpectItem(left.0, left.1, call)
  }

  function ListRelation(buf: Bytes): (Cur, (int, seq<Item>)) -> bool {
    (be, left: (int, seq<Item>)) => OverList(buf, be, left.0, left.1)
  }

  lemma ListCallAgrees(buf: Bytes, be: Cur, p: int, vs: seq<Item>, call: Call)
    requires OverList(buf, be, p, vs)
    ensures Agree(CallList(buf, be, call), ExpectItem(p, vs, call), ListRelation(buf))
  {
    ListHead(buf, be, vs);
    if vs == [] {
      ListGetNextEnd(buf, be);
    } else if call.GetNext? {
      if Fits(vs[0]) {
        ListStepExact(buf, be, vs);
        StepOverItemIs(buf, be, vs);
      } else {
        ListGetNextFaults(buf, be, vs);
      }
    }
  }

  /** The answers a list of items at offset `p` should give. */
  function ListAnswers(p: int, vs: seq<Item>, calls: seq<Call>): seq<ListReply>
    decreases |calls|
  {
    if calls == [] then []
    else match calls[0]
      case HasNext => [Has(vs != [])] + ListAnswers(p, vs, calls[1..])
      case GetNext =>
        if vs == [] then [NoItem] + ListAnswers(p, vs, calls[1..])
        else [At(p)] + ListAnswers(p + |Text(vs[0])|, vs[1..], calls[1..])
  }

  /** The first n items fit. */
  predicate FirstFit(vs: seq<Item>, n: nat) {
    n == 0 || vs == [] || (Fits(vs[0]) && FirstFit(vs[1..], n - 1))
  }

  lemma {:induction false} ItemsAnswer(p: int, vs: seq<Item>, calls: seq<Call>)
    ensures RunCalls(ItemCalls(), (p, vs), calls) ==
            if FirstFit(vs, Gets(calls)) then Done(ListAnswers(p, vs, calls)) else Fault
    decreases |calls|
  {
    if calls == [] {
    } else if calls[0].HasNext? || vs == [] {
      ItemsAnswer(p, vs, calls[1..]);
    } else if Fits(vs[0]) {
      assert Gets(calls) == Gets(calls[1..]) + 1;
      ItemsAnswer(p + |Text(vs[0])|, vs[1..], calls[1..]);
    }
  }

  /** Whatever calls are made and in whatever order, the k-th successful get_next yields
      item k, has_next never disturbs it, and past the end both answer 0 for ever; the only
      fault is a number, in an item that a get_next steps over, that overflows. */
  lemma ListProtocol(buf: Bytes, be: Cur, vs: seq<Item>, calls: seq<Call>)
    requires ListCursor(buf, be, vs)
    ensures RunCalls(ListCalls(buf), be, calls) ==
            if FirstFit(vs, Gets(calls)) then Done(ListAnswers(ItemPos(be), vs, calls)) else Fault
  {
    forall be', left: (int, seq<Item>), call | ListRelation(buf)(be', left)
      ensures Agree(ListCalls(buf)(be', call), ItemCalls()(left, call), ListRelation(buf))
    {
      ListCallAgrees(buf, be', left.0, left.1, call);
    }
    SameAnswers(ListCalls(buf), ItemCalls(), ListRelation(buf), be, (ItemPos(be), vs), calls);
    ItemsAnswer(ItemPos(be), vs, calls);
  }

  // ------------------------------------------------------------ dictionaries

  datatype DictReply = More(more: bool) | Entry(key: int, klen: int, item: int) | NoEntry

  function CallDict(buf: Bytes, be: Cur, call: Call): Run<(Cur, DictReply)> {
    match call
    case HasNext =>
      var more :- DictHasNext(buf, be);
      Done((be, More(more)))
    case GetNext =>
      var step :- DictGetNext(buf, be);
      Done((step.be, if step.ret then Entry(step.key, step.klen, step.item.str) else NoEntry))
  }

  /** The entry `e` at offset `p`: where its key is, how long it is, and where its value is. */
  function EntryAt(p: int, e: Pair): DictReply {
    Entry(TextPos(p, e.zeros, e.key), |e.key|, ValPos(p, e))
  }

  /** What is left of a dictionary: its entries, where the first of them is, and whether the
      cursor is at the opening byte of an empty one. */
  datatype Left = Left(p: int, es: seq<Pair>, unopened: bool)

  function ExpectEntry(left: Left, call: Call): Run<(Left, DictReply)> {
    var Left(p, es, unopened) := left;
    match call
    case HasNext => Done((left, More(es != [])))
    case GetNext =>
      if es == [] then if unopened then Done((left, NoEntry)) else Fault
      else if PairFits(es[0]) then Done((Left(PairEnd(p, es[0]), es[1..], false), EntryAt(p, es[0])))
      else Fault
  }

  /** The cursor is at the opening byte of an empty dictionary. */
  predicate UnopenedEmpty(buf: Bytes, be: Cur, es: seq<Pair>) {
    es == [] && Deref(buf, be.str) == Done(LOWER_D)
  }

  predicate OverDict(buf: Bytes, be: Cur, left: Left) {
    DictCursor(buf, be, left.es) && KeyPos(buf, be) == left.p && left.unopened == UnopenedEmpty(buf, be, left.es)
  }

  function DictCalls(buf: Bytes): (Cur, Call) -> Run<(Cur, DictReply)> { (be, call) => CallDict(buf, be, call) }

  function EntryCalls(): (Left, Call) -> Run<(Left, DictReply)> { (left, call) => ExpectEntry(left, call) }

  function DictRelation(buf: Bytes): (Cur, Left) -> bool { (be, left) => OverDict(buf, be, left) }

  /** Past the last entry get_next is a failed assert, except at the opening byte of an empty
      dictionary, where it answers 0 and does not move. */
  lemma DictGetNextAtEnd(buf: Bytes, be: Cur)
    requires DictCursor(buf, be, [])
    ensures DictGetNext(buf, be) ==
            if Deref(buf, be.str) == Done(LOWER_D) then Done(DictStep(false, be, NULL, 0, be)) else Fault
  {
    DictHead(buf, be, []);
  }

  lemma DictCallAgrees(buf: Bytes, be: Cur, left: Left, call: Call)
    requires OverDict(buf, be, left)
    ensures Agree(CallDict(buf, be, call), ExpectEntry(left, call), DictRelation(buf))
  {
    var es := left.es;
    DictHead(buf, be, es);
    if es == [] {
      DictGetNextAtEnd(buf, be);
    } else if call.GetNext? {
      if PairFits(es[0]) {
        DictStepExact(buf, be, es);
        StepOverIs(buf, be, es);
      } else {
        DictGetNextFaults(buf, be, es);
      }
    }
  }

  /** The answers a dictionary with entries `es` at offset `p` should give. */
  function DictAnswers(p: int, es: seq<Pair>, calls: seq<Call>): seq<DictReply>
    decreases |calls|
  {
    if calls == [] then []
    else match calls[0]
      case HasNext => [More(es != [])] + DictAnswers(p, es, calls[1..])
      case GetNext =>
        if es == [] then [NoEntry] + DictAnswers(p, es, calls[1..])
        else [EntryAt(p, es[0])] + DictAnswers(PairEnd(p, es[0]), es[1..], calls[1..])
  }

  predicate FirstPairsFit(es: seq<Pair>, n: nat) {
    n == 0 || es == [] || (PairFits(es[0]) && FirstPairsFit(es[1..], n - 1))
  }

  lemma {:induction false} EntriesAnswer(left: Left, calls: seq<Call>)
    requires left.unopened ==> left.es == []
    ensures RunCalls(EntryCalls(), left, calls) ==
            if (Gets(calls) <= |left.es| || left.unopened) && FirstPairsFit(left.es, Gets(calls))
            then Done(DictAnswers(left.p, left.es, calls)) else Fault
    decreases |calls|
  {
    var Left(p, es, unopened) := left;
    if calls == [] {
    } else if calls[0].HasNext? || es == [] {
      EntriesAnswer(left, calls[1..]);
    } else if PairFits(es[0]) {
      assert Gets(calls) == Gets(calls[1..]) + 1;
      EntriesAnswer(Left(PairEnd(p, es[0]), es[1..], false), calls[1..]);
    }
  }

  /** The same for dictionaries, except that a get_next past the last entry is a failed
      assert, unless the dictionary is empty and its cursor still at its opening byte: there
      it answers 0, as often as it is called. */
  lemma DictProtocol(buf: Bytes, be: Cur, es: seq<Pair>, calls: seq<Call>)
    requires DictCursor(buf, be, es)
    ensures RunCalls(DictCalls(buf), be, calls) ==
            if (Gets(calls) <= |es| || UnopenedEmpty(buf, be, es)) && FirstPairsFit(es, Gets(calls))
            then Done(DictAnswers(KeyPos(buf, be), es, calls)) else Fault
  {
    var left := Left(KeyPos(buf, be), es, UnopenedEmpty(buf, be, es));
    forall be', left', call | DictRelation(buf)(be', left')
      ensures Agree(DictCalls(buf)(be', call), EntryCalls()(left', call), DictRelation(buf))
    {
      DictCallAgrees(buf, be', left', call);
    }
    SameAnswers(DictCalls(buf), EntryCalls(), DictRelation(buf), be, left, calls);
    EntriesAnswer(left, calls);
  }

  /** The entries of a dictionary at offset `p`, in buffer order. */
  function EntriesAt(p: int, es: seq<Pair>): seq<DictReply>
    decreases |es|
  {
    if es == [] then [] else [EntryAt(p, es[0])] + EntriesAt(PairEnd(p, es[0]), es[1..])
  }

  function Found(replies: seq<DictReply>): seq<DictReply> {
    if replies == [] then []
    else if replies[0].Entry? then [replies[0]] + Found(replies[1..])
    else Found(replies[1..])
  }

  /** The successful answers are the first entries in buffer order, each once. */
  lemma {:induction false} FoundAreFirst(p: int, es: seq<Pair>, calls: seq<Call>)
    ensures var n := Gets(calls);
            Found(DictAnswers(p, es, calls)) == if n <= |es| then EntriesAt(p, es[..n]) else EntriesAt(p, es)
    decreases |calls|
  {
    if calls == [] {
    } else if calls[0].HasNext? || es == [] {
      FoundAreFirst(p, es, calls[1..]);
    } else {
      FoundAreFirst(PairEnd(p, es[0]), es[1..], calls[1..]);
      if Gets(calls) <= |es| {
        assert es[..Gets(calls)][1..] == es[1..][..Gets(calls[1..])];
      }
    }
  }
}
