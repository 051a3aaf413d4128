/** Whole-run properties of the heapless reader. */
module CursorTheorems {
  import opened Bytes
  import opened Grammar
  import opened Loose
  import opened CursorModel
  import opened CursorProofs

  // ------------------------------------------------------------- validation

  lemma {:induction false} ValidateExact(buf: Bytes, be: Cur, v: Item)
    requires ItemCursor(buf, be, v) && Fits(v)
    ensures Validate(buf, be.str, be.len) == Done(0)
    decreases v, 2
  {
    assert be == Init(be.str, be.len);
    match v
    case Num(neg, zeros, n) => IntItem(buf, be, neg, zeros, n);
    case Txt(zeros, s) => StringItem(buf, be, zeros, s);
    case Seq(vs) =>
      OpenList(buf, be, vs);
      ValidateListExact(buf, be, vs);
    case Map(es) =>
      OpenDict(buf, be, es);
      ValidateDictExact(buf, be, es);
  }

  lemma {:induction false} ValidateDictExact(buf: Bytes, be: Cur, es: seq<Pair>)
    requires DictCursor(buf, be, es) && PairsFit(es)
    ensures ValidateDict(buf, be) == Done(0)
    decreases es, 1
  {
    DictStepExact(buf, be, es);
    if es == [] {
    } else {
      StepOverIs(buf, be, es);
      assert es[0].val < es[0];
      var step := StepOver(buf, be, es[0]);
      ValidateExact(buf, step.item, es[0].val);
      ValidateDictExact(buf, step.be, es[1..]);
    }
  }

  lemma {:induction false} ValidateListExact(buf: Bytes, be: Cur, vs: seq<Item>)
    requires ListCursor(buf, be, vs) && AllFit(vs)
    ensures ValidateList(buf, be) == Done(0)
    decreases vs, 1
  {
    ListStepExact(buf, be, vs);
    if vs == [] {
    } else {
      StepOverItemIs(buf, be, vs);
      var step := StepOverItem(be, vs[0]);
      ValidateExact(buf, step.item, vs[0]);
      ValidateListExact(buf, step.be, vs[1..]);
    }
  }

  lemma WholeBuffer(v: Item, rest: Bytes, len: int)
    requires |Text(v)| <= len <= INT_MAX
    ensures ItemCursor(Text(v) + rest, Init(0, len), v)
  {
    assert (Text(v) + rest)[0..|Text(v)|] == Text(v);
  }

  // ------------------------------------------- the reader against the decoder

  /** A client that reads a whole item through the cursor interface. */
  function Walk(buf: Bytes, str: int, len: int): Run<Value>
    decreases Left(buf, str), 3
  {
    var be := Init(str, len);
    var isDict :- Starts(buf, be, LOWER_D);
    if isDict then
      var es :- WalkDict(buf, be);
      Done(Dict(es))
    else
      var isList :- Starts(buf, be, LOWER_L);
      if isList then
        var vs :- WalkList(buf, be);
        Done(List(vs))
      else
        var isString :- IsString(buf, be);
        if isString then
          var sv :- StringValue(buf, be);
          var _ :- Assert(sv.Some? && 0 <= sv.value.0 && sv.value.0 + sv.value.1 <= |buf|);
          Done(Str(buf[sv.value.0..sv.value.0 + sv.value.1]))
        else
          var iv :- IntValue(buf, be);
          var _ :- Assert(iv.Some?);
          Done(Int(iv.value))
  }

  function WalkDict(buf: Bytes, be: Cur): Run<seq<Entry>>
    decreases Left(buf, be.str), 2
  {
    var more :- DictHasNext(buf, be);
    if !more then Done([])
    else
      var step :- DictGetNext(buf, be);
      var _ :- Assert(step.ret && step.key + step.klen <= |buf|);
      var v :- Walk(buf, step.item.str, step.item.len);
      var es :- WalkDict(buf, step.be);
      Done([Entry(buf[step.key..step.key + step.klen], v)] + es)
  }

  function WalkList(buf: Bytes, be: Cur): Run<seq<Value>>
    decreases Left(buf, be.str), if Opening(buf, be) then 2 else 5
  {
    var (more, be') :- ListHasNext(buf, be);
    if !more then Done([])
    else
      var step :- ListGetNext(buf, be);
      var _ :- Assert(step.ret == 1);
      var v :- Walk(buf, step.item.str, step.item.len);
      var vs :- WalkList(buf, step.be);
      Done([v] + vs)
  }

  lemma {:induction false} WalkExact(buf: Bytes, be: Cur, v: Item)
    requires ItemCursor(buf, be, v) && Fits(v)
    ensures Walk(buf, be.str, be.len) == Done(Meaning(v))
    decreases v, 2
  {
    assert be == Init(be.str, be.len);
    match v
    case Num(neg, zeros, n) => IntItem(buf, be, neg, zeros, n);
    case Txt(zeros, s) =>
      StringItem(buf, be, zeros, s);
      HoldsSlice(buf, TextPos(be.str, zeros, s), s);
    case Seq(vs) =>
      OpenList(buf, be, vs);
      WalkListExact(buf, be, vs);
    case Map(es) =>
      OpenDict(buf, be, es);
      WalkDictExact(buf, be, es);
  }

  lemma {:induction false} WalkDictExact(buf: Bytes, be: Cur, es: seq<Pair>)
    requires DictCursor(buf, be, es) && PairsFit(es)
    ensures WalkDict(buf, be) == Done(PairMeanings(es))
    decreases es, 1
  {
    DictStepExact(buf, be, es);
    if es == [] {
    } else {
      StepOverIs(buf, be, es);
      NextEntry(buf, be, es);
      EntryParts(buf, KeyPos(buf, be), es[0]);
      assert es[0].val < es[0];
      var step := StepOver(buf, be, es[0]);
      WalkExact(buf, step.item, es[0].val);
      WalkDictExact(buf, step.be, es[1..]);
      WalkDictUnfold(buf, be, step, PairMeaning(es[0]), PairMeanings(es[1..]));
    }
  }

  lemma WalkDictUnfold(buf: Bytes, be: Cur, step: DictStep, e: Entry, es: seq<Entry>)
    requires DictHasNext(buf, be) == Done(true) && DictGetNext(buf, be) == Done(step) && step.ret
    requires step.klen == |e.key| && Holds(buf, step.key, e.key)
    requires Walk(buf, step.item.str, step.item.len) == Done(e.val)
    requires WalkDict(buf, step.be) == Done(es)
    ensures WalkDict(buf, be) == Done([e] + es)
  {
    HoldsSlice(buf, step.key, e.key);
  }

  lemma {:induction false} WalkListExact(buf: Bytes, be: Cur, vs: seq<Item>)
    requires ListCursor(buf, be, vs) && AllFit(vs)
    ensures WalkList(buf, be) == Done(Meanings(vs))
    decreases vs, 1
  {
    ListStepExact(buf, be, vs);
    if vs == [] {
    } else {
      StepOverItemIs(buf, be, vs);
      var step := StepOverItem(be, vs[0]);
      WalkExact(buf, step.item, vs[0]);
      WalkListExact(buf, step.be, vs[1..]);
    }
  }

  // ------------------------------------------------------- chains of cursors

  /** What a cursor has before it. */
  datatype Focus = OnItem(v: Item) | InDict(es: seq<Pair>) | InList(vs: seq<Item>)

  /** A client moves along a container or takes the cursor over its next item. */
  datatype Move = DictNext | DictEnter | ListNext | ListEnter

  predicate Placed(buf: Bytes, be: Cur, focus: Focus) {
    match focus
    case OnItem(v) => ItemCursor(buf, be, v) && Fits(v)
    case InDict(es) => DictCursor(buf, be, es) && PairsFit(es)
    case InList(vs) => ListCursor(buf, be, vs) && AllFit(vs)
  }

  function Entries(focus: Focus): seq<Pair> {
    match focus
    case OnItem(Map(es)) => es
    case InDict(es) => es
    case _ => []
  }

  function Items(focus: Focus): seq<Item> {
    match focus
    case OnItem(Seq(vs)) => vs
    case InList(vs) => vs
    case _ => []
  }

  predicate CanMove(focus: Focus, m: Move) {
    if m.DictNext? || m.DictEnter? then Entries(focus) != [] else Items(focus) != []
  }

  function FocusAfter(focus: Focus, m: Move): Focus
    requires CanMove(focus, m)
  {
    match m
    case DictNext => InDict(Entries(focus)[1..])
    case DictEnter => OnItem(Entries(focus)[0].val)
    case ListNext => InList(Items(focus)[1..])
    case ListEnter => OnItem(Items(focus)[0])
  }

  predicate CanFollow(focus: Focus, moves: seq<Move>)
    decreases |moves|
  {
    moves == [] || (CanMove(focus, moves[0]) && CanFollow(FocusAfter(focus, moves[0]), moves[1..]))
  }

  function FinalFocus(focus: Focus, moves: seq<Move>): Focus
    requires CanFollow(focus, moves)
    decreases |moves|
  {
    if moves == [] then focus else FinalFocus(FocusAfter(focus, moves[0]), moves[1..])
  }

  function Step(buf: Bytes, be: Cur, m: Move): Run<Cur> {
    if m.DictNext? || m.DictEnter? then
      var step :- DictGetNext(buf, be);
      Done(if m.DictNext? then step.be else step.item)
    else
      var step :- ListGetNext(buf, be);
      Done(if m.ListNext? then step.be else step.item)
  }

  function Follow(buf: Bytes, be: Cur, moves: seq<Move>): Run<Cur>
    decreases |moves|
  {
    if moves == [] then Done(be)
    else
      var next :- Step(buf, be, moves[0]);
      Follow(buf, next, moves[1..])
  }

  lemma OpenFocus(buf: Bytes, be: Cur, focus: Focus)
    requires Placed(buf, be, focus)
    ensures Entries(focus) != [] ==> DictCursor(buf, be, Entries(focus)) && PairsFit(Entries(focus))
    ensures Items(focus) != [] ==> ListCursor(buf, be, Items(focus)) && AllFit(Items(focus))
  {
    match focus
    case OnItem(Map(es)) => OpenDict(buf, be, es);
    case OnItem(Seq(vs)) => OpenList(buf, be, vs);
    case _ =>
  }

  lemma StepStaysPlaced(buf: Bytes, be: Cur, focus: Focus, m: Move)
    requires Placed(buf, be, focus) && 0 < be.len && CanMove(focus, m)
    ensures Step(buf, be, m).Done?
    ensures Placed(buf, Step(buf, be, m).value, FocusAfter(focus, m))
    ensures 0 < Step(buf, be, m).value.len <= be.len
  {
    OpenFocus(buf, be, focus);
    if m.DictNext? || m.DictEnter? {
      DictStepExact(buf, be, Entries(focus));
      StepOverIs(buf, be, Entries(focus));
    } else {
      ListStepExact(buf, be, Items(focus));
      StepOverItemIs(buf, be, Items(focus));
    }
  }

  /** Through any chain of get_next calls and nested item cursors the carried length stays
      in 1..len, and the end it claims never falls short of the end of what is before the
      cursor: so no string is rejected and no loop stops early. */
  lemma {:induction false} ChainsStayPlaced(buf: Bytes, be: Cur, focus: Focus, moves: seq<Move>)
    requires Placed(buf, be, focus) && 0 < be.len && CanFollow(focus, moves)
    ensures Follow(buf, be, moves).Done?
    ensures Placed(buf, Follow(buf, be, moves).value, FinalFocus(focus, moves))
    ensures 0 < Follow(buf, be, moves).value.len <= be.len
    decreases |moves|
  {
    if moves == [] {
    } else {
      StepStaysPlaced(buf, be, focus, moves[0]);
      ChainsStayPlaced(buf, Step(buf, be, moves[0]).value, FocusAfter(focus, moves[0]), moves[1..]);
    }
  }

  // -------------------------------------------------------- dictionary span

  /** bencode_dict_get_start_and_len on a fresh cursor gives exactly the bytes of the
      dictionary, unless it is empty: then the length comes out as 1 instead of 2. */
  lemma DictSpan(buf: Bytes, be: Cur, es: seq<Pair>)
    requires ItemCursor(buf, be, Map(es)) && PairsFit(es)
    ensures DictStartAndLen(buf, be) == Done((be.str, if es == [] then 1 else |Text(Map(es))|))
    ensures DictStartAndLen(buf, be).value.1 == |Text(Map(es))| <==> es != []
  {
    OpenDict(buf, be, es);
    DrainDictExact(buf, be, es);
  }
}
