/** What the heapless reader does on well-formed text, superfluous zeros included. */
module CursorProofs {
  import opened Bytes
  import opened Loose
  import opened CursorModel

  // ---------------------------------------------------------------- numerals

  /** A digit loop over `t` followed by another byte reads exactly `t`. */
  lemma {:induction false} DigitLoop(buf: Bytes, sp: int, t: Bytes, acc: nat, limit: int)
    requires Holds(buf, sp, t) && AllDigits(t)
    requires sp + |t| < |buf| && !IsDigit(buf[sp + |t|])
    requires Accumulate(t, acc) <= limit
    ensures ReadDigits(buf, sp, acc, limit) == Done((sp + |t|, Accumulate(t, acc)))
    decreases t
  {
    if t == [] {
    } else {
      HoldsSplit(buf, sp, [t[0]], t[1..]);
      assert [t[0]] + t[1..] == t;
      HoldsFirst(buf, sp, t);
      AccumulateGrows(t[1..], acc * 10 + Digit(t[0]));
      DigitLoop(buf, sp + 1, t[1..], acc * 10 + Digit(t[0]), limit);
    }
  }

  lemma {:induction false} DigitScan(buf: Bytes, sp: int, t: Bytes)
    requires Holds(buf, sp, t) && AllDigits(t)
    requires sp + |t| < |buf| && !IsDigit(buf[sp + |t|])
    ensures DigitsEnd(buf, sp) == Done(sp + |t|)
    decreases t
  {
    if t == [] {
    } else {
      HoldsSplit(buf, sp, [t[0]], t[1..]);
      assert [t[0]] + t[1..] == t;
      HoldsFirst(buf, sp, t);
      DigitScan(buf, sp + 1, t[1..]);
    }
  }

  lemma ReadIntExact(buf: Bytes, sp: int, neg: bool, zeros: nat, n: nat)
    requires Holds(buf, sp, NumText(neg, zeros, n)) && n <= LONG_MAX
    requires sp + |NumText(neg, zeros, n)| < |buf| && !IsDigit(buf[sp + |NumText(neg, zeros, n)|])
    ensures ReadStringInt(buf, sp) == Done(Some((sp + |NumText(neg, zeros, n)|, Amount(neg, n))))
  {
    var t := Digits(zeros, n);
    DigitsValue(zeros, n);
    if neg {
      HoldsSplit(buf, sp, [MINUS], t);
      HoldsFirst(buf, sp, [MINUS]);
      HoldsFirst(buf, sp + 1, t);
      DigitLoop(buf, sp + 1, t, 0, LONG_MAX);
    } else {
      HoldsFirst(buf, sp, t);
      DigitLoop(buf, sp, t, 0, LONG_MAX);
    }
  }

  lemma {:induction false} DigitLoopOverflows(buf: Bytes, sp: int, t: Bytes, acc: nat, limit: nat)
    requires Holds(buf, sp, t) && AllDigits(t)
    requires acc <= limit < Accumulate(t, acc)
    ensures ReadDigits(buf, sp, acc, limit) == Fault
    decreases t
  {
    HoldsSplit(buf, sp, [t[0]], t[1..]);
    assert [t[0]] + t[1..] == t;
    HoldsFirst(buf, sp, t);
    if acc * 10 + Digit(t[0]) <= limit {
      DigitLoopOverflows(buf, sp + 1, t[1..], acc * 10 + Digit(t[0]), limit);
    }
  }

  /** __read_string_int returns the number and stops at the byte after its numeral, without
      a fault, exactly when its magnitude is at most 2^63-1, however many zeros lead it; a
      larger number overflows. */
  lemma ReadIntIffInRange(buf: Bytes, sp: int, neg: bool, zeros: nat, n: nat)
    requires Holds(buf, sp, NumText(neg, zeros, n))
    requires sp + |NumText(neg, zeros, n)| < |buf| && !IsDigit(buf[sp + |NumText(neg, zeros, n)|])
    ensures ReadStringInt(buf, sp) ==
            if n <= LONG_MAX then Done(Some((sp + |NumText(neg, zeros, n)|, Amount(neg, n)))) else Fault
  {
    if n <= LONG_MAX {
      ReadIntExact(buf, sp, neg, zeros, n);
    } else {
      var t := Digits(zeros, n);
      DigitsValue(zeros, n);
      if neg {
        HoldsSplit(buf, sp, [MINUS], t);
        HoldsFirst(buf, sp, [MINUS]);
        HoldsFirst(buf, sp + 1, t);
        DigitLoopOverflows(buf, sp + 1, t, 0, LONG_MAX);
      } else {
        HoldsFirst(buf, sp, t);
        DigitLoopOverflows(buf, sp, t, 0, LONG_MAX);
      }
    }
  }

  /** Where the bytes of a string written at `sp` begin. */
  function TextPos(sp: int, zeros: nat, s: Bytes): int { sp + |StrText(zeros, s)| - |s| }

  /** A length prefix is read exactly, and a string recognised by it, for at most 2^31-1
      bytes; a longer string has a length that does not fit an int. */
  lemma ReadLenIffInRange(buf: Bytes, sp: int, zeros: nat, s: Bytes)
    requires Holds(buf, sp, StrText(zeros, s))
    ensures ReadStringLen(buf, sp) == if |s| <= INT_MAX then Done((TextPos(sp, zeros, s), |s|)) else Fault
    ensures Holds(buf, TextPos(sp, zeros, s), s)
    ensures IsString(buf, Cur(sp, sp, 1)) == Done(true)
    ensures IsDigit(buf[sp])
  {
    var t := Digits(zeros, |s|);
    assert StrText(zeros, s) == t + ([COLON] + s);
    HoldsSplit(buf, sp, t, [COLON] + s);
    HoldsSplit(buf, sp + |t|, [COLON], s);
    HoldsFirst(buf, sp + |t|, [COLON]);
    HoldsFirst(buf, sp, t);
    DigitsValue(zeros, |s|);
    DigitScan(buf, sp, t);
    if |s| <= INT_MAX {
      DigitLoop(buf, sp, t, 0, INT_MAX);
    } else {
      DigitLoopOverflows(buf, sp, t, 0, INT_MAX);
    }
  }

  // ----------------------------------------------------------- cursor states

  /** The length of the cursor is an int, and the end it claims for its buffer does not fall
      short of `end`. */
  predicate Covers(be: Cur, end: int) { end <= be.start + be.len && be.len <= INT_MAX }

  /** The carried length: an item cursor claims at least as much as its parent, and exactly
      as much only when the parent is still at its start. */
  predicate ClaimsMore(item: Cur, be: Cur) {
    be.start + be.len <= item.start + item.len &&
    (be.start + be.len == item.start + item.len <==> be.str == be.start)
  }

  /** Where the next key of a dictionary, or its closing byte, is. */
  function KeyPos(buf: Bytes, be: Cur): int {
    if Deref(buf, be.str) == Done(LOWER_D) then be.str + 1 else be.str
  }

  /** Where the next item of a list, or its closing byte, is. */
  function ItemPos(be: Cur): int { if be.str == be.start then be.str + 1 else be.str }

  /** A cursor over a dictionary with entries `es` still to come: it stands at its opening
      byte, or at the next key, or at the closing byte. */
  predicate DictCursor(buf: Bytes, be: Cur, es: seq<Pair>) {
    0 <= be.start <= be.str && Holds(buf, KeyPos(buf, be), MapTail(es)) &&
    Covers(be, KeyPos(buf, be) + |MapTail(es)|)
  }

  /** A cursor whose next entry is `e`, whatever follows it. */
  predicate EntryCursor(buf: Bytes, be: Cur, e: Pair) {
    0 <= be.start <= be.str && Holds(buf, KeyPos(buf, be), PairText(e)) &&
    Covers(be, PairEnd(KeyPos(buf, be), e))
  }

  /** A cursor over a list with items `vs` still to come. */
  predicate ListCursor(buf: Bytes, be: Cur, vs: seq<Item>) {
    0 <= be.start <= be.str && (be.str == be.start ==> Deref(buf, be.str) == Done(LOWER_L)) &&
    Holds(buf, ItemPos(be), SeqTail(vs)) && Covers(be, ItemPos(be) + |SeqTail(vs)|)
  }

  /** The text of `v` stands in `buf` at offset `p`. */
  predicate Stands(buf: Bytes, p: int, v: Item) { Holds(buf, p, Text(v)) }

  /** A list cursor whose next item is `v`, whatever follows it. */
  predicate NextItemCursor(buf: Bytes, be: Cur, v: Item) {
    0 <= be.start <= be.str && (be.str == be.start ==> Deref(buf, be.str) == Done(LOWER_L)) &&
    Stands(buf, ItemPos(be), v) && Covers(be, ItemPos(be) + |Text(v)|)
  }

  /** A cursor that stands at the start of `v`, as item cursors do. */
  predicate ItemCursor(buf: Bytes, be: Cur, v: Item) {
    be.str == be.start && Stands(buf, be.str, v) && Covers(be, be.str + |Text(v)|)
  }

  // -------------------------------------------------------------- the skips

  lemma StringItem(buf: Bytes, be: Cur, zeros: nat, s: Bytes)
    requires ItemCursor(buf, be, Txt(zeros, s)) && |s| <= INT_MAX
    ensures Starts(buf, be, LOWER_D) == Starts(buf, be, LOWER_L) == Done(false)
    ensures IsString(buf, be) == Done(true)
    ensures StringValue(buf, be) == Done(Some((TextPos(be.str, zeros, s), |s|)))
    ensures Holds(buf, TextPos(be.str, zeros, s), s)
  {
    ReadLenIffInRange(buf, be.str, zeros, s);
  }

  /** A number that fits is read, and one that does not overflows. */
  lemma IntItem(buf: Bytes, be: Cur, neg: bool, zeros: nat, n: nat)
    requires be.str == be.start && Stands(buf, be.str, Num(neg, zeros, n))
    ensures Starts(buf, be, LOWER_D) == Starts(buf, be, LOWER_L) == Done(false)
    ensures IsString(buf, be) == Done(false) && Starts(buf, be, LOWER_I) == Done(true)
    ensures var end := be.str + |Text(Num(neg, zeros, n))| - 1;
            ReadStringInt(buf, be.str + 1) == (if n <= LONG_MAX then Done(Some((end, Amount(neg, n)))) else Fault) &&
            Deref(buf, end) == Done(LOWER_E)
    ensures IntValue(buf, be) == if n <= LONG_MAX then Done(Some(Amount(neg, n))) else Fault
  {
    var sp, t := be.str, NumText(neg, zeros, n);
    assert Text(Num(neg, zeros, n)) == [LOWER_I] + (t + [LOWER_E]);
    HoldsSplit(buf, sp, [LOWER_I], t + [LOWER_E]);
    HoldsSplit(buf, sp + 1, t, [LOWER_E]);
    HoldsFirst(buf, sp, [LOWER_I]);
    HoldsFirst(buf, sp + 1 + |t|, [LOWER_E]);
    HoldsFirst(buf, sp + 1, t);
    ReadIntIffInRange(buf, sp + 1, neg, zeros, n);
  }

  lemma FirstByte(buf: Bytes, p: int, bytes: Bytes)
    requires Holds(buf, p, bytes) && bytes != []
    ensures Deref(buf, p) == Done(bytes[0])
  {
    HoldsFirst(buf, p, bytes);
  }

  /** What stands between `sp` and `end` lies ahead of the cursor and within its length. */
  predicate Reaches(be: Cur, sp: int, end: int) {
    0 < be.len <= INT_MAX && be.str <= sp < end <= be.str + be.len
  }

  /** The cursor over what stands at `sp`, with the length it carries over. */
  function Over(be: Cur, sp: int): Cur { Init(sp, be.len - (sp - be.str)) }

  lemma CarryIs(be: Cur, sp: int, end: int)
    requires Reaches(be, sp, end)
    ensures Carry(be, sp) == Done(Over(be, sp).len)
  {
  }

  /** The branch of __iterate_to_next_string_pos for a dictionary, once its loop has run. */
  lemma SkipDict(buf: Bytes, be: Cur, sp: int, end: int)
    requires Carry(be, sp) == Done(Over(be, sp).len) && Deref(buf, sp) == Done(LOWER_D)
    requires DrainDict(buf, Over(be, sp)) == Done(Some(Over(be, sp).(str := end)))
    requires if end == sp then Deref(buf, sp + 1) == Done(LOWER_E) else Deref(buf, end) == Done(LOWER_E)
    ensures NextStringPos(buf, be, sp) == Done(if end == sp then sp + 2 else end + 1)
  {
  }

  lemma SkipList(buf: Bytes, be: Cur, sp: int, end: int)
    requires Carry(be, sp) == Done(Over(be, sp).len) && Deref(buf, sp) == Done(LOWER_L)
    requires DrainList(buf, Over(be, sp)) == Done(Some(Over(be, sp).(str := end)))
    ensures NextStringPos(buf, be, sp) == Done(end + 1)
  {
  }

  lemma SkipStr(buf: Bytes, be: Cur, sp: int, zeros: nat, s: Bytes)
    requires |s| <= INT_MAX
    requires Reaches(be, sp, sp + |Text(Txt(zeros, s))|) && Stands(buf, sp, Txt(zeros, s))
    ensures NextStringPos(buf, be, sp) == Done(sp + |Text(Txt(zeros, s))|)
  {
    CarryIs(be, sp, sp + |Text(Txt(zeros, s))|);
    StringItem(buf, Over(be, sp), zeros, s);
  }

  lemma SkipInt(buf: Bytes, be: Cur, sp: int, neg: bool, zeros: nat, n: nat)
    requires n <= LONG_MAX
    requires Reaches(be, sp, sp + |Text(Num(neg, zeros, n))|) && Stands(buf, sp, Num(neg, zeros, n))
    ensures NextStringPos(buf, be, sp) == Done(sp + |Text(Num(neg, zeros, n))|)
  {
    CarryIs(be, sp, sp + |Text(Num(neg, zeros, n))|);
    IntItem(buf, Over(be, sp), neg, zeros, n);
  }

  lemma OpenList(buf: Bytes, be: Cur, vs: seq<Item>)
    requires ItemCursor(buf, be, Seq(vs))
    ensures ListCursor(buf, be, vs) && Starts(buf, be, LOWER_L) == Done(true)
    ensures Starts(buf, be, LOWER_D) == Done(false)
    ensures ItemPos(be) + |SeqTail(vs)| == be.str + |Text(Seq(vs))|
  {
    HoldsSplit(buf, be.str, [LOWER_L], SeqTail(vs));
    FirstByte(buf, be.str, [LOWER_L]);
  }

  lemma OpenDict(buf: Bytes, be: Cur, es: seq<Pair>)
    requires ItemCursor(buf, be, Map(es))
    ensures DictCursor(buf, be, es) && Starts(buf, be, LOWER_D) == Done(true)
    ensures KeyPos(buf, be) == be.str + 1
    ensures KeyPos(buf, be) + |MapTail(es)| == be.str + |Text(Map(es))|
    ensures Deref(buf, be.str + 1) == Done(MapTail(es)[0])
  {
    HoldsSplit(buf, be.str, [LOWER_D], MapTail(es));
    FirstByte(buf, be.str, [LOWER_D]);
    FirstByte(buf, be.str + 1, MapTail(es));
  }

  /** __iterate_to_next_string_pos, started at any item whose numbers fit and whatever
      follows it, returns the position just past it. */
  lemma {:induction false} SkipExact(buf: Bytes, be: Cur, sp: int, v: Item)
    requires Stands(buf, sp, v) && Fits(v)
    requires Reaches(be, sp, sp + |Text(v)|)
    ensures NextStringPos(buf, be, sp) == Done(sp + |Text(v)|)
    decreases v, 3
  {
    match v
    case Num(neg, zeros, n) => SkipInt(buf, be, sp, neg, zeros, n);
    case Txt(zeros, s) => SkipStr(buf, be, sp, zeros, s);
    case Seq(vs) => SkipListExact(buf, be, sp, vs);
    case Map(es) => SkipDictExact(buf, be, sp, es);
  }

  lemma {:induction false} SkipListExact(buf: Bytes, be: Cur, sp: int, vs: seq<Item>)
    requires Stands(buf, sp, Seq(vs)) && AllFit(vs)
    requires Reaches(be, sp, sp + |Text(Seq(vs))|)
    ensures NextStringPos(buf, be, sp) == Done(sp + |Text(Seq(vs))|)
    decreases vs, 2
  {
    var iter := Over(be, sp);
    CarryIs(be, sp, sp + |Text(Seq(vs))|);
    OpenList(buf, iter, vs);
    DrainListExact(buf, iter, vs);
    SkipList(buf, be, sp, sp + |SeqTail(vs)|);
  }

  lemma {:induction false} SkipDictExact(buf: Bytes, be: Cur, sp: int, es: seq<Pair>)
    requires Stands(buf, sp, Map(es)) && PairsFit(es)
    requires Reaches(be, sp, sp + |Text(Map(es))|)
    ensures NextStringPos(buf, be, sp) == Done(sp + |Text(Map(es))|)
    decreases es, 2
  {
    var iter := Over(be, sp);
    CarryIs(be, sp, sp + |Text(Map(es))|);
    OpenDict(buf, iter, es);
    DrainDictExact(buf, iter, es);
    if es != [] {
      DrainEndByte(buf, iter, es);
    }
    SkipDict(buf, be, sp, DrainEnd(buf, iter, es));
  }

  lemma DictHead(buf: Bytes, be: Cur, es: seq<Pair>)
    requires DictCursor(buf, be, es)
    ensures be.str <= KeyPos(buf, be) <= be.str + 1
    ensures Deref(buf, KeyPos(buf, be)) == Done(MapTail(es)[0])
    ensures DictHasNext(buf, be) == Done(es != [])
    ensures KeyPos(buf, be) != be.str ==> Deref(buf, be.str) == Done(LOWER_D)
  {
    FirstByte(buf, KeyPos(buf, be), MapTail(es));
  }

  lemma NextEntry(buf: Bytes, be: Cur, es: seq<Pair>)
    requires DictCursor(buf, be, es) && es != []
    ensures EntryCursor(buf, be, es[0])
    ensures var p := KeyPos(buf, be);
            Holds(buf, PairEnd(p, es[0]), MapTail(es[1..])) &&
            Deref(buf, PairEnd(p, es[0])) == Done(MapTail(es[1..])[0]) &&
            PairEnd(p, es[0]) + |MapTail(es[1..])| == p + |MapTail(es)|
  {
    var p := KeyPos(buf, be);
    HoldsSplit(buf, p, PairText(es[0]), MapTail(es[1..]));
    FirstByte(buf, PairEnd(p, es[0]), MapTail(es[1..]));
  }

  lemma EntryParts(buf: Bytes, p: int, e: Pair)
    requires Holds(buf, p, PairText(e))
    ensures Deref(buf, p).Done? && IsDigit(buf[p])
    ensures Holds(buf, p, StrText(e.zeros, e.key)) && Stands(buf, ValPos(p, e), e.val)
    ensures Holds(buf, TextPos(p, e.zeros, e.key), e.key)
    ensures ValPos(p, e) + |Text(e.val)| == PairEnd(p, e)
  {
    PairParts(buf, p, e);
    ReadLenIffInRange(buf, p, e.zeros, e.key);
  }

  lemma EntryHead(buf: Bytes, be: Cur, e: Pair)
    requires EntryCursor(buf, be, e)
    ensures be.str <= KeyPos(buf, be) <= be.str + 1
    ensures DictHasNext(buf, be) == Done(true)
    ensures Reaches(be, ValPos(KeyPos(buf, be), e), PairEnd(KeyPos(buf, be), e))
    ensures |e.key| <= INT_MAX
    ensures var p := KeyPos(buf, be);
            ReadKey(buf, be) == Done(Some((TextPos(p, e.zeros, e.key), |e.key|))) &&
            TextPos(p, e.zeros, e.key) + |e.key| == ValPos(p, e)
  {
    var p := KeyPos(buf, be);
    EntryParts(buf, p, e);
    assert |StrText(e.zeros, e.key)| > |e.key|;
    ReadLenIffInRange(buf, p, e.zeros, e.key);
    ReadKeyIs(buf, be, TextPos(p, e.zeros, e.key), |e.key|);
  }

  lemma ReadKeyIs(buf: Bytes, be: Cur, key: int, klen: int)
    requires var p := KeyPos(buf, be);
             Deref(buf, be.str).Done? && Deref(buf, p).Done? && Deref(buf, p).value != LOWER_E &&
             ReadStringLen(buf, p) == Done((key, klen))
    ensures ReadKey(buf, be) == Done(Some((key, klen)))
  {
  }

  /** The step over the entry `e`: its key, a cursor over its value, and the rest. */
  function StepOver(buf: Bytes, be: Cur, e: Pair): DictStep {
    var p := KeyPos(buf, be);
    DictStep(true, be.(str := PairEnd(p, e)), TextPos(p, e.zeros, e.key), |e.key|, Over(be, ValPos(p, e)))
  }

  lemma StepOverIs(buf: Bytes, be: Cur, es: seq<Pair>)
    requires DictCursor(buf, be, es) && es != []
    ensures var step := StepOver(buf, be, es[0]);
            ItemCursor(buf, step.item, es[0].val) && 0 < step.item.len <= be.len &&
            ClaimsMore(step.item, be) && DictCursor(buf, step.be, es[1..]) && KeyPos(buf, step.be) == step.be.str
  {
    NextEntry(buf, be, es);
    StepItemIs(buf, be, es[0]);
  }

  lemma StepItemIs(buf: Bytes, be: Cur, e: Pair)
    requires EntryCursor(buf, be, e)
    ensures var item := StepOver(buf, be, e).item;
            ItemCursor(buf, item, e.val) && 0 < item.len <= be.len && ClaimsMore(item, be)
  {
    EntryHead(buf, be, e);
    EntryParts(buf, KeyPos(buf, be), e);
  }

  /** bencode_dict_get_next at any entry whose numbers fit, whatever follows it. */
  lemma {:induction false} EntryStepExact(buf: Bytes, be: Cur, e: Pair)
    requires EntryCursor(buf, be, e) && PairFits(e)
    ensures DictHasNext(buf, be) == Done(true)
    ensures DictGetNext(buf, be) == Done(StepOver(buf, be, e))
    decreases e, 0
  {
    var step := StepOver(buf, be, e);
    EntryHead(buf, be, e);
    EntryParts(buf, KeyPos(buf, be), e);
    SkipExact(buf, be, step.item.str, e.val);
    CarryIs(be, step.item.str, step.be.str);
    DictGetNextFrom(buf, be, step.key, step.klen);
  }

  /** bencode_dict_has_next answers whether an entry is left, and bencode_dict_get_next
      yields its key, a cursor over its value and the cursor over the rest. */
  lemma {:induction false} DictStepExact(buf: Bytes, be: Cur, es: seq<Pair>)
    requires DictCursor(buf, be, es) && (es != [] ==> PairFits(es[0]))
    ensures DictHasNext(buf, be) == Done(es != [])
    ensures es != [] ==> DictGetNext(buf, be) == Done(StepOver(buf, be, es[0]))
    decreases es, 0
  {
    DictHead(buf, be, es);
    if es == [] {
    } else {
      NextEntry(buf, be, es);
      EntryStepExact(buf, be, es[0]);
    }
  }

  /** Where the loop over a dictionary ends: at its closing byte, but an empty dictionary
      that is not yet opened is not moved into. */
  function DrainEnd(buf: Bytes, be: Cur, es: seq<Pair>): int {
    if es == [] then be.str else KeyPos(buf, be) + |MapTail(es)| - 1
  }

  lemma DrainEndSteps(buf: Bytes, be: Cur, es: seq<Pair>)
    requires DictCursor(buf, be, es) && es != []
    ensures DrainEnd(buf, StepOver(buf, be, es[0]).be, es[1..]) == DrainEnd(buf, be, es)
  {
    StepOverIs(buf, be, es);
    NextEntry(buf, be, es);
  }

  lemma DrainEndByte(buf: Bytes, be: Cur, es: seq<Pair>)
    requires DictCursor(buf, be, es) && es != []
    ensures Deref(buf, DrainEnd(buf, be, es)) == Done(LOWER_E)
  {
    var p, n := KeyPos(buf, be), |MapTail(es)|;
    assert buf[p + (n - 1)] == MapTail(es)[n - 1];
  }

  lemma {:induction false} DrainDictExact(buf: Bytes, be: Cur, es: seq<Pair>)
    requires DictCursor(buf, be, es) && PairsFit(es)
    ensures DrainDict(buf, be) == Done(Some(be.(str := DrainEnd(buf, be, es))))
    decreases es, 1
  {
    DictStepExact(buf, be, es);
    if es == [] {
      assert DrainDict(buf, be) == Done(Some(be));
    } else {
      var step := StepOver(buf, be, es[0]);
      StepOverIs(buf, be, es);
      DrainEndSteps(buf, be, es);
      DrainDictExact(buf, step.be, es[1..]);
      DrainDictUnfold(buf, be, step);
    }
  }

  lemma DrainDictUnfold(buf: Bytes, be: Cur, step: DictStep)
    requires DictHasNext(buf, be) == Done(true) && DictGetNext(buf, be) == Done(step) && step.ret
    ensures DrainDict(buf, be) == DrainDict(buf, step.be)
  {
  }

  lemma ListHead(buf: Bytes, be: Cur, vs: seq<Item>)
    requires ListCursor(buf, be, vs)
    ensures be.start < ItemPos(be) <= be.str + 1
    ensures Deref(buf, ItemPos(be)) == Done(SeqTail(vs)[0])
    ensures ListHasNext(buf, be) == Done(if vs == [] then (false, be.(str := ItemPos(be))) else (true, be))
  {
    FirstByte(buf, ItemPos(be), SeqTail(vs));
  }

  /** The branch of bencode_list_get_next that finds an item. */
  lemma ListGetNextItem(buf: Bytes, be: Cur, end: int)
    requires 0 <= be.str && (be.str == be.start ==> Deref(buf, be.str) == Done(LOWER_L))
    requires var p := ItemPos(be);
             Deref(buf, p).Done? && Deref(buf, p).value != LOWER_E &&
             NextStringPos(buf, be, p) == Done(end)
    requires Carry(be, ItemPos(be)) == Done(Over(be, ItemPos(be)).len) && end != NULL
    ensures ListGetNext(buf, be) == Done(ListStep(1, be.(str := end), Over(be, ItemPos(be))))
  {
  }

  lemma ListGetNextEnd(buf: Bytes, be: Cur)
    requires ListCursor(buf, be, [])
    ensures ListGetNext(buf, be) == Done(ListStep(0, be.(str := ItemPos(be)), be))
    ensures ListCursor(buf, be.(str := ItemPos(be)), [])
  {
    ListHead(buf, be, []);
  }

  /** The step over the item `v`: a cursor over it, and the rest. */
  function StepOverItem(be: Cur, v: Item): ListStep {
    var p := ItemPos(be);
    ListStep(1, be.(str := p + |Text(v)|), Over(be, p))
  }

  lemma StepOverItemIs(buf: Bytes, be: Cur, vs: seq<Item>)
    requires ListCursor(buf, be, vs) && vs != []
    ensures var step := StepOverItem(be, vs[0]);
            ItemCursor(buf, step.item, vs[0]) && 0 < step.item.len <= be.len &&
            ClaimsMore(step.item, be) && ListCursor(buf, step.be, vs[1..]) && ItemPos(step.be) == step.be.str
  {
    ItemAt(buf, ItemPos(be), vs);
  }

  lemma ItemHead(buf: Bytes, be: Cur, v: Item)
    requires NextItemCursor(buf, be, v)
    ensures ListHasNext(buf, be) == Done((true, be))
    ensures Deref(buf, ItemPos(be)) == Done(Text(v)[0])
    ensures Reaches(be, ItemPos(be), ItemPos(be) + |Text(v)|)
  {
    FirstByte(buf, ItemPos(be), Text(v));
  }

  /** bencode_list_get_next at any item whose numbers fit, whatever follows it. */
  lemma {:induction false} ItemStepExact(buf: Bytes, be: Cur, v: Item)
    requires NextItemCursor(buf, be, v) && Fits(v)
    ensures ListGetNext(buf, be) == Done(StepOverItem(be, v))
    decreases v, 4
  {
    var p, end := ItemPos(be), ItemPos(be) + |Text(v)|;
    ItemHead(buf, be, v);
    SkipExact(buf, be, p, v);
    CarryIs(be, p, end);
    ListGetNextItem(buf, be, end);
  }

  lemma StepItemCursor(buf: Bytes, be: Cur, v: Item)
    requires NextItemCursor(buf, be, v)
    ensures var item := StepOverItem(be, v).item;
            ItemCursor(buf, item, v) && 0 < item.len <= be.len && ClaimsMore(item, be)
  {
    ItemHead(buf, be, v);
  }

  /** The same for lists. On the empty list bencode_list_has_next moves to the closing
      byte, and bencode_list_get_next answers 0 there. */
  lemma {:induction false} ListStepExact(buf: Bytes, be: Cur, vs: seq<Item>)
    requires ListCursor(buf, be, vs) && (vs != [] ==> Fits(vs[0]))
    ensures ListHasNext(buf, be) == Done(if vs == [] then (false, be.(str := ItemPos(be))) else (true, be))
    ensures ListGetNext(buf, be) ==
            Done(if vs == [] then ListStep(0, be.(str := ItemPos(be)), be) else StepOverItem(be, vs[0]))
    decreases vs, 0
  {
    ListHead(buf, be, vs);
    if vs == [] {
      ListGetNextEnd(buf, be);
    } else {
      ItemAt(buf, ItemPos(be), vs);
      ItemStepExact(buf, be, vs[0]);
    }
  }

  function ListEnd(be: Cur, vs: seq<Item>): int { ItemPos(be) + |SeqTail(vs)| - 1 }

  lemma ListEndSteps(buf: Bytes, be: Cur, vs: seq<Item>)
    requires ListCursor(buf, be, vs) && vs != []
    ensures ListEnd(StepOverItem(be, vs[0]).be, vs[1..]) == ListEnd(be, vs)
  {
    StepOverItemIs(buf, be, vs);
    ItemAt(buf, ItemPos(be), vs);
  }

  lemma {:induction false} DrainListExact(buf: Bytes, be: Cur, vs: seq<Item>)
    requires ListCursor(buf, be, vs) && AllFit(vs)
    ensures DrainList(buf, be) == Done(Some(be.(str := ListEnd(be, vs))))
    decreases vs, 1
  {
    ListStepExact(buf, be, vs);
    if vs == [] {
      assert DrainList(buf, be) == Done(Some(be.(str := ItemPos(be))));
    } else {
      var step := StepOverItem(be, vs[0]);
      StepOverItemIs(buf, be, vs);
      ListEndSteps(buf, be, vs);
      DrainListExact(buf, step.be, vs[1..]);
      DrainListUnfold(buf, be, step);
    }
  }

  lemma DrainListUnfold(buf: Bytes, be: Cur, step: ListStep)
    requires ListHasNext(buf, be) == Done((true, be)) && ListGetNext(buf, be) == Done(step) && step.ret == 1
    ensures DrainList(buf, be) == DrainList(buf, step.be)
  {
  }
}
