/** Malformed input: what the heapless reader makes of a buffer up to its first broken place. */
module CursorReject {
  import opened Bytes
  import opened Loose
  import opened CursorModel
  import opened CursorProofs
  import opened CursorRange
  import opened CursorTheorems
  import opened CursorCut

  /** A text that is well-formed up to a broken place, at whatever depth. What follows that
      place is not part of it. */
  datatype Broken =
    | Junk(c: Byte)                                     // no value begins so
    | NoDigits(neg: bool, c: Byte)                      // an integer without a digit
    | Unended(neg: bool, zeros: nat, n: nat, c: Byte)   // an integer not followed by "e"
    | NoColon(zeros: nat, n: nat, c: Byte)              // a length not followed by ":"
    | TooLong(zeros: nat, n: nat)                       // a string longer than the length leaves room for
    | InSeq(before: seq<Item>, part: Broken)
    | InMap(pairs: seq<Pair>, last: BrokenPair)

  datatype BrokenPair =
    | BadVal(zeros: nat, key: Bytes, part: Broken)
    | BadLen(zeros: nat, n: nat, c: Byte)               // a key's length not followed by ":"
    | BadKey(c: Byte, next: Byte)                       // a key that begins with no digit

  function BText(b: Broken): (t: Bytes)
    ensures t != []
    decreases b
  {
    match b
    case Junk(c) => [c]
    case NoDigits(neg, c) => if neg then [LOWER_I, MINUS, c] else [LOWER_I, c]
    case Unended(neg, zeros, n, c) => [LOWER_I] + (NumText(neg, zeros, n) + [c])
    case NoColon(zeros, n, c) => Digits(zeros, n) + [c]
    case TooLong(zeros, n) => Digits(zeros, n) + [COLON]
    case InSeq(before, part) => [LOWER_L] + (ItemsText(before) + BText(part))
    case InMap(pairs, last) => [LOWER_D] + (PairsText(pairs) + LastText(last))
  }

  function LastText(t: BrokenPair): (s: Bytes)
    ensures s != []
    decreases t
  {
    match t
    case BadVal(zeros, key, part) => StrText(zeros, key) + BText(part)
    case BadLen(zeros, n, c) => Digits(zeros, n) + [c]
    case BadKey(c, next) => [c, next]
  }

  /** The place is indeed broken. */
  predicate IsBroken(b: Broken)
    decreases b
  {
    match b
    case Junk(c) => c != LOWER_D && c != LOWER_L && c != LOWER_I && !IsDigit(c)
    case NoDigits(neg, c) => !IsDigit(c) && (neg || c != MINUS)
    case Unended(_, _, _, c) => !IsDigit(c) && c != LOWER_E
    case NoColon(_, _, c) => !IsDigit(c) && c != COLON
    case TooLong(_, _) => true
    case InSeq(_, part) => IsBroken(part) && BText(part)[0] != LOWER_E
    case InMap(_, last) => IsBrokenPair(last)
  }

  predicate IsBrokenPair(t: BrokenPair)
    decreases t
  {
    match t
    case BadVal(_, _, part) => IsBroken(part)
    case BadLen(_, _, c) => !IsDigit(c) && c != COLON
    case BadKey(c, _) => !IsDigit(c) && c != LOWER_D && c != LOWER_E && c != NUL && c != CR
  }

  /** A string is too long for the end that the cursor over it claims. That end lies behind
      the one of the container for every item but the first. */
  predicate Exceeds(b: Broken, p: int, end: int)
    decreases b
  {
    match b
    case TooLong(zeros, n) => p + |Digits(zeros, n)| + 1 + n > end
    case InSeq(before, part) =>
      var q := p + 1 + |ItemsText(before)|;
      Exceeds(part, q, if before == [] then end else q + (end - p))
    case InMap(pairs, last) =>
      var q := p + 1 + |PairsText(pairs)|;
      LastExceeds(last, q, if pairs == [] then end else q + (end - p))
    case _ => true
  }

  predicate LastExceeds(t: BrokenPair, q: int, end: int)
    decreases t
  {
    t.BadVal? ==> Exceeds(t.part, q + |StrText(t.zeros, t.key)|, end)
  }

  /** Whether the place is met with a failed assert or an overflow, here or in what stands
      before it; otherwise it is rejected. */
  predicate Crashes(b: Broken)
    decreases b
  {
    match b
    case Unended(_, _, _, _) => true
    case TooLong(_, n) => n > INT_MAX
    case InSeq(before, part) => !AllFit(before) || Crashes(part)
    case InMap(pairs, last) => !PairsFit(pairs) || LastCrashes(last)
    case _ => false
  }

  predicate LastCrashes(t: BrokenPair)
    decreases t
  {
    t.BadVal? ==> Crashes(t.part)
  }

  function Rejected<T>(crashes: bool, answer: T): Run<T> { if crashes then Fault else Done(answer) }

  // ------------------------------------------------------------------- leaves

  /** The cursor stands at the broken text and claims at least all of it. */
  predicate AtBroken(buf: Bytes, be: Cur, b: Broken) {
    be.str == be.start && Holds(buf, be.str, BText(b)) && IsBroken(b) &&
    Covers(be, be.str + |BText(b)|) && Exceeds(b, be.str, be.str + be.len)
  }

  lemma JunkStarts(buf: Bytes, be: Cur, c: Byte)
    requires AtBroken(buf, be, Junk(c))
    ensures Starts(buf, be, LOWER_D) == Starts(buf, be, LOWER_L) == Starts(buf, be, LOWER_I) == Done(false)
    ensures IsString(buf, be) == Done(false)
  {
    FirstByte(buf, be.str, [c]);
  }

  lemma NoDigitsStarts(buf: Bytes, be: Cur, neg: bool, c: Byte)
    requires AtBroken(buf, be, NoDigits(neg, c))
    ensures Starts(buf, be, LOWER_D) == Starts(buf, be, LOWER_L) == IsString(buf, be) == Done(false)
    ensures Starts(buf, be, LOWER_I) == Done(true) && ReadStringInt(buf, be.str + 1) == Done(None)
  {
    var p, t := be.str, BText(NoDigits(neg, c));
    assert buf[p + 0] == t[0] && buf[p + 1] == t[1];
    if neg {
      assert buf[p + 2] == t[2];
    }
  }

  lemma UnendedStarts(buf: Bytes, be: Cur, neg: bool, zeros: nat, n: nat, c: Byte)
    requires AtBroken(buf, be, Unended(neg, zeros, n, c))
    ensures Starts(buf, be, LOWER_D) == Starts(buf, be, LOWER_L) == IsString(buf, be) == Done(false)
    ensures Starts(buf, be, LOWER_I) == Done(true) && IntValue(buf, be) == Fault
    ensures ReadStringInt(buf, be.str + 1).Fault? ||
            (ReadStringInt(buf, be.str + 1).value.Some? &&
             Deref(buf, ReadStringInt(buf, be.str + 1).value.value.0) == Done(c))
  {
    var p, t := be.str, NumText(neg, zeros, n);
    HoldsSplit(buf, p, [LOWER_I], t + [c]);
    HoldsSplit(buf, p + 1, t, [c]);
    FirstByte(buf, p, [LOWER_I]);
    FirstByte(buf, p + 1 + |t|, [c]);
    ReadIntIffInRange(buf, p + 1, neg, zeros, n);
  }

  lemma NoColonStarts(buf: Bytes, be: Cur, zeros: nat, n: nat, c: Byte)
    requires AtBroken(buf, be, NoColon(zeros, n, c))
    ensures Starts(buf, be, LOWER_D) == Starts(buf, be, LOWER_L) == Starts(buf, be, LOWER_I) == Done(false)
    ensures IsString(buf, be) == Done(false)
  {
    var p, t := be.str, Digits(zeros, n);
    HoldsSplit(buf, p, t, [c]);
    FirstByte(buf, p, t);
    FirstByte(buf, p + |t|, [c]);
    DigitScan(buf, p, t);
  }

  /** A length prefix, whatever follows its colon. */
  lemma LengthRead(buf: Bytes, sp: int, zeros: nat, n: nat)
    requires Holds(buf, sp, Digits(zeros, n) + [COLON])
    ensures IsDigit(buf[sp]) && IsString(buf, Cur(sp, sp, 1)) == Done(true)
    ensures ReadStringLen(buf, sp) == if n <= INT_MAX then Done((sp + |Digits(zeros, n)| + 1, n)) else Fault
  {
    var t := Digits(zeros, n);
    HoldsSplit(buf, sp, t, [COLON]);
    FirstByte(buf, sp, t);
    FirstByte(buf, sp + |t|, [COLON]);
    DigitsValue(zeros, n);
    DigitScan(buf, sp, t);
    if n <= INT_MAX {
      DigitLoop(buf, sp, t, 0, INT_MAX);
    } else {
      DigitLoopOverflows(buf, sp, t, 0, INT_MAX);
    }
  }

  /** bencode_string_value answers the position and the length of a string if and only if
      its last byte lies before the end the cursor claims. */
  lemma StringValueIff(buf: Bytes, be: Cur, zeros: nat, n: nat)
    requires Holds(buf, be.str, Digits(zeros, n) + [COLON]) && n <= INT_MAX
    ensures var text := be.str + |Digits(zeros, n)| + 1;
            StringValue(buf, be) ==
            if be.len <= 0 then Fault
            else Done(if text + n <= be.start + be.len then Some((text, n)) else None)
  {
    LengthRead(buf, be.str, zeros, n);
  }

  lemma TooLongStarts(buf: Bytes, be: Cur, zeros: nat, n: nat)
    requires AtBroken(buf, be, TooLong(zeros, n))
    ensures Starts(buf, be, LOWER_D) == Starts(buf, be, LOWER_L) == Done(false)
    ensures IsString(buf, be) == Done(true)
    ensures StringValue(buf, be) == Rejected(n > INT_MAX, None)
  {
    LengthRead(buf, be.str, zeros, n);
    if n <= INT_MAX {
      StringValueIff(buf, be, zeros, n);
    }
  }

  // -------------------------------------------------------------- containers

  /** A list cursor with the items `vs`, whose text begins at `p`, and then the broken text to
      come, which begins at `q`. */
  predicate BrokenList(buf: Bytes, be: Cur, p: int, vs: seq<Item>, text: Bytes, q: int, part: Broken, tail: Bytes) {
    text == ItemsText(vs) && tail == BText(part) && p == ItemPos(be) && q == p + |text| &&
    0 <= be.start <= be.str && (be.str == be.start ==> Deref(buf, be.str) == Done(LOWER_L)) &&
    Holds(buf, p, text) && Holds(buf, q, tail) && Covers(be, q + |tail|) &&
    IsBroken(part) && tail[0] != LOWER_E && Exceeds(part, q, (if vs == [] then be.str else q) + be.len)
  }

  lemma OpenBrokenList(buf: Bytes, be: Cur, p: int, vs: seq<Item>, text: Bytes, q: int, part: Broken, tail: Bytes)
    requires AtBroken(buf, be, InSeq(vs, part)) && text == ItemsText(vs) && tail == BText(part)
    requires p == be.str + 1 && q == p + |text|
    ensures BrokenList(buf, be, p, vs, text, q, part, tail)
    ensures Starts(buf, be, LOWER_D) == Done(false) && Starts(buf, be, LOWER_L) == Done(true)
  {
    HoldsParts(buf, be.str, BText(InSeq(vs, part)), [LOWER_L], text + tail);
    HoldsParts(buf, p, text + tail, text, tail);
    FirstByte(buf, be.str, [LOWER_L]);
  }

  lemma BrokenListHead(buf: Bytes, be: Cur, p: int, vs: seq<Item>, text: Bytes, q: int, part: Broken, tail: Bytes,
                       first: Bytes, rest: Bytes)
    requires BrokenList(buf, be, p, vs, text, q, part, tail) && vs != []
    requires first == Text(vs[0]) && rest == ItemsText(vs[1..])
    ensures NextItemCursor(buf, be, vs[0])
    ensures BrokenList(buf, StepOverItem(be, vs[0]).be, p + |first|, vs[1..], rest, q, part, tail)
  {
    ItemsStart(buf, p, vs, first, rest);
  }

  /** The broken text is next. */
  predicate BrokenItem(buf: Bytes, be: Cur, part: Broken) {
    BrokenList(buf, be, ItemPos(be), [], [], ItemPos(be), part, BText(part))
  }

  lemma BrokenListEnd(buf: Bytes, be: Cur, part: Broken)
    requires BrokenItem(buf, be, part)
    ensures ListHasNext(buf, be) == Done((true, be))
    ensures Reaches(be, ItemPos(be), ItemPos(be) + |BText(part)|)
    ensures Deref(buf, ItemPos(be)) == Done(BText(part)[0])
  {
    FirstByte(buf, ItemPos(be), BText(part));
  }

  /** The step to a rejected item. */
  lemma ListGetNextRejects(buf: Bytes, be: Cur, part: Broken)
    requires BrokenItem(buf, be, part)
    requires NextStringPos(buf, be, ItemPos(be)) == Rejected(Crashes(part), NULL)
    ensures if Crashes(part) then ListGetNext(buf, be) == Fault
            else ListGetNext(buf, be).Done? && ListGetNext(buf, be).value.ret == -1 &&
                 ListGetNext(buf, be).value.be == be.(str := NULL)
  {
    BrokenListEnd(buf, be, part);
    CarryIs(be, ItemPos(be), ItemPos(be) + |BText(part)|);
  }

  /** A dictionary cursor with the pairs `ps`, whose text begins at `p`, and then the broken
      pair to come, which begins at `k`. */
  predicate BrokenDict(buf: Bytes, be: Cur, p: int, ps: seq<Pair>, text: Bytes, k: int, t: BrokenPair, tail: Bytes) {
    text == PairsText(ps) && tail == LastText(t) && p == KeyPos(buf, be) && k == p + |text| &&
    0 <= be.start <= be.str && Holds(buf, p, text) && Holds(buf, k, tail) && Covers(be, k + |tail|) &&
    IsBrokenPair(t) && LastExceeds(t, k, (if ps == [] then be.str else k) + be.len)
  }

  lemma OpenBrokenDict(buf: Bytes, be: Cur, p: int, ps: seq<Pair>, text: Bytes, k: int, t: BrokenPair, tail: Bytes)
    requires AtBroken(buf, be, InMap(ps, t)) && text == PairsText(ps) && tail == LastText(t)
    requires p == be.str + 1 && k == p + |text|
    ensures BrokenDict(buf, be, p, ps, text, k, t, tail) && Starts(buf, be, LOWER_D) == Done(true)
  {
    HoldsParts(buf, be.str, BText(InMap(ps, t)), [LOWER_D], text + tail);
    HoldsParts(buf, p, text + tail, text, tail);
    FirstByte(buf, be.str, [LOWER_D]);
  }

  /** The broken pair is next. */
  predicate BrokenEntry(buf: Bytes, be: Cur, t: BrokenPair) {
    BrokenDict(buf, be, KeyPos(buf, be), [], [], KeyPos(buf, be), t, LastText(t))
  }

  lemma LastFirstByte(buf: Bytes, p: int, t: BrokenPair)
    requires Holds(buf, p, LastText(t)) && IsBrokenPair(t)
    ensures Deref(buf, p) == Done(LastText(t)[0])
    ensures var c := LastText(t)[0];
            c != LOWER_D && c != LOWER_E && c != NUL && c != CR && (IsDigit(c) <==> !t.BadKey?)
  {
    FirstByte(buf, p, LastText(t));
  }

  lemma NoOpening(buf: Bytes, p: int, ps: seq<Pair>, text: Bytes, t: BrokenPair)
    requires text == PairsText(ps) && Holds(buf, p, text) && Holds(buf, p + |text|, LastText(t)) && IsBrokenPair(t)
    ensures Deref(buf, p).Done? && buf[p] != LOWER_D
  {
    if ps == [] {
      LastFirstByte(buf, p, t);
    } else {
      PairsStart(buf, p, ps, PairText(ps[0]), PairsText(ps[1..]));
    }
  }

  lemma BrokenDictHead(buf: Bytes, be: Cur, p: int, ps: seq<Pair>, text: Bytes, k: int, t: BrokenPair, tail: Bytes,
                       first: Bytes, rest: Bytes)
    requires BrokenDict(buf, be, p, ps, text, k, t, tail) && ps != []
    requires first == PairText(ps[0]) && rest == PairsText(ps[1..])
    ensures EntryCursor(buf, be, ps[0])
    ensures BrokenDict(buf, StepOver(buf, be, ps[0]).be, p + |first|, ps[1..], rest, k, t, tail)
  {
    PairsStart(buf, p, ps, first, rest);
    NoOpening(buf, p + |first|, ps[1..], rest, t);
  }

  lemma BrokenDictEnd(buf: Bytes, be: Cur, t: BrokenPair)
    requires BrokenEntry(buf, be, t)
    ensures DictHasNext(buf, be) == Done(true)
    ensures be.str <= KeyPos(buf, be) <= be.str + 1 && 0 < be.len <= INT_MAX
    ensures Deref(buf, KeyPos(buf, be)) == Done(LastText(t)[0])
  {
    LastFirstByte(buf, KeyPos(buf, be), t);
    if !t.BadKey? {
      assert |LastText(t)| >= 2;
    }
  }

  lemma BadValRead(buf: Bytes, be: Cur, t: BrokenPair)
    requires BrokenEntry(buf, be, t) && t.BadVal?
    ensures var k := KeyPos(buf, be);
            var q := k + |StrText(t.zeros, t.key)|;
            ReadKey(buf, be) == Done(Some((TextPos(k, t.zeros, t.key), |t.key|))) &&
            TextPos(k, t.zeros, t.key) + |t.key| == q && Reaches(be, q, q + |BText(t.part)|) &&
            Holds(buf, q, BText(t.part))
  {
    var k := KeyPos(buf, be);
    BrokenDictEnd(buf, be, t);
    HoldsSplit(buf, k, StrText(t.zeros, t.key), BText(t.part));
    ReadLenIffInRange(buf, k, t.zeros, t.key);
    LastFirstByte(buf, k, t);
    assert |StrText(t.zeros, t.key)| > |t.key|;
    ReadKeyIs(buf, be, TextPos(k, t.zeros, t.key), |t.key|);
  }

  /** A key whose length is not followed by a colon fails an assert, or overflows first. */
  lemma BadLenCrashes(buf: Bytes, be: Cur, t: BrokenPair)
    requires BrokenEntry(buf, be, t) && t.BadLen?
    ensures DictGetNext(buf, be) == Fault
  {
    var k, d := KeyPos(buf, be), Digits(t.zeros, t.n);
    BrokenDictEnd(buf, be, t);
    HoldsSplit(buf, k, d, [t.c]);
    FirstByte(buf, k, d);
    FirstByte(buf, k + |d|, [t.c]);
    DigitsValue(t.zeros, t.n);
    if t.n <= INT_MAX {
      DigitLoop(buf, k, d, 0, INT_MAX);
    } else {
      DigitLoopOverflows(buf, k, d, 0, INT_MAX);
    }
    assert ReadStringLen(buf, k) == Fault;
  }

  /** Without a digit there is no key position, and looking there fails an assert. */
  lemma BadKeyCrashes(buf: Bytes, be: Cur, t: BrokenPair)
    requires BrokenEntry(buf, be, t) && t.BadKey?
    ensures DictGetNext(buf, be) == Fault
  {
    BrokenDictEnd(buf, be, t);
    LastFirstByte(buf, KeyPos(buf, be), t);
    assert ReadStringLen(buf, KeyPos(buf, be)) == Done((NULL, 0));
    ReadKeyIs(buf, be, NULL, 0);
    NullIsNoString(buf, be);
    DictGetNextFrom(buf, be, NULL, 0);
  }

  lemma NullIsNoString(buf: Bytes, be: Cur)
    ensures NextStringPos(buf, be, NULL) == Fault
  {
  }

  /** The step to a broken pair. */
  lemma DictGetNextRejects(buf: Bytes, be: Cur, t: BrokenPair)
    requires BrokenEntry(buf, be, t)
    requires t.BadVal? ==>
               NextStringPos(buf, be, KeyPos(buf, be) + |StrText(t.zeros, t.key)|) == Rejected(Crashes(t.part), NULL)
    ensures if LastCrashes(t) then DictGetNext(buf, be) == Fault
            else DictGetNext(buf, be).Done? && !DictGetNext(buf, be).value.ret &&
                 DictGetNext(buf, be).value.be == be.(str := NULL)
  {
    match t
    case BadVal(zeros, key, part) =>
      var k := KeyPos(buf, be);
      var q := k + |StrText(zeros, key)|;
      BadValRead(buf, be, t);
      CarryIs(be, q, q + |BText(part)|);
      DictGetNextFrom(buf, be, TextPos(k, zeros, key), |key|);
    case BadLen(_, _, _) => BadLenCrashes(buf, be, t);
    case BadKey(_, _) => BadKeyCrashes(buf, be, t);
  }

  /** After a rejection there is nothing at the cursor any more: it is over no dictionary, list
      or integer, a dictionary has nothing left, bencode_list_get_next answers 0, and only
      bencode_list_has_next looks at the null pointer. */
  lemma AfterRejection(buf: Bytes, be: Cur, c: Byte)
    requires be.str == NULL
    ensures Starts(buf, be, c) == Done(false) && DictHasNext(buf, be) == Done(false)
    ensures ListGetNext(buf, be) == Done(ListStep(0, be, be)) && ListHasNext(buf, be) == Fault
  {
  }

  // ---------------------------------------------------------------- the skips

  lemma SkipRejectsLeaf(buf: Bytes, be: Cur, sp: int, b: Broken)
    requires Carry(be, sp) == Done(Over(be, sp).len) && AtBroken(buf, Over(be, sp), b)
    requires !b.InSeq? && !b.InMap?
    ensures NextStringPos(buf, be, sp) == Rejected(Crashes(b), NULL)
  {
    var iter := Over(be, sp);
    match b
    case Junk(c) => JunkStarts(buf, iter, c);
    case NoDigits(neg, c) => NoDigitsStarts(buf, iter, neg, c);
    case Unended(neg, zeros, n, c) => UnendedStarts(buf, iter, neg, zeros, n, c);
    case NoColon(zeros, n, c) => NoColonStarts(buf, iter, zeros, n, c);
    case TooLong(zeros, n) => TooLongStarts(buf, iter, zeros, n);
  }

  /** __iterate_to_next_string_pos at a broken text: no position, or a fault. */
  lemma {:induction false} SkipRejects(buf: Bytes, be: Cur, sp: int, b: Broken)
    requires Holds(buf, sp, BText(b)) && IsBroken(b) && Exceeds(b, sp, be.str + be.len)
    requires Reaches(be, sp, sp + |BText(b)|)
    ensures NextStringPos(buf, be, sp) == Rejected(Crashes(b), NULL)
    decreases b, 2, 0
  {
    var iter := Over(be, sp);
    CarryIs(be, sp, sp + |BText(b)|);
    match b
    case InSeq(vs, part) =>
      OpenListRejects(buf, iter, vs, part);
    case InMap(ps, t) =>
      OpenDictRejects(buf, iter, ps, t);
    case _ => SkipRejectsLeaf(buf, be, sp, b);
  }

  /** Over an item that stands before the broken text the loop goes on, or faults with it. */
  lemma GoodItem(buf: Bytes, be: Cur, v: Item)
    requires NextItemCursor(buf, be, v)
    ensures DrainList(buf, be) == if Fits(v) then DrainList(buf, StepOverItem(be, v).be) else Fault
    ensures ValidateList(buf, be) == if Fits(v) then ValidateList(buf, StepOverItem(be, v).be) else Fault
  {
    ItemHead(buf, be, v);
    if Fits(v) {
      var step := StepOverItem(be, v);
      ItemStepExact(buf, be, v);
      DrainListUnfold(buf, be, step);
      StepItemCursor(buf, be, v);
      ValidateExact(buf, step.item, v);
      ValidateListUnfold(buf, be, step);
    } else {
      ItemFaults(buf, be, v);
    }
  }

  lemma ValidateListUnfold(buf: Bytes, be: Cur, step: ListStep)
    requires ListHasNext(buf, be) == Done((true, be)) && ListGetNext(buf, be) == Done(step) && step.ret == 1
    requires Validate(buf, step.item.str, step.item.len) == Done(0)
    ensures ValidateList(buf, be) == ValidateList(buf, step.be)
  {
  }

  /** At the broken text itself both loops end. */
  lemma BadItem(buf: Bytes, be: Cur, part: Broken)
    requires BrokenItem(buf, be, part)
    requires NextStringPos(buf, be, ItemPos(be)) == Rejected(Crashes(part), NULL)
    ensures DrainList(buf, be) == Rejected(Crashes(part), None)
    ensures ValidateList(buf, be) == Rejected(Crashes(part), -1)
  {
    BrokenListEnd(buf, be, part);
    ListGetNextRejects(buf, be, part);
  }

  lemma {:induction false} OpenListRejects(buf: Bytes, be: Cur, vs: seq<Item>, part: Broken)
    requires AtBroken(buf, be, InSeq(vs, part))
    ensures Starts(buf, be, LOWER_D) == Done(false) && Starts(buf, be, LOWER_L) == Done(true)
    ensures DrainList(buf, be) == Rejected(!AllFit(vs) || Crashes(part), None)
    ensures ValidateList(buf, be) == Rejected(!AllFit(vs) || Crashes(part), -1)
    decreases part, 4, 0
  {
    var p, text, tail := be.str + 1, ItemsText(vs), BText(part);
    OpenBrokenList(buf, be, p, vs, text, p + |text|, part, tail);
    DrainListRejects(buf, be, p, vs, text, p + |text|, part, tail);
  }

  lemma {:induction false} DrainListRejects(buf: Bytes, be: Cur, p: int, vs: seq<Item>, text: Bytes,
                                            q: int, part: Broken, tail: Bytes)
    requires BrokenList(buf, be, p, vs, text, q, part, tail)
    ensures DrainList(buf, be) == Rejected(!AllFit(vs) || Crashes(part), None)
    ensures ValidateList(buf, be) == Rejected(!AllFit(vs) || Crashes(part), -1)
    decreases part, 3, |vs|
  {
    if vs == [] {
      BrokenListEnd(buf, be, part);
      SkipRejects(buf, be, q, part);
      BadItem(buf, be, part);
    } else {
      var first, rest := Text(vs[0]), ItemsText(vs[1..]);
      BrokenListHead(buf, be, p, vs, text, q, part, tail, first, rest);
      GoodItem(buf, be, vs[0]);
      if Fits(vs[0]) {
        DrainListRejects(buf, StepOverItem(be, vs[0]).be, p + |first|, vs[1..], rest, q, part, tail);
      }
    }
  }

  lemma {:induction false} BadPairRejects(buf: Bytes, be: Cur, t: BrokenPair)
    requires BrokenEntry(buf, be, t)
    ensures DictHasNext(buf, be) == Done(true)
    ensures if LastCrashes(t) then DictGetNext(buf, be) == Fault
            else DictGetNext(buf, be).Done? && !DictGetNext(buf, be).value.ret
    decreases t, 2, 0
  {
    BrokenDictEnd(buf, be, t);
    if t.BadVal? {
      BadValRead(buf, be, t);
      SkipRejects(buf, be, KeyPos(buf, be) + |StrText(t.zeros, t.key)|, t.part);
    }
    DictGetNextRejects(buf, be, t);
  }

  lemma GoodPair(buf: Bytes, be: Cur, p: Pair)
    requires EntryCursor(buf, be, p)
    ensures DrainDict(buf, be) == if PairFits(p) then DrainDict(buf, StepOver(buf, be, p).be) else Fault
    ensures ValidateDict(buf, be) == if PairFits(p) then ValidateDict(buf, StepOver(buf, be, p).be) else Fault
  {
    if PairFits(p) {
      var step := StepOver(buf, be, p);
      EntryStepExact(buf, be, p);
      DrainDictUnfold(buf, be, step);
      StepItemIs(buf, be, p);
      ValidateExact(buf, step.item, p.val);
      ValidateDictUnfold(buf, be, step);
    } else {
      EntryFaults(buf, be, p);
    }
  }

  lemma {:induction false} OpenDictRejects(buf: Bytes, be: Cur, ps: seq<Pair>, t: BrokenPair)
    requires AtBroken(buf, be, InMap(ps, t))
    ensures Starts(buf, be, LOWER_D) == Done(true)
    ensures DrainDict(buf, be) == Rejected(!PairsFit(ps) || LastCrashes(t), None)
    ensures ValidateDict(buf, be) == Rejected(!PairsFit(ps) || LastCrashes(t), -1)
    decreases t, 4, 0
  {
    var p, text, tail := be.str + 1, PairsText(ps), LastText(t);
    OpenBrokenDict(buf, be, p, ps, text, p + |text|, t, tail);
    DrainDictRejects(buf, be, p, ps, text, p + |text|, t, tail);
  }

  lemma {:induction false} DrainDictRejects(buf: Bytes, be: Cur, p: int, ps: seq<Pair>, text: Bytes,
                                            k: int, t: BrokenPair, tail: Bytes)
    requires BrokenDict(buf, be, p, ps, text, k, t, tail)
    ensures DrainDict(buf, be) == Rejected(!PairsFit(ps) || LastCrashes(t), None)
    ensures ValidateDict(buf, be) == Rejected(!PairsFit(ps) || LastCrashes(t), -1)
    decreases t, 3, |ps|
  {
    if ps == [] {
      BadPairRejects(buf, be, t);
    } else {
      var first, rest := PairText(ps[0]), PairsText(ps[1..]);
      BrokenDictHead(buf, be, p, ps, text, k, t, tail, first, rest);
      GoodPair(buf, be, ps[0]);
      if PairFits(ps[0]) {
        DrainDictRejects(buf, StepOver(buf, be, ps[0]).be, p + |first|, ps[1..], rest, k, t, tail);
      }
    }
  }

  // -------------------------------------------------------------- validation

  lemma ValidateRejects(buf: Bytes, be: Cur, b: Broken)
    requires AtBroken(buf, be, b)
    ensures Validate(buf, be.str, be.len) == Rejected(Crashes(b), -1)
  {
    assert be == Init(be.str, be.len);
    match b
    case Junk(c) => JunkStarts(buf, be, c);
    case NoDigits(neg, c) => NoDigitsStarts(buf, be, neg, c);
    case Unended(neg, zeros, n, c) => UnendedStarts(buf, be, neg, zeros, n, c);
    case NoColon(zeros, n, c) => NoColonStarts(buf, be, zeros, n, c);
    case TooLong(zeros, n) => TooLongStarts(buf, be, zeros, n);
    case InSeq(vs, part) =>
      OpenListRejects(buf, be, vs, part);
    case InMap(ps, t) =>
      OpenDictRejects(buf, be, ps, t);
  }

  /** On a buffer that is well-formed up to a broken place, whatever follows it:
      bencode_validate answers -1, unless an assert fails or a number overflows there or
      before; it never answers 0. */
  lemma BrokenIsRejected(b: Broken, rest: Bytes, len: int)
    requires IsBroken(b) && |BText(b)| <= len && Exceeds(b, 0, len)
    ensures BencodeValidate(BText(b) + rest, len) == Rejected(len > INT_MAX || Crashes(b), -1)
  {
    var buf := BText(b) + rest;
    if len <= INT_MAX {
      assert Holds(buf, 0, BText(b));
      ValidateRejects(buf, Init(0, len), b);
    }
  }

  /** A string that does not fit its buffer is rejected, by even one byte. */
  lemma StringPastEnd(zeros: nat, n: nat, rest: Bytes)
    requires n <= INT_MAX
    ensures var buf := Digits(zeros, n) + [COLON] + rest;
            |buf| <= INT_MAX ==>
              BencodeValidate(buf, |buf|) == Done(if n <= |rest| then 0 else -1) &&
              StringValue(buf, Init(0, |buf|)) ==
              Done(if n <= |rest| then Some((|Digits(zeros, n)| + 1, n)) else None)
  {
    var buf := Digits(zeros, n) + [COLON] + rest;
    if |buf| <= INT_MAX {
      assert Holds(buf, 0, Digits(zeros, n) + [COLON]);
      LengthRead(buf, 0, zeros, n);
      StringValueIff(buf, Init(0, |buf|), zeros, n);
    }
  }

  /** What stands before the broken place is no dictionary for bencode_dict_get_start_and_len
      either: its loop goes on with a null pointer. */
  lemma NoSpan(buf: Bytes, be: Cur, ps: seq<Pair>, t: BrokenPair)
    requires AtBroken(buf, be, InMap(ps, t))
    ensures DictStartAndLen(buf, be) == Fault
  {
    OpenDictRejects(buf, be, ps, t);
  }

  // ----------------------------------------------------- lengths and the end

  /** When the length a cursor carries is used up, skipping an item fails an assert. */
  lemma NoLengthLeft(buf: Bytes, be: Cur, sp: int)
    requires be.len <= 0
    ensures NextStringPos(buf, be, sp) == Fault
  {
  }

  /** With a negative length integers, dictionaries and empty lists are still accepted;
      everything else fails an assert. */
  lemma NegativeLength(v: Item, rest: Bytes, len: int)
    requires -0x8000_0000 <= len < 0
    ensures BencodeValidate(Text(v) + rest, len) ==
            match v
            case Num(_, _, n) => if n <= LONG_MAX then Done(0) else Fault
            case Txt(_, _) => Fault
            case Seq(vs) => if vs == [] then Done(0) else Fault
            case Map(_) => Done(0)
  {
    var buf, be := Text(v) + rest, Init(0, len);
    assert Holds(buf, 0, Text(v));
    FirstByte(buf, 0, Text(v));
    match v
    case Num(neg, zeros, n) => IntItem(buf, be, neg, zeros, n);
    case Txt(zeros, s) => ReadLenIffInRange(buf, 0, zeros, s);
    case Seq(vs) => NegativeList(buf, be, vs);
    case Map(ps) => NegativeDict(buf, be, ps);
  }

  lemma NegativeList(buf: Bytes, be: Cur, vs: seq<Item>)
    requires be.len < 0 && be == Init(0, be.len) && Stands(buf, 0, Seq(vs))
    ensures Validate(buf, 0, be.len) == if vs == [] then Done(0) else Fault
  {
    HoldsSplit(buf, 0, [LOWER_L], SeqTail(vs));
    FirstByte(buf, 0, [LOWER_L]);
    FirstByte(buf, 1, SeqTail(vs));
    assert vs != [] ==> SeqTail(vs)[0] == Text(vs[0])[0];
    assert ListHasNext(buf, be) == Done(if vs == [] then (false, be.(str := 1)) else (true, be));
    assert vs != [] ==> ListGetNext(buf, be) == Fault;
    assert ValidateList(buf, be) == if vs == [] then Done(0) else Fault;
  }

  lemma NegativeDict(buf: Bytes, be: Cur, ps: seq<Pair>)
    requires be.len < 0 && be == Init(0, be.len) && Stands(buf, 0, Map(ps))
    ensures Validate(buf, 0, be.len) == Done(0)
  {
    HoldsSplit(buf, 0, [LOWER_D], MapTail(ps));
    FirstByte(buf, 0, [LOWER_D]);
    FirstByte(buf, 1, MapTail(ps));
    assert DictHasNext(buf, be) == Done(false);
    assert ValidateDict(buf, be) == Done(0);
  }

  /** A length of 2 is enough for a dictionary to be entered, and of 1 it is not. */
  lemma ShortestDictionary(c: Byte, rest: Bytes)
    requires c != LOWER_E && !IsDigit(c)
    ensures BencodeValidate([LOWER_D, c] + rest, 1) == Done(0)
    ensures BencodeValidate([LOWER_D, c] + rest, 2) == Fault
  {
    var buf, be := [LOWER_D, c] + rest, Init(0, 2);
    assert buf[0] == LOWER_D && buf[1] == c;
    assert DictHasNext(buf, Init(0, 1)) == Done(false);
    assert ValidateDict(buf, Init(0, 1)) == Done(0);
    assert DictHasNext(buf, be) == Done(true) && ReadStringLen(buf, 1) == Done((NULL, 0));
    ReadKeyIs(buf, be, NULL, 0);
    NullIsNoString(buf, be);
    DictGetNextFrom(buf, be, NULL, 0);
    assert ValidateDict(buf, be) == Fault;
  }

  /** A dictionary whose opening byte is the last one the length covers is not entered, and
      the skip goes behind that byte, or behind both bytes of an empty one. */
  lemma DictAtTheEnd(buf: Bytes, be: Cur, sp: int)
    requires 0 < be.len <= INT_MAX && be.str <= sp == be.str + be.len - 1
    requires Deref(buf, sp) == Done(LOWER_D) && Deref(buf, sp + 1).Done?
    ensures NextStringPos(buf, be, sp) == Done(if buf[sp + 1] == LOWER_E then sp + 2 else sp + 1)
  {
    var iter := Over(be, sp);
    assert Carry(be, sp) == Done(iter.len);
    assert DictHasNext(buf, iter) == Done(false);
    assert DrainDict(buf, iter) == Done(Some(iter));
  }

  /** Digits up to the end of the buffer are read beyond it. */
  lemma {:induction false} DigitsRunOff(buf: Bytes, sp: int, t: Bytes, acc: int, limit: int)
    requires Holds(buf, sp, t) && AllDigits(t) && sp + |t| == |buf|
    ensures ReadDigits(buf, sp, acc, limit) == Fault && DigitsEnd(buf, sp) == Fault
    decreases t
  {
    if t == [] {
    } else {
      FirstByte(buf, sp, t);
      HoldsSplit(buf, sp, [t[0]], t[1..]);
      assert [t[0]] + t[1..] == t;
      DigitsRunOff(buf, sp + 1, t[1..], acc * 10 + Digit(t[0]), limit);
    }
  }

  /** Without a terminator behind it, an integer or a length that is cut short is read
      beyond the end of the buffer. */
  lemma RunsOffTheEnd(t: Bytes, len: int)
    requires AllDigits(t) && len != 0
    ensures BencodeValidate([LOWER_I] + t, len) == Fault
    ensures t != [] ==> BencodeValidate(t, len) == Fault
  {
    var x := [LOWER_I] + t;
    assert Holds(x, 1, t);
    DigitsRunOff(x, 1, t, 0, LONG_MAX);
    if t == [] {
    } else {
      FirstByte(x, 1, t);
      assert Holds(t, 0, t);
      DigitsRunOff(t, 0, t, 0, INT_MAX);
    }
  }
}
