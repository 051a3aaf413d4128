/** Where the C integers of the reader end: values out of range, and the exact domain of
    bencode_validate on encodings. */
module CursorRange {
  import opened Bytes
  import opened Grammar
  import opened Loose
  import opened CursorModel
  import opened CursorProofs
  import opened CursorTheorems
  import Canonical
  import Reference

  // ------------------------------------------------- skipping out of range

  /** A string within a length that is an int has itself such a length. */
  lemma StringFits(buf: Bytes, be: Cur, zeros: nat, s: Bytes)
    requires ItemCursor(buf, be, Txt(zeros, s))
    ensures |s| <= INT_MAX
  {
    assert |Text(Txt(zeros, s))| == |StrText(zeros, s)|;
  }

  /** On a value out of range the skip overflows. */
  lemma {:induction false} SkipFaults(buf: Bytes, be: Cur, sp: int, v: Item)
    requires Stands(buf, sp, v) && !Fits(v)
    requires Reaches(be, sp, sp + |Text(v)|)
    ensures NextStringPos(buf, be, sp) == Fault
    decreases v, 3
  {
    var iter := Over(be, sp);
    CarryIs(be, sp, sp + |Text(v)|);
    match v
    case Num(neg, zeros, n) => IntItem(buf, iter, neg, zeros, n);
    case Txt(zeros, s) => StringFits(buf, iter, zeros, s);
    case Seq(vs) =>
      OpenList(buf, iter, vs);
      DrainListFaults(buf, iter, vs);
    case Map(es) =>
      OpenDict(buf, iter, es);
      DrainDictFaults(buf, iter, es);
  }

  lemma {:induction false} ItemFaults(buf: Bytes, be: Cur, v: Item)
    requires NextItemCursor(buf, be, v) && !Fits(v)
    ensures ListHasNext(buf, be) == Done((true, be)) && ListGetNext(buf, be) == Fault
    decreases v, 4
  {
    ItemHead(buf, be, v);
    SkipFaults(buf, be, ItemPos(be), v);
  }

  lemma {:induction false} ListGetNextFaults(buf: Bytes, be: Cur, vs: seq<Item>)
    requires ListCursor(buf, be, vs) && vs != [] && !Fits(vs[0])
    ensures ListHasNext(buf, be) == Done((true, be)) && ListGetNext(buf, be) == Fault
    decreases vs, 0
  {
    ItemAt(buf, ItemPos(be), vs);
    ItemFaults(buf, be, vs[0]);
  }

  lemma {:induction false} DrainListFaults(buf: Bytes, be: Cur, vs: seq<Item>)
    requires ListCursor(buf, be, vs) && !AllFit(vs)
    ensures DrainList(buf, be) == Fault
    decreases vs, 1
  {
    if Fits(vs[0]) {
      ListStepExact(buf, be, vs);
      StepOverItemIs(buf, be, vs);
      DrainListUnfold(buf, be, StepOverItem(be, vs[0]));
      DrainListFaults(buf, StepOverItem(be, vs[0]).be, vs[1..]);
    } else {
      ListGetNextFaults(buf, be, vs);
    }
  }

  lemma {:induction false} EntryFaults(buf: Bytes, be: Cur, e: Pair)
    requires EntryCursor(buf, be, e) && !PairFits(e)
    ensures DictHasNext(buf, be) == Done(true) && DictGetNext(buf, be) == Fault
    decreases e, 0
  {
    var p := KeyPos(buf, be);
    EntryHead(buf, be, e);
    EntryParts(buf, p, e);
    SkipFaults(buf, be, ValPos(p, e), e.val);
    DictGetNextFrom(buf, be, TextPos(p, e.zeros, e.key), |e.key|);
  }

  lemma {:induction false} DictGetNextFaults(buf: Bytes, be: Cur, es: seq<Pair>)
    requires DictCursor(buf, be, es) && es != [] && !PairFits(es[0])
    ensures DictHasNext(buf, be) == Done(true) && DictGetNext(buf, be) == Fault
    decreases es, 0
  {
    NextEntry(buf, be, es);
    EntryFaults(buf, be, es[0]);
  }

  lemma {:induction false} DrainDictFaults(buf: Bytes, be: Cur, es: seq<Pair>)
    requires DictCursor(buf, be, es) && !PairsFit(es)
    ensures DrainDict(buf, be) == Fault
    decreases es, 1
  {
    if PairFits(es[0]) {
      DictStepExact(buf, be, es);
      StepOverIs(buf, be, es);
      DrainDictUnfold(buf, be, StepOver(buf, be, es[0]));
      DrainDictFaults(buf, StepOver(buf, be, es[0]).be, es[1..]);
    } else {
      DictGetNextFaults(buf, be, es);
    }
  }

  // -------------------------------------------------------------- validation

  lemma {:induction false} ValidateFaults(buf: Bytes, be: Cur, v: Item)
    requires ItemCursor(buf, be, v) && !Fits(v)
    ensures Validate(buf, be.str, be.len) == Fault
  {
    assert be == Init(be.str, be.len);
    match v
    case Num(neg, zeros, n) => IntItem(buf, be, neg, zeros, n);
    case Txt(zeros, s) => StringFits(buf, be, zeros, s);
    case Seq(vs) =>
      OpenList(buf, be, vs);
      ValidateListFaults(buf, be, vs);
    case Map(es) =>
      OpenDict(buf, be, es);
      ValidateDictFaults(buf, be, es);
  }

  lemma {:induction false} ValidateListFaults(buf: Bytes, be: Cur, vs: seq<Item>)
    requires ListCursor(buf, be, vs) && !AllFit(vs)
    ensures ValidateList(buf, be) == Fault
    decreases |vs|
  {
    if Fits(vs[0]) {
      ListStepExact(buf, be, vs);
      StepOverItemIs(buf, be, vs);
      var step := StepOverItem(be, vs[0]);
      ValidateExact(buf, step.item, vs[0]);
      ValidateListFaults(buf, step.be, vs[1..]);
    } else {
      ListGetNextFaults(buf, be, vs);
    }
  }

  lemma {:induction false} ValidateDictFaults(buf: Bytes, be: Cur, es: seq<Pair>)
    requires DictCursor(buf, be, es) && !PairsFit(es)
    ensures ValidateDict(buf, be) == Fault
    decreases |es|
  {
    if PairFits(es[0]) {
      DictStepExact(buf, be, es);
      StepOverIs(buf, be, es);
      var step := StepOver(buf, be, es[0]);
      ValidateExact(buf, step.item, es[0].val);
      ValidateDictFaults(buf, step.be, es[1..]);
    } else {
      DictGetNextFaults(buf, be, es);
    }
  }

  /** On the text of an item, bencode_validate returns 0 exactly when its numbers fit and
      the length is an int; otherwise it overflows or is not called at all. What stands
      behind the item is never noticed, even if the length includes it. */
  lemma ValidateItemIff(v: Item, rest: Bytes, len: int)
    requires |Text(v)| <= len
    ensures BencodeValidate(Text(v) + rest, len) == if Fits(v) && len <= INT_MAX then Done(0) else Fault
  {
    if len <= INT_MAX {
      WholeBuffer(v, rest, len);
      if Fits(v) {
        ValidateExact(Text(v) + rest, Init(0, len), v);
      } else {
        ValidateFaults(Text(v) + rest, Init(0, len), v);
      }
    }
  }

  /** In particular it never rejects an encoding. */
  lemma ValidateIffInRange(v: Value, rest: Bytes, len: int)
    requires |Enc(v)| <= len
    ensures BencodeValidate(Enc(v) + rest, len) == if InRange(v) && len <= INT_MAX then Done(0) else Fault
  {
    SpellText(v);
    SpellFits(v);
    ValidateItemIff(Spell(v), rest, len);
  }

  lemma {:induction false} CanonKeepsRange(v: Value)
    ensures InRange(Canonical.Canon(v)) <==> InRange(v)
    decreases v
  {
    match v
    case Int(_) =>
    case Str(_) =>
    case List(vs) =>
      var c := Canonical.CanonItems(vs);
      forall i | 0 <= i < |vs| ensures InRange(c[i]) <==> InRange(vs[i]) { CanonKeepsRange(vs[i]); }
    case Dict(es) =>
      var c := Canonical.CanonEntries(es);
      forall i | 0 <= i < |es| ensures EntryInRange(c[i]) <==> EntryInRange(es[i]) {
        assert es[i].val < es[i];
        CanonKeepsRange(es[i].val);
      }
      SortKeepsRange(c);
      assert EntriesInRange(c) <==> EntriesInRange(es);
  }

  lemma SortKeepsRange(c: seq<Entry>)
    ensures EntriesInRange(Canonical.Sort(c)) <==> EntriesInRange(c)
  {
    var s := Canonical.Sort(c);
    Canonical.SortKeeps(c);
    forall i | 0 <= i < |s| ensures s[i] in c { assert s[i] in multiset(s); }
    forall i | 0 <= i < |c| ensures c[i] in s { assert c[i] in multiset(c); }
  }

  /** The property that test.py samples: bencode_validate accepts what bencode writes. Its
      generator draws integers without a bound, for which this holds only up to 2^63-1, and
      the length is handed over as an int. */
  lemma PropertyTestIff(v: Value)
    ensures var strs := Canonical.Bencode(v);
            BencodeValidate(strs + [NUL], |strs|) == Done(0) <==> InRange(v) && |strs| <= INT_MAX
  {
    ValidateIffInRange(Canonical.Canon(v), [NUL], |Canonical.Bencode(v)|);
    CanonKeepsRange(v);
  }

  // ------------------------------------------------ validation and decoding

  /** A buffer that holds an item and whatever else is accepted by the C reader if its
      numbers fit, and by the decoder if its numerals are minimal and nothing follows. */
  lemma AcceptedBy(v: Item, rest: Bytes)
    ensures var x := Text(v) + rest;
            (BencodeValidate(x, |x|) == Done(0) <==> Fits(v) && |x| <= INT_MAX) &&
            (Canonical.Bdecode(x).Some? <==> Minimal(v) && rest == [])
  {
    ValidateItemIff(v, rest, |Text(v) + rest|);
    TreeIffMinimal(v, rest);
  }

  /** Data behind an encoding is never noticed. */
  lemma TrailingData(v: Value, rest: Bytes)
    ensures var x := Enc(v) + rest;
            (BencodeValidate(x, |x|) == Done(0) <==> InRange(v) && |x| <= INT_MAX) &&
            (Canonical.Bdecode(x).Some? <==> rest == [])
  {
    SpellText(v);
    SpellFits(v);
    MinimalIffSpelt(Spell(v));
    AcceptedBy(Spell(v), rest);
  }

  /** Any digit string is an integer to the C reader; the decoder wants no superfluous zero. */
  lemma DigitStrings(t: Bytes)
    requires t != [] && AllDigits(t)
    ensures var x := [LOWER_I] + t + [LOWER_E];
            (BencodeValidate(x, |x|) == Done(0) <==> Accumulate(t, 0) < 0x8000_0000_0000_0000 && |x| < 0x8000_0000) &&
            (Canonical.Bdecode(x).Some? <==> |t| == 1 || t[0] != ZERO)
  {
    var zeros := EveryDigitString(t);
    var v := Num(false, zeros, Accumulate(t, 0));
    AcceptedBy(v, []);
    assert Text(v) + [] == [LOWER_I] + t + [LOWER_E];
  }

  /** On "i05e" the C reader answers 0 where the decoder raises. */
  lemma ValidateIsLenient()
    ensures var x := [LOWER_I, 48, 53, LOWER_E];
            BencodeValidate(x, 4) == Done(0) && Canonical.Bdecode(x).None?
  {
    var t: Bytes := [48, 53];
    assert [LOWER_I] + t + [LOWER_E] == [LOWER_I, 48, 53, LOWER_E];
    assert t[1..] == [53] && t[1..][1..] == [];
    DigitStrings(t);
  }

  // ------------------------------------------- the reader against the decoder

  lemma {:induction false} WalkFaults(buf: Bytes, be: Cur, v: Item)
    requires ItemCursor(buf, be, v) && !Fits(v)
    ensures Walk(buf, be.str, be.len) == Fault
    decreases v, 2
  {
    assert be == Init(be.str, be.len);
    match v
    case Num(neg, zeros, n) => IntItem(buf, be, neg, zeros, n);
    case Txt(zeros, s) => StringFits(buf, be, zeros, s);
    case Seq(vs) =>
      OpenList(buf, be, vs);
      WalkListFaults(buf, be, vs);
    case Map(es) =>
      OpenDict(buf, be, es);
      WalkDictFaults(buf, be, es);
  }

  lemma {:induction false} WalkListFaults(buf: Bytes, be: Cur, vs: seq<Item>)
    requires ListCursor(buf, be, vs) && !AllFit(vs)
    ensures WalkList(buf, be) == Fault
    decreases |vs|
  {
    if Fits(vs[0]) {
      ListStepExact(buf, be, vs);
      StepOverItemIs(buf, be, vs);
      WalkListFaults(buf, StepOverItem(be, vs[0]).be, vs[1..]);
    } else {
      ListGetNextFaults(buf, be, vs);
    }
  }

  lemma {:induction false} WalkDictFaults(buf: Bytes, be: Cur, es: seq<Pair>)
    requires DictCursor(buf, be, es) && !PairsFit(es)
    ensures WalkDict(buf, be) == Fault
    decreases |es|
  {
    if PairFits(es[0]) {
      DictStepExact(buf, be, es);
      StepOverIs(buf, be, es);
      WalkDictFaults(buf, StepOver(buf, be, es[0]).be, es[1..]);
    } else {
      DictGetNextFaults(buf, be, es);
    }
  }

  /** The client on a whole buffer, whose length is an int. */
  function WalkBuffer(buf: Bytes, len: int): Run<Value> {
    var _ :- Assert(IsInt(len));
    Walk(buf, 0, len)
  }

  lemma WalkItemIff(v: Item, rest: Bytes, len: int)
    requires |Text(v)| <= len
    ensures WalkBuffer(Text(v) + rest, len) == if Fits(v) && len <= INT_MAX then Done(Meaning(v)) else Fault
  {
    if len <= INT_MAX {
      WholeBuffer(v, rest, len);
      if Fits(v) {
        WalkExact(Text(v) + rest, Init(0, len), v);
      } else {
        WalkFaults(Text(v) + rest, Init(0, len), v);
      }
    }
  }

  /** On whatever the reference decoder accepts, the cursor interface shows the same tree,
      with dictionary entries in buffer order, if its numbers and the length fit; otherwise
      it overflows. */
  lemma ReaderRefinesDecoder(x: Bytes, rest: Bytes)
    requires Reference.Tree(x).Some?
    ensures var tree := Reference.Tree(x).value;
            WalkBuffer(x + rest, |x|) == if InRange(tree) && |x| <= INT_MAX then Done(tree) else Fault
  {
    var tree := Reference.Tree(x).value;
    Reference.TreeIffEncoding(x, tree);
    SpellText(tree);
    SpellFits(tree);
    WalkItemIff(Spell(tree), rest, |x|);
  }
}
