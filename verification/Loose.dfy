/** A grammar looser than the one of BEP 3: integers and lengths may have superfluous leading
    zeros, and 0 may have a minus sign. The heapless reader takes all of it, the reference
    decoder only the encodings among it. */
module Loose {
  import opened Bytes
  import opened Grammar
  import opened Reference

  /** A value together with the way its numerals are written. */
  datatype Item =
    | Num(neg: bool, zeros: nat, n: nat)
    | Txt(zeros: nat, s: Bytes)
    | Seq(items: seq<Item>)
    | Map(pairs: seq<Pair>)

  datatype Pair = Pair(zeros: nat, key: Bytes, val: Item)

  // ------------------------------------------------------------------- texts

  function Digits(zeros: nat, n: nat): (t: Bytes)
    ensures t != [] && AllDigits(t)
    ensures t[0] == ZERO && |t| > 1 <==> zeros > 0
    ensures t[0] == ZERO <==> zeros > 0 || n == 0
  {
    if zeros == 0 then Decimal(n) else [ZERO] + Digits(zeros - 1, n)
  }

  function NumText(neg: bool, zeros: nat, n: nat): (t: Bytes)
    ensures t != []
  {
    if neg then [MINUS] + Digits(zeros, n) else Digits(zeros, n)
  }

  function StrText(zeros: nat, s: Bytes): (t: Bytes)
    ensures t != [] && IsDigit(t[0])
  {
    Digits(zeros, |s|) + [COLON] + s
  }

  function Text(v: Item): (t: Bytes)
    ensures t != []
    ensures t[0] != LOWER_E
    decreases v
  {
    match v
    case Num(neg, zeros, n) => [LOWER_I] + NumText(neg, zeros, n) + [LOWER_E]
    case Txt(zeros, s) => StrText(zeros, s)
    case Seq(vs) => [LOWER_L] + SeqTail(vs)
    case Map(ps) => [LOWER_D] + MapTail(ps)
  }

  function SeqTail(vs: seq<Item>): (t: Bytes)
    ensures t != []
    decreases vs
  {
    if vs == [] then [LOWER_E] else Text(vs[0]) + SeqTail(vs[1..])
  }

  function MapTail(ps: seq<Pair>): (t: Bytes)
    ensures t != []
    ensures ps == [] <==> t[0] == LOWER_E
    ensures ps != [] ==> IsDigit(t[0]) && |t| >= 2
    ensures t[|t| - 1] == LOWER_E
    decreases ps
  {
    if ps == [] then [LOWER_E] else PairText(ps[0]) + MapTail(ps[1..])
  }

  /** Items one behind the other, without a closing byte. */
  function ItemsText(vs: seq<Item>): Bytes
    decreases vs
  {
    if vs == [] then [] else Text(vs[0]) + ItemsText(vs[1..])
  }

  function PairText(p: Pair): Bytes
    decreases p
  {
    StrText(p.zeros, p.key) + Text(p.val)
  }

  /** Where the value of a pair written at `at` begins, and where the pair ends. */
  function ValPos(at: int, p: Pair): int { at + |StrText(p.zeros, p.key)| }
  function PairEnd(at: int, p: Pair): int { at + |PairText(p)| }

  lemma {:induction false} DigitsValue(zeros: nat, n: nat)
    ensures Accumulate(Digits(zeros, n), 0) == n
  {
    if zeros == 0 {
      DecimalValue(n);
    } else {
      DigitsValue(zeros - 1, n);
      assert Digits(zeros, n)[1..] == Digits(zeros - 1, n);
    }
  }

  /** Every digit string is of this form. */
  lemma {:induction false} EveryDigitString(t: Bytes) returns (zeros: nat)
    requires t != [] && AllDigits(t)
    ensures Accumulate(t, 0) >= 0 && t == Digits(zeros, Accumulate(t, 0))
  {
    if t[0] == ZERO && |t| > 1 {
      var fewer := EveryDigitString(t[1..]);
      zeros := fewer + 1;
      assert t == [ZERO] + t[1..];
    } else {
      DecimalUnique(t);
      zeros := 0;
    }
  }

  // ----------------------------------------------------------------- meaning

  function Amount(neg: bool, n: int): int { if neg then -n else n }

  function Meaning(v: Item): Value
    decreases v
  {
    match v
    case Num(neg, _, n) => Int(Amount(neg, n))
    case Txt(_, s) => Str(s)
    case Seq(vs) => List(Meanings(vs))
    case Map(ps) => Dict(PairMeanings(ps))
  }

  function Meanings(vs: seq<Item>): (r: seq<Value>)
    ensures |r| == |vs|
    decreases vs
  {
    if vs == [] then [] else [Meaning(vs[0])] + Meanings(vs[1..])
  }

  function PairMeanings(ps: seq<Pair>): (r: seq<Entry>)
    ensures |r| == |ps|
    decreases ps
  {
    if ps == [] then [] else [PairMeaning(ps[0])] + PairMeanings(ps[1..])
  }

  function PairMeaning(p: Pair): Entry
    decreases p
  {
    Entry(p.key, Meaning(p.val))
  }

  /** No numeral has a superfluous zero or a minus sign before 0. */
  predicate Minimal(v: Item)
    decreases v
  {
    match v
    case Num(neg, zeros, n) => zeros == 0 && !(neg && n == 0)
    case Txt(zeros, _) => zeros == 0
    case Seq(vs) => AllMinimal(vs)
    case Map(ps) => PairsMinimal(ps)
  }

  predicate AllMinimal(vs: seq<Item>)
    decreases vs
  {
    vs == [] || (Minimal(vs[0]) && AllMinimal(vs[1..]))
  }

  predicate PairsMinimal(ps: seq<Pair>)
    decreases ps
  {
    ps == [] || (PairMinimal(ps[0]) && PairsMinimal(ps[1..]))
  }

  predicate PairMinimal(p: Pair)
    decreases p
  {
    p.zeros == 0 && Minimal(p.val)
  }

  /** Integers fit a `long` built from their magnitude, and lengths an `int`. */
  predicate Fits(v: Item)
    decreases v
  {
    match v
    case Num(_, _, n) => n <= LONG_MAX
    case Txt(_, s) => |s| <= INT_MAX
    case Seq(vs) => AllFit(vs)
    case Map(ps) => PairsFit(ps)
  }

  predicate AllFit(vs: seq<Item>)
    decreases vs
  {
    vs == [] || (Fits(vs[0]) && AllFit(vs[1..]))
  }

  predicate PairsFit(ps: seq<Pair>)
    decreases ps
  {
    ps == [] || (PairFits(ps[0]) && PairsFit(ps[1..]))
  }

  predicate PairFits(p: Pair)
    decreases p
  {
    |p.key| <= INT_MAX && Fits(p.val)
  }

  // ---------------------------------------------------------- the encodings

  /** The item whose text is the encoding. */
  function Spell(v: Value): Item
    decreases v
  {
    match v
    case Int(n) => Num(n < 0, 0, if n < 0 then -n else n)
    case Str(s) => Txt(0, s)
    case List(vs) => Seq(SpellAll(vs))
    case Dict(es) => Map(SpellEntries(es))
  }

  function SpellAll(vs: seq<Value>): (r: seq<Item>)
    ensures |r| == |vs|
    decreases vs
  {
    if vs == [] then [] else [Spell(vs[0])] + SpellAll(vs[1..])
  }

  function SpellEntries(es: seq<Entry>): (r: seq<Pair>)
    ensures |r| == |es|
    decreases es
  {
    if es == [] then [] else [SpellEntry(es[0])] + SpellEntries(es[1..])
  }

  function SpellEntry(e: Entry): Pair
    decreases e
  {
    Pair(0, e.key, Spell(e.val))
  }

  lemma {:induction false} SpellText(v: Value)
    ensures Text(Spell(v)) == Enc(v) && Meaning(Spell(v)) == v
    decreases v, 0
  {
    match v
    case Int(_) =>
    case Str(_) =>
    case List(vs) => SpellAllText(vs);
    case Dict(es) => SpellEntriesText(es);
  }

  lemma {:induction false} SpellAllText(vs: seq<Value>)
    ensures SeqTail(SpellAll(vs)) == ListTail(vs) && Meanings(SpellAll(vs)) == vs
    decreases vs, 1
  {
    if vs == [] {
    } else {
      SpellText(vs[0]);
      SpellAllText(vs[1..]);
      assert SpellAll(vs)[1..] == SpellAll(vs[1..]);
      assert vs == [vs[0]] + vs[1..];
    }
  }

  lemma {:induction false} SpellEntriesText(es: seq<Entry>)
    ensures MapTail(SpellEntries(es)) == DictTail(es) && PairMeanings(SpellEntries(es)) == es
    decreases es, 1
  {
    if es == [] {
    } else {
      assert es[0].val < es[0];
      SpellText(es[0].val);
      SpellEntriesText(es[1..]);
      SpellEntriesStep(es);
      assert PairText(SpellEntry(es[0])) == EncEntry(es[0]);
      assert es == [es[0]] + es[1..];
    }
  }

  lemma SpellEntriesStep(es: seq<Entry>)
    requires es != []
    ensures SpellEntries(es)[0] == SpellEntry(es[0]) && SpellEntries(es)[1..] == SpellEntries(es[1..])
  {
  }

  lemma {:induction false} SpellFits(v: Value)
    ensures Fits(Spell(v)) <==> InRange(v)
    decreases v, 0
  {
    match v
    case Int(_) =>
    case Str(_) =>
    case List(vs) => SpellAllFits(vs);
    case Dict(es) => SpellEntriesFits(es);
  }

  lemma {:induction false} SpellAllFits(vs: seq<Value>)
    ensures AllFit(SpellAll(vs)) <==> forall i | 0 <= i < |vs| :: InRange(vs[i])
    decreases vs, 1
  {
    if vs == [] {
    } else {
      SpellFits(vs[0]);
      SpellAllFits(vs[1..]);
      assert SpellAll(vs)[1..] == SpellAll(vs[1..]);
      assert forall i | 1 <= i < |vs| :: vs[i] == vs[1..][i - 1];
    }
  }

  lemma {:induction false} SpellEntriesFits(es: seq<Entry>)
    ensures PairsFit(SpellEntries(es)) <==> EntriesInRange(es)
    decreases es, 1
  {
    if es == [] {
    } else {
      assert es[0].val < es[0];
      SpellFits(es[0].val);
      SpellEntriesFits(es[1..]);
      SpellEntriesStep(es);
      assert forall i | 1 <= i < |es| :: es[i] == es[1..][i - 1];
    }
  }

  /** The items without superfluous zeros are the spelt values. */
  lemma {:induction false} MinimalIffSpelt(v: Item)
    ensures Minimal(v) <==> Spell(Meaning(v)) == v
    decreases v, 0
  {
    match v
    case Num(_, _, _) =>
    case Txt(_, _) =>
    case Seq(vs) => AllMinimalIffSpelt(vs);
    case Map(ps) => PairsMinimalIffSpelt(ps);
  }

  lemma {:induction false} AllMinimalIffSpelt(vs: seq<Item>)
    ensures AllMinimal(vs) <==> SpellAll(Meanings(vs)) == vs
    decreases vs, 1
  {
    if vs == [] {
    } else {
      MinimalIffSpelt(vs[0]);
      AllMinimalIffSpelt(vs[1..]);
      assert Meanings(vs)[1..] == Meanings(vs[1..]);
      ConsEqual(Spell(Meaning(vs[0])), SpellAll(Meanings(vs[1..])), vs);
    }
  }

  lemma {:induction false} PairsMinimalIffSpelt(ps: seq<Pair>)
    ensures PairsMinimal(ps) <==> SpellEntries(PairMeanings(ps)) == ps
    decreases ps, 1
  {
    if ps == [] {
    } else {
      assert ps[0].val < ps[0];
      MinimalIffSpelt(ps[0].val);
      PairsMinimalIffSpelt(ps[1..]);
      assert PairMeanings(ps)[1..] == PairMeanings(ps[1..]);
      ConsEqual(SpellEntry(PairMeaning(ps[0])), SpellEntries(PairMeanings(ps[1..])), ps);
    }
  }

  lemma ConsEqual<T>(x: T, xs: seq<T>, ys: seq<T>)
    requires ys != []
    ensures [x] + xs == ys <==> x == ys[0] && xs == ys[1..]
  {
    assert ys == [ys[0]] + ys[1..];
    assert ([x] + xs)[0] == x && ([x] + xs)[1..] == xs;
  }

  // -------------------------------------------------- the reference decoder

  lemma DecodeIntRejects(x: Bytes, f: nat, v: Item)
    requires v.Num? && !Minimal(v) && Holds(x, f, Text(v))
    ensures DecodeInt(x, f) == Bad
  {
    var t := NumText(v.neg, v.zeros, v.n);
    assert Text(v) == [LOWER_I] + (t + [LOWER_E]);
    HoldsSplit(x, f, [LOWER_I], t + [LOWER_E]);
    HoldsSplit(x, f + 1, t, [LOWER_E]);
    var newf := f + 1 + |t|;
    HoldsFirst(x, newf, [LOWER_E]);
    HoldsFirst(x, f + 1, t);
    forall i | f + 1 <= i < newf ensures x[i] != LOWER_E {
      assert x[f + 1 + (i - f - 1)] == t[i - f - 1];
    }
    IndexOfIs(x, LOWER_E, f + 1, newf);
    if v.neg {
      HoldsSplit(x, f + 1, [MINUS], Digits(v.zeros, v.n));
      HoldsFirst(x, f + 2, Digits(v.zeros, v.n));
    }
    NumeralRejected(x, f, newf);
  }

  lemma NumeralRejected(x: Bytes, f: nat, newf: nat)
    requires f + 1 < newf < |x| && IndexOf(x, LOWER_E, f + 1) == Some(newf)
    requires if x[f + 1] == MINUS then x[f + 2] == ZERO else x[f + 1] == ZERO && newf != f + 2
    ensures DecodeInt(x, f) == Bad
  {
  }

  lemma DecodeStringRejects(x: Bytes, f: nat, zeros: nat, s: Bytes)
    requires zeros > 0 && Holds(x, f, StrText(zeros, s))
    ensures DecodeString(x, f) == Bad && IsDigit(x[f])
  {
    var t := Digits(zeros, |s|);
    assert StrText(zeros, s) == t + ([COLON] + s);
    HoldsSplit(x, f, t, [COLON] + s);
    HoldsSplit(x, f + |t|, [COLON], s);
    var colon := f + |t|;
    HoldsFirst(x, colon, [COLON]);
    HoldsFirst(x, f, t);
    forall i | f <= i < colon ensures x[i] != COLON {
      assert x[f + (i - f)] == t[i - f];
    }
    IndexOfIs(x, COLON, f, colon);
  }

  /** An item with a superfluous zero anywhere is not decoded. */
  lemma {:induction false} DecodeRejects(x: Bytes, f: nat, v: Item)
    requires Holds(x, f, Text(v)) && !Minimal(v)
    ensures DecodeValue(x, f) == Bad
    decreases v, 0
  {
    HoldsFirst(x, f, Text(v));
    match v
    case Num(_, _, _) => DecodeIntRejects(x, f, v);
    case Txt(zeros, s) => DecodeStringRejects(x, f, zeros, s);
    case Seq(vs) =>
      OpeningHere(x, f, LOWER_L, SeqTail(vs));
      DecodeItemsRejects(x, f + 1, vs, SeqTail(vs));
    case Map(ps) =>
      OpeningHere(x, f, LOWER_D, MapTail(ps));
      DecodeEntriesRejects(x, f + 1, ps);
  }

  /** Without one it is, as the encoding of its meaning. */
  lemma DecodeMinimal(x: Bytes, f: nat, v: Item)
    requires Holds(x, f, Text(v)) && Minimal(v)
    ensures DecodeValue(x, f) == Got(Meaning(v), f + |Text(v)|)
  {
    MinimalIffSpelt(v);
    SpellText(Meaning(v));
    DecodeHere(x, f, Meaning(v));
  }

  lemma ItemAt(x: Bytes, f: int, vs: seq<Item>)
    requires vs != [] && Holds(x, f, SeqTail(vs))
    ensures Holds(x, f, Text(vs[0]))
    ensures Holds(x, f + |Text(vs[0])|, SeqTail(vs[1..]))
    ensures f + |Text(vs[0])| + |SeqTail(vs[1..])| == f + |SeqTail(vs)|
    ensures f < |x| && x[f] != LOWER_E
  {
    HoldsParts(x, f, SeqTail(vs), Text(vs[0]), SeqTail(vs[1..]));
    HoldsFirst(x, f, Text(vs[0]));
  }

  lemma ItemsStart(x: Bytes, f: int, vs: seq<Item>, first: Bytes, rest: Bytes)
    requires vs != [] && Holds(x, f, ItemsText(vs)) && first == Text(vs[0]) && rest == ItemsText(vs[1..])
    ensures Holds(x, f, first) && Holds(x, f + |first|, rest) && ItemsText(vs) == first + rest
  {
    HoldsParts(x, f, ItemsText(vs), first, rest);
  }

  lemma {:induction false} DecodeItemsRejects(x: Bytes, f: nat, vs: seq<Item>, text: Bytes)
    requires text == SeqTail(vs) && Holds(x, f, text) && !AllMinimal(vs)
    ensures DecodeItems(x, f) == Bad
    decreases vs, 1
  {
    var first, rest := Text(vs[0]), SeqTail(vs[1..]);
    HoldsSplit(x, f, first, rest);
    if Minimal(vs[0]) {
      DecodeItemsRejects(x, f + |first|, vs[1..], rest);
      RestOfItemsRejected(x, f, vs[0]);
    } else {
      DecodeRejects(x, f, vs[0]);
      ItemRejected(x, f, vs[0]);
    }
  }

  lemma RestOfItemsRejected(x: Bytes, f: nat, v: Item)
    requires Holds(x, f, Text(v)) && Minimal(v) && DecodeItems(x, f + |Text(v)|) == Bad
    ensures DecodeItems(x, f) == Bad
  {
    HoldsFirst(x, f, Text(v));
    DecodeMinimal(x, f, v);
    ItemsRejected(x, f, Meaning(v), f + |Text(v)|);
  }

  lemma ItemRejected(x: Bytes, f: nat, v: Item)
    requires Holds(x, f, Text(v)) && DecodeValue(x, f) == Bad
    ensures DecodeItems(x, f) == Bad
  {
    HoldsFirst(x, f, Text(v));
  }

  lemma ItemsRejected(x: Bytes, f: nat, v: Value, g: nat)
    requires f < |x| && x[f] != LOWER_E && DecodeValue(x, f) == Got(v, g) && DecodeItems(x, g) == Bad
    ensures DecodeItems(x, f) == Bad
  {
  }

  lemma PairParts(x: Bytes, f: int, p: Pair)
    requires Holds(x, f, PairText(p))
    ensures Holds(x, f, StrText(p.zeros, p.key)) && Holds(x, ValPos(f, p), Text(p.val))
    ensures ValPos(f, p) + |Text(p.val)| == PairEnd(f, p)
    ensures f < |x| && IsDigit(x[f])
  {
    HoldsSplit(x, f, StrText(p.zeros, p.key), Text(p.val));
    HoldsFirst(x, f, StrText(p.zeros, p.key));
  }

  lemma DecodePair(x: Bytes, f: nat, p: Pair)
    requires Holds(x, f, PairText(p)) && PairMinimal(p)
    ensures DecodeString(x, f) == Got(p.key, ValPos(f, p))
    ensures DecodeValue(x, ValPos(f, p)) == Got(Meaning(p.val), PairEnd(f, p))
  {
    PairParts(x, f, p);
    KeyHere(x, f, p.key);
    DecodeMinimal(x, ValPos(f, p), p.val);
  }

  /** An entry with a superfluous zero is not decoded, whatever follows it. */
  lemma {:induction false} DecodePairRejects(x: Bytes, f: nat, p: Pair)
    requires Holds(x, f, PairText(p)) && !PairMinimal(p)
    ensures DecodeEntries(x, f) == Bad
    decreases p, 0
  {
    PairParts(x, f, p);
    if p.zeros > 0 {
      DecodeStringRejects(x, f, p.zeros, p.key);
      KeyRejected(x, f);
    } else {
      KeyHere(x, f, p.key);
      DecodeRejects(x, ValPos(f, p), p.val);
      ValueRejected(x, f, p.key, ValPos(f, p));
    }
  }

  /** Nor is one that is followed by what is not decoded. */
  lemma RestOfPairRejected(x: Bytes, f: nat, p: Pair)
    requires Holds(x, f, PairText(p)) && PairMinimal(p) && DecodeEntries(x, PairEnd(f, p)) == Bad
    ensures DecodeEntries(x, f) == Bad
  {
    PairParts(x, f, p);
    DecodePair(x, f, p);
    RestRejected(x, f, p.key, ValPos(f, p), Meaning(p.val), PairEnd(f, p));
  }

  lemma {:induction false} DecodeEntriesRejects(x: Bytes, f: nat, ps: seq<Pair>)
    requires Holds(x, f, MapTail(ps)) && !PairsMinimal(ps)
    ensures DecodeEntries(x, f) == Bad
    decreases ps, 1
  {
    HoldsSplit(x, f, PairText(ps[0]), MapTail(ps[1..]));
    if PairMinimal(ps[0]) {
      DecodeEntriesRejects(x, PairEnd(f, ps[0]), ps[1..]);
      RestOfPairRejected(x, f, ps[0]);
    } else {
      DecodePairRejects(x, f, ps[0]);
    }
  }

  lemma KeyRejected(x: Bytes, f: nat)
    requires f < |x| && x[f] != LOWER_E && DecodeString(x, f) == Bad
    ensures DecodeEntries(x, f) == Bad
  {
  }

  lemma KeyHere(x: Bytes, f: nat, key: Bytes)
    requires Holds(x, f, StrText(0, key))
    ensures DecodeString(x, f) == Got(key, f + |StrText(0, key)|)
  {
    assert StrText(0, key) == StrBytes(key);
    DecodeStringHere(x, f, key);
  }

  lemma ValueRejected(x: Bytes, f: nat, k: Bytes, g: nat)
    requires f < |x| && x[f] != LOWER_E && DecodeString(x, f) == Got(k, g) && DecodeValue(x, g) == Bad
    ensures DecodeEntries(x, f) == Bad
  {
  }

  lemma RestRejected(x: Bytes, f: nat, k: Bytes, g: nat, v: Value, h: nat)
    requires f < |x| && x[f] != LOWER_E && DecodeString(x, f) == Got(k, g)
    requires DecodeValue(x, g) == Got(v, h) && DecodeEntries(x, h) == Bad
    ensures DecodeEntries(x, f) == Bad
  {
  }

  /** The decoder accepts the text of an item exactly when its numerals are minimal and
      nothing follows; what it returns is then the meaning. */
  lemma TreeIffMinimal(v: Item, rest: Bytes)
    ensures Tree(Text(v) + rest) == if Minimal(v) && rest == [] then Some(Meaning(v)) else None
  {
    var x := Text(v) + rest;
    HoldsSlice(x, 0, Text(v));
    assert x[0..|Text(v)|] == Text(v);
    if Minimal(v) {
      DecodeMinimal(x, 0, v);
    } else {
      DecodeRejects(x, 0, v);
    }
  }
}
