/** The recursive-descent decoder of tests/bencode/__init__.py, as a function on all
    byte strings, and its exact relation to the encoding. */
module Reference {
  import opened Bytes
  import opened Grammar

  /** A decode function returns a value and the next position, or raises. */
  datatype Parse<+T> = Got(val: T, next: nat) | Bad {
    predicate IsFailure() { Bad? }
    function PropagateFailure<U>(): Parse<U> requires Bad? { Bad }
    function Extract(): (T, nat) requires Got? { (val, next) }
  }

  /** `x.index(c, f)`. */
  function IndexOf(x: Bytes, c: Byte, f: nat): (r: Option<nat>)
    ensures r.Some? ==> f <= r.value < |x| && x[r.value] == c
    ensures r.Some? ==> forall i | f <= i < r.value :: x[i] != c
    ensures r.None? ==> forall i | f <= i < |x| :: x[i] != c
    decreases |x| - f
  {
    if f >= |x| then None else if x[f] == c then Some(f) else IndexOf(x, c, f + 1)
  }

  /** `int(t)` on the digit grammar. */
  function ParseNat(t: Bytes): Option<int> {
    if t != [] && AllDigits(t) then Some(Accumulate(t, 0)) else None
  }

  function ParseInt(t: Bytes): Option<int> {
    if t != [] && t[0] == MINUS then
      match ParseNat(t[1..]) case Some(n) => Some(-n) case None => None
    else ParseNat(t)
  }

  function DecodeInt(x: Bytes, f: nat): (r: Parse<Value>)
    requires f < |x|
    ensures r.Got? ==> f < r.next <= |x|
  {
    match IndexOf(x, LOWER_E, f + 1)
    case None => Bad
    case Some(newf) =>
      match ParseInt(x[f + 1..newf])
      case None => Bad
      case Some(n) =>
        if x[f + 1] == MINUS then
          if x[f + 2] == ZERO then Bad else Got(Int(n), newf + 1)
        else if x[f + 1] == ZERO && newf != f + 2 then Bad
        else Got(Int(n), newf + 1)
  }

  /** A slice past the end of the input is cut short, but the position is not. */
  function DecodeString(x: Bytes, f: nat): (r: Parse<Bytes>)
    ensures r.Got? ==> f + 1 < r.next
  {
    match IndexOf(x, COLON, f)
    case None => Bad
    case Some(colon) =>
      match ParseNat(x[f..colon])
      case None => Bad
      case Some(n) =>
        if x[f] == ZERO && colon != f + 1 then Bad
        else
          AccumulateGrows(x[f..colon], 0);
          var start := colon + 1;
          var stop := if start + n <= |x| then start + n else |x|;
          Got(x[start..stop], start + n)
  }

  ghost function Left(x: Bytes, f: nat): nat { if f < |x| then |x| - f else 0 }

  function DecodeValue(x: Bytes, f: nat): (r: Parse<Value>)
    ensures r.Got? ==> f < r.next
    decreases Left(x, f), 0
  {
    if f >= |x| then Bad
    else if x[f] == LOWER_L then
      var (vs, g) :- DecodeItems(x, f + 1);
      Got(List(vs), g)
    else if x[f] == LOWER_D then
      var (es, g) :- DecodeEntries(x, f + 1);
      Got(Dict(es), g)
    else if x[f] == LOWER_I then DecodeInt(x, f)
    else if IsDigit(x[f]) then
      var (s, g) :- DecodeString(x, f);
      Got(Str(s), g)
    else Bad
  }

  function DecodeItems(x: Bytes, f: nat): (r: Parse<seq<Value>>)
    ensures r.Got? ==> f < r.next
    decreases Left(x, f), 1
  {
    if f >= |x| then Bad
    else if x[f] == LOWER_E then Got([], f + 1)
    else
      var (v, g) :- DecodeValue(x, f);
      var (vs, h) :- DecodeItems(x, g);
      Got([v] + vs, h)
  }

  /** The entries of a dictionary in input order, repetitions included. */
  function DecodeEntries(x: Bytes, f: nat): (r: Parse<seq<Entry>>)
    ensures r.Got? ==> f < r.next
    decreases Left(x, f), 1
  {
    if f >= |x| then Bad
    else if x[f] == LOWER_E then Got([], f + 1)
    else
      var (k, g) :- DecodeString(x, f);
      var (v, h) :- DecodeValue(x, g);
      var (es, j) :- DecodeEntries(x, h);
      Got([Entry(k, v)] + es, j)
  }

  /** The parse tree of a whole input. */
  function Tree(x: Bytes): Option<Value> {
    match DecodeValue(x, 0)
    case Got(v, g) => if g == |x| then Some(v) else None
    case Bad => None
  }

  // ------------------------------------------------------------ completeness

  lemma IndexOfIs(x: Bytes, c: Byte, f: nat, k: nat)
    requires f <= k < |x| && x[k] == c
    requires forall i | f <= i < k :: x[i] != c
    ensures IndexOf(x, c, f) == Some(k)
  {
  }

  lemma DecodeIntHere(x: Bytes, f: nat, n: int)
    requires Here(x, f, Int(n))
    ensures DecodeInt(x, f) == Got(Int(n), f + |Enc(Int(n))|)
  {
    var t := Numeral(n);
    HoldsSplit(x, f, [LOWER_I], t + [LOWER_E]);
    assert [LOWER_I] + t + [LOWER_E] == [LOWER_I] + (t + [LOWER_E]);
    HoldsSplit(x, f + 1, t, [LOWER_E]);
    var newf := f + 1 + |t|;
    HoldsFirst(x, newf, [LOWER_E]);
    HoldsFirst(x, f + 1, t);
    HoldsSlice(x, f + 1, t);
    forall i | f + 1 <= i < newf ensures x[i] != LOWER_E {
      assert x[f + 1 + (i - f - 1)] == t[i - f - 1];
    }
    IndexOfIs(x, LOWER_E, f + 1, newf);
    DecimalValue(if n < 0 then -n else n);
    if n < 0 {
      assert t[1..] == Decimal(-n);
      assert x[f + 1 + 1] == t[1];
    }
  }

  lemma DecodeStringHere(x: Bytes, f: nat, s: Bytes)
    requires Holds(x, f, StrBytes(s))
    ensures DecodeString(x, f) == Got(s, f + |StrBytes(s)|)
    ensures IsDigit(x[f])
  {
    var t := Decimal(|s|);
    assert StrBytes(s) == t + ([COLON] + s);
    HoldsSplit(x, f, t, [COLON] + s);
    HoldsSplit(x, f + |t|, [COLON], s);
    var colon := f + |t|;
    HoldsFirst(x, colon, [COLON]);
    HoldsFirst(x, f, t);
    HoldsSlice(x, f, t);
    HoldsSlice(x, colon + 1, s);
    forall i | f <= i < colon ensures x[i] != COLON {
      assert x[f + (i - f)] == t[i - f];
    }
    IndexOfIs(x, COLON, f, colon);
    DecimalValue(|s|);
  }

  lemma OpeningHere(x: Bytes, f: nat, opening: Byte, tail: Bytes)
    requires Holds(x, f, [opening] + tail)
    ensures x[f] == opening && Holds(x, f + 1, tail)
  {
    HoldsSplit(x, f, [opening], tail);
    HoldsFirst(x, f, [opening]);
  }

  /** Whatever surrounds it, an encoding is decoded to its value and to nothing more. */
  lemma {:induction false} DecodeHere(x: Bytes, f: nat, v: Value)
    requires Here(x, f, v)
    ensures DecodeValue(x, f) == Got(v, f + |Enc(v)|)
    decreases v, 0
  {
    match v
    case Int(n) =>
      DecodeIntHere(x, f, n);
      HoldsFirst(x, f, Enc(v));
    case Str(s) => DecodeStringHere(x, f, s);
    case List(vs) =>
      OpeningHere(x, f, LOWER_L, ListTail(vs));
      DecodeItemsHere(x, f + 1, vs);
    case Dict(es) =>
      OpeningHere(x, f, LOWER_D, DictTail(es));
      DecodeEntriesHere(x, f + 1, es);
  }

  lemma {:induction false} DecodeItemsHere(x: Bytes, f: nat, vs: seq<Value>)
    requires Holds(x, f, ListTail(vs))
    ensures DecodeItems(x, f) == Got(vs, f + |ListTail(vs)|)
    decreases vs, 1
  {
    HoldsFirst(x, f, ListTail(vs));
    if vs == [] {
    } else {
      var g := f + |Enc(vs[0])|;
      HoldsSplit(x, f, Enc(vs[0]), ListTail(vs[1..]));
      DecodeHere(x, f, vs[0]);
      DecodeItemsHere(x, g, vs[1..]);
      DecodeItemsUnfold(x, f, vs[0], g, vs[1..], f + |ListTail(vs)|);
      assert [vs[0]] + vs[1..] == vs;
    }
  }

  lemma DecodeItemsUnfold(x: Bytes, f: nat, v: Value, g: nat, vs: seq<Value>, h: nat)
    requires f < |x| && x[f] != LOWER_E
    requires DecodeValue(x, f) == Got(v, g) && DecodeItems(x, g) == Got(vs, h)
    ensures DecodeItems(x, f) == Got([v] + vs, h)
  {
  }

  lemma EntrySplits(x: Bytes, f: int, e: Entry)
    requires Holds(x, f, EncEntry(e))
    ensures Holds(x, f, StrBytes(e.key)) && Here(x, ValText(f, e), e.val)
    ensures ValText(f, e) + |Enc(e.val)| == EntryEnd(f, e)
  {
    HoldsSplit(x, f, StrBytes(e.key), Enc(e.val));
  }

  lemma {:induction false} DecodeEntryHere(x: Bytes, f: nat, e: Entry)
    requires Holds(x, f, EncEntry(e))
    ensures DecodeString(x, f) == Got(e.key, ValText(f, e))
    ensures DecodeValue(x, ValText(f, e)) == Got(e.val, EntryEnd(f, e))
    decreases e, 0
  {
    EntrySplits(x, f, e);
    DecodeStringHere(x, f, e.key);
    DecodeHere(x, ValText(f, e), e.val);
  }

  lemma {:induction false} DecodeEntriesHere(x: Bytes, f: nat, es: seq<Entry>)
    requires Holds(x, f, DictTail(es))
    ensures DecodeEntries(x, f) == Got(es, f + |DictTail(es)|)
    decreases es, 1
  {
    HoldsFirst(x, f, DictTail(es));
    if es == [] {
    } else {
      var e, g, h := es[0], ValText(f, es[0]), EntryEnd(f, es[0]);
      HoldsSplit(x, f, EncEntry(e), DictTail(es[1..]));
      DecodeEntryHere(x, f, e);
      DecodeEntriesHere(x, h, es[1..]);
      DecodeEntriesUnfold(x, f, e.key, g, e.val, h, es[1..], h + |DictTail(es[1..])|);
      assert [Entry(e.key, e.val)] + es[1..] == es;
    }
  }

  lemma DecodeEntriesUnfold(x: Bytes, f: nat, k: Bytes, g: nat, v: Value, h: nat, es: seq<Entry>, j: nat)
    requires f < |x| && x[f] != LOWER_E
    requires DecodeString(x, f) == Got(k, g) && DecodeValue(x, g) == Got(v, h) && DecodeEntries(x, h) == Got(es, j)
    ensures DecodeEntries(x, f) == Got([Entry(k, v)] + es, j)
  {
  }

  // --------------------------------------------------------------- soundness

  lemma DecodeIntSound(x: Bytes, f: nat)
    requires f < |x| && x[f] == LOWER_I && DecodeInt(x, f).Got?
    ensures Here(x, f, DecodeInt(x, f).val)
    ensures DecodeInt(x, f).next == f + |Enc(DecodeInt(x, f).val)|
  {
    var Got(v, g) := DecodeInt(x, f);
    var t := x[f + 1..g - 1];
    if t[0] == MINUS {
      assert t[1..] == x[f + 2..g - 1];
      assert t[1..][0] == x[f + 2];
      DecimalUnique(t[1..]);
      AccumulateGrows(t[1..], 0);
      assert t == [MINUS] + t[1..];
    } else {
      DecimalUnique(t);
    }
    assert Numeral(v.n) == t;
    assert x[f..g] == [x[f]] + t + [x[g - 1]];
  }

  lemma DecodeStringSound(x: Bytes, f: nat)
    requires DecodeString(x, f).Got? && DecodeString(x, f).next <= |x|
    ensures Holds(x, f, StrBytes(DecodeString(x, f).val))
    ensures DecodeString(x, f).next == f + |StrBytes(DecodeString(x, f).val)|
  {
    var Got(s, g) := DecodeString(x, f);
    var colon := IndexOf(x, COLON, f).value;
    DecimalUnique(x[f..colon]);
    assert Decimal(|s|) == x[f..colon];
    assert x[f..g] == x[f..colon] + [x[colon]] + x[colon + 1..g];
  }

  lemma OpeningSound(x: Bytes, f: nat, opening: Byte, tail: Bytes)
    requires f < |x| && x[f] == opening && Holds(x, f + 1, tail)
    ensures Holds(x, f, [opening] + tail)
  {
    HoldsSplit(x, f, [opening], tail);
  }

  /** Only encodings are decoded; in particular a truncated string never survives. */
  lemma {:induction false} DecodeSound(x: Bytes, f: nat)
    requires DecodeValue(x, f).Got? && DecodeValue(x, f).next <= |x|
    ensures Here(x, f, DecodeValue(x, f).val)
    ensures DecodeValue(x, f).next == f + |Enc(DecodeValue(x, f).val)|
    decreases Left(x, f), 0
  {
    if x[f] == LOWER_L {
      DecodeItemsSound(x, f + 1);
      OpeningSound(x, f, LOWER_L, ListTail(DecodeItems(x, f + 1).val));
      assert DecodeValue(x, f).val == List(DecodeItems(x, f + 1).val);
    } else if x[f] == LOWER_D {
      DecodeEntriesSound(x, f + 1);
      OpeningSound(x, f, LOWER_D, DictTail(DecodeEntries(x, f + 1).val));
      assert DecodeValue(x, f).val == Dict(DecodeEntries(x, f + 1).val);
    } else if x[f] == LOWER_I {
      DecodeIntSound(x, f);
    } else {
      DecodeStringSound(x, f);
    }
  }

  lemma {:induction false} DecodeItemsSound(x: Bytes, f: nat)
    requires DecodeItems(x, f).Got?
    ensures Holds(x, f, ListTail(DecodeItems(x, f).val))
    ensures DecodeItems(x, f).next == f + |ListTail(DecodeItems(x, f).val)|
    decreases Left(x, f), 1
  {
    if x[f] != LOWER_E {
      var Got(v, g) := DecodeValue(x, f);
      var Got(vs, h) := DecodeItems(x, g);
      DecodeSound(x, f);
      DecodeItemsSound(x, g);
      ItemHolds(x, f, v, g, vs, h);
    }
  }

  lemma ItemHolds(x: Bytes, f: nat, v: Value, g: nat, vs: seq<Value>, h: nat)
    requires Here(x, f, v) && g == f + |Enc(v)| && Holds(x, g, ListTail(vs)) && h == g + |ListTail(vs)|
    ensures Holds(x, f, ListTail([v] + vs)) && h == f + |ListTail([v] + vs)|
  {
    HoldsSplit(x, f, Enc(v), ListTail(vs));
    assert ([v] + vs)[1..] == vs && ([v] + vs)[0] == v;
    assert ListTail([v] + vs) == Enc(v) + ListTail(vs);
  }

  lemma {:induction false} DecodeEntriesSound(x: Bytes, f: nat)
    requires DecodeEntries(x, f).Got?
    ensures Holds(x, f, DictTail(DecodeEntries(x, f).val))
    ensures DecodeEntries(x, f).next == f + |DictTail(DecodeEntries(x, f).val)|
    decreases Left(x, f), 1
  {
    if x[f] != LOWER_E {
      var Got(k, g) := DecodeString(x, f);
      var Got(v, h) := DecodeValue(x, g);
      var Got(es, j) := DecodeEntries(x, h);
      DecodeStringSound(x, f);
      DecodeSound(x, g);
      DecodeEntriesSound(x, h);
      EntryTextHolds(x, f, Entry(k, v), g, h);
      EntryHolds(x, f, Entry(k, v), h, es, j);
    }
  }

  lemma EntryTextHolds(x: Bytes, f: nat, e: Entry, g: nat, h: nat)
    requires Holds(x, f, StrBytes(e.key)) && g == f + |StrBytes(e.key)| && Here(x, g, e.val) && h == g + |Enc(e.val)|
    ensures Holds(x, f, EncEntry(e)) && h == f + |EncEntry(e)|
  {
    HoldsSplit(x, f, StrBytes(e.key), Enc(e.val));
  }

  lemma EntryHolds(x: Bytes, f: nat, e: Entry, h: nat, es: seq<Entry>, j: nat)
    requires Holds(x, f, EncEntry(e)) && h == f + |EncEntry(e)|
    requires Holds(x, h, DictTail(es)) && j == h + |DictTail(es)|
    ensures Holds(x, f, DictTail([e] + es)) && j == f + |DictTail([e] + es)|
  {
    HoldsSplit(x, f, EncEntry(e), DictTail(es));
    DictTailCons(e, es);
  }

  lemma DictTailCons(e: Entry, es: seq<Entry>)
    ensures DictTail([e] + es) == EncEntry(e) + DictTail(es)
  {
    assert ([e] + es)[1..] == es && ([e] + es)[0] == e;
  }

  /** The decoder accepts exactly the encodings, each with its own value. */
  lemma TreeIffEncoding(x: Bytes, v: Value)
    ensures Tree(x) == Some(v) <==> x == Enc(v)
  {
    if x == Enc(v) {
      assert x[0..0 + |Enc(v)|] == x;
      DecodeHere(x, 0, v);
    }
    if Tree(x) == Some(v) {
      DecodeSound(x, 0);
      assert x[0..|x|] == x;
    }
  }

  /** Bencode is prefix-free and unambiguous. */
  lemma PrefixFree(a: Value, b: Value, s: Bytes, t: Bytes)
    requires Enc(a) + s == Enc(b) + t
    ensures a == b && s == t
  {
    var x := Enc(a) + s;
    assert x[0..|Enc(a)|] == Enc(a) && x[0..|Enc(b)|] == Enc(b);
    DecodeHere(x, 0, a);
    DecodeHere(x, 0, b);
    assert s == x[|Enc(a)|..] && t == x[|Enc(b)|..];
  }
}
