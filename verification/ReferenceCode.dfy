/** The loops of tests/bencode/__init__.py: the decoders that grow `r` while moving `f`,
    and the encoders that append to a shared list of pieces. */
module ReferenceCode {
  import opened Bytes
  import opened Grammar
  import opened Reference
  import opened Canonical

  // ---------------------------------------------------------------- decoding

  /** `decode_func[x[f]](x, f)` */
  method DecodeAny(x: Bytes, f: nat) returns (r: Parse<Value>)
    ensures DecodeValue(x, f).Bad? ==> r.Bad?
    ensures DecodeValue(x, f).Got? ==> r == Got(Collapse(DecodeValue(x, f).val), DecodeValue(x, f).next)
    decreases Left(x, f), 0
  {
    if f >= |x| {
      return Bad;
    } else if x[f] == LOWER_L {
      var items :- DecodeList(x, f);
      BehindNothing(DecodeItems(x, f + 1));
      var (vs, g) := items;
      return Got(List(vs), g);
    } else if x[f] == LOWER_D {
      var entries :- DecodeDict(x, f);
      var (es, g) := entries;
      return Got(Dict(es), g);
    } else if x[f] == LOWER_I {
      return DecodeInt(x, f);
    } else if IsDigit(x[f]) {
      var text :- DecodeString(x, f);
      var (s, g) := text;
      return Got(Str(s), g);
    } else {
      return Bad;
    }
  }

  /** A list as Python holds it, and behind the items `r` already read. */
  function Behind(r: seq<Value>, p: Parse<seq<Value>>): Parse<seq<Value>> {
    match p case Got(vs, g) => Got(r + CollapseItems(vs), g) case Bad => Bad
  }

  /** The entries read from here on, put into the dictionary `r`. */
  function Into(r: seq<Entry>, p: Parse<seq<Entry>>): Parse<seq<Entry>> {
    match p case Got(es, g) => Got(PutAll(r, es), g) case Bad => Bad
  }

  lemma BehindNothing(p: Parse<seq<Value>>)
    ensures p.Got? ==> Behind([], p) == Got(CollapseItems(p.val), p.next)
  {
    if p.Got? {
      assert [] + CollapseItems(p.val) == CollapseItems(p.val);
    }
  }

  lemma BehindStep(x: Bytes, f: nat, r: seq<Value>, v: Value, g: nat)
    requires f < |x| && x[f] != LOWER_E && DecodeValue(x, f) == Got(v, g)
    ensures Behind(r, DecodeItems(x, f)) == Behind(r + [Collapse(v)], DecodeItems(x, g))
  {
    if DecodeItems(x, g).Got? {
      var vs := DecodeItems(x, g).val;
      assert ([v] + vs)[1..] == vs;
      assert r + ([Collapse(v)] + CollapseItems(vs)) == (r + [Collapse(v)]) + CollapseItems(vs);
    }
  }

  method DecodeList(x: Bytes, f0: nat) returns (res: Parse<seq<Value>>)
    requires f0 < |x|
    ensures res == Behind([], DecodeItems(x, f0 + 1))
    decreases Left(x, f0 + 1), 1
  {
    var r, f := [], f0 + 1;
    while true
      invariant f0 < f && Behind([], DecodeItems(x, f0 + 1)) == Behind(r, DecodeItems(x, f))
      decreases |x| - f
    {
      if f >= |x| { return Bad; }
      if x[f] == LOWER_E {
        assert r + CollapseItems([]) == r;
        return Got(r, f + 1);
      }
      var item :- DecodeAny(x, f);
      var (v, g) := item;
      BehindStep(x, f, r, DecodeValue(x, f).val, g);
      r, f := r + [v], g;
    }
  }

  lemma IntoStep(x: Bytes, f: nat, r: seq<Entry>, k: Bytes, g: nat, v: Value, h: nat)
    requires f < |x| && x[f] != LOWER_E && DecodeString(x, f) == Got(k, g) && DecodeValue(x, g) == Got(v, h)
    ensures Into(r, DecodeEntries(x, f)) == Into(Put(r, k, Collapse(v)), DecodeEntries(x, h))
  {
    if DecodeEntries(x, h).Got? {
      var Got(es, j) := DecodeEntries(x, h);
      DecodeEntriesUnfold(x, f, k, g, v, h, es, j);
      assert ([Entry(k, v)] + es)[0] == Entry(k, v) && ([Entry(k, v)] + es)[1..] == es;
      assert CollapseEntry(Entry(k, v)).val == Collapse(v);
      assert PutAll(r, [Entry(k, v)] + es) == PutAll(Put(r, k, Collapse(v)), es);
    } else {
      assert DecodeEntries(x, f).Bad?;
    }
  }

  method DecodeDict(x: Bytes, f0: nat) returns (res: Parse<seq<Entry>>)
    requires f0 < |x|
    ensures res == Into([], DecodeEntries(x, f0 + 1))
    decreases Left(x, f0 + 1), 1
  {
    var r, f := [], f0 + 1;
    while true
      invariant f0 < f && Into([], DecodeEntries(x, f0 + 1)) == Into(r, DecodeEntries(x, f))
      decreases |x| - f
    {
      if f >= |x| { return Bad; }
      if x[f] == LOWER_E {
        assert DecodeEntries(x, f) == Got([], f + 1) && PutAll(r, []) == r;
        return Got(r, f + 1);
      }
      var key :- DecodeString(x, f);
      var (k, g) := key;
      var item :- DecodeAny(x, g);
      var (v, h) := item;
      IntoStep(x, f, r, k, g, DecodeValue(x, g).val, h);
      r, f := Put(r, k, v), h;
    }
  }

  method BdecodeRun(x: Bytes) returns (r: Option<Value>)
    ensures r == Bdecode(x)
  {
    var p := DecodeAny(x, 0);
    match p
    case Got(v, l) => r := if l == |x| then Some(v) else None;
    case Bad => r := None;
  }

  // ---------------------------------------------------------------- encoding

  /** `''.join(r)` */
  function Join(r: seq<Bytes>): Bytes {
    if r == [] then [] else Join(r[..|r| - 1]) + r[|r| - 1]
  }

  lemma {:induction false} JoinAppend(r: seq<Bytes>, s: seq<Bytes>)
    ensures Join(r + s) == Join(r) + Join(s)
  {
    if s == [] {
      assert r + s == r;
    } else {
      assert (r + s)[..|r + s| - 1] == r + s[..|s| - 1];
      JoinAppend(r, s[..|s| - 1]);
    }
  }

  lemma JoinExtend(r: seq<Bytes>, a: Bytes, b: Bytes, c: Bytes)
    ensures Join(r + [a]) == Join(r) + a
    ensures Join(r + [a, b, c]) == Join(r) + a + b + c
  {
    assert (r + [a])[..|r|] == r;
    assert (r + [a, b])[..|r| + 1] == r + [a];
    assert (r + [a, b, c])[..|r| + 2] == r + [a, b];
  }

  /** Sorting looks at keys only. */
  lemma {:induction false} CanonSorted(es: seq<Entry>)
    ensures CanonEntries(Sort(es)) == Sort(CanonEntries(es))
  {
    if es == [] {
    } else {
      CanonSorted(es[1..]);
      CanonInsert(es[0], Sort(es[1..]));
    }
  }

  lemma {:induction false} CanonInsert(e: Entry, es: seq<Entry>)
    ensures CanonEntries(Insert(e, es)) == Insert(CanonEntry(e), CanonEntries(es))
  {
    if es == [] {
    } else if Less(e.key, es[0].key) {
      assert ([e] + es)[1..] == es;
    } else {
      CanonInsert(e, es[1..]);
      assert ([es[0]] + Insert(e, es[1..]))[1..] == Insert(e, es[1..]);
    }
  }

  lemma TailEnds(vs: seq<Value>, es: seq<Entry>, before: Bytes)
    ensures before + [LOWER_L] + ListTail(vs[0..]) == before + Enc(List(vs))
    ensures before + [LOWER_D] + DictTail(es[0..]) == before + Enc(Dict(es))
    ensures ListTail(vs[|vs|..]) == [LOWER_E] == DictTail(es[|es|..])
  {
    assert vs[0..] == vs && es[0..] == es;
  }

  lemma ListTailStep(c: seq<Value>, i: nat, before: Bytes)
    requires i < |c|
    ensures before + ListTail(c[i..]) == before + Enc(c[i]) + ListTail(c[i + 1..])
  {
    assert c[i..][1..] == c[i + 1..];
  }

  lemma DictTailStep(c: seq<Entry>, i: nat, before: Bytes)
    requires i < |c|
    ensures before + DictTail(c[i..]) ==
            before + Decimal(|c[i].key|) + [COLON] + c[i].key + Enc(c[i].val) + DictTail(c[i + 1..])
  {
    assert c[i..][1..] == c[i + 1..];
  }

  lemma SortedFrom(es: seq<Entry>, i: nat)
    requires i < |Sort(es)|
    ensures Sort(es)[i] in es
  {
    SortKeeps(es);
    assert Sort(es)[i] in multiset(Sort(es));
  }

  lemma BencodeDict(es: seq<Entry>, before: Bytes)
    ensures before + [LOWER_D] + DictTail(CanonEntries(Sort(es))) == before + Bencode(Dict(es))
  {
    CanonSorted(es);
    var tail := DictTail(CanonEntries(Sort(es)));
    assert Bencode(Dict(es)) == [LOWER_D] + tail;
    assert before + ([LOWER_D] + tail) == before + [LOWER_D] + tail;
  }

  class Pieces {
    var r: seq<Bytes>

    constructor ()
      ensures r == []
    {
      r := [];
    }

    method EncodeAny(v: Value)
      modifies this
      ensures Join(r) == Join(old(r)) + Bencode(v)
      decreases v, 0
    {
      JoinExtend(r, [LOWER_I], [], []);
      match v {
        case Int(n) =>
          JoinExtend(r, [LOWER_I], Numeral(n), [LOWER_E]);
          r := r + [[LOWER_I], Numeral(n), [LOWER_E]];
        case Str(s) =>
          JoinExtend(r, Decimal(|s|), [COLON], s);
          r := r + [Decimal(|s|), [COLON], s];
        case List(vs) => EncodeList(vs);
        case Dict(es) => EncodeDict(es);
      }
    }

    method EncodeList(vs: seq<Value>)
      modifies this
      ensures Join(r) == Join(old(r)) + Bencode(List(vs))
      decreases vs, 1
    {
      ghost var c := CanonItems(vs);
      TailEnds(c, [], Join(r));
      JoinExtend(r, [LOWER_L], [], []);
      r := r + [[LOWER_L]];
      for i := 0 to |vs|
        invariant Join(r) + ListTail(c[i..]) == Join(old(r)) + Bencode(List(vs))
      {
        ListTailStep(c, i, Join(r));
        EncodeAny(vs[i]);
      }
      JoinExtend(r, [LOWER_E], [], []);
      r := r + [[LOWER_E]];
    }

    /** One round of the loop of encode_dict. */
    method EncodeEntry(k: Bytes, v: Value)
      modifies this
      ensures Join(r) == Join(old(r)) + Decimal(|k|) + [COLON] + k + Bencode(v)
      decreases v, 1
    {
      JoinExtend(r, Decimal(|k|), [COLON], k);
      r := r + [Decimal(|k|), [COLON], k];
      EncodeAny(v);
    }

    /** The loop of encode_dict. */
    method EncodeItems(ilist: seq<Entry>, ghost es: seq<Entry>)
      requires forall i | 0 <= i < |ilist| :: ilist[i] in es
      modifies this
      ensures Join(r) + [LOWER_E] == Join(old(r)) + DictTail(CanonEntries(ilist))
      decreases es, 0
    {
      ghost var c := CanonEntries(ilist);
      TailEnds([], c, []);
      assert c[0..] == c;
      for i := 0 to |ilist|
        invariant Join(r) + DictTail(c[i..]) == Join(old(r)) + DictTail(c)
      {
        var k, v := ilist[i].key, ilist[i].val;
        DictTailStep(c, i, Join(r));
        assert v < ilist[i];
        EncodeEntry(k, v);
      }
    }

    method EncodeDict(es: seq<Entry>)
      modifies this
      ensures Join(r) == Join(old(r)) + Bencode(Dict(es))
      decreases es, 1
    {
      var ilist := Sort(es);
      forall i | 0 <= i < |ilist| ensures ilist[i] in es { SortedFrom(es, i); }
      JoinExtend(r, [LOWER_D], [], []);
      r := r + [[LOWER_D]];
      EncodeItems(ilist, es);
      JoinExtend(r, [LOWER_E], [], []);
      r := r + [[LOWER_E]];
      BencodeDict(es, Join(old(r)));
    }
  }

  method BencodeRun(v: Value) returns (text: Bytes)
    ensures text == Bencode(v)
  {
    var r := new Pieces();
    r.EncodeAny(v);
    text := Join(r.r);
  }
}
