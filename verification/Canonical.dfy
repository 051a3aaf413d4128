/** Python dictionaries and the key-sorting encoder of tests/bencode/__init__.py. */
module Canonical {
  import opened Bytes
  import opened Grammar
  import opened Reference

  // ------------------------------------------------------------------ keys

  /** The order of byte strings that `ilist.sort()` uses. */
  predicate Less(a: Bytes, b: Bytes) {
    b != [] && (a == [] || a[0] < b[0] || (a[0] == b[0] && Less(a[1..], b[1..])))
  }

  lemma {:induction false} LessIsStrictTotal(a: Bytes, b: Bytes)
    ensures a == b || Less(a, b) || Less(b, a)
    ensures !(Less(a, b) && Less(b, a)) && !Less(a, a)
  {
    if a == [] {
    } else {
      LessIsStrictTotal(a[1..], a[1..]);
      if b != [] && a[0] == b[0] {
        LessIsStrictTotal(a[1..], b[1..]);
        assert a == [a[0]] + a[1..] && b == [b[0]] + b[1..];
      }
    }
  }

  /** It is the lexicographic order by byte value, a prefix coming first. */
  lemma {:induction false} LessIffLexicographic(a: Bytes, b: Bytes)
    ensures Less(a, b) <==>
            exists k: nat :: k <= |a| && k < |b| && a[..k] == b[..k] && (k == |a| || a[k] < b[k])
  {
    if b == [] {
    } else if a == [] {
      assert a[..0] == b[..0];
    } else if a[0] != b[0] {
      assert a[..0] == b[..0];
      forall k: nat | 0 < k <= |a| && k < |b| ensures a[..k] != b[..k] {
        assert a[..k][0] == a[0] && b[..k][0] == b[0];
      }
    } else {
      LessIffLexicographic(a[1..], b[1..]);
      forall k: nat | k < |a| && k + 1 < |b|
        ensures a[..k + 1] == b[..k + 1] <==> a[1..][..k] == b[1..][..k]
      {
        assert a[..k + 1] == [a[0]] + a[1..][..k] && b[..k + 1] == [b[0]] + b[1..][..k];
        assert a[..k + 1][1..] == a[1..][..k] && b[..k + 1][1..] == b[1..][..k];
      }
      if Less(a, b) {
        var k: nat :| k <= |a[1..]| && k < |b[1..]| && a[1..][..k] == b[1..][..k] &&
                      (k == |a[1..]| || a[1..][k] < b[1..][k]);
        assert a[..k + 1] == b[..k + 1];
      }
      if k: nat :| k <= |a| && k < |b| && a[..k] == b[..k] && (k == |a| || a[k] < b[k]) {
        assert k > 0;
        var j := k - 1;
        assert a[..j + 1] == b[..j + 1];
        assert a[1..][..j] == b[1..][..j] && (j == |a[1..]| || a[1..][j] < b[1..][j]);
      }
    }
  }

  lemma {:induction false} LessTransitive(a: Bytes, b: Bytes, c: Bytes)
    requires Less(a, b) && Less(b, c)
    ensures Less(a, c)
  {
    if a != [] && a[0] == b[0] == c[0] {
      LessTransitive(a[1..], b[1..], c[1..]);
    }
  }

  predicate Strict(es: seq<Entry>) {
    forall i, j | 0 <= i < j < |es| :: Less(es[i].key, es[j].key)
  }

  predicate Distinct(es: seq<Entry>) {
    forall i, j | 0 <= i < j < |es| :: es[i].key != es[j].key
  }

  lemma StrictIsDistinct(es: seq<Entry>)
    requires Strict(es)
    ensures Distinct(es)
  {
    forall i, j | 0 <= i < j < |es| ensures es[i].key != es[j].key {
      LessIsStrictTotal(es[i].key, es[j].key);
    }
  }

  // ----------------------------------------------------------------- sorting

  function Insert(e: Entry, es: seq<Entry>): seq<Entry> {
    if es == [] || Less(e.key, es[0].key) then [e] + es else [es[0]] + Insert(e, es[1..])
  }

  function Sort(es: seq<Entry>): seq<Entry> {
    if es == [] then [] else Insert(es[0], Sort(es[1..]))
  }

  lemma {:induction false} InsertKeeps(e: Entry, es: seq<Entry>)
    ensures multiset(Insert(e, es)) == multiset(es) + multiset{e}
  {
    if es != [] && !Less(e.key, es[0].key) {
      assert es == [es[0]] + es[1..];
      InsertKeeps(e, es[1..]);
    }
  }

  lemma {:induction false} InsertStrict(e: Entry, es: seq<Entry>)
    requires Strict(es) && forall i | 0 <= i < |es| :: es[i].key != e.key
    ensures Strict(Insert(e, es))
  {
    if es == [] {
    } else if Less(e.key, es[0].key) {
      forall j | 1 <= j < |es| ensures Less(e.key, es[j].key) {
        LessTransitive(e.key, es[0].key, es[j].key);
      }
    } else {
      var r := Insert(e, es[1..]);
      InsertStrict(e, es[1..]);
      InsertKeeps(e, es[1..]);
      LessIsStrictTotal(e.key, es[0].key);
      forall j | 0 <= j < |r| ensures Less(es[0].key, r[j].key) {
        assert r[j] in multiset(r);
        assert r[j] == e || r[j] in es[1..];
      }
    }
  }

  lemma {:induction false} SortKeeps(es: seq<Entry>)
    ensures multiset(Sort(es)) == multiset(es)
    ensures |Sort(es)| == |es|
    ensures Distinct(es) ==> Strict(Sort(es))
  {
    if es == [] {
    } else {
      assert es == [es[0]] + es[1..];
      var r := Sort(es[1..]);
      SortKeeps(es[1..]);
      InsertKeeps(es[0], r);
      assert |multiset(Sort(es))| == |multiset(es)|;
      forall i | Distinct(es) && 0 <= i < |r| ensures r[i].key != es[0].key {
        assert r[i] in multiset(r);
        assert r[i] in es[1..];
      }
      if Distinct(es) {
        InsertStrict(es[0], r);
      }
    }
  }

  lemma SameHead(a: seq<Entry>, b: seq<Entry>)
    requires Strict(a) && Strict(b) && a != [] && b != [] && multiset(a) == multiset(b)
    ensures a[0] == b[0]
  {
    assert a[0] in multiset(b) && b[0] in multiset(a);
    var i :| 0 <= i < |a| && a[i] == b[0];
    var j :| 0 <= j < |b| && b[j] == a[0];
    LessIsStrictTotal(a[0].key, b[0].key);
  }

  lemma TailMultiset(a: seq<Entry>)
    requires a != []
    ensures a == [a[0]] + a[1..] && multiset(a[1..]) == multiset(a) - multiset{a[0]}
  {
    assert a == [a[0]] + a[1..];
  }

  /** The ascending order of a set of entries is unique. */
  lemma {:induction false} StrictUnique(a: seq<Entry>, b: seq<Entry>)
    requires Strict(a) && Strict(b) && multiset(a) == multiset(b)
    ensures a == b
  {
    assert |multiset(a)| == |multiset(b)|;
    if a == [] {
    } else {
      SameHead(a, b);
      TailMultiset(a);
      TailMultiset(b);
      StrictUnique(a[1..], b[1..]);
    }
  }

  lemma SortStrict(es: seq<Entry>)
    requires Strict(es)
    ensures Sort(es) == es
  {
    StrictIsDistinct(es);
    SortKeeps(es);
    StrictUnique(Sort(es), es);
  }

  lemma {:induction false} SubsetOfSameSize(a: seq<Entry>, b: seq<Entry>)
    requires Distinct(a) && |a| == |b|
    requires forall i | 0 <= i < |a| :: a[i] in b
    ensures multiset(a) == multiset(b)
  {
    if a == [] {
    } else {
      var k :| 0 <= k < |b| && b[k] == a[0];
      var rest := b[..k] + b[k + 1..];
      forall i | 0 <= i < |a[1..]| ensures a[1..][i] in rest {
        var j :| 0 <= j < |b| && b[j] == a[1 + i];
        assert j != k;
        assert b[j] == rest[if j < k then j else j - 1];
      }
      SubsetOfSameSize(a[1..], rest);
      assert a == [a[0]] + a[1..];
      assert b == b[..k] + [b[k]] + b[k + 1..];
    }
  }

  // ------------------------------------------------- Python's view of a value

  /** Every dictionary has distinct keys, as a Python object has. */
  predicate DistinctKeys(v: Value)
    decreases v
  {
    match v
    case Int(_) => true
    case Str(_) => true
    case List(vs) => forall i | 0 <= i < |vs| :: DistinctKeys(vs[i])
    case Dict(es) => Distinct(es) && forall i | 0 <= i < |es| :: EntryDistinctKeys(es[i])
  }

  predicate EntryDistinctKeys(e: Entry)
    decreases e
  {
    DistinctKeys(e.val)
  }

  /** Every dictionary has strictly ascending keys. */
  predicate Ascending(v: Value)
    decreases v
  {
    match v
    case Int(_) => true
    case Str(_) => true
    case List(vs) => forall i | 0 <= i < |vs| :: Ascending(vs[i])
    case Dict(es) => Strict(es) && forall i | 0 <= i < |es| :: EntryAscending(es[i])
  }

  predicate EntryAscending(e: Entry)
    decreases e
  {
    Ascending(e.val)
  }

  /** Equality of Python objects: the order of insertion into a dictionary is not seen. */
  ghost predicate Same(v: Value, w: Value)
    decreases v
  {
    match v
    case Int(_) => v == w
    case Str(_) => v == w
    case List(vs) =>
      w.List? && |vs| == |w.items| && forall i | 0 <= i < |vs| :: Same(vs[i], w.items[i])
    case Dict(es) =>
      w.Dict? && |es| == |w.entries| &&
      forall i | 0 <= i < |es| :: exists j | 0 <= j < |w.entries| :: SameEntry(es[i], w.entries[j])
  }

  ghost predicate SameEntry(e: Entry, f: Entry)
    decreases e
  {
    e.key == f.key && Same(e.val, f.val)
  }

  /** The value whose dictionaries are listed in the order the encoder writes them. */
  function Canon(v: Value): Value
    decreases v
  {
    match v
    case Int(_) => v
    case Str(_) => v
    case List(vs) => List(CanonItems(vs))
    case Dict(es) => Dict(Sort(CanonEntries(es)))
  }

  function CanonItems(vs: seq<Value>): (r: seq<Value>)
    ensures |r| == |vs|
    ensures forall i | 0 <= i < |vs| :: r[i] == Canon(vs[i])
    decreases vs
  {
    if vs == [] then [] else [Canon(vs[0])] + CanonItems(vs[1..])
  }

  function CanonEntry(e: Entry): Entry
    decreases e
  {
    Entry(e.key, Canon(e.val))
  }

  function CanonEntries(es: seq<Entry>): (r: seq<Entry>)
    ensures |r| == |es|
    ensures forall i | 0 <= i < |es| :: r[i] == CanonEntry(es[i])
    decreases es
  {
    if es == [] then [] else [CanonEntry(es[0])] + CanonEntries(es[1..])
  }

  /** `bencode(v)`: dictionaries are written in key order. */
  function Bencode(v: Value): Bytes { Enc(Canon(v)) }

  /** `r[k] = v`. */
  function Put(r: seq<Entry>, k: Bytes, v: Value): (s: seq<Entry>)
    ensures Distinct(r) ==> Distinct(s)
    ensures (forall i | 0 <= i < |r| :: r[i].key != k) ==> s == r + [Entry(k, v)]
    ensures forall i | 0 <= i < |s| :: s[i] == Entry(k, v) || s[i] in r
  {
    if r == [] then [Entry(k, v)]
    else if r[0].key == k then [Entry(k, v)] + r[1..]
    else
      var rest := Put(r[1..], k, v);
      assert forall i | 0 <= i < |rest| :: rest[i].key == k || rest[i] in r[1..];
      [r[0]] + rest
  }

  /** What remains of a parse tree once dictionaries are Python dictionaries. */
  function Collapse(v: Value): Value
    decreases v
  {
    match v
    case Int(_) => v
    case Str(_) => v
    case List(vs) => List(CollapseItems(vs))
    case Dict(es) => Dict(PutAll([], es))
  }

  function CollapseItems(vs: seq<Value>): (r: seq<Value>)
    ensures |r| == |vs|
    ensures forall i | 0 <= i < |vs| :: r[i] == Collapse(vs[i])
    decreases vs
  {
    if vs == [] then [] else [Collapse(vs[0])] + CollapseItems(vs[1..])
  }

  function CollapseEntry(e: Entry): Entry
    decreases e
  {
    Entry(e.key, Collapse(e.val))
  }

  function PutAll(r: seq<Entry>, es: seq<Entry>): seq<Entry>
    decreases es
  {
    if es == [] then r else PutAll(Put(r, es[0].key, CollapseEntry(es[0]).val), es[1..])
  }

  /** Entry i is the last one with its key. */
  predicate IsLast(es: seq<Entry>, i: int) {
    0 <= i < |es| && forall j | i < j < |es| :: es[j].key != es[i].key
  }

  lemma {:induction false} PutHas(r: seq<Entry>, k: Bytes, v: Value, e: Entry)
    requires Distinct(r)
    ensures e in Put(r, k, v) <==> e == Entry(k, v) || (e in r && e.key != k)
  {
    if r == [] {
    } else if r[0].key == k {
      assert forall i | 1 <= i < |r| :: r[i].key != k;
      assert r == [r[0]] + r[1..];
    } else {
      PutHas(r[1..], k, v, e);
      assert r == [r[0]] + r[1..];
    }
  }

  /** Of the entries with one key the last wins, and every key is kept. */
  lemma {:induction false} LastWins(r: seq<Entry>, es: seq<Entry>, e: Entry)
    requires Distinct(r)
    ensures e in PutAll(r, es) <==>
            (exists i :: IsLast(es, i) && e == Entry(es[i].key, Collapse(es[i].val))) ||
            (e in r && forall j | 0 <= j < |es| :: es[j].key != e.key)
    decreases es
  {
    if es == [] {
    } else {
      var rest, first := es[1..], Entry(es[0].key, Collapse(es[0].val));
      LastWins(Put(r, first.key, first.val), rest, e);
      PutHas(r, first.key, first.val, e);
      assert forall j | 1 <= j < |es| :: es[j] == rest[j - 1];
      forall i | 1 <= i < |es| ensures IsLast(es, i) <==> IsLast(rest, i - 1) {
        assert forall j | i < j < |es| :: es[j] == rest[j - 1];
        assert forall j | i - 1 < j < |rest| :: rest[j] == es[j + 1];
      }
      if i :| IsLast(rest, i) && e == Entry(rest[i].key, Collapse(rest[i].val)) {
        assert IsLast(es, i + 1);
      }
      if i :| IsLast(es, i) && e == Entry(es[i].key, Collapse(es[i].val)) {
        if i > 0 {
          assert IsLast(rest, i - 1);
        } else {
          assert e == first && forall j | 0 <= j < |rest| :: rest[j].key != e.key;
        }
      }
      if e == first && forall j | 0 <= j < |rest| :: rest[j].key != e.key {
        assert IsLast(es, 0);
      }
    }
  }

  /** `bdecode(x)`. */
  function Bdecode(x: Bytes): Option<Value> {
    match Tree(x) case Some(v) => Some(Collapse(v)) case None => None
  }

  // ---------------------------------------------------------------- theorems

  lemma TwoItems(a: Value, b: Value)
    ensures Enc(List([a, b])) == [LOWER_L] + (Enc(a) + (Enc(b) + [LOWER_E]))
  {
    assert [a, b][1..] == [b] && [b][1..] == [];
    assert ListTail([b]) == Enc(b) + [LOWER_E];
  }

  lemma TwoEntries(a: Entry, b: Entry)
    ensures Enc(Dict([a, b])) == [LOWER_D] + (EncEntry(a) + (EncEntry(b) + [LOWER_E]))
  {
    assert [a, b][1..] == [b] && [b][1..] == [];
    assert DictTail([b]) == EncEntry(b) + [LOWER_E];
  }

  lemma ExampleStrings(spam: Bytes, eggs: Bytes, cow: Bytes, moo: Bytes)
    requires spam == Ascii("spam") && eggs == Ascii("eggs") && cow == Ascii("cow") && moo == Ascii("moo")
    ensures StrBytes(spam) == Ascii("4:spam") && StrBytes(eggs) == Ascii("4:eggs")
    ensures StrBytes(cow) == Ascii("3:cow") && StrBytes(moo) == Ascii("3:moo")
  {
    assert Decimal(4) == [52] && Decimal(3) == [51];
  }

  /** The examples of section "bencoding" of BEP 3. */
  lemma Examples(spam: Bytes, eggs: Bytes, cow: Bytes, moo: Bytes)
    requires spam == Ascii("spam") && eggs == Ascii("eggs") && cow == Ascii("cow") && moo == Ascii("moo")
    ensures Enc(Str(spam)) == Ascii("4:spam") && Enc(Int(3)) == Ascii("i3e") && Enc(Int(-3)) == Ascii("i-3e")
    ensures Enc(List([Str(spam), Str(eggs)])) == Ascii("l4:spam4:eggse")
    ensures Enc(Dict([Entry(cow, Str(moo)), Entry(spam, Str(eggs))])) == Ascii("d3:cow3:moo4:spam4:eggse")
  {
    ExampleStrings(spam, eggs, cow, moo);
    ExampleNumbers();
    ExampleList(Str(spam), Str(eggs));
    ExampleDict(Entry(cow, Str(moo)), Entry(spam, Str(eggs)));
  }

  lemma ExampleNumbers()
    ensures Enc(Int(3)) == Ascii("i3e") && Enc(Int(-3)) == Ascii("i-3e")
  {
    assert Decimal(3) == [51];
  }

  lemma ExampleList(a: Value, b: Value)
    requires Enc(a) == Ascii("4:spam") && Enc(b) == Ascii("4:eggs")
    ensures Enc(List([a, b])) == Ascii("l4:spam4:eggse")
  {
    TwoItems(a, b);
  }

  lemma ExampleDict(a: Entry, b: Entry)
    requires StrBytes(a.key) == Ascii("3:cow") && Enc(a.val) == Ascii("3:moo")
    requires StrBytes(b.key) == Ascii("4:spam") && Enc(b.val) == Ascii("4:eggs")
    ensures Enc(Dict([a, b])) == Ascii("d3:cow3:moo4:spam4:eggse")
  {
    TwoEntries(a, b);
  }

  lemma {:induction false} CanonAscending(v: Value)
    requires DistinctKeys(v)
    ensures Ascending(Canon(v))
    decreases v
  {
    match v
    case Int(_) =>
    case Str(_) =>
    case List(vs) =>
      forall i | 0 <= i < |vs| ensures Ascending(Canon(vs[i])) { CanonAscending(vs[i]); }
    case Dict(es) =>
      var c := CanonEntries(es);
      SortKeeps(c);
      forall i | 0 <= i < |es| ensures EntryAscending(c[i]) {
        assert EntryDistinctKeys(es[i]) && es[i].val < es[i];
        CanonAscending(es[i].val);
      }
      forall i | 0 <= i < |c| ensures EntryAscending(Sort(c)[i]) {
        assert Sort(c)[i] in multiset(c);
      }
  }

  lemma {:induction false} CanonFixesAscending(v: Value)
    requires Ascending(v)
    ensures Canon(v) == v
    decreases v
  {
    match v
    case Int(_) =>
    case Str(_) =>
    case List(vs) =>
      forall i | 0 <= i < |vs| ensures Canon(vs[i]) == vs[i] { CanonFixesAscending(vs[i]); }
      assert CanonItems(vs) == vs;
    case Dict(es) =>
      forall i | 0 <= i < |es| ensures CanonEntry(es[i]) == es[i] {
        assert EntryAscending(es[i]) && es[i].val < es[i];
        CanonFixesAscending(es[i].val);
      }
      assert CanonEntries(es) == es;
      SortStrict(es);
  }

  lemma {:induction false} CollapseFixesDistinct(v: Value)
    requires DistinctKeys(v)
    ensures Collapse(v) == v
    decreases v, 0
  {
    match v
    case Int(_) =>
    case Str(_) =>
    case List(vs) =>
      forall i | 0 <= i < |vs| ensures Collapse(vs[i]) == vs[i] { CollapseFixesDistinct(vs[i]); }
      assert CollapseItems(vs) == vs;
    case Dict(es) => PutAllDistinct([], es);
  }

  lemma {:induction false} PutAllDistinct(r: seq<Entry>, es: seq<Entry>)
    requires Distinct(r + es)
    requires forall i | 0 <= i < |es| :: EntryDistinctKeys(es[i])
    ensures PutAll(r, es) == r + es
    decreases es, 1
  {
    if es == [] {
      assert r + es == r;
    } else {
      assert EntryDistinctKeys(es[0]) && es[0].val < es[0];
      CollapseFixesDistinct(es[0].val);
      forall i | 0 <= i < |r| ensures r[i].key != es[0].key {
        assert (r + es)[i].key != (r + es)[|r|].key;
      }
      assert (r + [es[0]]) + es[1..] == r + es;
      PutAllDistinct(r + [es[0]], es[1..]);
    }
  }

  lemma {:induction false} CollapseDistinctKeys(v: Value)
    ensures DistinctKeys(Collapse(v))
    decreases v, 0
  {
    match v
    case Int(_) =>
    case Str(_) =>
    case List(vs) =>
      forall i | 0 <= i < |vs| ensures DistinctKeys(Collapse(vs[i])) { CollapseDistinctKeys(vs[i]); }
    case Dict(es) => PutAllDistinctKeys([], es);
  }

  lemma {:induction false} PutAllDistinctKeys(r: seq<Entry>, es: seq<Entry>)
    requires DistinctKeys(Dict(r))
    ensures DistinctKeys(Dict(PutAll(r, es)))
    decreases es, 1
  {
    if es == [] {
    } else {
      assert es[0].val < es[0];
      CollapseDistinctKeys(es[0].val);
      var s := Put(r, es[0].key, Collapse(es[0].val));
      forall i | 0 <= i < |s| ensures EntryDistinctKeys(s[i]) {
        assert s[i] == Entry(es[0].key, Collapse(es[0].val)) || s[i] in r;
      }
      PutAllDistinctKeys(s, es[1..]);
    }
  }

  lemma AscendingIsDistinct(v: Value)
    requires Ascending(v)
    ensures DistinctKeys(v)
    decreases v
  {
    match v
    case Int(_) =>
    case Str(_) =>
    case List(vs) =>
      forall i | 0 <= i < |vs| ensures DistinctKeys(vs[i]) { AscendingIsDistinct(vs[i]); }
    case Dict(es) =>
      StrictIsDistinct(es);
      forall i | 0 <= i < |es| ensures EntryDistinctKeys(es[i]) {
        assert EntryAscending(es[i]) && es[i].val < es[i];
        AscendingIsDistinct(es[i].val);
      }
  }

  /** The canonical form decides equality of Python objects. */
  lemma {:induction false} SameIffCanonEqual(v: Value, w: Value)
    requires DistinctKeys(v) && DistinctKeys(w)
    ensures Same(v, w) <==> Canon(v) == Canon(w)
    decreases v
  {
    if v.List? && w.List? && |v.items| == |w.items| {
      forall i | 0 <= i < |v.items|
        ensures Same(v.items[i], w.items[i]) <==> Canon(v.items[i]) == Canon(w.items[i])
      {
        SameIffCanonEqual(v.items[i], w.items[i]);
      }
      if Same(v, w) {
        assert CanonItems(v.items) == CanonItems(w.items);
      }
      if Canon(v) == Canon(w) {
        forall i | 0 <= i < |v.items| ensures Same(v.items[i], w.items[i]) {
          assert CanonItems(v.items)[i] == CanonItems(w.items)[i];
        }
      }
    } else if v.List? && w.List? {
      assert |CanonItems(v.items)| != |CanonItems(w.items)|;
    } else if v.Dict? && w.Dict? {
      SameIffCanonEqualDict(v.entries, w.entries);
    }
  }

  lemma {:induction false} SameIffCanonEqualDict(es: seq<Entry>, fs: seq<Entry>)
    requires DistinctKeys(Dict(es)) && DistinctKeys(Dict(fs))
    ensures Same(Dict(es), Dict(fs)) <==> Canon(Dict(es)) == Canon(Dict(fs))
    decreases es
  {
    var a, b := CanonEntries(es), CanonEntries(fs);
    forall i, j | 0 <= i < |es| && 0 <= j < |fs|
      ensures SameEntry(es[i], fs[j]) <==> a[i] == b[j]
    {
      assert EntryDistinctKeys(es[i]) && EntryDistinctKeys(fs[j]) && es[i].val < es[i];
      SameIffCanonEqual(es[i].val, fs[j].val);
    }
    if Same(Dict(es), Dict(fs)) {
      forall i | 0 <= i < |a| ensures a[i] in b {
        var j :| 0 <= j < |fs| && SameEntry(es[i], fs[j]);
        assert a[i] == b[j];
      }
      SubsetSortsEqual(a, b);
    }
    if Sort(a) == Sort(b) {
      forall i | 0 <= i < |es| ensures exists j | 0 <= j < |fs| :: SameEntry(es[i], fs[j]) {
        var j := FindSorted(a, b, i);
        assert SameEntry(es[i], fs[j]);
      }
      SortKeeps(a);
      SortKeeps(b);
    }
  }

  lemma SubsetSortsEqual(a: seq<Entry>, b: seq<Entry>)
    requires Distinct(a) && Distinct(b) && |a| == |b|
    requires forall i | 0 <= i < |a| :: a[i] in b
    ensures Sort(a) == Sort(b)
  {
    SortKeeps(a);
    SortKeeps(b);
    SubsetOfSameSize(a, b);
    StrictUnique(Sort(a), Sort(b));
  }

  lemma FindSorted(a: seq<Entry>, b: seq<Entry>, i: nat) returns (j: nat)
    requires Sort(a) == Sort(b) && i < |a|
    ensures j < |b| && b[j] == a[i]
  {
    SortKeeps(a);
    SortKeeps(b);
    assert a[i] in multiset(a);
    j := Find(b, a[i]);
  }

  lemma Find(b: seq<Entry>, e: Entry) returns (j: nat)
    requires e in multiset(b)
    ensures j < |b| && b[j] == e
  {
    j :| 0 <= j < |b| && b[j] == e;
  }

  /** Two Python objects have the same encoding exactly when they are equal. */
  lemma EncodingIgnoresInsertionOrder(v: Value, w: Value)
    requires DistinctKeys(v) && DistinctKeys(w)
    ensures Bencode(v) == Bencode(w) <==> Same(v, w)
  {
    SameIffCanonEqual(v, w);
    if Bencode(v) == Bencode(w) {
      PrefixFree(Canon(v), Canon(w), [], []);
    }
  }

  /** `bdecode(bencode(v))` succeeds with an object equal to v. */
  lemma RoundTrip(v: Value)
    requires DistinctKeys(v)
    ensures Bdecode(Bencode(v)).Some?
    ensures Same(v, Bdecode(Bencode(v)).value)
  {
    CanonAscending(v);
    AscendingIsDistinct(Canon(v));
    TreeIffEncoding(Bencode(v), Canon(v));
    CollapseFixesDistinct(Canon(v));
    CanonFixesAscending(Canon(v));
    SameIffCanonEqual(v, Canon(v));
  }

  /** Decoding then encoding gives the input back exactly when every dictionary of the
      input has strictly ascending keys. */
  lemma CanonicalForm(x: Bytes)
    requires Bdecode(x).Some?
    ensures Tree(x).Some?
    ensures Bencode(Bdecode(x).value) == x <==> Ascending(Tree(x).value)
  {
    var v := Tree(x).value;
    TreeIffEncoding(x, v);
    CollapseDistinctKeys(v);
    CanonAscending(Collapse(v));
    if Ascending(v) {
      AscendingIsDistinct(v);
      CollapseFixesDistinct(v);
      CanonFixesAscending(v);
    }
    if Bencode(Collapse(v)) == x {
      PrefixFree(Canon(Collapse(v)), v, [], []);
    }
  }
}
