/** Reading a metainfo file through the cursor interface (bt_lib.c; section "metainfo
    files" of BEP 3). */
module Metainfo {
  import opened Bytes
  import opened Grammar
  import opened CursorModel
  import opened CursorProofs
  import opened CursorRange
  import opened CursorCut
  import opened CursorReject
  import opened CursorTheorems
  import opened Loose
  import Download

  const ANNOUNCE: Bytes := [97, 110, 110, 111, 117, 110, 99, 101]
  const INFO: Bytes := [105, 110, 102, 111]
  const PIECE_LENGTH: Bytes := [112, 105, 101, 99, 101, 32, 108, 101, 110, 103, 116, 104]
  const PIECES: Bytes := [112, 105, 101, 99, 101, 115]
  const NAME: Bytes := [110, 97, 109, 101]
  const LENGTH: Bytes := [108, 101, 110, 103, 116, 104]

  /** The fields of metainfo_t and metainfo_info_t; None is memory not yet written. For the
      info hash the bytes handed to SHA1 are kept; `overrun` tells whether a byte has been
      written behind the end of an allocated buffer. */
  datatype Meta = Meta(announce: Option<Bytes>, hashed: Option<Bytes>, pieceLength: Option<int>,
                       pieces: Option<Bytes>, name: Option<Bytes>, fileLength: Option<int>,
                       numPieces: Option<int>, overrun: bool)

  const UNSET := Meta(None, None, None, None, None, None, None, false)

  // -------------------------------------------------------------- C strings

  /** A byte string read as a C string: up to its first NUL. */
  function CStr(s: Bytes): Bytes {
    if s == [] || s[0] == NUL then [] else [s[0]] + CStr(s[1..])
  }

  function Zeros(n: nat): Bytes { seq(n, _ => NUL) }

  /** strncpy of the whole string: after the first NUL only NULs are written. */
  function StrNCopy(s: Bytes): Bytes {
    if s == [] then [] else if s[0] == NUL then Zeros(|s|) else [s[0]] + StrNCopy(s[1..])
  }

  /** strncpy(_, buf + p, n) as a C string. */
  function CopyString(buf: Bytes, p: int, n: nat): Run<Bytes>
    decreases n
  {
    if n == 0 then Done([])
    else
      var c :- Deref(buf, p);
      if c == NUL then Done([])
      else
        var rest :- CopyString(buf, p + 1, n - 1);
        Done([c] + rest)
  }

  lemma {:induction false} CopyStringExact(buf: Bytes, p: int, s: Bytes)
    requires Holds(buf, p, s)
    ensures CopyString(buf, p, |s|) == Done(CStr(s))
    decreases |s|
  {
    if s == [] {
    } else {
      assert s == [s[0]] + s[1..];
      HoldsSplit(buf, p, [s[0]], s[1..]);
      FirstByte(buf, p, s);
      CopyStringExact(buf, p + 1, s[1..]);
    }
  }

  lemma {:induction false} StrNCopyPads(s: Bytes)
    ensures |CStr(s)| <= |s| == |StrNCopy(s)|
    ensures StrNCopy(s) == CStr(s) + Zeros(|s| - |CStr(s)|)
    decreases |s|
  {
    if s != [] && s[0] != NUL {
      StrNCopyPads(s[1..]);
      assert [s[0]] + (CStr(s[1..]) + Zeros(|s[1..]| - |CStr(s[1..])|)) == CStr(s) + Zeros(|s| - |CStr(s)|);
    }
  }

  /** A C string ends before the first NUL of the bytes, or with them. */
  lemma {:induction false} CStrIs(s: Bytes)
    ensures var k := |CStr(s)|;
            k <= |s| && CStr(s) == s[..k] && NUL !in CStr(s) && (k == |s| || s[k] == NUL)
  {
    if s == [] || s[0] == NUL {
    } else {
      CStrIs(s[1..]);
      assert s[..|CStr(s)|] == [s[0]] + s[1..][..|CStr(s[1..])|];
    }
  }

  /** Byte i is copied, unless it or one before it is NUL. */
  lemma StrNCopyAt(s: Bytes, i: nat)
    requires i < |s|
    ensures |StrNCopy(s)| == |s| && StrNCopy(s)[i] == if NUL in s[..i] then NUL else s[i]
  {
    StrNCopyPads(s);
    CStrIs(s);
    var k := |CStr(s)|;
    if i < k {
      assert forall j | 0 <= j < i :: s[j] == CStr(s)[j];
    } else if i > k {
      assert s[..i][k] == NUL;
    } else {
      assert forall j | 0 <= j < i :: s[j] == CStr(s)[j];
    }
  }

  /** The copied piece hashes are the encoded ones exactly when no NUL byte is followed by
      another byte than NUL. */
  lemma {:induction false} HashesCopiedIff(s: Bytes)
    ensures StrNCopy(s) == s <==> forall i, j | 0 <= i < j < |s| :: s[i] == NUL ==> s[j] == NUL
    decreases |s|
  {
    if s == [] {
    } else if s[0] == NUL {
      if StrNCopy(s) == s {
        forall j | 0 <= j < |s| ensures s[j] == NUL { assert s[j] == Zeros(|s|)[j]; }
      }
      if forall i, j | 0 <= i < j < |s| :: s[i] == NUL ==> s[j] == NUL {
        assert forall j | 0 <= j < |s| :: s[j] == NUL;
        assert s == Zeros(|s|);
      }
    } else {
      HashesCopiedIff(s[1..]);
      var t := s[1..];
      assert s == [s[0]] + t;
      assert forall i | 1 <= i < |s| :: s[i] == t[i - 1];
      assert StrNCopy(s) == s <==> StrNCopy(t) == t by {
        assert StrNCopy(s)[1..] == StrNCopy(t);
      }
    }
  }

  // ------------------------------------------------------------- arithmetic

  /** ceil(a / b), b not 0 */
  function CeilDiv(a: int, b: int): int
    requires b != 0
  {
    if b < 0 then -(a / -b) else -((-a) / b)
  }

  /** num_pieces is computed when the info dictionary has been read. */
  function CountPieces(m: Meta): Run<Meta> {
    var _ :- Assert(m.fileLength.Some? && m.pieceLength.Some? && m.pieceLength.value != 0);
    var n := CeilDiv(m.fileLength.value, m.pieceLength.value);
    var _ :- Assert(IsInt(n));
    Done(m.(numPieces := Some(n)))
  }

  // ------------------------------------------------------- the C routines

  /** The text a string value copies, as a C string, and its length. */
  function StringText(buf: Bytes, value: Cur): Run<(Bytes, nat)> {
    var sv :- StringValue(buf, value);
    match sv
    case None => Fault
    case Some((p, n)) =>
      var text :- CopyString(buf, p, n);
      Done((text, n))
  }

  /** The URL is copied to a buffer of its length, and a terminator is put behind it. */
  function WithUrl(m: Meta, url: Bytes): Meta { m.(announce := Some(url), overrun := true) }

  function Padded(text: (Bytes, nat)): Bytes {
    text.0 + Zeros(if text.1 >= |text.0| then text.1 - |text.0| else 0)
  }

  /** bencode_int_value leaves 0 behind when it finds no digit. */
  function IntField(buf: Bytes, value: Cur): Run<int> {
    var iv :- IntValue(buf, value);
    Done(if iv.None? then 0 else ToInt(iv.value))
  }

  /** parse_metainfo, for the C string `key` */
  function ParseEntry(buf: Bytes, m: Meta, value: Cur, key: Bytes): Run<Meta>
    decreases Left(buf, value.str), 4
  {
    if key == ANNOUNCE then
      var text :- StringText(buf, value);
      Done(WithUrl(m, text.0))
    else if key == INFO then
      ParseInfoEntry(buf, m, value)
    else if key == PIECE_LENGTH then
      var n :- IntField(buf, value);
      Done(m.(pieceLength := Some(n)))
    else if key == PIECES then
      var text :- StringText(buf, value);
      Done(m.(pieces := Some(Padded(text))))
    else if key == NAME then
      var text :- StringText(buf, value);
      Done(m.(name := Some(Padded(text))))
    else if key == LENGTH then
      var n :- IntField(buf, value);
      Done(m.(fileLength := Some(n)))
    else Done(m)
  }

  /** The branch for "info" */
  function ParseInfoEntry(buf: Bytes, m: Meta, value: Cur): Run<Meta>
    decreases Left(buf, value.str), 3
  {
    var (start, len) :- DictStartAndLen(buf, value);
    var _ :- Assert(0 <= start && 0 <= len && start + len <= |buf|);
    ParseHashed(buf, m, value, buf[start..start + len])
  }

  function ParseHashed(buf: Bytes, m: Meta, value: Cur, hashed: Bytes): Run<Meta>
    decreases Left(buf, value.str), 2
  {
    var m' :- ParseDict(buf, m.(hashed := Some(hashed)), value);
    CountPieces(m')
  }

  /** The loop over a dictionary, at top level and for "info". An unsuccessful get_next is
      not noticed: the key is then indeterminate. */
  function ParseDict(buf: Bytes, m: Meta, be: Cur): Run<Meta>
    decreases Left(buf, be.str), 1
  {
    var more :- DictHasNext(buf, be);
    if !more then Done(m)
    else
      var step :- DictGetNext(buf, be);
      var _ :- Assert(step.ret);
      var key :- CopyString(buf, step.key, step.klen);
      var m' :- ParseEntry(buf, m, step.item, key);
      ParseDict(buf, m', step.be)
  }

  /** parse_metainfo_file on the bytes of the file, which it terminates with a NUL; the size
      of the buffer, one byte more than the file, is an int. */
  function ParseFile(file: Bytes): Run<Meta> {
    var _ :- Assert(|file| < INT_MAX);
    ParseDict(file + [NUL], UNSET, Init(0, |file|))
  }

  // ---------------------------------------------------- the meaning on values

  predicate Recognised(key: Bytes) {
    key == ANNOUNCE || key == INFO || key == PIECE_LENGTH || key == PIECES || key == NAME || key == LENGTH
  }

  /** Recognised keys have values of the type section "metainfo files" of BEP 3 gives them. */
  predicate WellTyped(key: Bytes, v: Value)
    decreases v, 0
  {
    if key == ANNOUNCE || key == PIECES || key == NAME then v.Str?
    else if key == PIECE_LENGTH || key == LENGTH then v.Int?
    else if key == INFO then v.Dict? && forall i | 0 <= i < |v.entries| :: EntryWellTyped(v.entries[i])
    else true
  }

  predicate EntryWellTyped(e: Entry)
    decreases e, 0
  {
    WellTyped(CStr(e.key), e.val)
  }

  predicate AllWellTyped(es: seq<Entry>) { forall i | 0 <= i < |es| :: EntryWellTyped(es[i]) }

  /** The bytes handed to SHA1. Of an empty dictionary only the first is; see DictSpan. */
  function HashedBytes(info: Value): Bytes {
    if info == Dict([]) then [LOWER_D] else Enc(info)
  }

  function Record(m: Meta, key: Bytes, v: Value): Run<Meta>
    requires WellTyped(key, v)
    decreases v, 2
  {
    if key == ANNOUNCE then Done(WithUrl(m, CStr(v.s)))
    else if key == INFO then RecordInfo(m, v)
    else if key == PIECE_LENGTH then Done(m.(pieceLength := Some(ToInt(v.n))))
    else if key == PIECES then Done(m.(pieces := Some(StrNCopy(v.s))))
    else if key == NAME then Done(m.(name := Some(StrNCopy(v.s))))
    else if key == LENGTH then Done(m.(fileLength := Some(ToInt(v.n))))
    else Done(m)
  }

  function RecordInfo(m: Meta, info: Value): Run<Meta>
    requires info.Dict? && AllWellTyped(info.entries)
    decreases info, 1
  {
    var m' :- RecordAll(m.(hashed := Some(HashedBytes(info))), info.entries);
    CountPieces(m')
  }

  function RecordAll(m: Meta, es: seq<Entry>): Run<Meta>
    requires AllWellTyped(es)
    decreases es, 0
  {
    if es == [] then Done(m)
    else
      assert EntryWellTyped(es[0]) && es[0].val < es[0];
      var m' :- Record(m, CStr(es[0].key), es[0].val);
      RecordAll(m', es[1..])
  }

  lemma StringTextIs(buf: Bytes, be: Cur, s: Bytes)
    requires ItemCursor(buf, be, Txt(0, s)) && |s| <= INT_MAX
    ensures StringText(buf, be) == Done((CStr(s), |s|))
  {
    StringItem(buf, be, 0, s);
    CopyStringExact(buf, TextPos(be.str, 0, s), s);
  }

  lemma ParseStr(buf: Bytes, m: Meta, be: Cur, key: Bytes, s: Bytes)
    requires StringText(buf, be) == Done((CStr(s), |s|)) && WellTyped(key, Str(s))
    ensures ParseEntry(buf, m, be, key) == Record(m, key, Str(s))
  {
    assert Padded((CStr(s), |s|)) == StrNCopy(s) by {
      StrNCopyPads(s);
    }
  }

  lemma ParseInt(buf: Bytes, m: Meta, be: Cur, key: Bytes, n: int)
    requires IntValue(buf, be) == Done(Some(n)) && WellTyped(key, Int(n))
    ensures ParseEntry(buf, m, be, key) == Record(m, key, Int(n))
  {
  }

  lemma HashedBytesAt(buf: Bytes, p: int, info: Value)
    requires info.Dict? && Here(buf, p, info)
    ensures 0 <= p && p + |HashedBytes(info)| <= |buf|
    ensures buf[p..p + |HashedBytes(info)|] == HashedBytes(info)
  {
    HoldsSlice(buf, p, Enc(info));
    if info == Dict([]) {
      assert buf[p..p + 1] == buf[p..p + |Enc(info)|][..1];
    }
  }

  lemma ParseInfo(buf: Bytes, m: Meta, be: Cur, start: int, len: int)
    requires DictStartAndLen(buf, be) == Done((start, len)) && 0 <= start && 0 <= len && start + len <= |buf|
    ensures ParseInfoEntry(buf, m, be) == ParseHashed(buf, m, be, buf[start..start + len])
  {
  }

  /** parse_metainfo on a cursor over a value records that value. */
  lemma {:induction false} ParseEntryExact(buf: Bytes, m: Meta, be: Cur, key: Bytes, v: Value)
    requires ItemCursor(buf, be, Spell(v)) && InRange(v) && WellTyped(key, v)
    ensures ParseEntry(buf, m, be, key) == Record(m, key, v)
    decreases v, 1
  {
    match v
    case Str(s) =>
      StringTextIs(buf, be, s);
      ParseStr(buf, m, be, key, s);
    case Int(n) =>
      IntItem(buf, be, n < 0, 0, if n < 0 then -n else n);
      ParseInt(buf, m, be, key, n);
    case List(_) =>
    case Dict(es) =>
      if key == INFO {
        KeysDiffer();
        assert AllWellTyped(es);
        ParseInfoExact(buf, m, be, es);
      }
  }

  lemma {:induction false} ParseInfoExact(buf: Bytes, m: Meta, be: Cur, es: seq<Entry>)
    requires ItemCursor(buf, be, Map(SpellEntries(es))) && EntriesInRange(es) && AllWellTyped(es)
    ensures ParseInfoEntry(buf, m, be) == RecordInfo(m, Dict(es))
    decreases es, 1
  {
    InfoHashed(buf, m, be, es);
    ParseDictExact(buf, m.(hashed := Some(HashedBytes(Dict(es)))), be, es);
    HashedAs(buf, m, be, Dict(es));
  }

  lemma InfoHashed(buf: Bytes, m: Meta, be: Cur, es: seq<Entry>)
    requires ItemCursor(buf, be, Map(SpellEntries(es))) && EntriesInRange(es)
    ensures DictCursor(buf, be, SpellEntries(es))
    ensures ParseInfoEntry(buf, m, be) == ParseHashed(buf, m, be, HashedBytes(Dict(es)))
  {
    InfoSpan(buf, be, es);
    ParseInfo(buf, m, be, be.str, |HashedBytes(Dict(es))|);
  }

  lemma HashedAs(buf: Bytes, m: Meta, be: Cur, info: Value)
    requires info.Dict? && AllWellTyped(info.entries)
    requires var m' := m.(hashed := Some(HashedBytes(info)));
             ParseDict(buf, m', be) == RecordAll(m', info.entries)
    ensures ParseHashed(buf, m, be, HashedBytes(info)) == RecordInfo(m, info)
  {
  }

  lemma InfoSpan(buf: Bytes, be: Cur, es: seq<Entry>)
    requires ItemCursor(buf, be, Map(SpellEntries(es))) && EntriesInRange(es)
    ensures DictCursor(buf, be, SpellEntries(es))
    ensures var n := |HashedBytes(Dict(es))|;
            DictStartAndLen(buf, be) == Done((be.str, n)) && 0 <= be.str && be.str + n <= |buf| &&
            buf[be.str..be.str + n] == HashedBytes(Dict(es))
  {
    var ps := SpellEntries(es);
    SpellEntriesFits(es);
    OpenDict(buf, be, ps);
    DictSpan(buf, be, ps);
    SpanText(es);
    HashedBytesAt(buf, be.str, Dict(es));
  }

  lemma SpanText(es: seq<Entry>)
    ensures Text(Map(SpellEntries(es))) == Enc(Dict(es))
    ensures |HashedBytes(Dict(es))| == if SpellEntries(es) == [] then 1 else |Text(Map(SpellEntries(es)))|
  {
    SpellText(Dict(es));
  }

  /** One round of the loop on a well-typed entry, whatever follows it. */
  lemma {:induction false} ParseRound(buf: Bytes, m: Meta, be: Cur, e: Entry, pair: Pair)
    requires pair == SpellEntry(e) && EntryCursor(buf, be, pair) && EntryWellTyped(e)
    ensures PairFits(pair) ==>
              var r, next := Record(m, CStr(e.key), e.val), StepOver(buf, be, pair).be;
              ParseDict(buf, m, be) == if r.Done? then ParseDict(buf, r.value, next) else Fault
    ensures !PairFits(pair) ==> ParseDict(buf, m, be) == Fault
    decreases e, 0
  {
    if PairFits(pair) {
      var step := StepOver(buf, be, pair);
      EntryStepExact(buf, be, pair);
      StepItemIs(buf, be, pair);
      EntryParts(buf, KeyPos(buf, be), pair);
      SpellFits(e.val);
      CopyStringExact(buf, step.key, e.key);
      ParseEntryExact(buf, m, step.item, CStr(e.key), e.val);
    } else {
      EntryFaults(buf, be, pair);
    }
  }

  /** The entries of a dictionary are recorded in buffer order. A number out of range in any
      of them, recognised or not, is a fault. */
  lemma {:induction false} ParseDictExact(buf: Bytes, m: Meta, be: Cur, es: seq<Entry>)
    requires DictCursor(buf, be, SpellEntries(es)) && AllWellTyped(es)
    ensures ParseDict(buf, m, be) == if EntriesInRange(es) then RecordAll(m, es) else Fault
    decreases es, 0
  {
    var ps := SpellEntries(es);
    SpellEntriesFits(es);
    DictHead(buf, be, ps);
    if es == [] {
    } else {
      var e, p := es[0], SpellEntry(es[0]);
      SpellEntriesStep(es);
      NextEntry(buf, be, ps);
      StepOverIs(buf, be, ps);
      ParseRound(buf, m, be, e, p);
      SpellFits(e.val);
      var r := Record(m, CStr(e.key), e.val);
      if PairFits(p) && r.Done? {
        ParseDictExact(buf, r.value, StepOver(buf, be, p).be, es[1..]);
      }
    }
  }

  /** A dictionary with a broken entry is not read to its end: the failure of
      bencode_dict_get_next goes unnoticed, and its key is then indeterminate. */
  lemma {:induction false} BrokenEntryFaults(buf: Bytes, m: Meta, be: Cur, p: int, es: seq<Entry>, text: Bytes,
                                             k: int, t: BrokenPair, tail: Bytes)
    requires BrokenDict(buf, be, p, SpellEntries(es), text, k, t, tail) && AllWellTyped(es)
    ensures ParseDict(buf, m, be) == Fault
    decreases |es|
  {
    if es == [] {
      BadPairRejects(buf, be, t);
    } else {
      var e, pair := es[0], SpellEntry(es[0]);
      var first, rest := PairText(pair), PairsText(SpellEntries(es[1..]));
      SpellEntriesStep(es);
      BrokenDictHead(buf, be, p, SpellEntries(es), text, k, t, tail, first, rest);
      ParseRound(buf, m, be, e, pair);
      var r := Record(m, CStr(e.key), e.val);
      if PairFits(pair) && r.Done? {
        BrokenEntryFaults(buf, r.value, StepOver(buf, be, pair).be, p + |first|, es[1..], rest, k, t, tail);
      }
    }
  }

  /** So a file that breaks off or is malformed after any number of well-typed entries is
      never read without a fault. */
  lemma BrokenFileFaults(es: seq<Entry>, t: BrokenPair, rest: Bytes)
    requires AllWellTyped(es)
    requires var b := InMap(SpellEntries(es), t);
             IsBroken(b) && Exceeds(b, 0, |BText(b) + rest|)
    ensures ParseFile(BText(InMap(SpellEntries(es), t)) + rest) == Fault
  {
    var b := InMap(SpellEntries(es), t);
    var file := BText(b) + rest;
    if |file| < INT_MAX {
      var buf, be := file + [NUL], Init(0, |file|);
      assert Holds(buf, 0, BText(b));
      var text, tail := PairsText(SpellEntries(es)), LastText(t);
      OpenBrokenDict(buf, be, 1, SpellEntries(es), text, 1 + |text|, t, tail);
      BrokenEntryFaults(buf, UNSET, be, 1, es, text, 1 + |text|, t, tail);
    }
  }

  // ------------------------------------------------------------- extraction

  /** The value under a key, keys being compared as C strings. */
  function Lookup(es: seq<Entry>, key: Bytes): Option<Value> {
    if es == [] then None
    else if CStr(es[0].key) == key then Some(es[0].val)
    else Lookup(es[1..], key)
  }

  predicate DistinctCKeys(es: seq<Entry>) {
    es == [] || (Lookup(es[1..], CStr(es[0].key)).None? && DistinctCKeys(es[1..]))
  }

  function IntOr(v: Option<Value>, default: Option<int>): Option<int> {
    match v case Some(Int(n)) => Some(ToInt(n)) case _ => default
  }

  function TextOr(v: Option<Value>, default: Option<Bytes>): Option<Bytes> {
    match v case Some(Str(s)) => Some(StrNCopy(s)) case _ => default
  }

  /** Reading a dictionary without a nested "info", in whatever order its keys come: each
      field is the one recorded under its key. */
  lemma {:induction false} FieldsRecorded(m: Meta, es: seq<Entry>)
    requires AllWellTyped(es) && DistinctCKeys(es) && Lookup(es, INFO).None?
    ensures RecordAll(m, es).Done?
    ensures var r := RecordAll(m, es).value;
            r.pieceLength == IntOr(Lookup(es, PIECE_LENGTH), m.pieceLength) &&
            r.fileLength == IntOr(Lookup(es, LENGTH), m.fileLength) &&
            r.pieces == TextOr(Lookup(es, PIECES), m.pieces) && r.name == TextOr(Lookup(es, NAME), m.name) &&
            r.hashed == m.hashed && r.numPieces == m.numPieces &&
            (Lookup(es, ANNOUNCE).None? ==> r.announce == m.announce && r.overrun == m.overrun)
    decreases |es|
  {
    if es == [] {
    } else {
      var key, v := CStr(es[0].key), es[0].val;
      assert EntryWellTyped(es[0]);
      FieldsRecorded(Record(m, key, v).value, es[1..]);
    }
  }

  /** `m` with the announce URL of `n`. */
  function SameUrl(m: Meta, n: Meta): Meta { m.(announce := n.announce, overrun := n.overrun) }

  /** At top level only "announce", "info" and unrecognised keys. */
  predicate TopLevelKeys(es: seq<Entry>) {
    forall i | 0 <= i < |es| :: var key := CStr(es[i].key); key == ANNOUNCE || key == INFO || !Recognised(key)
  }

  lemma {:induction false} TopWithoutInfo(m: Meta, es: seq<Entry>)
    requires AllWellTyped(es) && TopLevelKeys(es) && Lookup(es, INFO).None?
    ensures RecordAll(m, es).Done?
    ensures RecordAll(m, es).value == SameUrl(m, RecordAll(m, es).value)
    decreases |es|
  {
    if es == [] {
    } else {
      assert EntryWellTyped(es[0]);
      TopWithoutInfo(Record(m, CStr(es[0].key), es[0].val).value, es[1..]);
    }
  }

  /** The info dictionary determines every field but the announce URL, wherever it stands. */
  lemma {:induction false} TopWithInfo(m: Meta, es: seq<Entry>, info: Value)
    requires AllWellTyped(es) && TopLevelKeys(es) && DistinctCKeys(es)
    requires Lookup(es, INFO) == Some(info) && WellTyped(INFO, info)
    requires m == SameUrl(UNSET, m)
    requires PlainInfo(info)
    ensures var read := Record(UNSET, INFO, info);
            RecordAll(m, es).Done? == read.Done? &&
            (read.Done? ==> RecordAll(m, es).value == SameUrl(read.value, RecordAll(m, es).value))
    decreases |es|
  {
    assert EntryWellTyped(es[0]);
    if CStr(es[0].key) == INFO {
      InfoIgnoresAnnounce(m, info);
      if Record(m, INFO, info).Done? {
        TopWithoutInfo(Record(m, INFO, info).value, es[1..]);
      }
    } else {
      TopWithInfo(Record(m, CStr(es[0].key), es[0].val).value, es[1..], info);
    }
  }

  lemma InfoKeepsUrl(m: Meta, info: Value)
    requires PlainInfo(info) && AllWellTyped(info.entries) && RecordInfo(m, info).Done?
    ensures RecordInfo(m, info).value == SameUrl(RecordInfo(m, info).value, m)
  {
    FieldsRecorded(m.(hashed := Some(HashedBytes(info))), info.entries);
  }

  /** The announce URL is the one recorded at top level, cut at its first NUL. */
  lemma {:induction false} AnnounceRecorded(m: Meta, es: seq<Entry>)
    requires AllWellTyped(es) && TopLevelKeys(es) && DistinctCKeys(es) && RecordAll(m, es).Done?
    requires forall i | 0 <= i < |es| && CStr(es[i].key) == INFO :: PlainInfo(es[i].val)
    ensures RecordAll(m, es).value.announce ==
            match Lookup(es, ANNOUNCE) case Some(Str(url)) => Some(CStr(url)) case _ => m.announce
    ensures RecordAll(m, es).value.overrun <==> m.overrun || Lookup(es, ANNOUNCE).Some?
    decreases |es|
  {
    if es == [] {
    } else {
      var key, v := CStr(es[0].key), es[0].val;
      assert EntryWellTyped(es[0]);
      if key == INFO {
        assert PlainInfo(v) && WellTyped(INFO, v) && AllWellTyped(v.entries);
        InfoKeepsUrl(m, v);
      }
      AnnounceRecorded(Record(m, key, v).value, es[1..]);
    }
  }

  /** An info dictionary with distinct keys, none of them "info" or "announce". */
  predicate PlainInfo(v: Value) {
    v.Dict? && DistinctCKeys(v.entries) && Lookup(v.entries, INFO).None? && Lookup(v.entries, ANNOUNCE).None?
  }

  lemma {:induction false} AnnounceApart(m: Meta, a: Meta, es: seq<Entry>)
    requires AllWellTyped(es) && Lookup(es, INFO).None? && Lookup(es, ANNOUNCE).None?
    ensures RecordAll(m, es).Done? && RecordAll(SameUrl(m, a), es).Done?
    ensures RecordAll(SameUrl(m, a), es).value == SameUrl(RecordAll(m, es).value, a)
    decreases |es|
  {
    if es == [] {
    } else {
      assert EntryWellTyped(es[0]);
      AnnounceApart(Record(m, CStr(es[0].key), es[0].val).value, a, es[1..]);
    }
  }

  lemma InfoIgnoresAnnounce(m: Meta, info: Value)
    requires WellTyped(INFO, info) && m == SameUrl(UNSET, m)
    requires Lookup(info.entries, INFO).None? && Lookup(info.entries, ANNOUNCE).None?
    ensures var read := Record(UNSET, INFO, info);
            Record(m, INFO, info).Done? == read.Done? &&
            (read.Done? ==> Record(m, INFO, info).value == SameUrl(read.value, m))
  {
    AnnounceApart(UNSET.(hashed := Some(HashedBytes(info))), m, info.entries);
  }

  /** A metainfo file whose info dictionary has distinct keys, none of them "info" or
      "announce"; the keys of either dictionary may come in any order, with any others. */
  predicate Metafile(es: seq<Entry>, ies: seq<Entry>) {
    AllWellTyped(es) && TopLevelKeys(es) && DistinctCKeys(es) &&
    Lookup(es, INFO) == Some(Dict(ies)) && WellTyped(INFO, Dict(ies)) && PlainInfo(Dict(ies))
  }

  lemma {:induction false} OnlyInfo(es: seq<Entry>, info: Value, i: nat)
    requires DistinctCKeys(es) && Lookup(es, INFO) == Some(info) && i < |es| && CStr(es[i].key) == INFO
    ensures es[i].val == info
    decreases |es|
  {
    if i == 0 {
    } else {
      LookupFinds(es[1..], i - 1, INFO);
      OnlyInfo(es[1..], info, i - 1);
    }
  }

  lemma {:induction false} LookupFinds(es: seq<Entry>, i: nat, key: Bytes)
    requires i < |es| && CStr(es[i].key) == key
    ensures Lookup(es, key).Some?
    decreases |es|
  {
    if i == 0 {
    } else {
      LookupFinds(es[1..], i - 1, key);
    }
  }

  /** The C integers suffice for the numbers in the file and for its size. */
  predicate Readable(es: seq<Entry>) {
    EntriesInRange(es) && |Enc(Dict(es))| < INT_MAX
  }

  lemma ParsedAs(es: seq<Entry>, ies: seq<Entry>)
    requires Metafile(es, ies)
    ensures var read := Record(UNSET, INFO, Dict(ies));
            ParseFile(Enc(Dict(es))) ==
            if Readable(es) && read.Done?
            then Done(read.value.(announce := match Lookup(es, ANNOUNCE)
                                              case Some(Str(url)) => Some(CStr(url)) case _ => None,
                                  overrun := Lookup(es, ANNOUNCE).Some?))
            else Fault
  {
    var file := Enc(Dict(es));
    if |file| < INT_MAX {
      SpellText(Dict(es));
      WholeBuffer(Spell(Dict(es)), [NUL], |file|);
      OpenDict(file + [NUL], Init(0, |file|), SpellEntries(es));
      ParseDictExact(file + [NUL], UNSET, Init(0, |file|), es);
      TopWithInfo(UNSET, es, Dict(ies));
      if RecordAll(UNSET, es).Done? {
        forall i | 0 <= i < |es| && CStr(es[i].key) == INFO ensures PlainInfo(es[i].val) {
          OnlyInfo(es, Dict(ies), i);
        }
        AnnounceRecorded(UNSET, es);
      }
    }
  }

  /** Both lengths are there and, cut to 32 bits, have a quotient that is an int. */
  predicate Countable(ies: seq<Entry>) {
    match (Lookup(ies, PIECE_LENGTH), Lookup(ies, LENGTH))
    case (Some(Int(pl)), Some(Int(fl))) => ToInt(pl) != 0 && IsInt(CeilDiv(ToInt(fl), ToInt(pl)))
    case _ => false
  }

  /** When a metainfo file is read without a fault: otherwise an integer overflows, or the
      piece count is computed from memory never written (as in a torrent of several files),
      or the division is by zero, or its result does not fit. */
  lemma ParsesIff(es: seq<Entry>, ies: seq<Entry>)
    requires Metafile(es, ies)
    ensures ParseFile(Enc(Dict(es))).Done? <==> Readable(es) && Countable(ies)
  {
    ParsedAs(es, ies);
    FieldsRecorded(UNSET.(hashed := Some(HashedBytes(Dict(ies)))), ies);
    LookupTyped(ies, PIECE_LENGTH);
    LookupTyped(ies, LENGTH);
  }

  /** When the whole reading stays within defined behaviour: besides, there must not be an
      announce URL, because its terminator is written behind the end of its buffer. */
  lemma DefinedIff(es: seq<Entry>, ies: seq<Entry>)
    requires Metafile(es, ies)
    ensures var r := ParseFile(Enc(Dict(es)));
            r.Done? && !r.value.overrun <==> Readable(es) && Countable(ies) && Lookup(es, ANNOUNCE).None?
  {
    ParsedAs(es, ies);
    ParsesIff(es, ies);
  }

  lemma {:induction false} LookupTyped(es: seq<Entry>, key: Bytes)
    requires AllWellTyped(es)
    ensures Lookup(es, key).Some? ==> WellTyped(key, Lookup(es, key).value)
  {
    if es == [] {
    } else {
      assert EntryWellTyped(es[0]);
      LookupTyped(es[1..], key);
    }
  }

  /** What is recorded is always the encoded lengths modulo 2^32, and the bytes hashed are
      the encoded info dictionary. */
  lemma LengthsAsRead(es: seq<Entry>, ies: seq<Entry>, fl: int, pl: int)
    requires Metafile(es, ies)
    requires Lookup(ies, LENGTH) == Some(Int(fl)) && Lookup(ies, PIECE_LENGTH) == Some(Int(pl))
    ensures var r := ParseFile(Enc(Dict(es)));
            (r.Done? <==> Readable(es) && ToInt(pl) != 0 && IsInt(CeilDiv(ToInt(fl), ToInt(pl)))) &&
            (r.Done? ==> r.value.fileLength == Some(ToInt(fl)) && r.value.pieceLength == Some(ToInt(pl)) &&
                         r.value.numPieces == Some(CeilDiv(ToInt(fl), ToInt(pl))) &&
                         r.value.hashed == Some(Enc(Dict(ies))))
  {
    ParsedAs(es, ies);
    FieldsRecorded(UNSET.(hashed := Some(HashedBytes(Dict(ies)))), ies);
  }

  /** The fields hold the encoded lengths exactly when each is an int; then the piece count
      is the ceiling of their quotient. */
  lemma SingleFileExtraction(es: seq<Entry>, ies: seq<Entry>, fl: int, pl: int)
    requires Metafile(es, ies)
    requires Lookup(ies, LENGTH) == Some(Int(fl)) && Lookup(ies, PIECE_LENGTH) == Some(Int(pl))
    requires 0 <= fl && 0 < pl
    ensures var r := ParseFile(Enc(Dict(es)));
            r.Done? && r.value.fileLength == Some(fl) && r.value.pieceLength == Some(pl) <==>
            Readable(es) && fl <= INT_MAX && pl <= INT_MAX
    ensures var r := ParseFile(Enc(Dict(es)));
            r.Done? && fl <= INT_MAX && pl <= INT_MAX ==>
              r.value.numPieces.Some? && Download.Info(fl, pl, r.value.numPieces.value).Valid()
  {
    LengthsAsRead(es, ies, fl, pl);
    if fl <= INT_MAX {
      Ceiling(fl, pl);
    }
  }

  /** A file of 2^31 bytes, described by nothing but its length and a piece length of 2^20:
      the length is read as -2^31 and the piece count as -2048, so that not even piece 0 has
      a size. */
  lemma LongFileIsMisread(a: Entry, b: Entry, e: Entry)
    requires a == Entry(LENGTH, Int(0x8000_0000)) && b == Entry(PIECE_LENGTH, Int(0x10_0000))
    requires e == Entry(INFO, Dict([a, b]))
    ensures var r := ParseFile(Enc(Dict([e])));
            r.Done? && r.value.fileLength == Some(-0x8000_0000) && r.value.numPieces == Some(-2048)
    ensures Download.PieceSize(0, Download.Info(-0x8000_0000, 0x10_0000, -2048)) == -1
  {
    LengthKeys();
    OnlyLengthsIsMetafile(a, b, e);
    OnlyLengthsIsReadable(a, b, e);
    LengthsAsRead([e], [a, b], a.val.n, b.val.n);
    AsInts();
  }

  lemma AsInts()
    ensures ToInt(0x8000_0000) == -0x8000_0000 && ToInt(0x10_0000) == 0x10_0000
    ensures CeilDiv(-0x8000_0000, 0x10_0000) == -2048
  {
  }

  lemma OnlyLengthsIsMetafile(a: Entry, b: Entry, e: Entry)
    requires CStr(a.key) == LENGTH && a.val.Int? && CStr(b.key) == PIECE_LENGTH && b.val.Int?
    requires CStr(e.key) == INFO && e.val == Dict([a, b])
    ensures Metafile([e], [a, b])
    ensures Lookup([a, b], LENGTH) == Some(a.val) && Lookup([a, b], PIECE_LENGTH) == Some(b.val)
  {
    KeysDiffer();
    LookupTwo(a, b, LENGTH);
    LookupTwo(a, b, PIECE_LENGTH);
    LookupTwo(a, b, INFO);
    LookupTwo(a, b, ANNOUNCE);
    assert EntryWellTyped(a) && EntryWellTyped(b);
    assert EntryWellTyped(e);
    LookupOne(e, INFO);
  }

  lemma LookupOne(a: Entry, key: Bytes)
    ensures Lookup([a], key) == if CStr(a.key) == key then Some(a.val) else None
    ensures DistinctCKeys([a])
  {
    assert [a][1..] == [];
  }

  lemma LookupTwo(a: Entry, b: Entry, key: Bytes)
    ensures Lookup([a, b], key) ==
            if CStr(a.key) == key then Some(a.val) else if CStr(b.key) == key then Some(b.val) else None
    ensures DistinctCKeys([a, b]) <==> CStr(a.key) != CStr(b.key)
  {
    assert [a, b][1..] == [b];
    LookupOne(b, key);
    LookupOne(b, CStr(a.key));
  }

  lemma LengthKeys()
    ensures CStr(INFO) == INFO
    ensures CStr(LENGTH) == LENGTH
    ensures CStr(PIECE_LENGTH) == PIECE_LENGTH
  {
    assert CStr(INFO) == INFO by { NoNul(INFO); }
    assert CStr(LENGTH) == LENGTH by { NoNul(LENGTH); }
    assert CStr(PIECE_LENGTH) == PIECE_LENGTH by { NoNul(PIECE_LENGTH); }
  }

  lemma KeysDiffer()
    ensures LENGTH != PIECES && LENGTH != NAME && LENGTH != ANNOUNCE && LENGTH != INFO && LENGTH != PIECE_LENGTH
    ensures PIECE_LENGTH != INFO && PIECE_LENGTH != ANNOUNCE && PIECE_LENGTH != PIECES && PIECE_LENGTH != NAME
    ensures INFO != ANNOUNCE && INFO != PIECES && INFO != NAME
  {
    assert LENGTH[0] == 108 && PIECES[0] == 112 && INFO[0] == 105 && NAME[0] == 110;
    assert |INFO| == |NAME| == 4 && |LENGTH| == |PIECES| == 6 && |PIECE_LENGTH| == 12 && |ANNOUNCE| == 8;
  }

  lemma {:induction false} NoNul(s: Bytes)
    requires NUL !in s
    ensures CStr(s) == s
  {
    if s == [] {
    } else {
      NoNul(s[1..]);
      assert s == [s[0]] + s[1..];
    }
  }

  lemma {:induction false} DecimalShort(n: nat)
    ensures |Decimal(n)| <= n / 10 + 1
  {
    if n >= 10 {
      DecimalShort(n / 10);
    }
  }

  lemma NumberEntryShort(key: Bytes, n: nat)
    ensures |EncEntry(Entry(key, Int(n)))| <= 2 * |key| + n / 10 + 5
  {
    DecimalShort(|key|);
    DecimalShort(n);
  }

  lemma OnlyLengthsIsReadable(a: Entry, b: Entry, e: Entry)
    requires a.key == LENGTH && a.val.Int? && 0 <= a.val.n <= 0x8000_0000
    requires b.key == PIECE_LENGTH && b.val.Int? && 0 <= b.val.n <= 0x8000_0000
    requires e.key == INFO && e.val == Dict([a, b])
    ensures Readable([e])
  {
    KeyLengths();
    NumberEntryShort(a.key, a.val.n);
    NumberEntryShort(b.key, b.val.n);
    PairLength(a, b);
    SingleLength(e);
    assert EntryInRange(a) && EntryInRange(b);
    assert EntryInRange(e);
  }

  lemma KeyLengths()
    ensures |INFO| == 4 && |LENGTH| == 6 && |PIECE_LENGTH| == 12
  {
  }

  lemma SingleLength(e: Entry)
    ensures |Enc(Dict([e]))| <= 2 * |e.key| + |Enc(e.val)| + 4
  {
    DecimalShort(|e.key|);
    assert [e][1..] == [];
    assert DictTail([e]) == EncEntry(e) + DictTail([]);
  }

  lemma PairLength(a: Entry, b: Entry)
    ensures |Enc(Dict([a, b]))| == 2 + |EncEntry(a)| + |EncEntry(b)|
  {
    assert [a, b][1..] == [b] && [b][1..] == [];
    assert DictTail([b]) == EncEntry(b) + DictTail([]);
  }

  /** The text fields are the encoded ones as strncpy copies them. */
  lemma TextExtraction(es: seq<Entry>, ies: seq<Entry>, url: Bytes, name: Bytes, hashes: Bytes)
    requires Metafile(es, ies) && ParseFile(Enc(Dict(es))).Done?
    requires Lookup(es, ANNOUNCE) == Some(Str(url))
    requires Lookup(ies, NAME) == Some(Str(name)) && Lookup(ies, PIECES) == Some(Str(hashes))
    ensures var m := ParseFile(Enc(Dict(es))).value;
            m.announce == Some(CStr(url)) && m.overrun &&
            m.name == Some(StrNCopy(name)) && m.pieces == Some(StrNCopy(hashes))
  {
    ParsedAs(es, ies);
    FieldsRecorded(UNSET.(hashed := Some(HashedBytes(Dict(ies)))), ies);
  }

  /** The quotient is the least integer that is not below a / b, whatever the signs. */
  lemma CeilDivIs(a: int, b: int)
    requires b != 0
    ensures var q := CeilDiv(a, b);
            if b > 0 then (q - 1) * b < a <= q * b else q * b <= a < (q - 1) * b
  {
    if b > 0 {
      var q := (-a) / b;
      assert -a == q * b + (-a) % b;
      assert (-q - 1) * b == -(q * b) - b && (-q) * b == -(q * b);
    } else {
      var d := -b;
      var q := a / d;
      assert a == q * d + a % d;
      assert (-q) * b == q * d && (-q - 1) * b == q * d + d;
    }
  }

  /** The keys, spelt out. */
  lemma KeySpelling()
    ensures ANNOUNCE == Ascii("announce") && INFO == Ascii("info") && PIECE_LENGTH == Ascii("piece length")
    ensures PIECES == Ascii("pieces") && NAME == Ascii("name") && LENGTH == Ascii("length")
  {
  }

  /** A text under a key whose value is not a string fails an assert; a number under a key
      whose value is a string is 0 if the string has one digit of length, and otherwise
      fails an assert. */
  lemma IllTyped(buf: Bytes, be: Cur, v: Item)
    requires ItemCursor(buf, be, v)
    ensures !v.Txt? ==> StringText(buf, be) == Fault
    ensures v.Txt? ==>
              IntField(buf, be) == if |Digits(v.zeros, |v.s|)| == 1 then Done(0) else Fault
  {
    FirstByte(buf, be.str, Text(v));
    match v
    case Num(neg, zeros, n) => IntItem(buf, be, neg, zeros, n);
    case Txt(zeros, s) => TextIsNoNumber(buf, be, zeros, s);
    case Seq(_) =>
    case Map(_) =>
  }

  /** A colon is no digit and no "e". */
  lemma ColonAfterDigits(buf: Bytes, be: Cur, t: Bytes)
    requires Holds(buf, be.str + 1, t) && AllDigits(t) && Deref(buf, be.str + 1 + |t|) == Done(COLON)
    ensures IntField(buf, be) == if t == [] then Done(0) else Fault
  {
    var p := be.str + 1;
    if t == [] {
    } else {
      FirstByte(buf, p, t);
      AccumulateGrows(t, 0);
      if Accumulate(t, 0) <= LONG_MAX {
        DigitLoop(buf, p, t, 0, LONG_MAX);
      } else {
        DigitLoopOverflows(buf, p, t, 0, LONG_MAX);
      }
    }
  }

  lemma TextIsNoNumber(buf: Bytes, be: Cur, zeros: nat, s: Bytes)
    requires ItemCursor(buf, be, Txt(zeros, s))
    ensures IntField(buf, be) == if |Digits(zeros, |s|)| == 1 then Done(0) else Fault
  {
    var t := Digits(zeros, |s|);
    assert StrText(zeros, s) == t + ([COLON] + s) && t == [t[0]] + t[1..];
    HoldsSplit(buf, be.str, t, [COLON] + s);
    HoldsSplit(buf, be.str, [t[0]], t[1..]);
    FirstByte(buf, be.str + |t|, [COLON] + s);
    ColonAfterDigits(buf, be, t[1..]);
  }

  lemma Ceiling(a: int, b: int)
    requires 0 <= a <= INT_MAX && 0 < b
    ensures 0 <= CeilDiv(a, b) <= INT_MAX && (CeilDiv(a, b) - 1) * b < a <= CeilDiv(a, b) * b
  {
    var q := (-a) / b;
    assert -a == q * b + (-a) % b;
    assert (-q - 1) * b == -(q * b) - b;
    assert (-q) * b == -(q * b);
    assert -a / b >= -a by {
      assert q * b <= -a;
      if q < -a {
        assert (q + 1) * b == q * b + b;
        assert (q + 1) * b > -a;
        if q + 1 <= -a { Multiples(q + 1, -a, b); Multiples(1, b, a); }
      }
    }
  }
}
