/** Bencoded values and their encoding (section "bencoding" of BEP 3). */
module Grammar {
  import opened Bytes

  /** A bencoded value; the entries of a dictionary are kept in buffer order. */
  datatype Value =
    | Int(n: int)
    | Str(s: Bytes)
    | List(items: seq<Value>)
    | Dict(entries: seq<Entry>)

  datatype Entry = Entry(key: Bytes, val: Value)

  function Numeral(n: int): Bytes {
    if n < 0 then [MINUS] + Decimal(-n) else Decimal(n)
  }

  function StrBytes(s: Bytes): Bytes {
    Decimal(|s|) + [COLON] + s
  }

  function Enc(v: Value): (e: Bytes)
    ensures e != []
    ensures e[0] != LOWER_E
    decreases v
  {
    match v
    case Int(n) => [LOWER_I] + Numeral(n) + [LOWER_E]
    case Str(s) => StrBytes(s)
    case List(vs) => [LOWER_L] + ListTail(vs)
    case Dict(es) => [LOWER_D] + DictTail(es)
  }

  /** What is left of a list once the cursor is past its opening byte or an item. */
  function ListTail(vs: seq<Value>): (e: Bytes)
    ensures e != []
    decreases vs
  {
    if vs == [] then [LOWER_E] else Enc(vs[0]) + ListTail(vs[1..])
  }

  function DictTail(es: seq<Entry>): (e: Bytes)
    ensures e != []
    ensures es == [] <==> e[0] == LOWER_E
    ensures es != [] ==> IsDigit(e[0]) && |e| >= 2
    ensures e[|e| - 1] == LOWER_E
    decreases es
  {
    if es == [] then [LOWER_E] else EncEntry(es[0]) + DictTail(es[1..])
  }

  function EncEntry(e: Entry): Bytes
    decreases e
  {
    StrBytes(e.key) + Enc(e.val)
  }

  /** Where the value of an entry encoded at `p` begins, and where the entry ends. */
  function ValText(p: int, e: Entry): int { p + |StrBytes(e.key)| }
  function EntryEnd(p: int, e: Entry): int { p + |EncEntry(e)| }

  /** The encoding of `v` stands in `buf` at offset `p`. */
  predicate Here(buf: Bytes, p: int, v: Value) {
    Holds(buf, p, Enc(v))
  }

  /** The C reader keeps integers in a `long` built from its magnitude, and string
      lengths in an `int`. */
  predicate InRange(v: Value)
    decreases v
  {
    match v
    case Int(n) => -LONG_MAX <= n <= LONG_MAX
    case Str(s) => |s| <= INT_MAX
    case List(vs) => forall i | 0 <= i < |vs| :: InRange(vs[i])
    case Dict(es) => forall i | 0 <= i < |es| :: EntryInRange(es[i])
  }

  predicate EntryInRange(e: Entry)
    decreases e
  {
    |e.key| <= INT_MAX && InRange(e.val)
  }

  predicate EntriesInRange(es: seq<Entry>) { forall i | 0 <= i < |es| :: EntryInRange(es[i]) }
}
