/** Dictionaries that are not closed: the loops of the heapless reader end wherever
    bencode_dict_has_next answers 0, whether or not an "e" stands there. */
module CursorCut {
  import opened Bytes
  import opened Loose
  import opened CursorModel
  import opened CursorProofs
  import opened CursorRange
  import opened CursorTheorems
  import opened Reference
  import Canonical

  /** The entries of a dictionary without a closing byte. */
  function PairsText(ps: seq<Pair>): Bytes {
    if ps == [] then [] else PairText(ps[0]) + PairsText(ps[1..])
  }

  lemma {:induction false} MapTailIs(ps: seq<Pair>)
    ensures MapTail(ps) == PairsText(ps) + [LOWER_E]
    decreases |ps|
  {
    if ps == [] {
    } else {
      MapTailIs(ps[1..]);
      assert PairText(ps[0]) + (PairsText(ps[1..]) + [LOWER_E]) == PairsText(ps) + [LOWER_E];
    }
  }

  // --------------------------------------------------------------- the reader

  /** The entries `ps` are still to come, with whatever may follow them. */
  predicate Remaining(buf: Bytes, be: Cur, ps: seq<Pair>) {
    ps != [] ==> 0 <= be.start <= be.str && Holds(buf, KeyPos(buf, be), PairsText(ps)) &&
                 Covers(be, KeyPos(buf, be) + |PairsText(ps)|)
  }

  /** The cursor behind the last entry. */
  function Behind(buf: Bytes, be: Cur, ps: seq<Pair>): Cur {
    if ps == [] then be else be.(str := KeyPos(buf, be) + |PairsText(ps)|)
  }

  lemma PairsStart(buf: Bytes, p: int, ps: seq<Pair>, first: Bytes, rest: Bytes)
    requires ps != [] && Holds(buf, p, PairsText(ps)) && first == PairText(ps[0]) && rest == PairsText(ps[1..])
    ensures Holds(buf, p, first) && Holds(buf, p + |first|, rest) && PairsText(ps) == first + rest
    ensures Deref(buf, p).Done? && IsDigit(buf[p])
  {
    HoldsParts(buf, p, PairsText(ps), first, rest);
    PairParts(buf, p, ps[0]);
  }

  lemma RemainingHead(buf: Bytes, be: Cur, ps: seq<Pair>)
    requires Remaining(buf, be, ps) && ps != []
    ensures EntryCursor(buf, be, ps[0])
    ensures var be' := StepOver(buf, be, ps[0]).be;
            Remaining(buf, be', ps[1..]) && Behind(buf, be', ps[1..]) == Behind(buf, be, ps)
  {
    var rest := ps[1..];
    PairsStart(buf, KeyPos(buf, be), ps, PairText(ps[0]), PairsText(ps[1..]));
    if rest != [] {
      PairsStart(buf, PairEnd(KeyPos(buf, be), ps[0]), rest, PairText(rest[0]), PairsText(rest[1..]));
    }
  }

  lemma {:induction false} ValidateCut(buf: Bytes, be: Cur, ps: seq<Pair>)
    requires Remaining(buf, be, ps) && DictHasNext(buf, Behind(buf, be, ps)) == Done(false)
    ensures ValidateDict(buf, be) == if PairsFit(ps) then Done(0) else Fault
    decreases |ps|
  {
    if ps == [] {
    } else {
      RemainingHead(buf, be, ps);
      if PairFits(ps[0]) {
        var step := StepOver(buf, be, ps[0]);
        EntryStepExact(buf, be, ps[0]);
        StepItemIs(buf, be, ps[0]);
        ValidateExact(buf, step.item, ps[0].val);
        ValidateCut(buf, step.be, ps[1..]);
        ValidateDictUnfold(buf, be, step);
      } else {
        EntryFaults(buf, be, ps[0]);
      }
    }
  }

  lemma ValidateDictUnfold(buf: Bytes, be: Cur, step: DictStep)
    requires DictHasNext(buf, be) == Done(true) && DictGetNext(buf, be) == Done(step) && step.ret
    requires Validate(buf, step.item.str, step.item.len) == Done(0)
    ensures ValidateDict(buf, be) == ValidateDict(buf, step.be)
  {
  }

  /** The bytes that bencode_dict_has_next looks at behind the entries are there. */
  predicate Readable(ps: seq<Pair>, rest: Bytes) {
    rest != [] && (ps != [] && rest[0] == LOWER_D ==> |rest| > 1)
  }

  /** Whether the loop over a dictionary ends behind its entries, when `over` is how far the
      length goes beyond them. */
  predicate Ends(ps: seq<Pair>, rest: Bytes, over: nat)
    requires Readable(ps, rest)
  {
    if ps == [] then rest[0] == LOWER_E || over == 0
    else
      rest[0] == LOWER_E || rest[0] == NUL || rest[0] == CR || (rest[0] == LOWER_D && rest[1] == LOWER_E) ||
      over <= 1
  }

  /** Entries that end so are accepted as a dictionary, if their numbers and the length fit. */
  lemma ValidateUnclosed(ps: seq<Pair>, rest: Bytes, len: nat)
    requires Readable(ps, rest) && 1 + |PairsText(ps)| <= len && Ends(ps, rest, len - 1 - |PairsText(ps)|)
    ensures BencodeValidate([LOWER_D] + PairsText(ps) + rest, len) ==
            if PairsFit(ps) && len <= INT_MAX then Done(0) else Fault
  {
    var buf, be := [LOWER_D] + PairsText(ps) + rest, Init(0, len);
    if len <= INT_MAX {
      assert buf[0] == LOWER_D && buf[1 + |PairsText(ps)|] == rest[0];
      assert Holds(buf, 1, PairsText(ps));
      if ps == [] {
      } else if rest[0] == LOWER_D {
        assert buf[2 + |PairsText(ps)|] == rest[1];
      }
      ValidateCut(buf, be, ps);
    }
  }

  // -------------------------------------------------------------- the decoder

  lemma NoKey(x: Bytes, f: nat)
    requires f < |x| && x[f] != LOWER_E && !IsDigit(x[f])
    ensures DecodeEntries(x, f) == Bad
  {
    assert DecodeString(x, f) == Bad;
  }

  /** Without an "e" behind the entries the decoder raises. */
  lemma {:induction false} DecodeUnclosed(x: Bytes, f: nat, ps: seq<Pair>)
    requires Holds(x, f, PairsText(ps))
    requires var end := f + |PairsText(ps)|;
             end == |x| || (x[end] != LOWER_E && !IsDigit(x[end]))
    ensures DecodeEntries(x, f) == Bad
    decreases |ps|
  {
    if ps == [] {
      if f < |x| {
        NoKey(x, f);
      }
    } else {
      HoldsSplit(x, f, PairText(ps[0]), PairsText(ps[1..]));
      if PairMinimal(ps[0]) {
        DecodeUnclosed(x, PairEnd(f, ps[0]), ps[1..]);
        RestOfPairRejected(x, f, ps[0]);
      } else {
        DecodePairRejects(x, f, ps[0]);
      }
    }
  }

  lemma DecodeNeedsEnd(ps: seq<Pair>, rest: Bytes)
    requires rest == [] || (rest[0] != LOWER_E && !IsDigit(rest[0]))
    ensures Canonical.Bdecode([LOWER_D] + PairsText(ps) + rest).None?
  {
    var x := [LOWER_D] + PairsText(ps) + rest;
    assert Holds(x, 1, PairsText(ps));
    if rest == [] {
    } else {
      assert x[1 + |PairsText(ps)|] == rest[0];
    }
    DecodeUnclosed(x, 1, ps);
  }

  // ----------------------------------------------------------- in comparison

  /** A dictionary without its last byte: in a buffer that ends with a NUL, as the callers
      provide it, bencode_validate does not miss it; the decoder does. */
  lemma MissingEnd(ps: seq<Pair>)
    ensures var t := Text(Map(ps));
            var x := t[..|t| - 1];
            (BencodeValidate(x + [NUL], |x|) == Done(0) <==> PairsFit(ps) && |x| <= INT_MAX) &&
            Canonical.Bdecode(x).None?
  {
    var t, x := Text(Map(ps)), [LOWER_D] + PairsText(ps);
    MapTailIs(ps);
    assert t == x + [LOWER_E] && t[..|t| - 1] == x;
    ValidateUnclosed(ps, [NUL], |x|);
    DecodeNeedsEnd(ps, []);
    assert x + [] == x;
  }

  /** NUL or CR in place of the last byte of a dictionary with entries, and anything behind. */
  lemma OtherEnd(ps: seq<Pair>, end: Byte, rest: Bytes)
    requires ps != [] && (end == 0 || end == 13)
    ensures var t := Text(Map(ps));
            var x := t[..|t| - 1] + [end] + rest;
            (BencodeValidate(x, |x|) == Done(0) <==> PairsFit(ps) && |x| <= INT_MAX) &&
            Canonical.Bdecode(x).None?
  {
    var t, x := Text(Map(ps)), [LOWER_D] + PairsText(ps);
    MapTailIs(ps);
    assert t == x + [LOWER_E] && t[..|t| - 1] == x;
    assert x + [end] + rest == x + ([end] + rest);
    ValidateUnclosed(ps, [end] + rest, |x + [end] + rest|);
    DecodeNeedsEnd(ps, [end] + rest);
  }

  /** No bytes at all are valid too, but nothing that the decoder accepts. */
  lemma NothingIsValid(buf: Bytes)
    ensures BencodeValidate(buf, 0) == Done(0) && Canonical.Bdecode([]).None?
  {
  }
}
