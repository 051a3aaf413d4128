/** bencode/bencode.c: the routines that move a bencode_t in place. Each is proved to do
    what the model of CursorModel says, on every buffer; after a fault nothing is said. */
module CursorCode {
  import opened Bytes
  import opened CursorModel

  /** The digit loop of __read_string_int and __read_string_len. */
  method ScanDigits(buf: Bytes, sp0: int, limit: nat) returns (r: Run<(int, int)>)
    ensures r == ReadDigits(buf, sp0, 0, limit)
  {
    var sp, val := sp0, 0;
    while true
      invariant sp0 <= sp && 0 <= val
      invariant ReadDigits(buf, sp0, 0, limit) == ReadDigits(buf, sp, val, limit)
      decreases |buf| - sp
    {
      var c :- Deref(buf, sp);
      if !IsDigit(c) { return Done((sp, val)); }
      if val * 10 + Digit(c) > limit { return Fault; }
      val := val * 10 + Digit(c);
      sp := sp + 1;
    }
  }

  method ScanStringInt(buf: Bytes, sp0: int) returns (r: Run<Option<(int, int)>>)
    ensures r == ReadStringInt(buf, sp0)
  {
    var sp, sign := sp0, 1;
    var c :- Deref(buf, sp);
    if c == MINUS {
      sign, sp := -1, sp + 1;
    }
    var d :- Deref(buf, sp);
    if !IsDigit(d) { return Done(None); }
    var number :- ScanDigits(buf, sp, LONG_MAX);
    return Done(Some((number.0, sign * number.1)));
  }

  method ScanStringLen(buf: Bytes, sp: int) returns (r: Run<(int, int)>)
    ensures r == ReadStringLen(buf, sp)
  {
    var c :- Deref(buf, sp);
    if !IsDigit(c) { return Done((NULL, 0)); }
    var number :- ScanDigits(buf, sp, INT_MAX);
    if buf[number.0] != COLON { return Fault; }
    return Done((number.0 + 1, number.1));
  }

  /** What the dictionary branch of __iterate_to_next_string_pos returns after its loop. */
  function AfterDict(buf: Bytes, p: int): Run<int> {
    var c :- Deref(buf, p);
    if c == LOWER_D then
      var d :- Deref(buf, p + 1);
      Done(if d == LOWER_E then p + 2 else p + 1)
    else Done(p + 1)
  }

  class Bencode {
    const buf: Bytes
    var str: int
    var start: int
    var len: int

    /** bencode_init */
    constructor (buf: Bytes, str: int, len: int)
      ensures this.buf == buf && State() == Init(str, len)
    {
      this.buf, this.str, this.start, this.len := buf, str, str, len;
    }

    function State(): Cur
      reads this
    {
      Cur(str, start, len)
    }

    method Reset(str: int, len: int)
      modifies this
      ensures State() == Init(str, len)
    {
      this.str, this.start, this.len := str, str, len;
    }

    method ReadIsString() returns (r: Run<bool>)
      ensures r == IsString(buf, State())
    {
      var sp := str;
      if sp == NULL { return Fault; }
      var c :- Deref(buf, sp);
      if !IsDigit(c) { return Done(false); }
      while true
        invariant str <= sp && DigitsEnd(buf, str) == DigitsEnd(buf, sp)
        decreases |buf| - sp
      {
        var d :- Deref(buf, sp);
        if !IsDigit(d) { return Done(d == COLON); }
        sp := sp + 1;
      }
    }

    method ReadStringValue() returns (r: Run<Option<(int, int)>>)
      ensures r == StringValue(buf, State())
    {
      var isString :- ReadIsString();
      if !isString { return Fault; }
      var lenRead :- ScanStringLen(buf, str);
      var (sp, slen) := lenRead;
      if sp == NULL || len <= 0 { return Fault; }
      if sp + slen > start + len { return Done(None); }
      return Done(Some((sp, slen)));
    }

    method ReadIntValue() returns (r: Run<Option<int>>)
      ensures r == IntValue(buf, State())
    {
      var number :- ScanStringInt(buf, str + 1);
      match number
      case None => return Done(None);
      case Some((end, val)) =>
        if buf[end] != LOWER_E { return Fault; }
        return Done(Some(val));
    }

    method MoreInDict() returns (r: Run<bool>)
      ensures r == DictHasNext(buf, State())
    {
      var sp := str;
      if sp == NULL { return Done(false); }
      var c :- Deref(buf, sp);
      if c == LOWER_E || c == NUL || c == CR { return Done(false); }
      if c == LOWER_D {
        var d :- Deref(buf, sp + 1);
        if d == LOWER_E { return Done(false); }
      }
      return Done(!(str >= start + len - 1));
    }

    method NextInDict(item: Bencode?) returns (r: Run<bool>, key: int, klen: int)
      requires item != this && (item != null ==> item.buf == buf)
      modifies this, item
      ensures r.Done? <==> DictGetNext(buf, old(State())).Done?
      ensures r.Done? ==>
                var step := DictGetNext(buf, old(State())).value;
                r.value == step.ret && State() == step.be &&
                (r.value ==> key == step.key && klen == step.klen) &&
                (r.value && item != null ==> item.State() == step.item)
      decreases Left(buf, str), 1
    {
      key, klen := NULL, 0;
      var sp := str;
      var c :- Deref(buf, sp);
      if c == LOWER_E { return Fault, key, klen; }
      if c == LOWER_D {
        sp := sp + 1;
      }
      var d :- Deref(buf, sp);
      if d == LOWER_E { return Done(false), key, klen; }
      var lenRead :- ScanStringLen(buf, sp);
      var (keyin, n) := lenRead;
      assert ReadKey(buf, State()) == Done(Some((keyin, n)));
      DictGetNextFrom(buf, State(), keyin, n);
      if item != null {
        klen := n;
        var carried :- Carry(State(), keyin + n);
        item.Reset(keyin + n, carried);
      }
      var next :- ToNextStringPos(keyin + n);
      str := next;
      if next == NULL { return Done(false), key, klen; }
      return Done(true), keyin, n;
    }

    method MoreInList() returns (r: Run<bool>)
      modifies this
      ensures r.Done? <==> ListHasNext(buf, old(State())).Done?
      ensures r.Done? ==> (r.value, State()) == ListHasNext(buf, old(State())).value
    {
      var sp := str;
      var c :- Deref(buf, sp);
      if c == LOWER_L && sp == start {
        var d :- Deref(buf, sp + 1);
        if d == LOWER_E {
          str := str + 1;
          return Done(false);
        }
      }
      return Done(c != LOWER_E);
    }

    method NextInList(item: Bencode?) returns (r: Run<int>)
      requires item != this && (item != null ==> item.buf == buf)
      modifies this, item
      ensures r.Done? <==> ListGetNext(buf, old(State())).Done?
      ensures r.Done? ==>
                var step := ListGetNext(buf, old(State())).value;
                r.value == step.ret && State() == step.be &&
                (r.value == 1 && item != null ==> item.State() == step.item)
      decreases Left(buf, str), if Opening(buf, State()) then 1 else 4
    {
      var sp := str;
      if sp == NULL { return Done(0); }
      var c :- Deref(buf, sp);
      if c == LOWER_E { return Done(0); }
      if c == LOWER_L && start == str {
        sp := sp + 1;
      }
      var d :- Deref(buf, sp);
      if d == LOWER_E {
        str := sp;
        return Done(0);
      }
      if item != null {
        var carried :- Carry(State(), sp);
        item.Reset(sp, carried);
      }
      var next :- ToNextStringPos(sp);
      str := next;
      return Done(if next == NULL then -1 else 1);
    }

    /** __iterate_to_next_string_pos */
    method ToNextStringPos(sp: int) returns (r: Run<int>)
      ensures r == NextStringPos(buf, State(), sp)
      decreases Left(buf, sp), 3
    {
      var carried :- Carry(State(), sp);
      var iter := new Bencode(buf, sp, carried);
      var isDict :- Starts(buf, iter.State(), LOWER_D);
      if isDict {
        r := iter.SkipDict();
        return;
      }
      var isList :- Starts(buf, iter.State(), LOWER_L);
      if isList {
        r := iter.SkipList();
        return;
      }
      var isString :- iter.ReadIsString();
      if isString {
        var sv :- iter.ReadStringValue();
        return Done(if sv.None? then NULL else sv.value.0 + sv.value.1);
      }
      var isInt :- Starts(buf, iter.State(), LOWER_I);
      if isInt {
        var number :- ScanStringInt(buf, sp + 1);
        match number
        case None => return Done(NULL);
        case Some((end, val)) =>
          if buf[end] != LOWER_E { return Fault; }
          return Done(end + 1);
      }
      return Done(NULL);
    }

    /** The dictionary branch of __iterate_to_next_string_pos. */
    method SkipDict() returns (r: Run<int>)
      modifies this
      ensures r == match DrainDict(buf, old(State()))
                   case Fault => Fault
                   case Done(None) => Done(NULL)
                   case Done(Some(end)) => AfterDict(buf, end.str)
      decreases Left(buf, str), 2
    {
      while true
        invariant DrainDict(buf, State()) == DrainDict(buf, old(State()))
        invariant Left(buf, str) <= Left(buf, old(str))
        decreases Left(buf, str)
      {
        var more :- MoreInDict();
        if !more { break; }
        var got, _, _ :- NextInDict(null);
        if !got { return Done(NULL); }
      }
      var c :- Deref(buf, str);
      if c == LOWER_D {
        var d :- Deref(buf, str + 1);
        if d == LOWER_E { return Done(str + 2); }
      }
      return Done(str + 1);
    }

    /** The list branch of __iterate_to_next_string_pos. */
    method SkipList() returns (r: Run<int>)
      requires Opening(buf, State())
      modifies this
      ensures r == match DrainList(buf, old(State()))
                   case Fault => Fault
                   case Done(None) => Done(NULL)
                   case Done(Some(end)) => Done(end.str + 1)
      decreases Left(buf, str), 2
    {
      while true
        invariant DrainList(buf, State()) == DrainList(buf, old(State()))
        invariant str == old(str) ==> State() == old(State())
        invariant str != old(str) ==> Left(buf, str) < Left(buf, old(str))
        decreases Left(buf, str)
      {
        var more :- MoreInList();
        if !more { break; }
        var got :- NextInList(null);
        if got == -1 { return Done(NULL); }
      }
      return Done(str + 1);
    }

    /** bencode_dict_get_start_and_len: the loop runs on a clone. */
    method StartAndLen() returns (r: Run<(int, int)>)
      ensures r == DictStartAndLen(buf, State())
    {
      var ben := new Bencode(buf, str, len);
      ben.start := start;
      var ben2 := new Bencode(buf, str, len);
      while true
        invariant ben.buf == ben2.buf == buf && ben != ben2
        invariant DrainDict(buf, ben.State()) == DrainDict(buf, State())
        decreases Left(buf, ben.str)
      {
        var more :- ben.MoreInDict();
        if !more { break; }
        var got, ren, tmplen :- ben.NextInDict(ben2);
        if !got { return Fault; }
      }
      return Done((str, ToInt(ben.str - str + 1)));
    }

    /** __validate */
    method RunValidate() returns (r: Run<int>)
      requires str == start
      modifies this
      ensures r == Validate(buf, old(str), old(len))
      decreases Left(buf, str), 3
    {
      var isDict :- Starts(buf, State(), LOWER_D);
      if isDict {
        while true
          invariant ValidateDict(buf, State()) == Validate(buf, old(str), old(len))
          invariant Left(buf, str) <= Left(buf, old(str))
          decreases Left(buf, str)
        {
          var more :- MoreInDict();
          if !more { return Done(0); }
          var benk := new Bencode(buf, str, len);
          var got, key, klen :- NextInDict(benk);
          if !got { return Done(-1); }
          var ret :- benk.RunValidate();
          if ret != 0 { return Done(ret); }
        }
      }
      var isList :- Starts(buf, State(), LOWER_L);
      if isList {
        while true
          invariant ValidateList(buf, State()) == Validate(buf, old(str), old(len))
          invariant str == old(str) ==> State() == old(State())
          invariant str != old(str) ==> Left(buf, str) < Left(buf, old(str))
          decreases Left(buf, str)
        {
          var more :- MoreInList();
          if !more { return Done(0); }
          var benl := new Bencode(buf, str, len);
          var got :- NextInList(benl);
          if got == -1 { return Done(-1); }
          var ret :- benl.RunValidate();
          if ret != 0 { return Done(ret); }
        }
      }
      var isString :- ReadIsString();
      if isString {
        var sv :- ReadStringValue();
        return Done(if sv.None? then -1 else 0);
      }
      var isInt :- Starts(buf, State(), LOWER_I);
      if isInt {
        var iv :- ReadIntValue();
        return Done(if iv.None? then -1 else 0);
      }
      return Done(-1);
    }
  }

  method ValidateBuffer(buf: Bytes, len: int) returns (r: Run<int>)
    ensures r == BencodeValidate(buf, len)
  {
    if !IsInt(len) { return Fault; }
    if len == 0 { return Done(0); }
    var ben := new Bencode(buf, 0, len);
    r := ben.RunValidate();
  }
}
