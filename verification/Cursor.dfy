/** The heapless bencode reader (bencode/bencode.c) as functions on every byte buffer.
    Pointers are offsets into the buffer; reading outside it is a fault. */
module CursorModel {
  import opened Bytes

  const NULL := -1

  /** The fields of bencode_t that the reader uses. */
  datatype Cur = Cur(str: int, start: int, len: int)

  /** bencode_init */
  function Init(str: int, len: int): Cur { Cur(str, str, len) }

  /** `*p` */
  function Deref(buf: Bytes, p: int): Run<Byte> {
    if 0 <= p < |buf| then Done(buf[p]) else Fault
  }

  /** __carry_length, whose result is converted to an int. */
  function Carry(be: Cur, pos: int): Run<int> {
    if 0 < be.len then Done(ToInt(be.len - (pos - be.str))) else Fault
  }

  /** A digit loop: where it stops and what it has accumulated within `limit`. */
  function ReadDigits(buf: Bytes, sp: int, acc: int, limit: int): (r: Run<(int, int)>)
    ensures r.Done? ==> sp <= r.value.0 < |buf|
    ensures r.Done? && 0 <= acc ==> acc <= r.value.1 && (acc <= limit ==> r.value.1 <= limit)
    decreases |buf| - sp
  {
    var c :- Deref(buf, sp);
    if !IsDigit(c) then Done((sp, acc))
    else if acc * 10 + Digit(c) > limit then Fault
    else ReadDigits(buf, sp + 1, acc * 10 + Digit(c), limit)
  }

  /** __read_string_int: end and value, or None for the error return. */
  function ReadStringInt(buf: Bytes, sp: int): (r: Run<Option<(int, int)>>)
    ensures r.Done? && r.value.Some? ==> sp < r.value.value.0 < |buf|
    ensures r.Done? && r.value.Some? ==> -LONG_MAX <= r.value.value.1 <= LONG_MAX
  {
    var c :- Deref(buf, sp);
    var sign := if c == MINUS then -1 else 1;
    var first := if c == MINUS then sp + 1 else sp;
    var d :- Deref(buf, first);
    if !IsDigit(d) then Done(None)
    else
      var (end, val) :- ReadDigits(buf, first, 0, LONG_MAX);
      Done(Some((end, sign * val)))
  }

  /** __read_string_len: position after the colon and length; (NULL, 0) when no digit is found. */
  function ReadStringLen(buf: Bytes, sp: int): (r: Run<(int, int)>)
    ensures r.Done? && r.value.0 != NULL ==> 0 <= sp && sp + 1 < r.value.0 <= |buf|
    ensures r.Done? ==> 0 <= r.value.1 <= INT_MAX && (r.value.0 == NULL ==> r.value.1 == 0)
  {
    var c :- Deref(buf, sp);
    if !IsDigit(c) then Done((NULL, 0))
    else
      var (end, slen) :- ReadDigits(buf, sp, 0, INT_MAX);
      var d :- Deref(buf, end);
      var _ :- Assert(d == COLON);
      Done((end + 1, slen))
  }

  /** bencode_is_dict, bencode_is_int, bencode_is_list */
  function Starts(buf: Bytes, be: Cur, c: Byte): Run<bool> {
    if be.str == NULL then Done(false)
    else
      var b :- Deref(buf, be.str);
      Done(b == c)
  }

  function DigitsEnd(buf: Bytes, sp: int): (r: Run<int>)
    ensures r.Done? ==> sp <= r.value < |buf|
    decreases |buf| - sp
  {
    var c :- Deref(buf, sp);
    if IsDigit(c) then DigitsEnd(buf, sp + 1) else Done(sp)
  }

  function IsString(buf: Bytes, be: Cur): Run<bool> {
    var _ :- Assert(be.str != NULL);
    var c :- Deref(buf, be.str);
    if !IsDigit(c) then Done(false)
    else
      var end :- DigitsEnd(buf, be.str);
      var d :- Deref(buf, end);
      Done(d == COLON)
  }

  /** bencode_string_value: the string's position and length, or None for the error return. */
  function StringValue(buf: Bytes, be: Cur): (r: Run<Option<(int, int)>>)
    ensures r.Done? && r.value.Some? ==> be.str + 1 < r.value.value.0 && 0 <= r.value.value.1
  {
    var isString :- IsString(buf, be);
    var _ :- Assert(isString);
    var (sp, slen) :- ReadStringLen(buf, be.str);
    var _ :- Assert(sp != NULL && 0 < be.len);
    Done(if sp + slen > be.start + be.len then None else Some((sp, slen)))
  }

  /** bencode_int_value */
  function IntValue(buf: Bytes, be: Cur): Run<Option<int>> {
    var r :- ReadStringInt(buf, be.str + 1);
    match r
    case None => Done(None)
    case Some((end, val)) =>
      var e :- Deref(buf, end);
      var _ :- Assert(e == LOWER_E);
      Done(Some(val))
  }

  function DictHasNext(buf: Bytes, be: Cur): Run<bool> {
    if be.str == NULL then Done(false)
    else
      var c :- Deref(buf, be.str);
      if c == LOWER_E || c == NUL || c == CR then Done(false)
      else if c == LOWER_D then
        var d :- Deref(buf, be.str + 1);
        Done(d != LOWER_E && be.str < be.start + be.len - 1)
      else Done(be.str < be.start + be.len - 1)
  }

  /** What bencode_dict_get_next leaves behind: its answer, the moved cursor, the key's
      position and length, and the cursor over the value. Key and value mean nothing when
      the answer is 0. */
  datatype DictStep = DictStep(ret: bool, be: Cur, key: int, klen: int, item: Cur)

  ghost function Left(buf: Bytes, p: int): nat { if 0 <= p < |buf| then |buf| - p else 0 }

  /** The cursor is at the opening byte of its own list. */
  predicate Opening(buf: Bytes, be: Cur) {
    be.str == be.start && 0 <= be.str < |buf| && buf[be.str] == LOWER_L
  }

  /** The first part of bencode_dict_get_next: where the next key is and how long it is, or
      None at the closing byte of an empty dictionary. */
  function ReadKey(buf: Bytes, be: Cur): (r: Run<Option<(int, int)>>)
    ensures r.Done? ==> 0 <= be.str < |buf|
    ensures r.Done? && r.value.Some? && r.value.value.0 != NULL ==> be.str + 1 < r.value.value.0
    ensures r.Done? && r.value.Some? ==> 0 <= r.value.value.1 && (r.value.value.0 == NULL ==> r.value.value.1 == 0)
  {
    var c :- Deref(buf, be.str);
    var _ :- Assert(c != LOWER_E);
    var sp := if c == LOWER_D then be.str + 1 else be.str;
    var d :- Deref(buf, sp);
    if d == LOWER_E then Done(None)
    else
      var (keyin, len) :- ReadStringLen(buf, sp);
      Done(Some((keyin, len)))
  }

  function DictGetNext(buf: Bytes, be: Cur): (r: Run<DictStep>)
    ensures r.Done? && r.value.ret ==> 0 <= be.str < |buf| && be.str < r.value.item.str < r.value.be.str
    ensures r.Done? && r.value.ret ==> r.value.item.start == r.value.item.str
    ensures r.Done? && r.value.ret ==> 0 <= r.value.key && 0 <= r.value.klen
    ensures r.Done? && !r.value.ret ==> r.value.be.str == NULL || r.value.be == be
    ensures r.Done? ==> r.value.be.start == be.start && r.value.be.len == be.len
    decreases Left(buf, be.str), 1
  {
    var found :- ReadKey(buf, be);
    match found
    case None => Done(DictStep(false, be, NULL, 0, be))
    case Some((keyin, len)) =>
      var pos := keyin + len;
      var carried :- Carry(be, pos);
      var next :- NextStringPos(buf, be, pos);
      Done(DictStep(next != NULL, be.(str := next), keyin, len, Init(pos, carried)))
  }

  /** The second part of bencode_dict_get_next, once the key is read. */
  lemma DictGetNextFrom(buf: Bytes, be: Cur, key: int, klen: int)
    requires ReadKey(buf, be) == Done(Some((key, klen)))
    ensures DictGetNext(buf, be) ==
            match (Carry(be, key + klen), NextStringPos(buf, be, key + klen))
            case (Done(carried), Done(next)) =>
              Done(DictStep(next != NULL, be.(str := next), key, klen, Init(key + klen, carried)))
            case _ => Fault
  {
  }

  function ListHasNext(buf: Bytes, be: Cur): (r: Run<(bool, Cur)>)
    ensures r.Done? ==> 0 <= be.str < |buf|
    ensures r.Done? && r.value.0 ==> r.value.1 == be
  {
    var c :- Deref(buf, be.str);
    if c == LOWER_L && be.str == be.start then
      var d :- Deref(buf, be.str + 1);
      if d == LOWER_E then Done((false, be.(str := be.str + 1))) else Done((true, be))
    else Done((c != LOWER_E, be))
  }

  /** What bencode_list_get_next leaves behind; the item means nothing unless ret is 1. */
  datatype ListStep = ListStep(ret: int, be: Cur, item: Cur)

  function ListGetNext(buf: Bytes, be: Cur): (r: Run<ListStep>)
    ensures r.Done? && r.value.ret == 1 ==>
              0 <= be.str < |buf| && be.str <= r.value.item.str < r.value.be.str
    ensures r.Done? && r.value.ret == 1 ==> r.value.item.start == r.value.item.str
    ensures r.Done? && r.value.ret == 1 && Opening(buf, be) ==> be.str < r.value.item.str
    ensures r.Done? ==> r.value.ret == 1 || r.value.ret == 0 || (r.value.ret == -1 && r.value.be.str == NULL)
    ensures r.Done? && r.value.ret == 0 && ListHasNext(buf, be).Done? ==> !ListHasNext(buf, be).value.0
    ensures r.Done? ==> r.value.be.start == be.start && r.value.be.len == be.len
    decreases Left(buf, be.str), if Opening(buf, be) then 1 else 4
  {
    if be.str == NULL then Done(ListStep(0, be, be))
    else
      var c :- Deref(buf, be.str);
      if c == LOWER_E then Done(ListStep(0, be, be))
      else
        var sp := if c == LOWER_L && be.start == be.str then be.str + 1 else be.str;
        var d :- Deref(buf, sp);
        if d == LOWER_E then Done(ListStep(0, be.(str := sp), be))
        else
          var carried :- Carry(be, sp);
          var next :- NextStringPos(buf, be, sp);
          Done(ListStep(if next == NULL then -1 else 1, be.(str := next), Init(sp, carried)))
  }

  /** A loop that skips every item: the cursor it ends with, or None if an item is invalid. */
  function DrainDict(buf: Bytes, be: Cur): (r: Run<Option<Cur>>)
    ensures r.Done? && r.value.Some? ==> be.str <= r.value.value.str || be.str == NULL
    decreases Left(buf, be.str), 2
  {
    var more :- DictHasNext(buf, be);
    if !more then Done(Some(be))
    else
      var step :- DictGetNext(buf, be);
      if !step.ret then Done(None) else DrainDict(buf, step.be)
  }

  function DrainList(buf: Bytes, be: Cur): (r: Run<Option<Cur>>)
    ensures r.Done? && r.value.Some? ==> be.str <= r.value.value.str
    decreases Left(buf, be.str), if Opening(buf, be) then 2 else 5
  {
    var (more, be') :- ListHasNext(buf, be);
    if !more then Done(Some(be'))
    else
      var step :- ListGetNext(buf, be);
      if step.ret == -1 then Done(None) else DrainList(buf, step.be)
  }

  /** __iterate_to_next_string_pos: the position after the item at `sp`, or NULL. */
  function NextStringPos(buf: Bytes, be: Cur, sp: int): (r: Run<int>)
    ensures r.Done? && r.value != NULL ==> 0 <= sp < r.value
    decreases Left(buf, sp), 3
  {
    var carried :- Carry(be, sp);
    var iter := Init(sp, carried);
    var isDict :- Starts(buf, iter, LOWER_D);
    if isDict then
      var drained :- DrainDict(buf, iter);
      match drained
      case None => Done(NULL)
      case Some(end) =>
        var c :- Deref(buf, end.str);
        if c == LOWER_D then
          var d :- Deref(buf, end.str + 1);
          Done(if d == LOWER_E then end.str + 2 else end.str + 1)
        else Done(end.str + 1)
    else
      var isList :- Starts(buf, iter, LOWER_L);
      if isList then
        var drained :- DrainList(buf, iter);
        match drained
        case None => Done(NULL)
        case Some(end) => Done(end.str + 1)
      else
        var isString :- IsString(buf, iter);
        if isString then
          var sv :- StringValue(buf, iter);
          match sv
          case None => Done(NULL)
          case Some((str, len)) => Done(str + len)
        else
          var isInt :- Starts(buf, iter, LOWER_I);
          if isInt then
            var ri :- ReadStringInt(buf, sp + 1);
            match ri
            case None => Done(NULL)
            case Some((end, val)) =>
              var e :- Deref(buf, end);
              var _ :- Assert(e == LOWER_E);
              Done(end + 1)
          else Done(NULL)
  }

  /** bencode_dict_get_start_and_len works on a copy, so the caller's cursor is unmoved. */
  function DictStartAndLen(buf: Bytes, be: Cur): Run<(int, int)> {
    var drained :- DrainDict(buf, be);
    match drained
    case None => Fault   // the loop goes on with a null pointer, which is then subtracted from
    case Some(end) => Done((be.str, ToInt(end.str - be.str + 1)))
  }

  // -------------------------------------------------------------- validation

  /** __validate on a cursor that is still at its start: 0, or -1. */
  function Validate(buf: Bytes, str: int, len: int): Run<int>
    decreases Left(buf, str), 3
  {
    var ben := Init(str, len);
    var isDict :- Starts(buf, ben, LOWER_D);
    if isDict then ValidateDict(buf, ben)
    else
      var isList :- Starts(buf, ben, LOWER_L);
      if isList then ValidateList(buf, ben)
      else
        var isString :- IsString(buf, ben);
        if isString then
          var sv :- StringValue(buf, ben);
          Done(if sv.None? then -1 else 0)
        else
          var isInt :- Starts(buf, ben, LOWER_I);
          if isInt then
            var iv :- IntValue(buf, ben);
            Done(if iv.None? then -1 else 0)
          else Done(-1)
  }

  function ValidateDict(buf: Bytes, ben: Cur): Run<int>
    decreases Left(buf, ben.str), 2
  {
    var more :- DictHasNext(buf, ben);
    if !more then Done(0)
    else
      var step :- DictGetNext(buf, ben);
      if !step.ret then Done(-1)
      else
        var ret :- Validate(buf, step.item.str, step.item.len);
        if ret != 0 then Done(ret) else ValidateDict(buf, step.be)
  }

  function ValidateList(buf: Bytes, ben: Cur): Run<int>
    decreases Left(buf, ben.str), if Opening(buf, ben) then 2 else 5
  {
    var (more, ben') :- ListHasNext(buf, ben);
    if !more then Done(0)
    else
      var step :- ListGetNext(buf, ben);
      if step.ret == -1 then Done(-1)
      else
        var ret :- Validate(buf, step.item.str, step.item.len);
        if ret != 0 then Done(ret) else ValidateList(buf, step.be)
  }

  /** bencode_validate, whose length is an int */
  function BencodeValidate(buf: Bytes, len: int): Run<int> {
    var _ :- Assert(IsInt(len));
    if len == 0 then Done(0) else Validate(buf, 0, len)
  }
}
