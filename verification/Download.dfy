/** Piece arithmetic and the block request loop of bt_lib.c (section "peer messages" of BEP 3). */
module Download {
  import opened Bytes

  const BLOCK_SIZE := 16384
  const PIECE_HEADER_LEN := 13
  const REQUEST_MSG_LEN := 17

  // -------------------------------------------------------- piece arithmetic

  /** The sizes a parsed metainfo holds. */
  datatype Info = Info(fileLength: int, pieceLength: int, numPieces: int) {
    /** numPieces is the ceiling of fileLength / pieceLength. */
    predicate Valid() {
      0 <= fileLength && 0 < pieceLength && 0 <= numPieces &&
      (numPieces - 1) * pieceLength < fileLength <= numPieces * pieceLength
    }
  }

  /** piece_size */
  function PieceSize(piece: int, info: Info): int {
    if piece >= info.numPieces then -1
    else Min(info.fileLength - info.pieceLength * piece, info.pieceLength)
  }

  /** How many bytes of a piece `write` takes: a size of -1 is refused. */
  function Written(piece: int, info: Info): nat {
    if PieceSize(piece, info) < 0 then 0 else PieceSize(piece, info)
  }

  /** Where the first `n` pieces end. */
  function PiecesEnd(n: nat, info: Info): int {
    if n == 0 then 0 else PiecesEnd(n - 1, info) + PieceSize(n - 1, info)
  }

  /** Every piece has between 1 and pieceLength bytes and begins at a multiple of
      pieceLength; no product on the way exceeds the file length; together the pieces
      have exactly the file length. */
  lemma {:induction false} PieceSizes(n: nat, info: Info)
    requires info.Valid() && n <= info.numPieces
    ensures n < info.numPieces ==> 1 <= PieceSize(n, info) <= info.pieceLength
    ensures n < info.numPieces ==> 0 <= info.pieceLength * n == PiecesEnd(n, info) < info.fileLength
    ensures n == info.numPieces ==> PiecesEnd(n, info) == info.fileLength
  {
    if n == 0 {
      assert info.pieceLength * 0 == 0;
    } else {
      PieceSizes(n - 1, info);
      assert info.pieceLength * n == info.pieceLength * (n - 1) + info.pieceLength;
    }
    if n < info.numPieces {
      Multiples(n, info.numPieces - 1, info.pieceLength);
    }
  }

  /** A piece beyond the last has the size -1, and nothing of it is written. */
  lemma NoSuchPiece(piece: int, info: Info)
    requires piece >= info.numPieces
    ensures PieceSize(piece, info) == -1 && Written(piece, info) == 0
  {
  }

  lemma WrittenFits(piece: nat, info: Info)
    requires info.Valid()
    ensures Written(piece, info) <= info.pieceLength && Written(piece, info) <= info.fileLength
  {
    if piece < info.numPieces {
      PieceSizes(piece, info);
    }
  }

  /** The bytes of a piece of the file. */
  function PieceBytes(content: Bytes, piece: nat, info: Info): Bytes
    requires info.Valid() && |content| == info.fileLength && piece < info.numPieces
  {
    PieceSizes(piece, info);
    content[info.pieceLength * piece..info.pieceLength * piece + PieceSize(piece, info)]
  }

  function AllPieces(content: Bytes, n: nat, info: Info): Bytes
    requires info.Valid() && |content| == info.fileLength && n <= info.numPieces
  {
    if n == 0 then [] else AllPieces(content, n - 1, info) + PieceBytes(content, n - 1, info)
  }

  /** The pieces in order make up the file. */
  lemma {:induction false} PiecesMakeFile(content: Bytes, n: nat, info: Info)
    requires info.Valid() && |content| == info.fileLength && n <= info.numPieces
    ensures 0 <= PiecesEnd(n, info) <= |content|
    ensures AllPieces(content, n, info) == content[..PiecesEnd(n, info)]
    ensures n == info.numPieces ==> AllPieces(content, n, info) == content
  {
    PieceSizes(n, info);
    if n == 0 {
    } else {
      PiecesMakeFile(content, n - 1, info);
      PieceSizes(n - 1, info);
      assert PieceBytes(content, n - 1, info) == content[PiecesEnd(n - 1, info)..PiecesEnd(n, info)];
      TakeMore(content, PiecesEnd(n - 1, info), PiecesEnd(n, info));
    }
  }

  lemma TakeMore(s: Bytes, a: int, b: int)
    requires 0 <= a <= b <= |s|
    ensures s[..a] + s[a..b] == s[..b]
    ensures b == |s| ==> s[..b] == s
  {
  }

  // ---------------------------------------------------------------- messages

  /** htonl and the four bytes it leaves in memory. */
  function BigEndian(n: int): (b: Bytes)
    requires 0 <= n < 0x1_0000_0000
    ensures |b| == 4
  {
    [(n / 0x100_0000) as Byte, (n / 0x1_0000 % 0x100) as Byte, (n / 0x100 % 0x100) as Byte, (n % 0x100) as Byte]
  }

  function FromBigEndian(b: Bytes): int
    requires |b| == 4
  {
    b[0] as int * 0x100_0000 + b[1] as int * 0x1_0000 + b[2] as int * 0x100 + b[3] as int
  }

  lemma BigEndianRoundTrip(n: int)
    requires 0 <= n < 0x1_0000_0000
    ensures FromBigEndian(BigEndian(n)) == n
  {
    FourDigits(n);
  }

  /** The digits of n to base 256. */
  lemma FourDigits(n: nat)
    ensures n == n / 0x100_0000 * 0x100_0000 + n / 0x1_0000 % 0x100 * 0x1_0000 + n / 0x100 % 0x100 * 0x100 + n % 0x100
  {
    var a, b := n / 0x100, n / 0x1_0000;
    assert n == a * 0x100 + n % 0x100;
    assert b == a / 0x100 && a == b * 0x100 + a % 0x100;
    assert n / 0x100_0000 == b / 0x100 && b == b / 0x100 * 0x100 + b % 0x100;
  }

  datatype Request = Request(index: int, begin: int, length: int) {
    predicate Fits() {
      0 <= index < 0x8000_0000 && 0 <= begin < 0x8000_0000 && 0 <= length < 0x8000_0000
    }
  }

  /** The 17 bytes get_piece writes for a block. */
  function RequestMessage(r: Request): (m: Bytes)
    requires r.Fits()
    ensures |m| == REQUEST_MSG_LEN
  {
    BigEndian(13) + [6] + BigEndian(r.index) + BigEndian(r.begin) + BigEndian(r.length)
  }

  function Message(r: Request): Bytes { if r.Fits() then RequestMessage(r) else [] }

  /** How a peer reads a request. */
  function ParseRequest(m: Bytes): Option<Request> {
    if |m| != REQUEST_MSG_LEN || FromBigEndian(m[..4]) != 13 || m[4] != 6 then None
    else Some(Request(FromBigEndian(m[5..9]), FromBigEndian(m[9..13]), FromBigEndian(m[13..])))
  }

  lemma RequestRoundTrip(r: Request)
    requires r.Fits()
    ensures ParseRequest(RequestMessage(r)) == Some(r)
  {
    var m := RequestMessage(r);
    assert m[..4] == BigEndian(13) && m[5..9] == BigEndian(r.index);
    assert m[9..13] == BigEndian(r.begin) && m[13..] == BigEndian(r.length);
    BigEndianRoundTrip(13);
    BigEndianRoundTrip(r.index);
    BigEndianRoundTrip(r.begin);
    BigEndianRoundTrip(r.length);
  }

  /** The bytes of a request: length 13, type 6, and three numbers, all big-endian. */
  lemma RequestBytes(r: Request)
    requires r.Fits()
    ensures var m := RequestMessage(r);
            |m| == 17 && m[..5] == [0, 0, 0, 13, 6] &&
            r.index == m[5] as int * 0x100_0000 + m[6] as int * 0x1_0000 + m[7] as int * 0x100 + m[8] as int &&
            r.begin == m[9] as int * 0x100_0000 + m[10] as int * 0x1_0000 + m[11] as int * 0x100 + m[12] as int &&
            r.length == m[13] as int * 0x100_0000 + m[14] as int * 0x1_0000 + m[15] as int * 0x100 + m[16] as int
  {
    FourDigits(r.index);
    FourDigits(r.begin);
    FourDigits(r.length);
  }

  function PieceMessage(r: Request, block: Bytes): (m: Bytes)
    requires r.Fits() && |block| + 9 < 0x1_0000_0000
    ensures |m| == PIECE_HEADER_LEN + |block| && m[PIECE_HEADER_LEN..] == block
  {
    BigEndian(9 + |block|) + [7] + BigEndian(r.index) + BigEndian(r.begin) + block
  }

  /** Where a requested block begins in the file. */
  function BlockStart(info: Info, r: Request): int { info.pieceLength * r.index + r.begin }

  predicate InFile(content: Bytes, info: Info, r: Request) {
    r.Fits() && 0 <= BlockStart(info, r) && BlockStart(info, r) + r.length <= |content|
  }

  function Block(content: Bytes, info: Info, r: Request): Bytes
    requires InFile(content, info, r)
  {
    content[BlockStart(info, r)..BlockStart(info, r) + r.length]
  }

  /** A peer that has the whole file answers a request for a block of it with the block. */
  function HonestReply(content: Bytes, info: Info, m: Bytes): Bytes {
    match ParseRequest(m)
    case None => []
    case Some(r) =>
      if InFile(content, info, r) then PieceMessage(r, Block(content, info, r)) else []
  }

  // ---------------------------------------------------- the requested blocks

  /** The requests get_piece makes from `offset` on, `remaining` bytes being missing. */
  function Requests(piece: int, offset: nat, remaining: int): seq<Request>
    decreases remaining
  {
    if remaining <= 0 then []
    else
      var size := Min(remaining, BLOCK_SIZE);
      [Request(piece, offset, size)] + Requests(piece, offset + size, remaining - size)
  }

  lemma {:induction false} RequestsWithin(piece: int, offset: nat, remaining: nat)
    ensures forall r | r in Requests(piece, offset, remaining) ::
              r.index == piece && 1 <= r.length <= BLOCK_SIZE &&
              offset <= r.begin && r.begin + r.length <= offset + remaining
    decreases remaining
  {
    if remaining == 0 {
    } else {
      var size := Min(remaining, BLOCK_SIZE);
      RequestsWithin(piece, offset + size, remaining - size);
    }
  }

  lemma {:induction false} RequestsEnds(piece: int, offset: nat, remaining: nat)
    requires remaining > 0
    ensures var rs := Requests(piece, offset, remaining);
            rs != [] && rs[0].begin == offset &&
            rs[|rs| - 1].begin + rs[|rs| - 1].length == offset + remaining
    decreases remaining
  {
    var size := Min(remaining, BLOCK_SIZE);
    if remaining > size {
      RequestsEnds(piece, offset + size, remaining - size);
    }
  }

  lemma {:induction false} RequestsAdjoin(piece: int, offset: nat, remaining: nat, i: nat)
    requires i + 1 < |Requests(piece, offset, remaining)|
    ensures var rs := Requests(piece, offset, remaining);
            rs[i].begin + rs[i].length == rs[i + 1].begin
    decreases i
  {
    var size := Min(remaining, BLOCK_SIZE);
    if i == 0 {
      RequestsEnds(piece, offset + size, remaining - size);
    } else {
      RequestsAdjoin(piece, offset + size, remaining - size, i - 1);
    }
  }

  /** Request i begins 16384 * i bytes on and is for 16384 bytes, or for fewer only if it is
      the last. */
  lemma {:induction false} RequestIs(piece: int, offset: nat, remaining: nat, i: nat)
    requires i < |Requests(piece, offset, remaining)|
    ensures 16384 * i < remaining
    ensures var left := remaining - 16384 * i;
            Requests(piece, offset, remaining)[i] ==
            Request(piece, offset + 16384 * i, if left <= 16384 then left else 16384)
    ensures i + 1 == |Requests(piece, offset, remaining)| <==> remaining - 16384 * i <= 16384
    decreases i
  {
    if i == 0 {
    } else {
      RequestIs(piece, offset + 16384, remaining - 16384, i - 1);
    }
  }

  /** The requests are contiguous and disjoint, at most 16384 bytes long, and cover exactly
      the missing bytes. */
  lemma RequestsTile(piece: int, offset: nat, remaining: nat)
    ensures var rs := Requests(piece, offset, remaining);
            (rs == [] <==> remaining == 0) &&
            (rs != [] ==> rs[0].begin == offset &&
                          rs[|rs| - 1].begin + rs[|rs| - 1].length == offset + remaining) &&
            (forall r | r in rs :: r.index == piece && 1 <= r.length <= 16384 &&
                                   offset <= r.begin && r.begin + r.length <= offset + remaining) &&
            (forall i | 0 <= i < |rs| - 1 :: rs[i].begin + rs[i].length == rs[i + 1].begin)
  {
    var rs := Requests(piece, offset, remaining);
    RequestsWithin(piece, offset, remaining);
    if remaining > 0 {
      RequestsEnds(piece, offset, remaining);
    }
    forall i | 0 <= i < |rs| - 1 ensures rs[i].begin + rs[i].length == rs[i + 1].begin {
      RequestsAdjoin(piece, offset, remaining, i);
    }
  }

  /** What the loop makes of the bytes that arrive: of each answer, the part behind a
      header of 13 bytes, whatever that header says. */
  function Assembled(stream: Bytes, rs: seq<Request>): Bytes
    requires |stream| >= StreamLength(rs)
  {
    if rs == [] then []
    else
      var n := PIECE_HEADER_LEN + Length(rs[0]);
      stream[PIECE_HEADER_LEN..n] + Assembled(stream[n..], rs[1..])
  }

  function Length(r: Request): nat { if r.length < 0 then 0 else r.length }

  function StreamLength(rs: seq<Request>): nat {
    if rs == [] then 0 else PIECE_HEADER_LEN + Length(rs[0]) + StreamLength(rs[1..])
  }

  /** Everything the peer sends in answer to the requests. */
  function Replies(reply: Bytes -> Bytes, rs: seq<Request>): Bytes
  {
    if rs == [] then [] else reply(Message(rs[0])) + Replies(reply, rs[1..])
  }

  /** The peer answers each request with at least a header and a block. */
  predicate Answers(reply: Bytes -> Bytes, rs: seq<Request>) {
    rs == [] || (|reply(Message(rs[0]))| >= PIECE_HEADER_LEN + Length(rs[0]) && Answers(reply, rs[1..]))
  }

  // -------------------------------------------------------------- the socket

  lemma RequestsHead(reply: Bytes -> Bytes, piece: nat, offset: nat, remaining: int)
    requires remaining > 0 && Answers(reply, Requests(piece, offset, remaining))
    ensures var rs, size := Requests(piece, offset, remaining), Min(remaining, BLOCK_SIZE);
            rs != [] && rs[0] == Request(piece, offset, size) && Length(rs[0]) == size &&
            rs[1..] == Requests(piece, offset + size, remaining - size) && Answers(reply, rs[1..]) &&
            |reply(Message(rs[0]))| >= PIECE_HEADER_LEN + size
  {
  }

  /** What the loop comes to when `filled` is in place, `arriving` is still to be read and
      `rs` is still to be requested: the piece, the bytes left over, the messages written. */
  function Outcome(filled: Bytes, arriving: Bytes, sent: seq<Bytes>, rs: seq<Request>): (Bytes, Bytes, seq<Bytes>)
    requires |arriving| >= StreamLength(rs)
  {
    (filled + Assembled(arriving, rs), arriving[StreamLength(rs)..], sent + Messages(rs))
  }

  /** Enough bytes are on their way for what is missing of a piece. */
  predicate Suffices(reply: Bytes -> Bytes, incoming: Bytes, piece: nat, offset: nat, remaining: int) {
    var rs := Requests(piece, offset, remaining);
    Answers(reply, rs) && |incoming + Replies(reply, rs)| >= StreamLength(rs)
  }

  /** What the loop comes to from there on. */
  function Goal(reply: Bytes -> Bytes, filled: Bytes, incoming: Bytes, sent: seq<Bytes>,
                piece: nat, offset: nat, remaining: int): (Bytes, Bytes, seq<Bytes>)
    requires Suffices(reply, incoming, piece, offset, remaining)
  {
    var rs := Requests(piece, offset, remaining);
    Outcome(filled, incoming + Replies(reply, rs), sent, rs)
  }

  lemma BlockStep(filled: Bytes, arriving: Bytes, sent: seq<Bytes>, rs: seq<Request>)
    requires rs != [] && |arriving| >= StreamLength(rs)
    ensures var n := PIECE_HEADER_LEN + Length(rs[0]);
            |arriving[n..]| >= StreamLength(rs[1..]) &&
            Outcome(filled, arriving, sent, rs) ==
            Outcome(filled + arriving[PIECE_HEADER_LEN..n], arriving[n..], sent + [Message(rs[0])], rs[1..])
  {
    AssembledHead(filled, arriving, rs);
    LeftOverHead(arriving, rs);
    MessagesHead(sent, rs);
  }

  lemma AssembledHead(filled: Bytes, arriving: Bytes, rs: seq<Request>)
    requires rs != [] && |arriving| >= StreamLength(rs)
    ensures var n := PIECE_HEADER_LEN + Length(rs[0]);
            |arriving[n..]| >= StreamLength(rs[1..]) &&
            filled + Assembled(arriving, rs) ==
            (filled + arriving[PIECE_HEADER_LEN..n]) + Assembled(arriving[n..], rs[1..])
  {
    var n := PIECE_HEADER_LEN + Length(rs[0]);
    var block, rest := arriving[PIECE_HEADER_LEN..n], Assembled(arriving[n..], rs[1..]);
    assert filled + (block + rest) == (filled + block) + rest;
  }

  lemma LeftOverHead(arriving: Bytes, rs: seq<Request>)
    requires rs != [] && |arriving| >= StreamLength(rs)
    ensures var n := PIECE_HEADER_LEN + Length(rs[0]);
            arriving[n..][StreamLength(rs[1..])..] == arriving[StreamLength(rs)..]
  {
  }

  lemma MessagesHead(sent: seq<Bytes>, rs: seq<Request>)
    requires rs != []
    ensures sent + Messages(rs) == (sent + [Message(rs[0])]) + Messages(rs[1..])
  {
    assert sent + ([Message(rs[0])] + Messages(rs[1..])) == (sent + [Message(rs[0])]) + Messages(rs[1..]);
  }

  lemma OutcomeDone(filled: Bytes, arriving: Bytes, sent: seq<Bytes>)
    ensures Outcome(filled, arriving, sent, []) == (filled, arriving, sent)
  {
    assert filled + [] == filled && arriving[0..] == arriving && sent + [] == sent;
  }

  /** One round, as far as the bytes go: `stream` is what arrives up to the end of the answer
      to the first request. */
  lemma RoundStep(reply: Bytes -> Bytes, filled: Bytes, incoming: Bytes, sent: seq<Bytes>, rs: seq<Request>)
    requires rs != [] && Answers(reply, rs)
    requires |incoming + Replies(reply, rs)| >= StreamLength(rs)
    ensures var stream, n := incoming + reply(Message(rs[0])), PIECE_HEADER_LEN + Length(rs[0]);
            n <= |stream| && |stream[n..] + Replies(reply, rs[1..])| >= StreamLength(rs[1..]) &&
            Outcome(filled, incoming + Replies(reply, rs), sent, rs) ==
            Outcome(filled + stream[PIECE_HEADER_LEN..n], stream[n..] + Replies(reply, rs[1..]),
                    sent + [Message(rs[0])], rs[1..])
  {
    var answer, rest, n := reply(Message(rs[0])), Replies(reply, rs[1..]), PIECE_HEADER_LEN + Length(rs[0]);
    var stream := incoming + answer;
    assert incoming + (answer + rest) == stream + rest;
    assert (stream + rest)[n..] == stream[n..] + rest;
    assert (stream + rest)[PIECE_HEADER_LEN..n] == stream[PIECE_HEADER_LEN..n];
    BlockStep(filled, stream + rest, sent, rs);
  }

  lemma GoalStep(reply: Bytes -> Bytes, filled: Bytes, incoming: Bytes, sent: seq<Bytes>,
                 piece: nat, offset: nat, remaining: int)
    requires remaining > 0 && Suffices(reply, incoming, piece, offset, remaining)
    ensures var size, r := Min(remaining, BLOCK_SIZE), Requests(piece, offset, remaining)[0];
            var stream, n := incoming + reply(Message(r)), PIECE_HEADER_LEN + size;
            n <= |stream| && Suffices(reply, stream[n..], piece, offset + size, remaining - size) &&
            Goal(reply, filled + stream[PIECE_HEADER_LEN..n], stream[n..], sent + [Message(r)],
                 piece, offset + size, remaining - size) ==
            Goal(reply, filled, incoming, sent, piece, offset, remaining)
  {
    RequestsHead(reply, piece, offset, remaining);
    RoundStep(reply, filled, incoming, sent, Requests(piece, offset, remaining));
  }

  lemma GoalReached(reply: Bytes -> Bytes, filled: Bytes, incoming: Bytes, sent: seq<Bytes>,
                    piece: nat, offset: nat, remaining: int)
    requires remaining <= 0 && Suffices(reply, incoming, piece, offset, remaining)
    ensures Goal(reply, filled, incoming, sent, piece, offset, remaining) == (filled, incoming, sent)
  {
    assert incoming + [] == incoming;
    OutcomeDone(filled, incoming, sent);
  }

  /** memcpy into a buffer */
  method Copy(a: array<Byte>, at: nat, data: Bytes)
    requires at + |data| <= a.Length
    modifies a
    ensures a[..] == old(a[..at]) + data + old(a[at + |data|..])
  {
    for i := 0 to |data|
      invariant a[..] == old(a[..at]) + data[..i] + old(a[at + i..])
    {
      a[at + i] := data[i];
    }
  }

  function Messages(rs: seq<Request>): seq<Bytes> {
    if rs == [] then [] else [Message(rs[0])] + Messages(rs[1..])
  }

  lemma {:induction false} StreamSuffices(reply: Bytes -> Bytes, rs: seq<Request>)
    requires Answers(reply, rs)
    ensures |Replies(reply, rs)| >= StreamLength(rs)
  {
    if rs == [] {
    } else {
      StreamSuffices(reply, rs[1..]);
    }
  }

  /** A connection: what the client has written, and the bytes on their way to it. The
      peer answers each message with `reply`; the bytes arrive in order, but each read
      returns any non-empty part of what it asked for. */
  class Connection {
    const reply: Bytes -> Bytes
    var sent: seq<Bytes>
    var incoming: Bytes

    constructor (reply: Bytes -> Bytes, backlog: Bytes)
      ensures this.reply == reply && sent == [] && incoming == backlog
    {
      this.reply, sent, incoming := reply, [], backlog;
    }

    method Send(m: Bytes)
      modifies this
      ensures sent == old(sent) + [m] && incoming == old(incoming) + reply(m)
    {
      sent := sent + [m];
      incoming := incoming + reply(m);
    }

    /** tcp_recv: any positive number of bytes up to the number asked for. */
    method Recv(max: nat) returns (data: Bytes)
      requires 0 < max && incoming != []
      modifies this`incoming
      ensures 1 <= |data| <= max && data + incoming == old(incoming)
    {
      var n :| 1 <= n <= max && n <= |incoming|;
      data, incoming := incoming[..n], incoming[n..];
    }

    /** get_block */
    method GetBlock(size: nat) returns (blk: array<Byte>)
      requires size <= |incoming|
      modifies this`incoming
      ensures fresh(blk) && blk.Length == size + 128
      ensures blk[..size] == old(incoming)[..size] && incoming == old(incoming)[size..]
    {
      blk := new Byte[size + 128];
      var remaining, offset := size, 0;
      while remaining > 0
        invariant 0 <= remaining && offset + remaining == size
        invariant blk[..offset] + incoming == old(incoming)
      {
        ghost var filled := blk[..offset];
        var data := Recv(remaining);
        Copy(blk, offset, data);
        assert blk[..offset + |data|] == filled + data;
        remaining := remaining - |data|;
        offset := offset + |data|;
      }
    }

    /** One round of the loop of get_piece: request a block, read its answer, and copy what
        follows the header into place. */
    method FetchBlock(buf: array<Byte>, offset: nat, r: Request)
      requires r.Fits() && offset + r.length <= buf.Length
      requires |reply(Message(r))| >= PIECE_HEADER_LEN + r.length
      modifies this, buf
      ensures sent == old(sent) + [Message(r)]
      ensures var stream := old(incoming) + reply(Message(r));
              buf[..offset + r.length] ==
              old(buf[..offset]) + stream[PIECE_HEADER_LEN..PIECE_HEADER_LEN + r.length] &&
              incoming == stream[PIECE_HEADER_LEN + r.length..]
    {
      Send(Message(r));
      ghost var stream := incoming;
      var blk := GetBlock(r.length + PIECE_HEADER_LEN);
      var block := blk[PIECE_HEADER_LEN..PIECE_HEADER_LEN + r.length];
      assert block == blk[..PIECE_HEADER_LEN + r.length][PIECE_HEADER_LEN..];
      assert block == stream[..PIECE_HEADER_LEN + r.length][PIECE_HEADER_LEN..];
      Copy(buf, offset, block);
      assert buf[..offset + r.length] == buf[..][..offset + r.length];
    }

    /** The loop body of get_piece. What the loop comes to stays the same. */
    method FetchNext(buf: array<Byte>, piece: nat, offset: nat, remaining: nat) returns (size: nat)
      requires 0 < remaining && offset + remaining <= buf.Length && offset + remaining <= INT_MAX && piece <= INT_MAX
      requires Suffices(reply, incoming, piece, offset, remaining)
      modifies this, buf
      ensures size == Min(remaining, BLOCK_SIZE)
      ensures Suffices(reply, incoming, piece, offset + size, remaining - size)
      ensures Goal(reply, buf[..offset + size], incoming, sent, piece, offset + size, remaining - size) ==
              old(Goal(reply, buf[..offset], incoming, sent, piece, offset, remaining))
    {
      size := Min(remaining, BLOCK_SIZE);
      RequestsHead(reply, piece, offset, remaining);
      GoalStep(reply, buf[..offset], incoming, sent, piece, offset, remaining);
      FetchBlock(buf, offset, Request(piece, offset, size));
    }

    /** get_piece, for any peer and whatever is already on its way: the requests cover the
        piece, and the result is assembled from the bytes in their order of arrival. For a
        piece beyond the last nothing is sent and nothing read. */
    method GetPiece(piece: nat, info: Info) returns (buf: array<Byte>)
      requires info.Valid() && info.fileLength <= INT_MAX && piece <= INT_MAX
      requires Answers(reply, Requests(piece, 0, PieceSize(piece, info)))
      modifies this
      ensures var rs := Requests(piece, 0, PieceSize(piece, info));
              var stream := old(incoming) + Replies(reply, rs);
              buf.Length == info.pieceLength && Written(piece, info) <= buf.Length &&
              |stream| >= StreamLength(rs) &&
              (buf[..Written(piece, info)], incoming, sent) == Outcome([], stream, old(sent), rs)
    {
      WrittenFits(piece, info);
      buf := new Byte[info.pieceLength];
      var remaining, offset: nat := PieceSize(piece, info), 0;
      ghost var total := Written(piece, info);
      StreamSuffices(reply, Requests(piece, 0, remaining));
      ghost var goal := Goal(reply, [], incoming, sent, piece, 0, remaining);
      assert buf[..0] == [];
      while remaining > 0
        invariant offset <= total && (remaining == total - offset || (remaining < 0 && total == 0))
        invariant Suffices(reply, incoming, piece, offset, remaining)
        invariant goal == Goal(reply, buf[..offset], incoming, sent, piece, offset, remaining)
      {
        var size := FetchNext(buf, piece, offset, remaining);
        remaining := remaining - size;
        offset := offset + size;
      }
      GoalReached(reply, buf[..offset], incoming, sent, piece, offset, remaining);
    }
  }

  // ---------------------------------------------------------------- theorems

  /** A peer that has the file: it answers a request for a block of it with 13 bytes of
      header and the block. */
  ghost predicate IsHonest(reply: Bytes -> Bytes, content: Bytes, info: Info) {
    forall r | InFile(content, info, r) :: IsAnswer(reply(Message(r)), Block(content, info, r))
  }

  predicate IsAnswer(answer: Bytes, block: Bytes) {
    |answer| == PIECE_HEADER_LEN + |block| && answer[PIECE_HEADER_LEN..] == block
  }

  /** A peer that reads requests and writes pieces as section "peer messages" of BEP 3 says. */
  function Bep3Peer(content: Bytes, info: Info): Bytes -> Bytes {
    m => HonestReply(content, info, m)
  }

  lemma Bep3PeerIsHonest(content: Bytes, info: Info)
    ensures IsHonest(Bep3Peer(content, info), content, info)
  {
    forall r | InFile(content, info, r)
      ensures IsAnswer(Bep3Peer(content, info)(Message(r)), Block(content, info, r))
    {
      RequestRoundTrip(r);
    }
  }

  lemma AssembledStep(reply: Bytes -> Bytes, rs: seq<Request>, content: Bytes, from: nat, mid: nat, to: nat)
    requires from <= mid <= to <= |content|
    requires rs != [] && Length(rs[0]) == mid - from && IsAnswer(reply(Message(rs[0])), content[from..mid])
    requires |Replies(reply, rs[1..])| == StreamLength(rs[1..])
    requires Assembled(Replies(reply, rs[1..]), rs[1..]) == content[mid..to]
    ensures |Replies(reply, rs)| == StreamLength(rs)
    ensures Assembled(Replies(reply, rs), rs) == content[from..to]
  {
    var answer, rest := reply(Message(rs[0])), Replies(reply, rs[1..]);
    assert (answer + rest)[PIECE_HEADER_LEN..|answer|] == content[from..mid];
    assert (answer + rest)[|answer|..] == rest;
    assert content[from..mid] + content[mid..to] == content[from..to];
  }

  /** `from` is where the missing bytes of the piece begin in the file. */
  lemma {:induction false} HonestBlocks(reply: Bytes -> Bytes, content: Bytes, info: Info, rs: seq<Request>,
                                        piece: nat, offset: nat, remaining: nat, from: nat)
    requires IsHonest(reply, content, info) && piece <= INT_MAX && offset + remaining <= INT_MAX
    requires from == info.pieceLength * piece + offset && from + remaining <= |content|
    requires rs == Requests(piece, offset, remaining)
    ensures Answers(reply, rs) && |Replies(reply, rs)| == StreamLength(rs)
    ensures Assembled(Replies(reply, rs), rs) == content[from..from + remaining]
    decreases remaining
  {
    if remaining > 0 {
      var size := Min(remaining, BLOCK_SIZE);
      var r, mid, to := Request(piece, offset, size), from + size, from + remaining;
      assert rs[0] == r && rs[1..] == Requests(piece, offset + size, remaining - size);
      HonestBlocks(reply, content, info, rs[1..], piece, offset + size, remaining - size, mid);
      assert InFile(content, info, r) && Block(content, info, r) == content[from..mid];
      AssembledStep(reply, rs, content, from, mid, to);
    } else {
      assert content[from..from] == [];
    }
  }

  lemma HonestPiece(reply: Bytes -> Bytes, content: Bytes, info: Info, piece: nat)
    requires info.Valid() && |content| == info.fileLength <= INT_MAX
    requires piece < info.numPieces <= INT_MAX && IsHonest(reply, content, info)
    ensures var rs := Requests(piece, 0, PieceSize(piece, info));
            Answers(reply, rs) && |Replies(reply, rs)| == StreamLength(rs) &&
            Assembled(Replies(reply, rs), rs) == PieceBytes(content, piece, info)
  {
    PieceSizes(piece, info);
    HonestBlocks(reply, content, info, Requests(piece, 0, PieceSize(piece, info)),
                 piece, 0, PieceSize(piece, info), info.pieceLength * piece);
  }

  lemma NothingLeft(stream: Bytes, sent: seq<Bytes>, rs: seq<Request>)
    requires |stream| == StreamLength(rs)
    ensures [] + stream == stream
    ensures Outcome([], stream, sent, rs) == (Assembled(stream, rs), [], sent + Messages(rs))
  {
    assert [] + Assembled(stream, rs) == Assembled(stream, rs);
    assert stream[StreamLength(rs)..] == [];
  }

  /** One round of the download loop, on a connection to a peer that has the file and with
      nothing else on its way. */
  method SavePiece(peer: Connection, i: nat, ghost content: Bytes, info: Info) returns (data: Bytes)
    requires IsHonest(peer.reply, content, info) && peer.incoming == []
    requires info.Valid() && |content| == info.fileLength <= INT_MAX && info.numPieces <= INT_MAX && i <= INT_MAX
    modifies peer
    ensures peer.incoming == []
    ensures data == if i < info.numPieces then PieceBytes(content, i, info) else []
  {
    ghost var rs := Requests(i, 0, PieceSize(i, info));
    if i < info.numPieces {
      HonestPiece(peer.reply, content, info, i);
    }
    NothingLeft(Replies(peer.reply, rs), peer.sent, rs);
    var buf := peer.GetPiece(i, info);
    data := buf[..Written(i, info)];
  }

  /** get_piece called for every piece in turn yields the file, however the bytes of each
      answer are fragmented. */
  method DownloadFile(reply: Bytes -> Bytes, ghost content: Bytes, info: Info) returns (written: Bytes)
    requires IsHonest(reply, content, info)
    requires info.Valid() && |content| == info.fileLength <= INT_MAX && info.numPieces <= INT_MAX
    ensures written == content
  {
    var peer := new Connection(reply, []);
    written := [];
    for i := 0 to info.numPieces
      invariant peer.reply == reply && peer.incoming == []
      invariant written == AllPieces(content, i, info)
    {
      var data := SavePiece(peer, i, content, info);
      written := written + data;
    }
    PiecesMakeFile(content, info.numPieces, info);
  }

  /** The loop of bt_client.c as it stands: the bound num_pieces is commented out and is 1
      instead, so what is written is the file exactly when it has no second piece. */
  method DownloadAsWritten(reply: Bytes -> Bytes, ghost content: Bytes, info: Info) returns (written: Bytes)
    requires IsHonest(reply, content, info)
    requires info.Valid() && |content| == info.fileLength <= INT_MAX && info.numPieces <= INT_MAX
    ensures written == content <==> info.numPieces <= 1
    ensures written == AllPieces(content, Min(1, info.numPieces), info)
  {
    var peer := new Connection(reply, []);
    written := [];
    for i := 0 to 1
      invariant peer.reply == reply && peer.incoming == []
      invariant written == AllPieces(content, Min(i, info.numPieces), info)
    {
      var data := SavePiece(peer, i, content, info);
      written := written + data;
    }
    PiecesMakeFile(content, Min(1, info.numPieces), info);
    if info.numPieces > 1 {
      PieceSizes(1, info);
    }
  }

  // ------------------------------------------------------------- the backlog

  /** What get_piece makes of the bytes of a piece when `backlog` is unread before it. */
  ghost predicate ComesOutRight(backlog: Bytes, content: Bytes, piece: nat, info: Info)
    requires info.Valid() && |content| == info.fileLength && piece < info.numPieces
  {
    var rs := Requests(piece, 0, PieceSize(piece, info));
    var stream := backlog + Replies(Bep3Peer(content, info), rs);
    |stream| >= StreamLength(rs) && Assembled(stream, rs) == PieceBytes(content, piece, info)
  }

  /** Whatever the torrent and the piece: get_piece is right about every file if and only if
      no byte is unread when it begins. */
  lemma RightIffNoBacklog(backlog: Bytes, piece: nat, info: Info)
    requires info.Valid() && piece < info.numPieces && info.fileLength <= INT_MAX && info.numPieces <= INT_MAX
    ensures (forall content: Bytes | |content| == info.fileLength :: ComesOutRight(backlog, content, piece, info))
            <==> backlog == []
  {
    if backlog == [] {
      forall content: Bytes | |content| == info.fileLength ensures ComesOutRight(backlog, content, piece, info) {
        Bep3PeerIsHonest(content, info);
        HonestPiece(Bep3Peer(content, info), content, info, piece);
        var answers := Replies(Bep3Peer(content, info), Requests(piece, 0, PieceSize(piece, info)));
        assert [] + answers == answers;
      }
    } else {
      var content := MistakenFile(backlog, piece, info);
    }
  }

  /** The header in front of an answer; it does not depend on the file. */
  function Header(r: Request): (h: Bytes)
    requires r.Fits()
    ensures |h| == PIECE_HEADER_LEN
  {
    BigEndian(9 + r.length) + [7] + BigEndian(r.index) + BigEndian(r.begin)
  }

  /** The byte taken for the first one of the piece. */
  function TakenFirst(backlog: Bytes, r: Request): Byte
    requires r.Fits() && backlog != []
  {
    if |backlog| > PIECE_HEADER_LEN then backlog[PIECE_HEADER_LEN] else Header(r)[PIECE_HEADER_LEN - |backlog|]
  }

  lemma FirstByteTaken(backlog: Bytes, content: Bytes, info: Info, r: Request, rs: seq<Request>)
    requires backlog != [] && rs != [] && r == rs[0] && r.length > 0 && InFile(content, info, r)
    requires var stream := backlog + Replies(Bep3Peer(content, info), rs);
             |stream| >= StreamLength(rs)
    ensures var stream := backlog + Replies(Bep3Peer(content, info), rs);
            Assembled(stream, rs) != [] && Assembled(stream, rs)[0] == TakenFirst(backlog, r)
  {
    RequestRoundTrip(r);
    var answer := PieceMessage(r, Block(content, info, r));
    assert answer == Header(r) + Block(content, info, r);
    var later := Replies(Bep3Peer(content, info), rs[1..]);
    var stream := backlog + (answer + later);
    assert stream[PIECE_HEADER_LEN] == TakenFirst(backlog, r);
  }

  /** A file of one repeated byte, other than the one that is taken for it. */
  lemma MistakenFile(backlog: Bytes, piece: nat, info: Info) returns (content: Bytes)
    requires info.Valid() && piece < info.numPieces && info.fileLength <= INT_MAX && info.numPieces <= INT_MAX
    requires backlog != []
    ensures |content| == info.fileLength && !ComesOutRight(backlog, content, piece, info)
  {
    PieceSizes(piece, info);
    var size := PieceSize(piece, info);
    var rs := Requests(piece, 0, size);
    var r := Request(piece, 0, Min(size, BLOCK_SIZE));
    assert rs[0] == r;
    var b: Byte := if TakenFirst(backlog, r) == 0 then 1 else 0;
    content := seq(info.fileLength, _ => b);
    assert BlockStart(info, r) == info.pieceLength * piece;
    assert PieceBytes(content, piece, info)[0] == b;
    if ComesOutRight(backlog, content, piece, info) {
      FirstByteTaken(backlog, content, info, r, rs);
    }
  }

  /** With an unchoke still on its way, the one-byte file [255] comes out as [0]. */
  lemma BacklogIsMistaken()
    ensures var info, unchoke := Info(1, 1, 1), BigEndian(1) + [1];
            var reply := Bep3Peer([255], info);
            var rs := Requests(0, 0, PieceSize(0, info));
            |unchoke + Replies(reply, rs)| >= StreamLength(rs) &&
            Assembled(unchoke + Replies(reply, rs), rs) == [0] != PieceBytes([255], 0, info)
  {
    var info := Info(1, 1, 1);
    var r := Request(0, 0, 1);
    var reply := Bep3Peer([255], info);
    RequestRoundTrip(r);
    assert Requests(0, 1, 0) == [];
    assert Requests(0, 0, 1) == [r];
    assert Replies(reply, [r]) == PieceMessage(r, [255]) + [];
    var stream := BigEndian(1) + [1] + Replies(reply, [r]);
    assert stream[13] == PieceMessage(r, [255])[8];
    assert Assembled(stream, [r]) == stream[13..14] + Assembled(stream[14..], []);
  }
}
