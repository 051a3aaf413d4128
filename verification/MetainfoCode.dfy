/** bt_lib.c: parse_metainfo and the loop of parse_metainfo_file, which fill the fields of
    metainfo_t while moving cursors. */
module MetainfoCode {
  import opened Bytes
  import opened CursorModel
  import opened CursorCode
  import opened Metainfo

  /** strncpy(dst, buf + p, n) up to the terminator. */
  method CopyText(buf: Bytes, p: int, n: nat) returns (r: Run<Bytes>)
    ensures r == CopyString(buf, p, n)
  {
    var text, i := [], 0;
    assert forall rest: Bytes :: [] + rest == rest;
    while i < n
      invariant 0 <= i <= n
      invariant CopyString(buf, p, n) ==
                match CopyString(buf, p + i, n - i) case Done(rest) => Done(text + rest) case Fault => Fault
    {
      var c :- Deref(buf, p + i);
      if c == NUL {
        assert text + [] == text;
        return Done(text);
      }
      assert forall rest: Bytes :: text + ([c] + rest) == (text + [c]) + rest;
      text, i := text + [c], i + 1;
    }
    assert text + [] == text;
    return Done(text);
  }

  class MetainfoFile {
    var announce: Option<Bytes>
    var hashed: Option<Bytes>
    var pieceLength: Option<int>
    var pieces: Option<Bytes>
    var name: Option<Bytes>
    var fileLength: Option<int>
    var numPieces: Option<int>
    var overrun: bool

    /** Freshly allocated, nothing is written yet. */
    constructor ()
      ensures State() == UNSET
    {
      announce, hashed, pieceLength, pieces, name, fileLength, numPieces, overrun :=
        None, None, None, None, None, None, None, false;
    }

    function State(): Meta
      reads this
    {
      Meta(announce, hashed, pieceLength, pieces, name, fileLength, numPieces, overrun)
    }

    method ReadText(value: Bencode) returns (r: Run<(Bytes, nat)>)
      ensures r == StringText(value.buf, value.State())
    {
      var sv :- value.ReadStringValue();
      if sv.None? { return Fault; }
      var text :- CopyText(value.buf, sv.value.0, sv.value.1);
      return Done((text, sv.value.1));
    }

    method ReadInt(value: Bencode) returns (r: Run<int>)
      ensures r == IntField(value.buf, value.State())
    {
      var iv :- value.ReadIntValue();
      return Done(if iv.None? then 0 else ToInt(iv.value));
    }

    /** parse_metainfo */
    method ParseMetainfo(value: Bencode, key: Bytes) returns (r: Run<()>)
      modifies this, value
      ensures r.Done? <==> ParseEntry(value.buf, old(State()), old(value.State()), key).Done?
      ensures r.Done? ==> State() == ParseEntry(value.buf, old(State()), old(value.State()), key).value
      decreases Left(value.buf, value.str), 3
    {
      if key == ANNOUNCE {
        var text :- ReadText(value);
        announce, overrun := Some(text.0), true;
      } else if key == INFO {
        var _ :- ParseInfoDict(value);
      } else if key == PIECE_LENGTH {
        var n :- ReadInt(value);
        pieceLength := Some(n);
      } else if key == PIECES {
        var text :- ReadText(value);
        pieces := Some(Padded(text));
      } else if key == NAME {
        var text :- ReadText(value);
        name := Some(Padded(text));
      } else if key == LENGTH {
        var n :- ReadInt(value);
        fileLength := Some(n);
      }
      return Done(());
    }

    /** The branch of parse_metainfo for "info". */
    method ParseInfoDict(value: Bencode) returns (r: Run<()>)
      modifies this, value
      ensures r.Done? <==> ParseInfoEntry(value.buf, old(State()), old(value.State())).Done?
      ensures r.Done? ==> State() == ParseInfoEntry(value.buf, old(State()), old(value.State())).value
      decreases Left(value.buf, value.str), 2
    {
      var span :- value.StartAndLen();
      var (start, len) := span;
      if start < 0 || len < 0 || start + len > |value.buf| { return Fault; }
      hashed := Some(value.buf[start..start + len]);
      var _ :- ParseEntries(value);
      if fileLength.None? || pieceLength.None? || pieceLength.value == 0 { return Fault; }
      var n := CeilDiv(fileLength.value, pieceLength.value);
      if !IsInt(n) { return Fault; }
      numPieces := Some(n);
      return Done(());
    }

    /** The loop over the entries of a dictionary that both parse_metainfo_file and the
        "info" branch of parse_metainfo run. */
    method ParseEntries(be: Bencode) returns (r: Run<()>)
      modifies this, be
      ensures r.Done? <==> ParseDict(be.buf, old(State()), old(be.State())).Done?
      ensures r.Done? ==> State() == ParseDict(be.buf, old(State()), old(be.State())).value
      decreases Left(be.buf, be.str), 1
    {
      while true
        invariant ParseDict(be.buf, State(), be.State()) == ParseDict(be.buf, old(State()), old(be.State()))
        invariant Left(be.buf, be.str) <= Left(be.buf, old(be.str))
        decreases Left(be.buf, be.str)
      {
        var more :- be.MoreInDict();
        if !more { return Done(()); }
        var tempvalue := new Bencode(be.buf, be.str, be.len);
        var got, tempkey, templen :- be.NextInDict(tempvalue);
        if !got { return Fault; }
        var keybuf :- CopyText(be.buf, tempkey, templen);
        var _ :- ParseMetainfo(tempvalue, keybuf);
      }
    }
  }

  method ParseMetainfoFile(file: Bytes) returns (r: Run<()>, metainfo: MetainfoFile)
    ensures r.Done? <==> ParseFile(file).Done?
    ensures r.Done? ==> metainfo.State() == ParseFile(file).value
  {
    metainfo := new MetainfoFile();
    if |file| >= INT_MAX { return Fault, metainfo; }
    var bendata := new Bencode(file + [NUL], 0, |file|);
    r := metainfo.ParseEntries(bendata);
  }
}
