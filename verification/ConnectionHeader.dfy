/** The TCPROS connection header: a length-prefixed block of length-prefixed `key=value` lines. */
module ConnectionHeader {
  import opened Wire
  import opened LittleEndian

  datatype Header = Header(key: seq<Byte>, value: seq<Byte>)

  const EQUALS: Byte := 61

  // ---------------------------------------------------------------- what is written

  function Line(h: Header): seq<Byte>
  {
    h.key + [EQUALS] + h.value
  }

  function Entry(h: Header): seq<Byte>
  {
    Word32(|Line(h)| % TWO_TO_32) + Line(h)
  }

  function Entries(hs: seq<Header>): seq<Byte>
  {
    if hs == [] then [] else Entry(hs[0]) + Entries(hs[1..])
  }

  /** Byte length of the block, before it is cut down to a uint32. */
  function Total(hs: seq<Header>): nat
  {
    if hs == [] then 0 else 4 + |Line(hs[0])| + Total(hs[1..])
  }

  function Encode(hs: seq<Header>): seq<Byte>
  {
    Word32(Total(hs) % TWO_TO_32) + Entries(hs)
  }

  // ---------------------------------------------------------------- what is read

  /** bytes.IndexByte */
  function IndexOf(line: seq<Byte>, b: Byte): (i: int)
    ensures -1 <= i < |line|
    ensures i >= 0 ==> line[i] == b
    ensures forall j | 0 <= j < (if i >= 0 then i else |line|) :: line[j] != b
  {
    if line == [] then -1
    else if line[0] == b then 0
    else
      var i := IndexOf(line[1..], b);
      if i < 0 then -1 else i + 1
  }

  function Split(line: seq<Byte>): Header
    requires IndexOf(line, EQUALS) >= 0
  {
    var sep := IndexOf(line, EQUALS);
    Header(line[..sep], line[sep + 1..])
  }

  function Min(a: nat, b: nat): nat
  {
    if a <= b then a else b
  }

  /** The uint32 progress counter after a line announced as `size` bytes. */
  function Advance(done: Word, size: Word): Word
  {
    (done + 4 + size) % TWO_TO_32
  }

  /** The line loop: `buf` is what is left of the block, `done` the progress so far. */
  function DecodeLines(buf: seq<Byte>, done: Word, headerSize: Word, acc: seq<Header>): Got<seq<Header>>
  {
    if done == headerSize then Ok(acc, buf)
    else if done > headerSize then Err(buf)
    else
      match TakeWord(buf)
      case Err(rest) => Err(rest)
      case Crash => Crash
      case Ok(size, rest) =>
        // Next returns a short line when the block runs out
        var line := rest[..Min(size, |rest|)];
        if IndexOf(line, EQUALS) < 0 then Crash
        else DecodeLines(rest[Min(size, |rest|)..], Advance(done, size), headerSize, acc + [Split(line)])
  }

  function Decode(bs: seq<Byte>): Got<seq<Header>>
  {
    match TakeWord(bs)
    case Err(rest) => Err(rest)
    case Crash => Crash
    case Ok(headerSize, rest) =>
      match Take(headerSize, rest)
      case Err(rest') => Err(rest')
      case Crash => Crash
      case Ok(block, rest') =>
        match DecodeLines(block, 0, headerSize, [])
        case Ok(hs, _) => Ok(hs, rest')
        case Err(_) => Err(rest')
        case Crash => Crash
  }

  // ---------------------------------------------------------------- the bijection

  predicate CleanKeys(hs: seq<Header>)
  {
    forall h <- hs :: EQUALS !in h.key
  }

  lemma {:induction false} EntriesLength(hs: seq<Header>)
    ensures |Entries(hs)| == Total(hs)
  {
    if hs != [] {
      EntriesLength(hs[1..]);
    }
  }

  lemma {:induction false} EntriesConcat(a: seq<Header>, b: seq<Header>)
    ensures Entries(a + b) == Entries(a) + Entries(b)
  {
    hide Entry;
    if a == [] {
      assert a + b == b;
    } else {
      EntriesConcat(a[1..], b);
      assert (a + b)[1..] == a[1..] + b;
      assert Entry(a[0]) + (Entries(a[1..]) + Entries(b)) == Entry(a[0]) + Entries(a[1..]) + Entries(b);
    }
  }

  lemma FirstMark(a: seq<Byte>, mark: Byte, b: seq<Byte>)
    requires mark !in a
    ensures IndexOf(a + [mark] + b, mark) == |a|
  {
    var s := a + [mark] + b;
    assert s[|a|] == mark;
    assert forall j | 0 <= j < |a| :: s[j] == a[j];
  }

  lemma SplitLine(h: Header)
    requires EQUALS !in h.key
    ensures IndexOf(Line(h), EQUALS) == |h.key| && Split(Line(h)) == h
  {
    FirstMark(h.key, EQUALS, h.value);
    assert Line(h) == h.key + [EQUALS] + h.value;
    assert Line(h)[..|h.key|] == h.key && Line(h)[|h.key| + 1..] == h.value;
  }

  lemma LineSplit(line: seq<Byte>)
    requires IndexOf(line, EQUALS) >= 0
    ensures Line(Split(line)) == line && EQUALS !in Split(line).key
  {
  }

  /** A line that runs past the block leaves the counter off the header size, even wrapped. */
  lemma Overrun(done: Word, left: nat, size: Word, headerSize: Word)
    requires done + 4 + left == headerSize
    ensures Advance(done, size) == headerSize ==> size <= left
    ensures size <= left ==> Advance(done, size) == done + 4 + size
  {
  }

  /** So a step of a successful run reads its line in full, and the counter does not wrap. */
  lemma LineStep(buf: seq<Byte>, done: Word, headerSize: Word, acc: seq<Header>)
    requires done + |buf| == headerSize && done < headerSize && DecodeLines(buf, done, headerSize, acc).Ok?
    ensures TakeWord(buf).Ok?
    ensures var size, rest := TakeWord(buf).val, TakeWord(buf).rest;
            && size <= |rest| && IndexOf(rest[..size], EQUALS) >= 0
            && DecodeLines(buf, done, headerSize, acc) ==
               DecodeLines(rest[size..], done + 4 + size, headerSize, acc + [Split(rest[..size])])
  {
    hide UnWord32, IndexOf, Split, Advance;
    var size, rest := TakeWord(buf).val, TakeWord(buf).rest;
    Overrun(done, |rest|, size, headerSize);
  }

  /** A success of the line loop has read every line in full, so the lines are the block. */
  lemma {:induction false} LinesAreTheBlock(buf: seq<Byte>, done: Word, headerSize: Word, acc: seq<Header>)
    returns (lines: seq<Header>)
    requires done + |buf| == headerSize && DecodeLines(buf, done, headerSize, acc).Ok?
    ensures DecodeLines(buf, done, headerSize, acc).val == acc + lines
    ensures Entries(lines) == buf && CleanKeys(lines)
    decreases |buf|
  {
    hide DecodeLines, UnWord32, IndexOf, Entry, Split;
    lines := [];
    if done == headerSize {
      LinesEnd(buf, done, acc);
    } else {
      LineStep(buf, done, headerSize, acc);
      var size, rest := TakeWord(buf).val, TakeWord(buf).rest;
      var h := Split(rest[..size]);
      var tail := LinesAreTheBlock(rest[size..], done + 4 + size, headerSize, acc + [h]);
      lines := [h] + tail;
      EntryOfLine(buf);
      assert acc + [h] + tail == acc + lines;
    }
  }

  lemma LinesEnd(buf: seq<Byte>, done: Word, acc: seq<Header>)
    ensures DecodeLines(buf, done, done, acc) == Ok(acc, buf)
  {
  }

  lemma EntryOfLine(buf: seq<Byte>)
    requires TakeWord(buf).Ok? && TakeWord(buf).val <= |TakeWord(buf).rest|
    requires IndexOf(TakeWord(buf).rest[..TakeWord(buf).val], EQUALS) >= 0
    ensures var size, rest := TakeWord(buf).val, TakeWord(buf).rest;
            buf == Entry(Split(rest[..size])) + rest[size..] && EQUALS !in Split(rest[..size]).key
  {
    hide Word32, UnWord32, IndexOf, Line;
    var size, rest := TakeWord(buf).val, TakeWord(buf).rest;
    LineSplit(rest[..size]);
    UnWord32RoundTrip(buf[..4]);
    assert buf == buf[..4] + (rest[..size] + rest[size..]);
  }

  /** Whatever the reader accepts, writing it back gives exactly the bytes it consumed. */
  lemma DecodeIsExact(bs: seq<Byte>)
    requires Decode(bs).Ok?
    ensures bs == Encode(Decode(bs).val) + Decode(bs).rest
    ensures CleanKeys(Decode(bs).val) && Total(Decode(bs).val) < TWO_TO_32
  {
    hide Word32, UnWord32, DecodeLines, Entries, Total;
    var headerSize, rest := TakeWord(bs).val, TakeWord(bs).rest;
    var hs := Decode(bs).val;
    var lines := LinesAreTheBlock(rest[..headerSize], 0, headerSize, []);
    assert hs == lines;
    EntriesLength(hs);
    UnWord32RoundTrip(bs[..4]);
    assert bs == bs[..4] + rest[..headerSize] + rest[headerSize..];
  }

  lemma ReadsEntry(h: Header, tail: seq<Byte>, done: Word, headerSize: Word, acc: seq<Header>)
    requires EQUALS !in h.key && done + 4 + |Line(h)| + |tail| == headerSize
    ensures DecodeLines(Entry(h) + tail, done, headerSize, acc) ==
            DecodeLines(tail, done + 4 + |Line(h)|, headerSize, acc + [h])
  {
    hide Word32, TakeWord, IndexOf, Line, Split, Advance;
    var line := Line(h);
    assert Entry(h) + tail == Word32(|line|) + (line + tail);
    TakeWordAppend(|line|, line + tail);
    TakeAppend(line, tail);
    SplitLine(h);
    Overrun(done, |line| + |tail|, |line|, headerSize);
  }

  lemma {:induction false} LinesRoundTrip(hs: seq<Header>, done: Word, headerSize: Word, acc: seq<Header>)
    requires CleanKeys(hs) && done + Total(hs) == headerSize
    ensures DecodeLines(Entries(hs), done, headerSize, acc) == Ok(acc + hs, [])
    decreases |hs|
  {
    hide DecodeLines, Entry, Line;
    if hs == [] {
      assert acc + hs == acc;
      LinesEnd([], done, acc);
    } else {
      EntriesLength(hs[1..]);
      ReadsEntry(hs[0], Entries(hs[1..]), done, headerSize, acc);
      LinesRoundTrip(hs[1..], done + 4 + |Line(hs[0])|, headerSize, acc + [hs[0]]);
      assert acc + [hs[0]] + hs[1..] == acc + hs;
    }
  }

  /** A written header reads back, in front of anything, exactly when no key holds an '=' and the
      block's length fits in 32 bits. */
  lemma RoundTripIff(hs: seq<Header>, rest: seq<Byte>)
    ensures Decode(Encode(hs) + rest) == Ok(hs, rest) <==> CleanKeys(hs) && Total(hs) < TWO_TO_32
  {
    hide Word32, TakeWord, DecodeLines, Entries, Total;
    EntriesLength(hs);
    if CleanKeys(hs) && Total(hs) < TWO_TO_32 {
      LinesRoundTrip(hs, 0, Total(hs), []);
      assert [] + hs == hs;
      assert Encode(hs) + rest == Word32(Total(hs)) + (Entries(hs) + rest);
      TakeWordAppend(Total(hs), Entries(hs) + rest);
      TakeAppend(Entries(hs), rest);
    }
    if Decode(Encode(hs) + rest) == Ok(hs, rest) {
      DecodeIsExact(Encode(hs) + rest);
    }
  }

  // ---------------------------------------------------------------- the loops

  lemma EntriesNext(hs: seq<Header>, i: nat)
    requires i < |hs|
    ensures Entries(hs[..i + 1]) == Entries(hs[..i]) + Entry(hs[i])
  {
    hide Entry;
    EntriesConcat(hs[..i], [hs[i]]);
    assert hs[..i] + [hs[i]] == hs[..i + 1];
    assert Entries([hs[i]]) == Entry(hs[i]) + Entries([]);
  }

  lemma TotalNext(hs: seq<Header>, i: nat)
    requires i < |hs|
    ensures Total(hs[i..]) == 4 + |Line(hs[i])| + Total(hs[i + 1..])
  {
  }

  method WriteConnectionHeader(headers: seq<Header>, w: Buffer)
    modifies w
    ensures w.data == old(w.data) + Encode(headers)
  {
    hide Word32, Entries, Total;
    var headerSize: nat := 0;
    var sizeList: seq<nat> := [];
    var i := 0;
    assert headers[0..] == headers;
    while i < |headers|
      invariant i <= |headers| && |sizeList| == i
      invariant forall j | 0 <= j < i :: sizeList[j] == |Line(headers[j])|
      invariant headerSize + Total(headers[i..]) == Total(headers)
      invariant w.data == old(w.data)
    {
      var size := |headers[i].key| + |headers[i].value| + 1;
      TotalNext(headers, i);
      sizeList := sizeList + [size];
      headerSize := headerSize + size + 4;
      i := i + 1;
    }
    assert headers[i..] == [] == headers[..0];
    EmptyHeader();
    w.Write(Word32(headerSize % TWO_TO_32));
    assert w.data == w.data + Entries(headers[..0]);
    i := 0;
    while i < |headers|
      invariant i <= |headers|
      invariant w.data == old(w.data) + Word32(headerSize % TWO_TO_32) + Entries(headers[..i])
    {
      w.Write(Word32(sizeList[i] % TWO_TO_32));
      w.Write(headers[i].key);
      w.Write([EQUALS]);
      w.Write(headers[i].value);
      EntriesNext(headers, i);
      i := i + 1;
    }
    assert headers[..i] == headers;
    assert old(w.data) + Word32(headerSize % TWO_TO_32) + Entries(headers) == old(w.data) + Encode(headers);
  }

  lemma EmptyHeader()
    ensures Total([]) == 0 && Entries([]) == []
  {
  }

  method ReadConnectionHeader(r: Reader) returns (result: Got<seq<Header>>)
    requires r.Valid()
    modifies r
    ensures r.Valid() && result == Decode(old(r.Rest())) && (!result.Crash? ==> r.Rest() == result.rest)
  {
    hide Word32, UnWord32, IndexOf, Advance;
    var word := r.ReadWord();
    if word.Err? {
      return Err(word.rest);
    }
    var headerSize := word.val;
    var block := r.ReadFull(headerSize);
    if block.Err? {
      return Err(block.rest);
    }
    var buf := new Reader(block.val);
    var done: Word := 0;
    var headers: seq<Header> := [];
    while done != headerSize
      invariant r.Valid() && r.Rest() == block.rest && buf.Valid() && fresh(buf)
      invariant DecodeLines(block.val, 0, headerSize, []) == DecodeLines(buf.Rest(), done, headerSize, headers)
      decreases |buf.Rest()|
    {
      if done > headerSize {
        return Err(r.Rest());
      }
      var size := buf.ReadWord();
      if size.Err? {
        return Err(r.Rest());
      }
      var line := buf.Next(size.val);
      var sep := IndexOf(line, EQUALS);
      if sep < 0 {
        return Crash;
      }
      headers := headers + [Header(line[..sep], line[sep + 1..])];
      done := Advance(done, size.val);
    }
    result := Ok(headers, r.Rest());
  }

  // ---------------------------------------------------------------- the bytes, written out

  /** Each line is its length in four bytes, the key, an '=' and the value. */
  function Block(hs: seq<Header>): seq<Byte>
  {
    if hs == [] then []
    else
      var h := hs[|hs| - 1];
      Block(hs[..|hs| - 1]) + Four(|h.key| + 1 + |h.value|) + h.key + [61] + h.value
  }

  /** A header is the length of its lines in four bytes, least significant first, and the lines in order. */
  lemma EncodeBytes(hs: seq<Header>)
    ensures Encode(hs) == Four(|Block(hs)|) + Block(hs)
  {
    hide Word32, Four, Entries, Total, Block;
    EntriesAreBlock(hs);
    EntriesLength(hs);
    WordBytes(|Block(hs)|);
  }

  lemma {:induction false} EntriesAreBlock(hs: seq<Header>)
    ensures Entries(hs) == Block(hs)
  {
    hide Entries, Four, Word32;
    if hs == [] {
      NoEntries();
    } else {
      var init, h := hs[..|hs| - 1], hs[|hs| - 1];
      assert hs == init + [h];
      EntriesAreBlock(init);
      EntriesConcat(init, [h]);
      OneEntry(h);
      WordBytes(|Line(h)|);
      assert Block(init) + (Four(|Line(h)|) + (h.key + [61] + h.value)) == Block(hs);
    }
  }

  lemma NoEntries()
    ensures Entries([]) == []
  {
  }

  lemma OneEntry(h: Header)
    ensures Entries([h]) == Word32(|Line(h)| % TWO_TO_32) + (h.key + [61] + h.value)
  {
    hide Word32;
    assert Entries([h]) == Entry(h) + Entries([]);
  }

  /** For instance `a=b`. */
  lemma EncodeExample()
    ensures Encode([Header([97], [98])]) == [7, 0, 0, 0, 3, 0, 0, 0, 97, 61, 98]
  {
    hide Encode, Four;
    var h := Header([97], [98]);
    EncodeBytes([h]);
    assert [h][..0] == [];
    assert Block([h]) == Block([]) + Four(3) + [97] + [61] + [98];
    SmallFours();
  }

  lemma SmallFours()
    ensures Four(3) == [3, 0, 0, 0] && Four(7) == [7, 0, 0, 0]
  {
  }
}
