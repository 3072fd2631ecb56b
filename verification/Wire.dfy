/** The byte stream to and from the store: message framing and NUL-terminated string lists. */
module Wire {
  import opened Arithmetic
  import opened Bytes
  import opened Results

  const HEADER_SIZE: nat := 16
  const MAX_PAYLOAD: nat := 4096
  const U32: nat := 0x1_0000_0000

  datatype XsdMessageHeader = XsdMessageHeader(typ: nat, req: nat, tx: nat, len: nat)

  datatype XsdMessage = XsdMessage(header: XsdMessageHeader, payload: seq<Byte>)

  predicate FitsHeader(h: XsdMessageHeader) {
    h.typ < U32 && h.req < U32 && h.tx < U32 && h.len < U32
  }

  /** A message whose length field is its payload's length, within what a reader accepts. */
  predicate Sendable(m: XsdMessage) {
    FitsHeader(m.header) && m.header.len == |m.payload| <= MAX_PAYLOAD
  }

  function EncodedHeader(h: XsdMessageHeader): (bytes: seq<Byte>)
    ensures |bytes| == HEADER_SIZE
  {
    LeBytes(h.typ, 4) + LeBytes(h.req, 4) + LeBytes(h.tx, 4) + LeBytes(h.len, 4)
  }

  function DecodedHeader(bytes: seq<Byte>): XsdMessageHeader
    requires |bytes| >= HEADER_SIZE
  {
    XsdMessageHeader(LeValue(bytes[0..4]), LeValue(bytes[4..8]), LeValue(bytes[8..12]), LeValue(bytes[12..16]))
  }

  function Encoded(m: XsdMessage): (bytes: seq<Byte>)
    ensures |bytes| == HEADER_SIZE + |m.payload|
  {
    EncodedHeader(m.header) + m.payload
  }

  function EncodedAll(ms: seq<XsdMessage>): seq<Byte> {
    if |ms| == 0 then [] else Encoded(ms[0]) + EncodedAll(ms[1..])
  }

  /** `encode_to`: append the four fields to a buffer. */
  method EncodeTo(h: XsdMessageHeader, buffer: seq<Byte>) returns (r: seq<Byte>)
    ensures r == buffer + EncodedHeader(h)
    // type, request, transaction, length, each with its least significant byte first
    ensures forall i :: 0 <= i < 4 ==>
              && r[|buffer| + i] == ByteNo(h.typ, i) && r[|buffer| + 4 + i] == ByteNo(h.req, i)
              && r[|buffer| + 8 + i] == ByteNo(h.tx, i) && r[|buffer| + 12 + i] == ByteNo(h.len, i)
  {
    hide LeBytes, ByteNo;
    FourBytes(h.typ);
    FourBytes(h.req);
    FourBytes(h.tx);
    FourBytes(h.len);
    r := buffer + LeBytes(h.typ, 4);
    r := r + LeBytes(h.req, 4);
    r := r + LeBytes(h.tx, 4);
    r := r + LeBytes(h.len, 4);
  }

  /** Field by field; fewer than 16 bytes are an error. */
  method Decode(bytes: seq<Byte>) returns (r: Result<XsdMessageHeader>)
    ensures r == if |bytes| < HEADER_SIZE then Err(UnexpectedEof) else Ok(DecodedHeader(bytes))
    ensures if |bytes| < 16 then r == Err(UnexpectedEof)
            else r == Ok(XsdMessageHeader(Number(bytes, 0), Number(bytes, 4), Number(bytes, 8), Number(bytes, 12)))
  {
    var fields: seq<nat> := [];
    var cursor := 0;
    while cursor < HEADER_SIZE
      invariant cursor == 4 * |fields| && |fields| <= 4 && cursor <= |bytes|
      invariant forall i :: 0 <= i < |fields| ==> fields[i] == LeValue(bytes[4 * i..4 * i + 4])
    {
      if |bytes| < cursor + 4 {
        return Err(UnexpectedEof);
      }
      fields := fields + [LeValue(bytes[cursor..cursor + 4])];
      cursor := cursor + 4;
    }
    NumberIsValue(bytes, 0);
    NumberIsValue(bytes, 4);
    NumberIsValue(bytes, 8);
    NumberIsValue(bytes, 12);
    return Ok(XsdMessageHeader(fields[0], fields[1], fields[2], fields[3]));
  }

  /** Byte i of a 32-bit number, counted from the least significant one. */
  function ByteNo(v: nat, i: nat): nat
    requires i < 4
  {
    v / (if i == 0 then 1 else if i == 1 then 0x100 else if i == 2 then 0x1_0000 else 0x100_0000) % 256
  }

  lemma FourBytes(v: nat)
    ensures LeBytes(v, 4) == [ByteNo(v, 0), ByteNo(v, 1), ByteNo(v, 2), ByteNo(v, 3)]
  {
    DivDiv(v, 0x100, 0x100);
    DivDiv(v, 0x1_0000, 0x100);
    assert LeBytes(v, 4) == [v % 256] + LeBytes(v / 256, 3);
    assert LeBytes(v / 256, 3) == [v / 256 % 256] + LeBytes(v / 256 / 256, 2);
    assert LeBytes(v / 256 / 256, 2) == [v / 256 / 256 % 256] + LeBytes(v / 256 / 256 / 256, 1);
  }

  /** The number with these four bytes. */
  function Number(bytes: seq<Byte>, at: nat): nat
    requires at + 4 <= |bytes|
  {
    var b0: nat, b1: nat, b2: nat, b3: nat := bytes[at], bytes[at + 1], bytes[at + 2], bytes[at + 3];
    b0 + 0x100 * b1 + 0x1_0000 * b2 + 0x100_0000 * b3
  }

  lemma NumberIsValue(bytes: seq<Byte>, at: nat)
    requires at + 4 <= |bytes|
    ensures LeValue(bytes[at..at + 4]) == Number(bytes, at)
  {
    var b := bytes[at..at + 4];
    assert b[1..][1..] == b[2..] && b[2..][1..] == b[3..] && b[3..][1..] == [];
    assert LeValue(b[3..]) == b[3];
    assert LeValue(b[2..]) == b[2] + 256 * LeValue(b[3..]);
    assert LeValue(b[1..]) == b[1] + 256 * LeValue(b[2..]);
  }

  // ----- reading a stream -----

  /** Why reading stops: the stream ends inside a message, or a header announces too long a payload. */
  datatype Stop = NeedsMore | TooLong

  /** The messages a reader finds in a stream before it stops. */
  function Parsed(bytes: seq<Byte>): (seq<XsdMessage>, Stop)
    decreases |bytes|
  {
    if |bytes| < HEADER_SIZE then ([], NeedsMore)
    else
      var h := DecodedHeader(bytes);
      if h.len > MAX_PAYLOAD then ([], TooLong)
      else if |bytes| < HEADER_SIZE + h.len then ([], NeedsMore)
      else
        var (rest, stop) := Parsed(bytes[HEADER_SIZE + h.len..]);
        ([XsdMessage(h, bytes[HEADER_SIZE..HEADER_SIZE + h.len])] + rest, stop)
  }

  lemma HeaderRoundTrip(h: XsdMessageHeader, tail: seq<Byte>)
    requires FitsHeader(h)
    ensures DecodedHeader(EncodedHeader(h) + tail) == h
  {
    Pow256Four();
    hide LeBytes, LeValue, Pow256;
    LeValueOfBytes(h.typ, 4);
    LeValueOfBytes(h.req, 4);
    LeValueOfBytes(h.tx, 4);
    LeValueOfBytes(h.len, 4);
    var bytes := EncodedHeader(h) + tail;
    assert bytes[0..4] == LeBytes(h.typ, 4) && bytes[4..8] == LeBytes(h.req, 4);
    assert bytes[8..12] == LeBytes(h.tx, 4) && bytes[12..16] == LeBytes(h.len, 4);
  }

  lemma ParsedFirst(m: XsdMessage, tail: seq<Byte>)
    requires Sendable(m)
    ensures Parsed(Encoded(m) + tail) == ([m] + Parsed(tail).0, Parsed(tail).1)
  {
    var bytes := Encoded(m) + tail;
    assert bytes == EncodedHeader(m.header) + (m.payload + tail);
    HeaderRoundTrip(m.header, m.payload + tail);
    hide EncodedHeader, DecodedHeader;
    assert bytes[HEADER_SIZE..HEADER_SIZE + m.header.len] == m.payload;
    assert bytes[HEADER_SIZE + m.header.len..] == tail;
  }

  /** Reading back a stream of messages yields exactly those messages, whatever follows them. */
  lemma {:induction false} StreamRoundTrip(ms: seq<XsdMessage>, tail: seq<Byte>)
    requires forall i :: 0 <= i < |ms| ==> Sendable(ms[i])
    ensures Parsed(EncodedAll(ms) + tail) == (ms + Parsed(tail).0, Parsed(tail).1)
  {
    hide Parsed, Encoded, Sendable;
    if |ms| == 0 {
      assert EncodedAll(ms) + tail == tail && ms + Parsed(tail).0 == Parsed(tail).0;
    } else {
      StreamRoundTrip(ms[1..], tail);
      ParsedFirst(ms[0], EncodedAll(ms[1..]) + tail);
      assert EncodedAll(ms) + tail == Encoded(ms[0]) + (EncodedAll(ms[1..]) + tail);
      assert ms + Parsed(tail).0 == [ms[0]] + (ms[1..] + Parsed(tail).0);
    }
  }

  /** A message cut short is not delivered: nothing more is read from a proper prefix of one. */
  lemma PartialMessage(m: XsdMessage, n: nat)
    requires Sendable(m) && n < |Encoded(m)|
    ensures Parsed(Encoded(m)[..n]) == ([], NeedsMore)
  {
    if n >= HEADER_SIZE {
      assert Encoded(m)[..n] == EncodedHeader(m.header) + m.payload[..n - HEADER_SIZE];
      HeaderRoundTrip(m.header, m.payload[..n - HEADER_SIZE]);
      hide EncodedHeader, DecodedHeader;
    }
  }

  /** Nothing is invented: the messages read are a prefix of the stream, and each could have been sent. */
  lemma {:induction false} ParsedIsPrefix(bytes: seq<Byte>)
    ensures var ms := Parsed(bytes).0;
            && (forall i :: 0 <= i < |ms| ==> Sendable(ms[i]))
            && EncodedAll(ms) <= bytes
    decreases |bytes|
  {
    if |bytes| >= HEADER_SIZE {
      var h := DecodedHeader(bytes);
      if h.len <= MAX_PAYLOAD && HEADER_SIZE + h.len <= |bytes| {
        var m := XsdMessage(h, bytes[HEADER_SIZE..HEADER_SIZE + h.len]);
        var rest := bytes[HEADER_SIZE + h.len..];
        DecodedReencodes(bytes);
        ParsedIsPrefix(rest);
        var ms := Parsed(rest).0;
        assert ([m] + ms)[1..] == ms;
        assert Encoded(m) == bytes[..HEADER_SIZE + h.len];
        assert EncodedAll([m] + ms) == Encoded(m) + EncodedAll(ms);
      }
    }
  }

  lemma DecodedReencodes(bytes: seq<Byte>)
    requires |bytes| >= HEADER_SIZE
    ensures FitsHeader(DecodedHeader(bytes)) && EncodedHeader(DecodedHeader(bytes)) == bytes[..HEADER_SIZE]
  {
    Pow256Four();
    hide LeBytes, LeValue, Pow256;
    LeBytesOfValue(bytes[0..4]);
    LeBytesOfValue(bytes[4..8]);
    LeBytesOfValue(bytes[8..12]);
    LeBytesOfValue(bytes[12..16]);
    assert bytes[..16] == bytes[0..4] + bytes[4..8] + bytes[8..12] + bytes[12..16];
  }

  function HeaderAt(bytes: seq<Byte>): XsdMessageHeader
    requires |bytes| >= 16
  {
    XsdMessageHeader(Number(bytes, 0), Number(bytes, 4), Number(bytes, 8), Number(bytes, 12))
  }

  /** The receiving end of the connection: what has arrived and not been read. */
  class Connection {
    var unread: seq<Byte>

    constructor (bytes: seq<Byte>)
      ensures unread == bytes
    {
      unread := bytes;
    }

    method ReadExact(n: nat) returns (r: Result<seq<Byte>>)
      modifies this
      ensures |old(unread)| >= n ==> r == Ok(old(unread)[..n]) && unread == old(unread)[n..]
      ensures |old(unread)| < n ==> r == Err(UnexpectedEof)
    {
      if |unread| < n {
        return Err(UnexpectedEof);
      }
      r := Ok(unread[..n]);
      unread := unread[n..];
    }

    method ReadMessage() returns (r: Result<XsdMessage>)
      modifies this
      ensures match r
              case Ok(m) => Parsed(old(unread)) == ([m] + Parsed(unread).0, Parsed(unread).1)
                            && |unread| < |old(unread)|
              case Err(e) => && Parsed(old(unread)).0 == []
                             && (Parsed(old(unread)).1 == TooLong <==> e == InvalidBusData)
      // the header, as many payload bytes as it says, and what follows; more than 4096 are refused
      ensures var bytes := old(unread);
              match r
              case Ok(m) =>
                && |bytes| >= 16 && m.header == HeaderAt(bytes) && |m.payload| == Number(bytes, 12) <= 4096
                && bytes == bytes[..16] + m.payload + unread
              case Err(e) =>
                && (|bytes| < 16 || Number(bytes, 12) > 4096 || |bytes| < 16 + Number(bytes, 12))
                && e == if |bytes| >= 16 && Number(bytes, 12) > 4096 then InvalidBusData else UnexpectedEof
    {
      hide Parsed, DecodedHeader, Number, LeValue;
      ParsedOnce(unread);
      var headerBuffer :- ReadExact(HEADER_SIZE);
      var decoded := Decode(headerBuffer);
      assert decoded.Ok?;  // a full header always decodes
      var header := decoded.value;
      SameHeader(old(unread), headerBuffer);
      SameNumbers(old(unread), headerBuffer);
      if header.len > MAX_PAYLOAD {
        return Err(InvalidBusData);
      }
      var payload :- ReadExact(header.len);
      assert payload == old(unread)[HEADER_SIZE..HEADER_SIZE + header.len];
      assert unread == old(unread)[HEADER_SIZE + header.len..];
      return Ok(XsdMessage(header, payload));
    }

    /** Read until the first error, passing each message on. */
    method ProcessRx() returns (sent: seq<XsdMessage>, error: Error)
      modifies this
      ensures sent == Parsed(old(unread)).0
      ensures Parsed(old(unread)).1 == TooLong <==> error == InvalidBusData
      ensures error == InvalidBusData || error == UnexpectedEof
    {
      sent := [];
      assert [] + Parsed(unread).0 == Parsed(unread).0;
      while true
        invariant Parsed(old(unread)) == (sent + Parsed(unread).0, Parsed(unread).1)
        decreases |unread|
      {
        var message := ReadMessage();
        match message {
          case Err(e) =>
            return sent, e;
          case Ok(m) =>
            assert sent + ([m] + Parsed(unread).0) == (sent + [m]) + Parsed(unread).0;
            sent := sent + [m];
        }
      }
    }
  }

  /** What the first message of a stream is. */
  lemma ParsedOnce(bytes: seq<Byte>)
    ensures |bytes| < HEADER_SIZE ==> Parsed(bytes) == ([], NeedsMore)
    ensures |bytes| >= HEADER_SIZE ==>
              var h := DecodedHeader(bytes);
              && (h.len > MAX_PAYLOAD ==> Parsed(bytes) == ([], TooLong))
              && (h.len <= MAX_PAYLOAD && |bytes| < HEADER_SIZE + h.len ==> Parsed(bytes) == ([], NeedsMore))
              && (h.len <= MAX_PAYLOAD && |bytes| >= HEADER_SIZE + h.len ==>
                    var rest := Parsed(bytes[HEADER_SIZE + h.len..]);
                    Parsed(bytes) == ([XsdMessage(h, bytes[HEADER_SIZE..HEADER_SIZE + h.len])] + rest.0, rest.1))
  {
  }

  lemma SameNumbers(bytes: seq<Byte>, header: seq<Byte>)
    requires |bytes| >= 16 && header == bytes[..16]
    ensures forall at :: 0 <= at <= 12 ==> Number(header, at) == Number(bytes, at)
  {
  }

  lemma SameHeader(bytes: seq<Byte>, header: seq<Byte>)
    requires |bytes| >= HEADER_SIZE && header == bytes[..HEADER_SIZE]
    ensures DecodedHeader(header) == DecodedHeader(bytes)
  {
    assert header[0..4] == bytes[0..4] && header[4..8] == bytes[4..8];
    assert header[8..12] == bytes[8..12] && header[12..16] == bytes[12..16];
  }

  // ----- string lists -----

  predicate NulFree(s: seq<Byte>) {
    forall i :: 0 <= i < |s| ==> s[i] != 0
  }

  /** Each string followed by a NUL. */
  function Joined(items: seq<seq<Byte>>): seq<Byte> {
    if |items| == 0 then [] else items[0] + [0] + Joined(items[1..])
  }

  /** The NUL-terminated strings of a payload, `buffer` being the unfinished one; bytes after the last NUL
      are dropped. */
  function Split(payload: seq<Byte>, buffer: seq<Byte>): seq<seq<Byte>> {
    if |payload| == 0 then []
    else if payload[0] == 0 then [buffer] + Split(payload[1..], [])
    else Split(payload[1..], buffer + [payload[0]])
  }

  /** The payload `send` builds for a list of strings. */
  method SendPayload(items: seq<seq<Byte>>) returns (buf: seq<Byte>)
    ensures buf == Joined(items)
  {
    buf := [];
    assert items[..0] == [];
    for n := 0 to |items|
      invariant buf == Joined(items[..n])
    {
      JoinedSnoc(items[..n], items[n]);
      assert items[..n + 1] == items[..n] + [items[n]];
      buf := buf + items[n];
      buf := buf + [0];
    }
    assert items[..|items|] == items;
  }

  lemma {:induction false} JoinedSnoc(items: seq<seq<Byte>>, item: seq<Byte>)
    ensures Joined(items + [item]) == Joined(items) + item + [0]
  {
    if |items| == 0 {
      assert items + [item] == [item];
      assert Joined([item]) == item + [0] + Joined([]);
    } else {
      JoinedSnoc(items[1..], item);
      assert (items + [item])[1..] == items[1..] + [item];
    }
  }

  /** `parse_string_vec`; `utf8` stands for the library's test that bytes are valid UTF-8. */
  method ParseStringVec(payload: seq<Byte>, utf8: seq<Byte> -> bool) returns (r: Result<seq<seq<Byte>>>)
    ensures var pieces := Split(payload, []);
            r == if forall i :: 0 <= i < |pieces| ==> utf8(pieces[i]) then Ok(pieces) else Err(InvalidUtf8)
  {
    var strings: seq<seq<Byte>> := [];
    var buffer: seq<Byte> := [];
    for n := 0 to |payload|
      invariant Split(payload, []) == strings + Split(payload[n..], buffer)
      invariant forall i :: 0 <= i < |strings| ==> utf8(strings[i])
    {
      var b := payload[n];
      ghost var rest := Split(payload[n..], buffer);
      assert payload[n..][1..] == payload[n + 1..];
      if b == 0 {
        if !utf8(buffer) {
          assert Split(payload, [])[|strings|] == buffer;
          return Err(InvalidUtf8);
        }
        strings := strings + [buffer];
        buffer := [];
        continue;
      }
      buffer := buffer + [b];
    }
    assert payload[|payload|..] == [] && strings + [] == strings;
    assert Split(payload, []) == strings;
    return Ok(strings);
  }

  lemma {:induction false} SplitItem(item: seq<Byte>, tail: seq<Byte>, buffer: seq<Byte>)
    requires NulFree(item)
    ensures Split(item + [0] + tail, buffer) == [buffer + item] + Split(tail, [])
  {
    var payload := item + [0] + tail;
    if |item| == 0 {
      assert payload[0] == 0 && payload[1..] == tail && buffer + item == buffer;
    } else {
      SplitItem(item[1..], tail, buffer + [item[0]]);
      assert payload[1..] == item[1..] + [0] + tail;
      assert buffer + [item[0]] + item[1..] == buffer + item;
    }
  }

  /** Splitting recovers any list of NUL-free strings that was joined. */
  lemma {:induction false} StringsRoundTrip(items: seq<seq<Byte>>)
    requires forall i :: 0 <= i < |items| ==> NulFree(items[i])
    ensures Split(Joined(items), []) == items
  {
    if |items| > 0 {
      StringsRoundTrip(items[1..]);
      SplitItem(items[0], Joined(items[1..]), []);
      assert [] + items[0] == items[0];
    }
  }

  /** A payload is what its strings join to exactly when it is empty or ends in NUL. */
  lemma PayloadRoundTrip(payload: seq<Byte>)
    ensures Joined(Split(payload, [])) == payload <==> |payload| == 0 || payload[|payload| - 1] == 0
  {
    JoinedSplit(payload, []);
    assert [] + payload == payload;
  }

  lemma {:induction false} JoinedSplit(payload: seq<Byte>, buffer: seq<Byte>)
    ensures |payload| > 0 && payload[|payload| - 1] == 0 ==> Joined(Split(payload, buffer)) == buffer + payload
    ensures |payload| == 0 || payload[|payload| - 1] != 0 ==>
              var back := Joined(Split(payload, buffer)); back == [] || back[|back| - 1] == 0
    decreases |payload|
  {
    if |payload| > 0 {
      var rest := payload[1..];
      if payload[0] == 0 {
        JoinedSplit(rest, []);
        var strings := [buffer] + Split(rest, []);
        assert strings[1..] == Split(rest, []);
        assert Joined(strings) == buffer + [0] + Joined(Split(rest, []));
        if |rest| == 0 {
          assert payload == [0];
        } else if rest[|rest| - 1] == 0 {
          assert buffer + payload == buffer + [0] + ([] + rest);
        }
      } else {
        JoinedSplit(rest, buffer + [payload[0]]);
        if |rest| > 0 {
          assert buffer + [payload[0]] + rest == buffer + payload;
        }
      }
    }
  }
}
