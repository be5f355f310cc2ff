// Records on a byte stream: one JSON object per line.
module JsonFraming {
  import opened Bytes
  import opened Wrappers

  datatype Json = Text(text: string) | Flag(flag: bool) | Object(fields: map<string, Json>) | Other

  /** Text encoding and JSON syntax, as far as the framing depends on them. */
  datatype Codec = Codec(
    encode: string -> seq<Byte>,
    decode: seq<Byte> -> Option<string>,
    show: Json -> string,
    parse: string -> Option<Json>)

  datatype FrameError = EmptyRecord | TooLongOrReturn | NotUtf8 | NotJson | NotObject

  const LF: Byte := 10
  const CR: Byte := 13
  const MAX_LINE: nat := 4096

  /** What one byte does: it completes a record, extends the buffer, or ends the stream with an error. */
  datatype Taken = Line(record: Json) | More(buffer: seq<Byte>) | Bad(error: FrameError, left: seq<Byte>)

  /** The buffer is cleared between decoding the text and parsing it. */
  function Take(codec: Codec, buffer: seq<Byte>, byte: Byte): Taken {
    if byte == LF then
      if buffer == [] then Bad(EmptyRecord, buffer)
      else match codec.decode(buffer)
        case None => Bad(NotUtf8, buffer)
        case Some(source) =>
          match codec.parse(source)
          case None => Bad(NotJson, [])
          case Some(value) => if value.Object? then Line(value) else Bad(NotObject, [])
    else if |buffer| >= MAX_LINE || byte == CR then Bad(TooLongOrReturn, buffer)
    else More(buffer + [byte])
  }

  /** Everything a receiver has made of the stream so far. */
  datatype Framing = Framing(buffer: seq<Byte>, lines: seq<seq<Byte>>, records: seq<Json>, error: Option<FrameError>)

  const START := Framing([], [], [], None)

  function FeedByte(codec: Codec, s: Framing, byte: Byte): Framing {
    if s.error.Some? then s
    else match Take(codec, s.buffer, byte)
      case Line(record) => Framing([], s.lines + [s.buffer], s.records + [record], None)
      case More(buffer) => s.(buffer := buffer)
      case Bad(error, left) => s.(buffer := left, error := Some(error))
  }

  function Feed(codec: Codec, s: Framing, data: seq<Byte>): Framing
    decreases |data|
  {
    if data == [] then s else Feed(codec, FeedByte(codec, s, data[0]), data[1..])
  }

  lemma {:induction false} FeedAppend(codec: Codec, s: Framing, a: seq<Byte>, b: seq<Byte>)
    ensures Feed(codec, s, a + b) == Feed(codec, Feed(codec, s, a), b)
    decreases |a|
  {
    hide FeedByte;
    if a == [] {
      assert a + b == b;
    } else {
      FeedAppend(codec, FeedByte(codec, s, a[0]), a[1..], b);
      assert (a + b)[1..] == a[1..] + b;
    }
  }

  lemma FeedNext(codec: Codec, s: Framing, data: seq<Byte>, i: nat)
    requires i < |data|
    ensures Feed(codec, s, data[..i + 1]) == FeedByte(codec, Feed(codec, s, data[..i]), data[i])
  {
    hide FeedByte;
    assert data[..i + 1] == data[..i] + [data[i]];
    FeedAppend(codec, s, data[..i], [data[i]]);
    assert [data[i]][1..] == [];
  }

  // ---------------------------------------------------------------------------------------------
  // Chunks

  function FeedChunks(codec: Codec, s: Framing, chunks: seq<seq<Byte>>): Framing
    decreases |chunks|
  {
    if chunks == [] then s else FeedChunks(codec, Feed(codec, s, chunks[0]), chunks[1..])
  }

  function Concat(chunks: seq<seq<Byte>>): seq<Byte> {
    if chunks == [] then [] else chunks[0] + Concat(chunks[1..])
  }

  /** Records, error and remaining buffer depend on the stream only, not on how it is cut into chunks. */
  lemma {:induction false} ChunksDoNotMatter(codec: Codec, s: Framing, chunks: seq<seq<Byte>>)
    ensures FeedChunks(codec, s, chunks) == Feed(codec, s, Concat(chunks))
    decreases |chunks|
  {
    if chunks != [] {
      FeedAppend(codec, s, chunks[0], Concat(chunks[1..]));
      ChunksDoNotMatter(codec, Feed(codec, s, chunks[0]), chunks[1..]);
    }
  }

  // ---------------------------------------------------------------------------------------------
  // What the receiver holds

  ghost predicate Plain(bytes: seq<Byte>) {
    |bytes| <= 4096 && 10 !in bytes && 13 !in bytes
  }

  /** Lines are never empty, too long or broken, and every record is what its line stands for. */
  ghost predicate WellFramed(codec: Codec, s: Framing) {
    && Plain(s.buffer) && |s.lines| == |s.records|
    && forall i :: 0 <= i < |s.lines| ==> IsRecord(codec, s.lines[i], s.records[i])
  }

  ghost predicate IsRecord(codec: Codec, line: seq<Byte>, record: Json) {
    && Plain(line) && line != [] && record.Object?
    && codec.decode(line).Some? && codec.parse(codec.decode(line).value) == Some(record)
  }

  lemma ByteWellFramed(codec: Codec, s: Framing, byte: Byte)
    requires WellFramed(codec, s)
    ensures WellFramed(codec, FeedByte(codec, s, byte))
  {}

  /** The buffer never exceeds 4096 bytes, whatever arrives. */
  lemma {:induction false} StaysWellFramed(codec: Codec, s: Framing, data: seq<Byte>)
    requires WellFramed(codec, s)
    ensures WellFramed(codec, Feed(codec, s, data))
    decreases |data|
  {
    if data != [] {
      ByteWellFramed(codec, s, data[0]);
      hide WellFramed, FeedByte;
      StaysWellFramed(codec, FeedByte(codec, s, data[0]), data[1..]);
    }
  }

  function Joined(lines: seq<seq<Byte>>): seq<Byte> {
    if lines == [] then [] else Joined(lines[..|lines| - 1]) + lines[|lines| - 1] + [LF]
  }

  /** The bytes a receiver has accounted for. */
  function Consumed(s: Framing): seq<Byte> {
    Joined(s.lines) + s.buffer
  }

  lemma JoinedNext(lines: seq<seq<Byte>>, line: seq<Byte>)
    ensures Joined(lines + [line]) == Joined(lines) + line + [LF]
  {
    assert (lines + [line])[..|lines|] == lines;
  }

  lemma ByteConsumed(codec: Codec, s: Framing, byte: Byte)
    requires FeedByte(codec, s, byte).error.None?
    ensures s.error.None? && Consumed(FeedByte(codec, s, byte)) == Consumed(s) + [byte]
  {
    JoinedNext(s.lines, s.buffer);
    hide Joined;
    var t := FeedByte(codec, s, byte);
    if t.lines != s.lines {
      assert Consumed(t) == Joined(s.lines) + s.buffer + [LF] + [];
    } else {
      assert Joined(s.lines) + (s.buffer + [byte]) == Joined(s.lines) + s.buffer + [byte];
    }
  }

  lemma {:induction false} ErrorStays(codec: Codec, s: Framing, data: seq<Byte>)
    requires s.error.Some?
    ensures Feed(codec, s, data) == s
  {
    if data != [] {
      ErrorStays(codec, s, data[1..]);
    }
  }

  /** Without an error, delivered lines with their separators and the buffer are the stream. */
  lemma {:induction false} StreamReproduced(codec: Codec, s: Framing, data: seq<Byte>)
    requires Feed(codec, s, data).error.None?
    ensures Consumed(Feed(codec, s, data)) == Consumed(s) + data
    decreases |data|
  {
    if data == [] {
      assert Consumed(s) + data == Consumed(s);
    } else {
      var t := FeedByte(codec, s, data[0]);
      if t.error.Some? {
        ErrorStays(codec, t, data[1..]);
      }
      ByteConsumed(codec, s, data[0]);
      hide FeedByte, Consumed;
      StreamReproduced(codec, t, data[1..]);
      assert Consumed(s) + [data[0]] + data[1..] == Consumed(s) + data;
    }
  }

  /** With an error, the stream up to the offending byte is reproduced, and nothing after it matters. */
  lemma {:induction false} FirstError(codec: Codec, s: Framing, data: seq<Byte>) returns (k: nat)
    requires s.error.None? && Feed(codec, s, data).error.Some?
    ensures k < |data| && Feed(codec, s, data[..k]).error.None?
    ensures Feed(codec, s, data) == FeedByte(codec, Feed(codec, s, data[..k]), data[k])
    ensures Consumed(Feed(codec, s, data[..k])) == Consumed(s) + data[..k]
    decreases |data|
  {
    var t := FeedByte(codec, s, data[0]);
    if t.error.Some? {
      k := 0;
      ErrorStays(codec, t, data[1..]);
      assert data[..0] == [] && Consumed(s) + [] == Consumed(s);
    } else {
      hide FeedByte, Consumed;
      k := FirstError(codec, t, data[1..]);
      assert data[..k + 1] == [data[0]] + data[1..][..k];
      assert data[..k + 1][1..] == data[1..][..k];
      k := k + 1;
      StreamReproduced(codec, s, data[..k]);
    }
  }

  // ---------------------------------------------------------------------------------------------
  // What a sender writes

  function Printed(codec: Codec, record: Json): seq<Byte> {
    codec.encode(codec.show(record))
  }

  /** One record on the wire. */
  function Encode(codec: Codec, record: Json): seq<Byte> {
    Printed(codec, record) + [LF]
  }

  function EncodeAll(codec: Codec, records: seq<Json>): seq<Byte> {
    if records == [] then [] else Encode(codec, records[0]) + EncodeAll(codec, records[1..])
  }

  ghost predicate Short(codec: Codec, record: Json) {
    |Printed(codec, record)| <= 4096
  }

  /** Printing never yields a line break, and decoding and parsing undo it when it fits a line. */
  ghost predicate Lawful(codec: Codec, record: Json) {
    && record.Object? && Printed(codec, record) != []
    && LF !in Printed(codec, record) && CR !in Printed(codec, record)
    && (Short(codec, record) ==>
          && codec.decode(Printed(codec, record)) == Some(codec.show(record))
          && codec.parse(codec.show(record)) == Some(record))
  }

  /** A line that is not complete yet only fills the buffer, up to its limit. */
  lemma {:induction false} FeedPart(codec: Codec, s: Framing, part: seq<Byte>)
    requires s.error.None? && |s.buffer| <= MAX_LINE && LF !in part && CR !in part
    ensures |s.buffer| + |part| <= MAX_LINE ==> Feed(codec, s, part) == s.(buffer := s.buffer + part)
    ensures |s.buffer| + |part| > MAX_LINE ==>
      Feed(codec, s, part).error.Some? && Feed(codec, s, part).records == s.records && Feed(codec, s, part).lines == s.lines
    decreases |part|
  {
    if part == [] {
      assert s.buffer + part == s.buffer;
    } else {
      assert part[0] in part;
      var t := FeedByte(codec, s, part[0]);
      if |s.buffer| < MAX_LINE {
        FeedPart(codec, t, part[1..]);
        assert s.buffer + [part[0]] + part[1..] == s.buffer + part;
      } else {
        ErrorStays(codec, t, part[1..]);
      }
    }
  }

  lemma FeedLine(codec: Codec, s: Framing, record: Json)
    requires s.error.None? && s.buffer == [] && Lawful(codec, record)
    ensures Short(codec, record) ==>
      Feed(codec, s, Encode(codec, record)) == Framing([], s.lines + [Printed(codec, record)], s.records + [record], None)
    ensures !Short(codec, record) ==>
      Feed(codec, s, Encode(codec, record)).error.Some? && Feed(codec, s, Encode(codec, record)).records == s.records
  {
    var bytes := Printed(codec, record);
    FeedAppend(codec, s, bytes, [LF]);
    FeedPart(codec, s, bytes);
    assert [] + bytes == bytes && [LF][1..] == [];
    hide Feed;
    FeedOne(codec, Feed(codec, s, bytes), LF);
  }

  lemma FeedOne(codec: Codec, s: Framing, byte: Byte)
    ensures Feed(codec, s, [byte]) == FeedByte(codec, s, byte)
  {
    hide FeedByte;
    assert [byte][1..] == [];
  }

  ghost predicate AllLawful(codec: Codec, records: seq<Json>) {
    forall r :: r in records ==> Lawful(codec, r)
  }

  ghost predicate AllShort(codec: Codec, records: seq<Json>) {
    forall r :: r in records ==> Short(codec, r)
  }

  lemma PrefixSplit(a: seq<Byte>, b: seq<Byte>, data: seq<Byte>)
    requires data <= a + b
    ensures |data| <= |a| ==> data <= a
    ensures |data| > |a| ==> data == a + data[|a|..] && data[|a|..] <= b
  {
    assert (a + b)[..|a|] == a && (a + b)[|a|..] == b;
    if |data| > |a| {
      assert data[..|a|] == a;
      assert data[|a|..] == b[..|data| - |a|];
    }
  }

  lemma PrefixNoBreak(part: seq<Byte>, bytes: seq<Byte>, x: Byte)
    requires part <= bytes + [LF] && |part| <= |bytes| && x !in bytes
    ensures x !in part
  {
    assert part == bytes[..|part|];
  }

  /** Whatever part of the sent records has arrived, the receiver has delivered some of the first ones. */
  lemma {:induction false} DeliveredArePrefix(codec: Codec, s: Framing, records: seq<Json>, data: seq<Byte>)
    requires s.error.None? && s.buffer == [] && AllLawful(codec, records) && data <= EncodeAll(codec, records)
    ensures s.records <= Feed(codec, s, data).records <= s.records + records
    decreases |records|
  {
    if records != [] {
      var (line, rest) := (Encode(codec, records[0]), EncodeAll(codec, records[1..]));
      assert Lawful(codec, records[0]);
      PrefixSplit(line, rest, data);
      if |data| < |line| {
        PrefixNoBreak(data, Printed(codec, records[0]), LF);
        PrefixNoBreak(data, Printed(codec, records[0]), CR);
        FeedPart(codec, s, data);
      } else {
        FeedAppend(codec, s, line, data[|line|..]);
        FeedLine(codec, s, records[0]);
        var t := Feed(codec, s, line);
        assert data == line + data[|line|..];
        hide Feed, FeedByte, Lawful, Encode;
        if t.error.Some? {
          ErrorStays(codec, t, data[|line|..]);
        } else {
          DeliveredArePrefix(codec, t, records[1..], data[|line|..]);
          assert s.records + [records[0]] + records[1..] == s.records + records;
        }
      }
    }
  }

  /** No part of what a lawful sender writes in short records is an error. */
  lemma {:induction false} PartIsNoError(codec: Codec, s: Framing, records: seq<Json>, data: seq<Byte>)
    requires s.error.None? && s.buffer == [] && AllLawful(codec, records) && AllShort(codec, records)
    requires data <= EncodeAll(codec, records)
    ensures Feed(codec, s, data).error.None?
    decreases |records|
  {
    if records != [] {
      var (line, rest) := (Encode(codec, records[0]), EncodeAll(codec, records[1..]));
      assert Lawful(codec, records[0]) && Short(codec, records[0]);
      PrefixSplit(line, rest, data);
      if |data| < |line| {
        PrefixNoBreak(data, Printed(codec, records[0]), LF);
        PrefixNoBreak(data, Printed(codec, records[0]), CR);
        FeedPart(codec, s, data);
      } else {
        FeedAppend(codec, s, line, data[|line|..]);
        FeedLine(codec, s, records[0]);
        assert data == line + data[|line|..];
        hide Feed, FeedByte, Lawful, Encode;
        PartIsNoError(codec, Feed(codec, s, line), records[1..], data[|line|..]);
      }
    }
  }

  /** Short records arrive complete, in order, with nothing left in the buffer. */
  lemma {:induction false} AllDelivered(codec: Codec, s: Framing, records: seq<Json>)
    requires s.error.None? && s.buffer == [] && AllLawful(codec, records) && AllShort(codec, records)
    ensures var t := Feed(codec, s, EncodeAll(codec, records));
      t.error.None? && t.buffer == [] && t.records == s.records + records
    decreases |records|
  {
    if records == [] {
      assert s.records + records == s.records;
    } else {
      var (line, rest) := (Encode(codec, records[0]), EncodeAll(codec, records[1..]));
      assert Lawful(codec, records[0]) && Short(codec, records[0]);
      FeedAppend(codec, s, line, rest);
      FeedLine(codec, s, records[0]);
      hide Feed, FeedByte, Lawful, Encode;
      AllDelivered(codec, Feed(codec, s, line), records[1..]);
      assert s.records + [records[0]] + records[1..] == s.records + records;
    }
  }

  // ---------------------------------------------------------------------------------------------

  class JsonLine {
    const codec: Codec
    var buffer: seq<Byte>

    constructor (codec: Codec)
      ensures this.codec == codec && buffer == []
    {
      this.codec := codec;
      buffer := [];
    }

    /** One round of the receiving loop. */
    method Accept(byte: Byte) returns (taken: Taken)
      modifies this
      ensures taken == Take(codec, old(buffer), byte)
      ensures buffer == match taken case Line(_) => [] case More(b) => b case Bad(_, left) => left
    {
      if byte == LF {
        if buffer == [] {
          return Bad(EmptyRecord, buffer);
        }
        var source := codec.decode(buffer);
        if source.None? {
          return Bad(NotUtf8, buffer);
        }
        buffer := [];
        var value := codec.parse(source.value);
        if value.None? {
          return Bad(NotJson, []);
        }
        if !value.value.Object? {
          return Bad(NotObject, []);
        }
        return Line(value.value);
      }
      if |buffer| >= MAX_LINE || byte == CR {
        return Bad(TooLongOrReturn, buffer);
      }
      buffer := buffer + [byte];
      return More(buffer);
    }

    /** Receives one chunk for a consumer that takes every record. */
    method Receive(data: seq<Byte>) returns (records: seq<Json>, error: Option<FrameError>)
      modifies this
      ensures
        var s := Feed(codec, Framing(old(buffer), [], [], None), data);
        buffer == s.buffer && records == s.records && error == s.error
    {
      records, error := [], None;
      ghost var s := Framing(buffer, [], [], None);
      ghost var start := s;
      assert data[..0] == [];
      for i := 0 to |data|
        invariant error.None? && s == Feed(codec, start, data[..i])
        invariant buffer == s.buffer && records == s.records && s.error.None?
      {
        FeedNext(codec, start, data, i);
        var taken := Accept(data[i]);
        s := FeedByte(codec, s, data[i]);
        match taken {
          case Line(record) => records := records + [record];
          case More(_) =>
          case Bad(e, _) =>
            FeedAppend(codec, start, data[..i + 1], data[i + 1..]);
            assert data == data[..i + 1] + data[i + 1..];
            ErrorStays(codec, s, data[i + 1..]);
            return records, Some(e);
        }
      }
      assert data[..|data|] == data;
    }
  }
}
