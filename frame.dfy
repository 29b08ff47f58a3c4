/**
 * `StompFrame` and its serialisation. A frame is written as the command
 * text and a line feed, one `key:value` line per header with key and value
 * escaped, a blank line, the body verbatim, and a NUL terminator.
 */
module Frame {
  import opened Bytes
  import opened Wrappers
  import opened Escaping
  import ClientCommands
  import opened Seqs

  /** A header as the source stores it: a (key, value) pair. */
  type Header = (seq<byte>, seq<byte>)

  /**
   * A frame. The command is held as its rendered text, the only thing
   * serialisation uses of it; headers keep their order and duplicates.
   */
  datatype StompFrame = StompFrame(command: seq<byte>, headers: seq<Header>, body: Option<seq<byte>>)

  /** One header line: escaped key, raw colon, escaped value, line feed. */
  function HeaderLine(h: Header): seq<byte>
  {
    Escape(h.0) + [COLON] + Escape(h.1) + [LF]
  }

  /** The header lines of `hs`, in order. */
  function HeaderSection(hs: seq<Header>): seq<byte>
  {
    if hs == [] then [] else HeaderLine(hs[0]) + HeaderSection(hs[1..])
  }

  /** The bytes written for the body: none when it is absent. */
  function BodyBytes(body: Option<seq<byte>>): seq<byte>
  {
    match body
    case Some(b) => b
    case None => []
  }

  /** The wire form of a frame. */
  function Serialized(f: StompFrame): seq<byte>
  {
    f.command + [LF] + HeaderSection(f.headers) + [LF] + BodyBytes(f.body) + [NUL]
  }

  /** The growable byte buffer serialisation writes into. */
  class Buffer {
    var bytes: seq<byte>

    constructor ()
      ensures bytes == []
    {
      bytes := [];
    }

    method PutU8(b: byte)
      modifies this
      ensures bytes == old(bytes) + [b]
    {
      bytes := bytes + [b];
    }

    method PutSlice(s: seq<byte>)
      modifies this
      ensures bytes == old(bytes) + s
    {
      bytes := bytes + s;
    }
  }

  /** `write_escaped`: appends the escape-table entry of one byte to the buffer. */
  method WriteEscaped(b: byte, buffer: Buffer)
    modifies buffer
    ensures buffer.bytes == old(buffer.bytes) + EscapeByte(b)
  {
    if b == CR {
      buffer.PutU8(BACKSLASH);
      buffer.PutU8(LOWER_R);
    } else if b == LF {
      buffer.PutU8(BACKSLASH);
      buffer.PutU8(LOWER_N);
    } else if b == COLON {
      buffer.PutU8(BACKSLASH);
      buffer.PutU8(LOWER_C);
    } else if b == BACKSLASH {
      buffer.PutU8(BACKSLASH);
      buffer.PutU8(BACKSLASH);
    } else {
      buffer.PutU8(b);
    }
  }

  /** The loop `for byte in …` that escapes a key or a value into the buffer. */
  method WriteEscapedBytes(text: seq<byte>, buffer: Buffer)
    modifies buffer
    ensures buffer.bytes == old(buffer.bytes) + Escape(text)
  {
    ghost var before := buffer.bytes;
    var j := 0;
    while j < |text|
      invariant 0 <= j <= |text|
      invariant buffer.bytes == before + Escape(text[..j])
    {
      EscapeSnoc(text[..j], text[j]);
      TakeSnoc(text, j);
      Assoc(before, Escape(text[..j]), EscapeByte(text[j]));
      WriteEscaped(text[j], buffer);
      j := j + 1;
    }
    TakeAll(text);
  }

  /** The closure `serialize` runs for each header: writes one header line. */
  method WriteHeader(header: Header, buffer: Buffer)
    modifies buffer
    ensures buffer.bytes == old(buffer.bytes) + HeaderLine(header)
  {
    var (key, val) := header;
    WriteEscapedBytes(key, buffer);
    buffer.PutU8(COLON);
    WriteEscapedBytes(val, buffer);
    buffer.PutU8(LF);
    Regroup5(old(buffer.bytes), Escape(key), [COLON], Escape(val), [LF]);
  }

  /** The loop of `serialize` over the headers, in order. */
  method WriteHeaders(headers: seq<Header>, buffer: Buffer)
    modifies buffer
    ensures buffer.bytes == old(buffer.bytes) + HeaderSection(headers)
  {
    ghost var before := buffer.bytes;
    var i := 0;
    while i < |headers|
      invariant 0 <= i <= |headers|
      invariant buffer.bytes == before + HeaderSection(headers[..i])
    {
      HeaderSectionSnoc(headers[..i], headers[i]);
      TakeSnoc(headers, i);
      Assoc(before, HeaderSection(headers[..i]), HeaderLine(headers[i]));
      WriteHeader(headers[i], buffer);
      i := i + 1;
    }
    TakeAll(headers);
  }

  /** `StompFrame::serialize`: builds the wire form byte by byte. */
  method Serialize(frame: StompFrame) returns (out: seq<byte>)
    ensures out == Serialized(frame)
    ensures |out| > 0 && out[|out| - 1] == NUL
  {
    var buffer := new Buffer();
    buffer.PutSlice(frame.command);
    buffer.PutU8(LF);
    WriteHeaders(frame.headers, buffer);
    ghost var head := buffer.bytes;
    assert head == frame.command + [LF] + HeaderSection(frame.headers);
    if frame.body.Some? {
      buffer.PutU8(LF);
      buffer.PutSlice(frame.body.value);
      assert buffer.bytes == head + [LF] + frame.body.value;
    } else {
      buffer.PutU8(LF);
      assert buffer.bytes == head + [LF] + [];
    }
    assert buffer.bytes == head + [LF] + BodyBytes(frame.body);
    buffer.PutU8(NUL);
    out := buffer.bytes;
  }

  /** Appending a header appends its line. */
  lemma {:induction false} HeaderSectionSnoc(hs: seq<Header>, h: Header)
    ensures HeaderSection(hs + [h]) == HeaderSection(hs) + HeaderLine(h)
  {
    if hs == [] {
      assert hs + [h] == [h];
    } else {
      assert (hs + [h])[1..] == hs[1..] + [h];
      HeaderSectionSnoc(hs[1..], h);
    }
  }

  /**
   * The layout of the wire form: the command and a line feed, the header
   * lines, a line feed, the body verbatim and the terminating NUL.
   */
  lemma SerializedLayout(f: StompFrame)
    ensures var out, n, m := Serialized(f), |f.command|, |HeaderSection(f.headers)|;
      |out| == n + m + |BodyBytes(f.body)| + 3 &&
      out[..n] == f.command && out[n] == LF &&
      out[n + 1..n + 1 + m] == HeaderSection(f.headers) && out[n + 1 + m] == LF &&
      out[n + 2 + m..|out| - 1] == BodyBytes(f.body) && out[|out| - 1] == NUL
  {
  }

  /** An absent body and an empty body serialise identically. */
  lemma AbsentBodyIsEmptyBody(command: seq<byte>, headers: seq<Header>)
    ensures Serialized(StompFrame(command, headers, None)) == Serialized(StompFrame(command, headers, Some([])))
  {
  }

  /** With no headers and no body the wire form is the command and `"\n\n\x00"`. */
  lemma BareFrame(command: seq<byte>)
    ensures Serialized(StompFrame(command, [], None)) == command + [LF, LF, NUL]
  {
  }

  /**
   * A header line holds exactly one raw colon, the separator after the
   * escaped key, exactly one line feed, at its end, and no carriage return.
   */
  lemma HeaderLineSeparators(h: Header)
    ensures var line, k := HeaderLine(h), |Escape(h.0)|;
      k < |line| - 1 && line[k] == COLON && line[|line| - 1] == LF &&
      (forall i | 0 <= i < |line| && i != k :: line[i] != COLON) &&
      (forall i | 0 <= i < |line| - 1 :: line[i] != LF) &&
      CR !in line
  {
    EscapeHasNoSeparators(h.0);
    EscapeHasNoSeparators(h.1);
    var line, k := HeaderLine(h), |Escape(h.0)|;
    forall i | 0 <= i < |line|
      ensures i != k ==> line[i] != COLON
      ensures i < |line| - 1 ==> line[i] != LF
      ensures line[i] != CR
    {
      if i < k {
        assert line[i] == Escape(h.0)[i];
      } else if k < i < |line| - 1 {
        assert line[i] == Escape(h.1)[i - k - 1];
      }
    }
  }

  /** Escaped text followed by a separator and anything else splits uniquely at that separator. */
  lemma EscapedUntil(s1: seq<byte>, s2: seq<byte>, r1: seq<byte>, r2: seq<byte>, x: byte)
    requires x == COLON || x == LF
    requires Escape(s1) + [x] + r1 == Escape(s2) + [x] + r2
    ensures s1 == s2 && r1 == r2
  {
    EscapeHasNoSeparators(s1);
    EscapeHasNoSeparators(s2);
    SplitAtFirst(Escape(s1), r1, Escape(s2), r2, x);
    EscapeInjective(s1, s2);
  }

  /** A header line and what follows it, regrouped at the raw colon. */
  lemma HeaderLineThenRest(h: Header, r: seq<byte>)
    ensures HeaderLine(h) + r == Escape(h.0) + [COLON] + (Escape(h.1) + [LF] + r)
  {
    Regroup(Escape(h.0) + [COLON], Escape(h.1), [LF], r);
  }

  /** A header line and whatever follows it can be split back into the header and the rest. */
  lemma HeaderLineUnique(h1: Header, h2: Header, r1: seq<byte>, r2: seq<byte>)
    requires HeaderLine(h1) + r1 == HeaderLine(h2) + r2
    ensures h1 == h2 && r1 == r2
  {
    var t1, t2 := Escape(h1.1) + [LF] + r1, Escape(h2.1) + [LF] + r2;
    HeaderLineThenRest(h1, r1);
    HeaderLineThenRest(h2, r2);
    EscapedUntil(h1.0, h2.0, t1, t2, COLON);
    EscapedUntil(h1.1, h2.1, r1, r2, LF);
  }

  /** What follows the command line starts with a line feed exactly when there are no headers. */
  lemma SectionFirstByte(hs: seq<Header>, r: seq<byte>)
    ensures (HeaderSection(hs) + [LF] + r)[0] == LF <==> hs == []
  {
    if hs != [] {
      HeaderLineSeparators(hs[0]);
      assert HeaderSection(hs) == HeaderLine(hs[0]) + HeaderSection(hs[1..]);
      assert (HeaderSection(hs) + [LF] + r)[0] == HeaderLine(hs[0])[0];
    }
  }

  /** A non-empty header section, the blank line and the rest: the first line, then the others. */
  lemma SectionCons(hs: seq<Header>, r: seq<byte>)
    requires hs != []
    ensures HeaderSection(hs) + [LF] + r == HeaderLine(hs[0]) + (HeaderSection(hs[1..]) + [LF] + r)
  {
  }

  /**
   * The header section ends at the first blank line: the headers, in order
   * and with duplicates, and what follows the blank line are determined.
   */
  lemma {:induction false} HeaderSectionUnique(hs1: seq<Header>, hs2: seq<Header>, r1: seq<byte>, r2: seq<byte>)
    requires HeaderSection(hs1) + [LF] + r1 == HeaderSection(hs2) + [LF] + r2
    ensures hs1 == hs2 && r1 == r2
  {
    SectionFirstByte(hs1, r1);
    SectionFirstByte(hs2, r2);
    if hs1 == [] {
      assert HeaderSection(hs1) + [LF] + r1 == [LF] + r1;
      assert HeaderSection(hs2) + [LF] + r2 == [LF] + r2;
      assert r1 == ([LF] + r1)[1..] && r2 == ([LF] + r2)[1..];
    } else {
      SectionCons(hs1, r1);
      SectionCons(hs2, r2);
      HeaderLineUnique(hs1[0], hs2[0], HeaderSection(hs1[1..]) + [LF] + r1, HeaderSection(hs2[1..]) + [LF] + r2);
      HeaderSectionUnique(hs1[1..], hs2[1..], r1, r2);
      assert hs1 == [hs1[0]] + hs1[1..] && hs2 == [hs2[0]] + hs2[1..];
    }
  }

  /**
   * Serialisation loses nothing but the difference between an absent and an
   * empty body: when the command text holds no line feed, the wire form
   * determines the command, every header in order, and the body bytes.
   */
  lemma SerializedInjective(f1: StompFrame, f2: StompFrame)
    requires LF !in f1.command && LF !in f2.command
    requires Serialized(f1) == Serialized(f2)
    ensures f1.command == f2.command
    ensures f1.headers == f2.headers
    ensures BodyBytes(f1.body) == BodyBytes(f2.body)
  {
    var t1 := HeaderSection(f1.headers) + [LF] + (BodyBytes(f1.body) + [NUL]);
    var t2 := HeaderSection(f2.headers) + [LF] + (BodyBytes(f2.body) + [NUL]);
    Regroup6(f1.command, [LF], HeaderSection(f1.headers), [LF], BodyBytes(f1.body), [NUL]);
    Regroup6(f2.command, [LF], HeaderSection(f2.headers), [LF], BodyBytes(f2.body), [NUL]);
    SplitAtFirst(f1.command, t1, f2.command, t2, LF);
    HeaderSectionUnique(f1.headers, f2.headers, BodyBytes(f1.body) + [NUL], BodyBytes(f2.body) + [NUL]);
    PrefixOfAppend(BodyBytes(f1.body), [NUL]);
    PrefixOfAppend(BodyBytes(f2.body), [NUL]);
  }

  /** The command text of a client frame: the bytes of `ClientCommand`'s rendering. */
  function ClientCommandText(c: ClientCommands.ClientCommand): (r: seq<byte>)
    ensures |r| > 0 && LF !in r && NUL !in r
  {
    var s := ClientCommands.Render(c);
    assert forall i | 0 <= i < |s| :: 'A' <= s[i] <= 'Z';
    s
  }

  /** Two client frames with the same wire form agree on command, headers and body bytes. */
  lemma ClientFramesInjective(c1: ClientCommands.ClientCommand, c2: ClientCommands.ClientCommand,
                              h1: seq<Header>, h2: seq<Header>, b1: Option<seq<byte>>, b2: Option<seq<byte>>)
    requires Serialized(StompFrame(ClientCommandText(c1), h1, b1)) == Serialized(StompFrame(ClientCommandText(c2), h2, b2))
    ensures c1 == c2 && h1 == h2 && BodyBytes(b1) == BodyBytes(b2)
  {
    SerializedInjective(StompFrame(ClientCommandText(c1), h1, b1), StompFrame(ClientCommandText(c2), h2, b2));
    ClientCommands.ParseRenderWithCommit(c1);
    ClientCommands.ParseRenderWithCommit(c2);
  }

  /** A header whose key and value hold no reserved byte is written as plain `key:value\n`. */
  lemma PlainHeaderLine(key: seq<byte>, value: seq<byte>)
    requires Plain(key) && Plain(value)
    ensures HeaderLine((key, value)) == key + [COLON] + value + [LF]
  {
    EscapePlain(key);
    EscapePlain(value);
  }

  /** Three headers give their three lines, in order. */
  lemma ThreeHeaderSection(h0: Header, h1: Header, h2: Header)
    ensures HeaderSection([h0, h1, h2]) == HeaderLine(h0) + HeaderLine(h1) + HeaderLine(h2)
  {
    var none: seq<Header> := [];
    assert [h2][1..] == none;
    assert HeaderSection([h2]) == HeaderLine(h2);
    assert [h1, h2][1..] == [h2];
    assert HeaderSection([h1, h2]) == HeaderLine(h1) + HeaderLine(h2);
    assert [h0, h1, h2][1..] == [h1, h2];
  }

  /** A frame with three plain headers and no body: the command line, three `key:value` lines, a blank line, NUL. */
  lemma PlainThreeHeaderFrame(command: seq<byte>, k0: seq<byte>, v0: seq<byte>, k1: seq<byte>, v1: seq<byte>,
                              k2: seq<byte>, v2: seq<byte>)
    requires Plain(k0) && Plain(v0) && Plain(k1) && Plain(v1) && Plain(k2) && Plain(v2)
    ensures Serialized(StompFrame(command, [(k0, v0), (k1, v1), (k2, v2)], None))
            == command + [LF] + (k0 + [COLON] + v0 + [LF]) + (k1 + [COLON] + v1 + [LF])
               + (k2 + [COLON] + v2 + [LF]) + [LF] + [NUL]
  {
    PlainHeaderLine(k0, v0);
    PlainHeaderLine(k1, v1);
    PlainHeaderLine(k2, v2);
    ThreeHeaderSection((k0, v0), (k1, v1), (k2, v2));
  }

  /**
   * The `should_write_client` test vector: CONNECT with headers foo,
   * accept-version and host, in that order, and no body, is written as the
   * expected bytes (here split at their line ends).
   */
  lemma ShouldWriteClient(k0: seq<byte>, v0: seq<byte>, k1: seq<byte>, v1: seq<byte>, k2: seq<byte>, v2: seq<byte>)
    requires k0 == "foo" && v0 == "foo"
    requires k1 == "accept-version" && v1 == "1.2"
    requires k2 == "host" && v2 == "example.com"
    ensures Serialized(StompFrame(ClientCommandText(ClientCommands.CONNECT), [(k0, v0), (k1, v1), (k2, v2)], None))
            == "CONNECT\n" + "foo:foo\n" + "accept-version:1.2\n" + "host:example.com\n" + "\n\0"
  {
    PlainKeys(k0, v0);
    PlainKeys(k1, v1);
    PlainKeys(k2, v2);
    PlainThreeHeaderFrame(ClientCommandText(ClientCommands.CONNECT), k0, v0, k1, v1, k2, v2);
    ShouldWriteClientLines(ClientCommandText(ClientCommands.CONNECT), k0, v0, k1, v1, k2, v2);
  }

  /** The keys and values of the `should_write_client` frame hold no reserved byte. */
  lemma PlainKeys(k: seq<byte>, v: seq<byte>)
    requires (k, v) in [("foo", "foo"), ("accept-version", "1.2"), ("host", "example.com")]
    ensures Plain(k) && Plain(v)
  {
  }

  /** The lines of the `should_write_client` frame, spelled out. */
  lemma ShouldWriteClientLines(c: seq<byte>, k0: seq<byte>, v0: seq<byte>, k1: seq<byte>, v1: seq<byte>,
                               k2: seq<byte>, v2: seq<byte>)
    requires c == "CONNECT"
    requires k0 == "foo" && v0 == "foo"
    requires k1 == "accept-version" && v1 == "1.2"
    requires k2 == "host" && v2 == "example.com"
    ensures c + [LF] + (k0 + [COLON] + v0 + [LF]) + (k1 + [COLON] + v1 + [LF]) + (k2 + [COLON] + v2 + [LF]) + [LF] + [NUL]
            == "CONNECT\n" + "foo:foo\n" + "accept-version:1.2\n" + "host:example.com\n" + "\n\0"
  {
    assert c + [LF] == "CONNECT\n";
    assert k0 + [COLON] + v0 + [LF] == "foo:foo\n";
    assert k1 + [COLON] + v1 + [LF] == "accept-version:1.2\n";
    assert k2 + [COLON] + v2 + [LF] == "host:example.com\n";
  }
}
