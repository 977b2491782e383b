/**
 * Base64.OutputStream: a filter that encodes the bytes written to it three
 * at a time, or decodes the characters written to it four at a time, and
 * passes the result to the stream it wraps.
 *
 * `Writer` is the stream's state and `AfterWrite`, `AfterWriteArray`, `AfterFlush`,
 * `AfterClose` and `AfterSuspend` are its operations as functions; the class
 * `OutputStream` holds the same fields and its methods are proved to make
 * exactly the changes those functions describe. The lemmas show that
 * encoding through the stream gives what `encodeBytesToBytes` gives, and
 * that decoding an encoding through it gives the bytes back.
 */
module Base64OutputStream {
  import opened Common
  import opened Base64Tables
  import opened Base64Codec

  /**
   * The fields of the stream that change: the unfinished group in
   * `buffer[..position]`, the characters on the current output line, whether
   * encoding is suspended, everything the wrapped stream has received, and
   * whether close() has set `buffer` and `out` to null.
   */
  datatype Writer = Writer(position: nat, buffer: seq<byte>, lineLength: int, suspended: bool,
                           out: seq<byte>, closed: bool)

  /** `bufferLength`: three bytes when encoding, four characters when decoding. */
  function WriterLength(m: Mode): nat
  {
    if m.encode then 3 else 4
  }

  /** The states the stream can reach: an encoding stream that is open has fewer than three bytes waiting. */
  predicate WriterOk(m: Mode, w: Writer)
  {
    |w.buffer| == WriterLength(m) && (m.encode && !w.closed ==> w.position < 3)
  }

  /** The state the constructor leaves, with the buffer's initial contents `buffer`. */
  function NewWriter(m: Mode, buffer: seq<byte>): Writer
  {
    Writer(0, buffer, 0, false, [], false)
  }

  /**
   * write(int): passed on untouched while encoding is suspended; otherwise
   * stored in the buffer, and a full buffer is encoded or decoded.
   */
  function AfterWrite(m: Mode, w: Writer, b: byte): (o: Outcome<Writer, ()>)
    requires WriterOk(m, w)
    ensures WriterOk(m, o.next)
    ensures o.next.suspended == w.suspended && o.next.closed == w.closed
    ensures o.result.Err? ==> o.next.out == w.out
  {
    if w.suspended then
      if w.closed then Outcome(w, Err(NullPointer)) else Outcome(w.(out := w.out + [b]), Ok(()))
    else if m.encode then EncodeWrite(m, w, b)
    else DecodeWrite(m, w, b)
  }

  /**
   * write(int) while encoding: the byte is stored, and a full buffer sends
   * four characters on, then '\n' once the line reaches MAX_LINE_LENGTH. As
   * in Java, `position` is incremented before the store into a closed stream's
   * null buffer fails.
   */
  function EncodeWrite(m: Mode, w: Writer, b: byte): (o: Outcome<Writer, ()>)
    requires m.encode && WriterOk(m, w) && !w.suspended
    ensures WriterOk(m, o.next)
    ensures !o.next.suspended && o.next.closed == w.closed
    ensures o.result.Err? ==> o.next.out == w.out
  {
    if w.closed then Outcome(w.(position := w.position + 1), Err(NullPointer))
    else
      var buffer := w.buffer[w.position := b];
      if w.position + 1 >= 3 then
        var lineLength := w.lineLength + 4;
        var breaks := m.breakLines && lineLength >= MAX_LINE_LENGTH;
        var out := w.out + EncodeGroup(DialectOf(m.options), buffer) + (if breaks then [NEW_LINE] else []);
        Outcome(Writer(0, buffer, if breaks then 0 else lineLength, false, out, false), Ok(()))
      else
        Outcome(w.(position := w.position + 1, buffer := buffer), Ok(()))
  }

  /**
   * write(int) while decoding: a character whose low seven bits are
   * significant is stored and a full buffer is decoded; one whose low seven
   * bits are white space is dropped, and any other throws.
   */
  function DecodeWrite(m: Mode, w: Writer, b: byte): (o: Outcome<Writer, ()>)
    requires !m.encode && WriterOk(m, w) && !w.suspended
    ensures WriterOk(m, o.next)
    ensures !o.next.suspended && o.next.closed == w.closed
    ensures o.result.Err? ==> o.next.out == w.out
  {
    var v := TableValue(Decodabet(DialectOf(m.options), b & 0x7F));
    if v > WHITE_SPACE_ENC then DecodeStore(m, w, b)
    else if v != WHITE_SPACE_ENC then Outcome(w, Err(IO))
    else Outcome(w, Ok(()))
  }

  /** A significant character stored by a decoding stream; the fourth completes a group. */
  function DecodeStore(m: Mode, w: Writer, b: byte): (o: Outcome<Writer, ()>)
    requires !m.encode && WriterOk(m, w) && !w.suspended
    ensures WriterOk(m, o.next)
    ensures !o.next.suspended && o.next.closed == w.closed
    ensures o.result.Err? ==> o.next.out == w.out
  {
    if w.closed then Outcome(w.(position := w.position + 1), Err(NullPointer))
    else if w.position >= 4 then Outcome(w.(position := w.position + 1), Err(IndexOutOfBounds))
    else
      var buffer := w.buffer[w.position := b];
      if w.position + 1 >= 4 then
        var group := DecodeGroup(DialectOf(m.options), buffer);
        if group.Err? then Outcome(w.(position := 4, buffer := buffer), Err(group.error))
        else Outcome(w.(position := 0, buffer := buffer, out := w.out + group.value), Ok(()))
      else
        Outcome(w.(position := w.position + 1, buffer := buffer), Ok(()))
  }

  /** Bytes written one after the other, stopping at the first exception. */
  function AfterWriteAll(m: Mode, w: Writer, s: seq<byte>): (o: Outcome<Writer, ()>)
    requires WriterOk(m, w)
    ensures WriterOk(m, o.next)
    ensures o.next.suspended == w.suspended && o.next.closed == w.closed
    decreases |s|
  {
    if s == [] then Outcome(w, Ok(()))
    else
      var o := AfterWrite(m, w, s[0]);
      if o.result.Err? then o else AfterWriteAll(m, o.next, s[1..])
  }

  /**
   * write(byte[], off, len): while suspended, the wrapped stream's own
   * checks and the bytes passed on; otherwise each byte in turn, the first
   * index outside the array throwing after the ones before it are written.
   */
  function AfterWriteArray(m: Mode, w: Writer, bytes: Option<seq<byte>>, off: int, len: int): Outcome<Writer, ()>
    requires WriterOk(m, w)
  {
    if w.suspended then
      if w.closed || bytes.None? then Outcome(w, Err(NullPointer))
      else if off < 0 || len < 0 || off + len > |bytes.value| then Outcome(w, Err(IndexOutOfBounds))
      else Outcome(w.(out := w.out + bytes.value[off..off + len]), Ok(()))
    else if len <= 0 then Outcome(w, Ok(()))
    else if bytes.None? then Outcome(w, Err(NullPointer))
    else if off < 0 || off >= |bytes.value| then Outcome(w, Err(IndexOutOfBounds))
    else
      var end := if off + len <= |bytes.value| then off + len else |bytes.value|;
      Overrun(AfterWriteAll(m, w, bytes.value[off..end]), off + len > |bytes.value|)
  }

  /** The index after the last byte of the array throws, if the bytes before it were written without one. */
  function Overrun(o: Outcome<Writer, ()>, over: bool): Outcome<Writer, ()>
  {
    if over && o.result.Ok? then Outcome(o.next, Err(IndexOutOfBounds)) else o
  }

  /** flushBase64: a partial group is encoded with padding; when decoding it is an error. */
  function AfterFlush(m: Mode, w: Writer): (o: Outcome<Writer, ()>)
    requires WriterOk(m, w)
    ensures WriterOk(m, o.next)
  {
    if w.position > 0 then
      if !m.encode then Outcome(w, Err(IO))
      else if w.closed then Outcome(w, Err(NullPointer))
      else Outcome(w.(out := w.out + EncodeGroup(DialectOf(m.options), w.buffer[..w.position]), position := 0), Ok(()))
    else Outcome(w, Ok(()))
  }

  /** close(): flushBase64, then the wrapped stream closed; a second close finds it null (Java 8 `FilterOutputStream.close`). */
  function AfterClose(m: Mode, w: Writer): Outcome<Writer, ()>
    requires WriterOk(m, w)
  {
    var o := AfterFlush(m, w);
    if o.result.Err? then o
    else if o.next.closed then Outcome(o.next, Err(NullPointer))
    else Outcome(o.next.(closed := true), Ok(()))
  }

  /** suspendEncoding(): flushBase64, then later bytes are passed on untouched. */
  function AfterSuspend(m: Mode, w: Writer): Outcome<Writer, ()>
    requires WriterOk(m, w)
  {
    var o := AfterFlush(m, w);
    if o.result.Err? then o else Outcome(o.next.(suspended := true), Ok(()))
  }

  // ---------------------------------------------------------------------------
  // The class
  // ---------------------------------------------------------------------------

  class OutputStream {
    const encode: bool
    const breakLines: bool
    const options: Options
    const bufferLength: nat
    const decodabet: Dialect
    const buffer: array<byte>
    /** Scratch space for one group. */
    const b4: array<byte>
    var position: nat
    var lineLength: int
    var suspendEncoding: bool
    /** Everything the wrapped stream has received. */
    var out: seq<byte>
    /** close() has set `buffer` and `out` to null. */
    var closed: bool

    function Settings(): Mode
    {
      Mode(encode, breakLines, options)
    }

    ghost function State(): Writer
      reads this, buffer
    {
      Writer(position, buffer[..], lineLength, suspendEncoding, out, closed)
    }

    /** The fields agree with the options and the arrays have their sizes. */
    ghost predicate Sound()
      reads this
    {
      && Settings() == StreamMode(options)
      && bufferLength == WriterLength(Settings()) && buffer.Length == bufferLength
      && decodabet == DialectOf(options)
      && b4.Length == 4 && buffer != b4
    }

    ghost predicate Valid()
      reads this, buffer, b4
    {
      Sound() && WriterOk(Settings(), State())
    }

    /** OutputStream(out, options), over a wrapped stream that has received nothing yet. */
    constructor (options: Options)
      ensures Valid() && Settings() == StreamMode(options)
      ensures State() == NewWriter(Settings(), buffer[..])
      ensures fresh(buffer) && fresh(b4)
    {
      this.breakLines := options & DO_BREAK_LINES != 0;
      this.encode := options & ENCODE != 0;
      this.bufferLength := if options & ENCODE != 0 then 3 else 4;
      this.buffer := new byte[if options & ENCODE != 0 then 3 else 4];
      this.position := 0;
      this.lineLength := 0;
      this.suspendEncoding := false;
      this.b4 := new byte[4];
      this.options := options;
      this.decodabet := DialectOf(options);
      this.out := [];
      this.closed := false;
    }

    /** write(int): the low eight bits of `theByte`. */
    method Write(theByte: int) returns (r: Result<()>)
      requires Valid()
      modifies this, buffer, b4
      ensures Valid()
      ensures Outcome(State(), r) == AfterWrite(Settings(), old(State()), ToByte(theByte))
    {
      r := WriteByte(ToByte(theByte));
    }

    /** write(int) for a byte already narrowed. */
    method WriteByte(b: byte) returns (r: Result<()>)
      requires Valid()
      modifies this, buffer, b4
      ensures Valid()
      ensures Outcome(State(), r) == AfterWrite(Settings(), old(State()), b)
    {
      if suspendEncoding {
        if closed { return Err(NullPointer); }
        out := out + [b];
        return Ok(());
      }
      if encode {
        if closed {
          position := position + 1;
          return Err(NullPointer);
        }
        EncodeByte(b);
        return Ok(());
      }
      var sbiDecode := TableValue(Decodabet(decodabet, b & 0x7F));
      if sbiDecode > WHITE_SPACE_ENC {
        if closed {
          position := position + 1;
          return Err(NullPointer);
        }
        if position >= bufferLength {
          position := position + 1;
          return Err(IndexOutOfBounds);
        }
        buffer[position] := b;
        position := position + 1;
        if position >= bufferLength {
          r := DecodeBuffer();
          if r.Err? { return; }
          position := 0;
        }
        r := Ok(());
      } else if sbiDecode != WHITE_SPACE_ENC {
        r := Err(IO);
      } else {
        r := Ok(());
      }
    }

    /** The encoding branch of write(int), on an open stream. */
    method EncodeByte(b: byte)
      requires Valid() && encode && !suspendEncoding && !closed
      modifies this, buffer, b4
      ensures Valid()
      ensures State() == AfterWrite(Settings(), old(State()), b).next
    {
      ghost var w := State();
      buffer[position] := b;
      assert buffer[..] == w.buffer[w.position := b];
      position := position + 1;
      if position >= bufferLength {
        EncodeBuffer();
        assert out == w.out + EncodeGroup(DialectOf(options), w.buffer[w.position := b]);
        lineLength := lineLength + 4;
        if breakLines && lineLength >= MAX_LINE_LENGTH {
          out := out + [NEW_LINE];
          lineLength := 0;
        }
        position := 0;
      }
    }

    /** `out.write(encode3to4(b4, buffer, bufferLength, options))`. */
    method EncodeBuffer()
      requires Sound() && encode
      modifies this`out, b4
      ensures out == old(out) + EncodeGroup(decodabet, buffer[..])
    {
      Encode3To4(buffer, 0, bufferLength, b4, 0, options);
      assert buffer[..] == buffer[0..3];
      assert b4[..] == b4[0..4];
      out := out + b4[..];
    }

    /** `len = decode4to3(buffer, 0, b4, 0, options); out.write(b4, 0, len)`. */
    method DecodeBuffer() returns (r: Result<()>)
      requires Sound() && !encode
      modifies this`out, b4
      ensures var group := DecodeGroup(decodabet, buffer[..]);
        && (r.Err? <==> group.Err?)
        && (r.Err? ==> r.error == group.error && out == old(out))
        && (r.Ok? ==> out == old(out) + group.value)
    {
      assert buffer[..] == buffer[..][0..4];
      var len :- Decode4To3(buffer, 0, b4, 0, options);
      out := out + b4[..len];
      r := Ok(());
    }

    /** write(byte[], off, len); the stream's own arrays are private, so no caller can pass them. */
    method WriteBytes(theBytes: array?<byte>, off: int, len: int) returns (r: Result<()>)
      requires Valid() && theBytes != buffer && theBytes != b4
      modifies this, buffer, b4
      ensures Valid()
      ensures Outcome(State(), r)
        == AfterWriteArray(Settings(), old(State()), if theBytes == null then None else Some(theBytes[..]), off, len)
    {
      if suspendEncoding {
        if closed || theBytes == null { return Err(NullPointer); }
        if off < 0 || len < 0 || off + len > theBytes.Length { return Err(IndexOutOfBounds); }
        out := out + theBytes[off..off + len];
        return Ok(());
      }
      if len <= 0 { return Ok(()); }
      if theBytes == null { return Err(NullPointer); }
      if off < 0 || off >= theBytes.Length { return Err(IndexOutOfBounds); }
      r := WriteRange(theBytes, off, len);
    }

    /** The loop of write(byte[], off, len): `theBytes[off + i]` for each `i` below `len`, stopping at the first exception. */
    method WriteRange(theBytes: array<byte>, off: int, len: int) returns (r: Result<()>)
      requires Valid() && theBytes != buffer && theBytes != b4 && !suspendEncoding
      requires 0 <= off < theBytes.Length && 0 < len
      modifies this, buffer, b4
      ensures Valid()
      ensures var end := if off + len <= theBytes.Length then off + len else theBytes.Length;
        Outcome(State(), r) == Overrun(AfterWriteAll(Settings(), old(State()), theBytes[off..end]), off + len > theBytes.Length)
    {
      ghost var w0 := State();
      ghost var m := Settings();
      ghost var bytes := theBytes[..];
      ghost var end := if off + len <= theBytes.Length then off + len else theBytes.Length;
      ghost var all := bytes[off..end];
      assert all == theBytes[off..end];
      var i := 0;
      while i < len
        invariant 0 <= i <= len && off + i <= end
        invariant Valid() && theBytes[..] == bytes && !suspendEncoding && Settings() == m
        invariant AfterWriteAll(m, w0, bytes[off..off + i]) == Outcome(State(), Ok(()))
      {
        if off + i >= theBytes.Length {
          assert bytes[off..off + i] == all;
          return Err(IndexOutOfBounds);
        }
        var b := theBytes[off + i];
        r := WriteAt(b, m, w0, bytes, off, i, end);
        if r.Err? {
          return;
        }
        i := i + 1;
      }
      assert bytes[off..off + i] == all;
      r := Ok(());
    }

    /**
     * Byte `bytes[off + i]` of write(byte[], off, len), after the ones
     * before it: if it throws, so does writing all of `bytes[off..end]`.
     */
    method WriteAt(b: byte, ghost m: Mode, ghost w0: Writer, ghost bytes: seq<byte>, ghost off: nat, ghost i: nat, ghost end: nat)
        returns (r: Result<()>)
      requires Valid() && Settings() == m && WriterOk(m, w0)
      requires off + i < end <= |bytes| && b == bytes[off + i]
      requires AfterWriteAll(m, w0, bytes[off..off + i]) == Outcome(State(), Ok(()))
      modifies this, buffer, b4
      ensures Valid()
      ensures r.Ok? ==> r == Ok(()) && AfterWriteAll(m, w0, bytes[off..off + i + 1]) == Outcome(State(), r)
      ensures r.Err? ==> AfterWriteAll(m, w0, bytes[off..end]) == Outcome(State(), r)
    {
      ghost var w := State();
      r := WriteByte(b);
      SliceSnoc(bytes, off, off + i);
      SliceJoin(bytes, off, off + i + 1, end);
      WriteMore(m, w0, bytes[off..off + i], b, bytes[off..off + i + 1], bytes[off..end], w, State(), r);
    }

    /** flushBase64(). */
    method FlushBase64() returns (r: Result<()>)
      requires Valid()
      modifies this, b4
      ensures Valid()
      ensures Outcome(State(), r) == AfterFlush(Settings(), old(State()))
    {
      if position > 0 {
        if encode {
          if closed { return Err(NullPointer); }
          Encode3To4(buffer, 0, position, b4, 0, options);
          assert buffer[..position] == buffer[0..position];
          assert b4[..] == b4[0..4];
          out := out + b4[..];
          position := 0;
        } else {
          return Err(IO);
        }
      }
      r := Ok(());
    }

    /** close(). */
    method Close() returns (r: Result<()>)
      requires Valid()
      modifies this, b4
      ensures Valid()
      ensures Outcome(State(), r) == AfterClose(Settings(), old(State()))
    {
      r := FlushBase64();
      if r.Err? { return; }
      if closed { return Err(NullPointer); }
      closed := true;
    }

    /** suspendEncoding(). */
    method SuspendEncoding() returns (r: Result<()>)
      requires Valid()
      modifies this, b4
      ensures Valid()
      ensures Outcome(State(), r) == AfterSuspend(Settings(), old(State()))
    {
      r := FlushBase64();
      if r.Err? { return; }
      suspendEncoding := true;
    }

    /** resumeEncoding(). */
    method ResumeEncoding()
      requires Valid()
      modifies this
      ensures Valid()
      ensures State() == old(State()).(suspended := false)
    {
      suspendEncoding := false;
    }
  }

  // ---------------------------------------------------------------------------
  // Writing in pieces
  // ---------------------------------------------------------------------------

  /** Writing `s` and then `b` is writing `s + [b]`. */
  lemma {:induction false} WriteAllSnoc(m: Mode, w: Writer, s: seq<byte>, b: byte)
    requires WriterOk(m, w)
    ensures var o := AfterWriteAll(m, w, s);
      AfterWriteAll(m, w, s + [b]) == if o.result.Err? then o else AfterWrite(m, o.next, b)
    decreases |s|
  {
    if s == [] {
      assert [b][1..] == [];
    } else {
      ConcatTail(s, [b]);
      var o := AfterWrite(m, w, s[0]);
      if o.result.Ok? {
        WriteAllSnoc(m, o.next, s[1..], b);
      }
    }
  }

  /**
   * One more byte `b` after the bytes `s`, leaving `w1` and returning `r`: the
   * bytes `t` written so far if it did not throw, and otherwise all the bytes
   * `all` that start with `t`.
   */
  lemma WriteMore(m: Mode, w0: Writer, s: seq<byte>, b: byte, t: seq<byte>, all: seq<byte>, w: Writer, w1: Writer, r: Result<()>)
    requires WriterOk(m, w0) && t == s + [b] && t <= all
    requires AfterWriteAll(m, w0, s) == Outcome(w, Ok(()))
    requires AfterWrite(m, w, b) == Outcome(w1, r)
    ensures r.Ok? ==> AfterWriteAll(m, w0, t) == Outcome(w1, r)
    ensures r.Err? ==> AfterWriteAll(m, w0, all) == Outcome(w1, r)
  {
    WriteAllSnoc(m, w0, s, b);
    if r.Err? {
      assert all == t + all[|t|..];
      WriteAllStops(m, w0, t, all[|t|..]);
    }
  }

  /** Writing `a + b` is writing `a` and then, unless it threw, `b`. */
  lemma {:induction false} WriteAllAppend(m: Mode, w: Writer, a: seq<byte>, b: seq<byte>)
    requires WriterOk(m, w)
    ensures var o := AfterWriteAll(m, w, a);
      AfterWriteAll(m, w, a + b) == if o.result.Err? then o else AfterWriteAll(m, o.next, b)
    decreases |a|
  {
    if a == [] {
      assert a + b == b;
    } else {
      ConcatTail(a, b);
      var o := AfterWrite(m, w, a[0]);
      if o.result.Ok? {
        WriteAllAppend(m, o.next, a[1..], b);
      }
    }
  }

  /** Once a write throws, nothing after it is written. */
  lemma WriteAllStops(m: Mode, w: Writer, a: seq<byte>, b: seq<byte>)
    requires WriterOk(m, w) && AfterWriteAll(m, w, a).result.Err?
    ensures AfterWriteAll(m, w, a + b) == AfterWriteAll(m, w, a)
  {
    WriteAllAppend(m, w, a, b);
  }

  // ---------------------------------------------------------------------------
  // Encoding through the stream
  // ---------------------------------------------------------------------------

  /**
   * An open, unsuspended encoding stream that has been given `x`: the wrapped
   * stream holds the full groups of `x` as `encodeBytesToBytes` lays them out,
   * and the buffer holds the bytes after them.
   */
  predicate Encoding(m: Mode, x: seq<byte>, w: Writer)
  {
    var g := |x| / 3;
    && m.encode && WriterOk(m, w) && !w.suspended && !w.closed
    && w.position == |x| % 3 && w.buffer[..w.position] == x[3 * g..]
    && w.out == Body(x, DialectOf(m.options), m.breakLines, g)
    && (m.breakLines ==> w.lineLength == 4 * (g % GROUPS_PER_LINE))
  }

  /** The output of full groups depends only on the bytes they cover. */
  lemma {:induction false} BodyOfPrefix(data: seq<byte>, more: seq<byte>, d: Dialect, brk: bool, g: nat)
    requires 3 * g <= |data|
    ensures Body(data + more, d, brk, g) == Body(data, d, brk, g)
  {
    if g > 0 {
      BodyOfPrefix(data, more, d, brk, g - 1);
      assert (data + more)[3 * (g - 1)..3 * g] == data[3 * (g - 1)..3 * g];
    }
  }

  /** The first and second bytes of a group wait in the buffer. */
  lemma EncodingTakes(m: Mode, w: Writer, b: byte)
    requires m.encode && WriterOk(m, w) && !w.suspended && !w.closed && w.position < 2
    ensures AfterWrite(m, w, b) == Outcome(w.(position := w.position + 1, buffer := w.buffer[w.position := b]), Ok(()))
  {
  }

  /** The third byte of a group sends its four characters on, and '\n' when they end a line. */
  lemma EncodingCompletes(m: Mode, w: Writer, b: byte)
    requires m.encode && WriterOk(m, w) && !w.suspended && !w.closed && w.position == 2
    ensures var breaks := m.breakLines && w.lineLength + 4 >= MAX_LINE_LENGTH;
      AfterWrite(m, w, b) == Outcome(Writer(0, w.buffer[2 := b], if breaks then 0 else w.lineLength + 4, false,
        w.out + EncodeGroup(DialectOf(m.options), w.buffer[2 := b]) + (if breaks then [NEW_LINE] else []), false), Ok(()))
  {
  }

  /** The first or second byte of a group, stored, keeps an encoding stream in step. */
  lemma EncodingStoresByte(m: Mode, x: seq<byte>, w: Writer, b: byte)
    requires Encoding(m, x, w) && w.position < 2
    ensures Encoding(m, x + [b], w.(position := w.position + 1, buffer := w.buffer[w.position := b]))
  {
    var g := |x| / 3;
    var y := x + [b];
    var buffer := w.buffer[w.position := b];
    assert |y| / 3 == g;
    assert buffer[..w.position + 1] == w.buffer[..w.position] + [b];
    BodyOfPrefix(x, [b], DialectOf(m.options), m.breakLines, g);
  }

  /** The third byte of a group, encoded and sent on, keeps an encoding stream in step. */
  lemma EncodingSendsGroup(m: Mode, x: seq<byte>, w: Writer, b: byte)
    requires Encoding(m, x, w) && w.position == 2
    ensures var breaks := m.breakLines && w.lineLength + 4 >= MAX_LINE_LENGTH;
      Encoding(m, x + [b], Writer(0, w.buffer[2 := b], if breaks then 0 else w.lineLength + 4, false,
        w.out + EncodeGroup(DialectOf(m.options), w.buffer[2 := b]) + (if breaks then [NEW_LINE] else []), false))
  {
    var d := DialectOf(m.options);
    var g := |x| / 3;
    var y := x + [b];
    var breaks := m.breakLines && w.lineLength + 4 >= MAX_LINE_LENGTH;
    var buffer := w.buffer[2 := b];
    var w' := Writer(0, buffer, if breaks then 0 else w.lineLength + 4, false,
      w.out + EncodeGroup(d, buffer) + (if breaks then [NEW_LINE] else []), false);
    SentGroupBody(x, d, m.breakLines, w.buffer, b);
    SentGroupLine(g, m.breakLines, w.lineLength);
    assert buffer == w.buffer[..2] + [b];
    assert w'.out == Body(y, d, m.breakLines, g + 1);
    EncodingAtGroupEnd(m, y, w', g + 1);
  }

  /** A stream with an empty buffer is in step after `g` full groups when its output and line counter say so. */
  lemma EncodingAtGroupEnd(m: Mode, y: seq<byte>, w: Writer, g: nat)
    requires m.encode && |w.buffer| == 3 && w.position == 0 && !w.suspended && !w.closed
    requires |y| == 3 * g && w.out == Body(y, DialectOf(m.options), m.breakLines, g)
    requires m.breakLines ==> w.lineLength == 4 * (g % GROUPS_PER_LINE)
    ensures Encoding(m, y, w)
  {
    assert |y| / 3 == g && |y| % 3 == 0;
  }

  /** The output after the group `x` completes with `b` is the output before it, that group's characters and its line end. */
  lemma SentGroupBody(x: seq<byte>, d: Dialect, brk: bool, buffer: seq<byte>, b: byte)
    requires |x| % 3 == 2 && |buffer| >= 2 && buffer[..2] == x[3 * (|x| / 3)..]
    ensures var g := |x| / 3;
      && |(x + [b])| == 3 * (g + 1)
      && Body(x + [b], d, brk, g + 1) == Body(x, d, brk, g) + EncodeGroup(d, buffer[..2] + [b]) + LineEnd(brk, g + 1)
  {
    var g := |x| / 3;
    var y := x + [b];
    assert buffer[..2] + [b] == y[3 * g..3 * g + 3];
    BodyOfPrefix(x, [b], d, brk, g);
    BodyNext(y, d, brk, g, 3 * g);
  }

  /** The line counter of a stream that completes group number `g + 1`. */
  lemma SentGroupLine(g: nat, brk: bool, lineLength: int)
    requires brk ==> lineLength == 4 * (g % GROUPS_PER_LINE)
    ensures var breaks := brk && lineLength + 4 >= MAX_LINE_LENGTH;
      && LineEnd(brk, g + 1) == (if breaks then [NEW_LINE] else [])
      && (brk ==> (if breaks then 0 else lineLength + 4) == 4 * ((g + 1) % GROUPS_PER_LINE))
  {
    NextGroup(g, brk);
  }

  /** One byte written to an encoding stream keeps it in step with `encodeBytesToBytes`. */
  lemma EncodingStep(m: Mode, x: seq<byte>, w: Writer, b: byte)
    requires Encoding(m, x, w)
    ensures AfterWrite(m, w, b).result.Ok? && Encoding(m, x + [b], AfterWrite(m, w, b).next)
  {
    if w.position == 2 {
      EncodingCompletes(m, w, b);
      EncodingSendsGroup(m, x, w, b);
    } else {
      EncodingTakes(m, w, b);
      EncodingStoresByte(m, x, w, b);
    }
  }

  /** Any bytes written to an encoding stream keep it in step with `encodeBytesToBytes`. */
  lemma {:induction false} EncodingSteps(m: Mode, x: seq<byte>, w: Writer, s: seq<byte>)
    requires Encoding(m, x, w)
    ensures AfterWriteAll(m, w, s).result.Ok? && Encoding(m, x + s, AfterWriteAll(m, w, s).next)
    decreases |s|
  {
    if s == [] {
      assert x + s == x;
    } else {
      EncodingStep(m, x, w, s[0]);
      EncodingSteps(m, x + [s[0]], AfterWrite(m, w, s[0]).next, s[1..]);
      assert x + [s[0]] + s[1..] == x + s;
    }
  }

  /** Flushing an encoding stream that has been given `x` completes the encoding of `x`. */
  lemma FlushEncoded(m: Mode, x: seq<byte>, w: Writer)
    requires Encoding(m, x, w)
    ensures AfterFlush(m, w).result.Ok? && AfterFlush(m, w).next.out == Encoded(x, DialectOf(m.options), m.breakLines)
  {
    var g := |x| / 3;
    EncodedSplit(x, DialectOf(m.options), m.breakLines, g, 3 * g, |x| - 3 * g);
    assert x[3 * g..] == x[3 * g..3 * g + (|x| - 3 * g)];
  }

  /**
   * Bytes written to a new encoding stream and flushed reach the wrapped
   * stream exactly as `encodeBytesToBytes` (without GZIP) encodes them, line
   * breaks included.
   */
  lemma EncodingStreamMatchesArray(options: Options, buffer: seq<byte>, x: seq<byte>)
    requires options & ENCODE == ENCODE && |buffer| == 3
    ensures var m := StreamMode(options);
      var o := AfterWriteAll(m, NewWriter(m, buffer), x);
      && o.result.Ok? && AfterFlush(m, o.next).result.Ok?
      && AfterFlush(m, o.next).next.out == EncodeChecked(Some(x), 0, |x|, options).value
      && EncodeChecked(Some(x), 0, |x|, options).Ok?
  {
    var m := StreamMode(options);
    var w0 := NewWriter(m, buffer);
    assert Encoding(m, [], w0);
    EncodingFromStart(m, w0, x);
    assert x[0..|x|] == x;
  }

  /** Bytes written to an encoding stream that has been given nothing, and flushed, are encoded as `encodeBytesToBytes` does. */
  lemma EncodingFromStart(m: Mode, w: Writer, x: seq<byte>)
    requires Encoding(m, [], w)
    ensures var o := AfterWriteAll(m, w, x);
      && o.result.Ok? && AfterFlush(m, o.next).result.Ok?
      && AfterFlush(m, o.next).next.out == Encoded(x, DialectOf(m.options), m.breakLines)
  {
    EncodingSteps(m, [], w, x);
    assert [] + x == x;
    FlushEncoded(m, x, AfterWriteAll(m, w, x).next);
  }

  /** Flushing an encoding stream with a partial group pads it to four characters. */
  lemma FlushPads(m: Mode, x: seq<byte>, w: Writer)
    requires Encoding(m, x, w) && |x| % 3 != 0
    ensures var o := AfterFlush(m, w);
      && o.result.Ok? && o.next.position == 0
      && o.next.out == w.out + EncodeGroup(DialectOf(m.options), x[|x| / 3 * 3..])
      && EQUALS_SIGN in o.next.out[|w.out|..]
  {
    var q := EncodeGroup(DialectOf(m.options), x[|x| / 3 * 3..]);
    GroupShape(DialectOf(m.options), x[|x| / 3 * 3..]);
    assert (w.out + q)[|w.out|..] == q;
    assert q[3] == EQUALS_SIGN;
  }

  /** Each write to an open, unsuspended encoding stream passes on nothing, four characters, or four and '\n'. */
  lemma EncodingWriteGrowth(m: Mode, w: Writer, b: byte)
    requires m.encode && WriterOk(m, w) && !w.suspended && !w.closed
    ensures var o := AfterWrite(m, w, b);
      && o.result.Ok?
      && (w.position < 2 ==> o.next.out == w.out && o.next.position == w.position + 1)
      && (w.position == 2 ==> o.next.position == 0 && 4 <= |o.next.out| - |w.out| <= 5)
  {
  }

  // ---------------------------------------------------------------------------
  // Decoding through the stream
  // ---------------------------------------------------------------------------

  /** An open, unsuspended decoding stream between groups. */
  predicate Decoding(m: Mode, w: Writer)
  {
    !m.encode && WriterOk(m, w) && !w.suspended && !w.closed && w.position == 0
  }

  /** A character whose low seven bits have no table entry makes a decoding stream throw, changing nothing. */
  lemma InvalidCharacterThrows(m: Mode, w: Writer, b: byte)
    requires !m.encode && WriterOk(m, w) && !w.suspended
    requires Decodabet(DialectOf(m.options), b & 0x7F) == Invalid
    ensures AfterWrite(m, w, b) == Outcome(w, Err(IO))
  {
  }

  /** Flushing a decoding stream that holds part of a group throws. */
  lemma PartialGroupThrows(m: Mode, w: Writer)
    requires !m.encode && WriterOk(m, w) && w.position > 0
    ensures AfterFlush(m, w) == Outcome(w, Err(IO))
  {
  }

  /** A significant character joins the group a decoding stream is collecting. */
  lemma DecodingTakes(m: Mode, w: Writer, c: byte)
    requires !m.encode && WriterOk(m, w) && !w.suspended && !w.closed && w.position < 3
    requires c < 0x80 && (Decodabet(DialectOf(m.options), c).Sextet? || c == EQUALS_SIGN)
    ensures AfterWrite(m, w, c) == Outcome(w.(position := w.position + 1, buffer := w.buffer[w.position := c]), Ok(()))
  {
    assert c & 0x7F == c;
  }

  /** The fourth significant character completes the group, whose bytes a decoding stream passes on. */
  lemma DecodingCompletes(m: Mode, w: Writer, c: byte)
    requires !m.encode && WriterOk(m, w) && !w.suspended && !w.closed && w.position == 3
    requires c < 0x80 && (Decodabet(DialectOf(m.options), c).Sextet? || c == EQUALS_SIGN)
    requires DecodeGroup(DialectOf(m.options), w.buffer[3 := c]).Ok?
    ensures AfterWrite(m, w, c) == Outcome(w.(position := 0, buffer := w.buffer[3 := c],
      out := w.out + DecodeGroup(DialectOf(m.options), w.buffer[3 := c]).value), Ok(()))
  {
    assert c & 0x7F == c;
  }

  /** The four characters of an encoded group, written to a decoding stream, pass on the group's bytes. */
  lemma DecodingGroup(m: Mode, w: Writer, g: seq<byte>)
    requires Decoding(m, w) && 1 <= |g| <= 3
    ensures var q := EncodeGroup(DialectOf(m.options), g);
      AfterWriteAll(m, w, q) == Outcome(w.(buffer := q, out := w.out + g), Ok(()))
  {
    var d := DialectOf(m.options);
    GroupCharacters(d, g, 0);
    GroupCharacters(d, g, 1);
    GroupCharacters(d, g, 2);
    GroupCharacters(d, g, 3);
    GroupRoundTrip(d, g);
    DecodingFour(m, w, EncodeGroup(d, g), g);
  }

  /** Four characters with table entries, written to a decoding stream, pass on the bytes the group decodes to. */
  lemma DecodingFour(m: Mode, w: Writer, q: seq<byte>, bytes: seq<byte>)
    requires Decoding(m, w) && |q| == 4
    requires forall k :: 0 <= k < 4 ==> q[k] < 0x80 && (Decodabet(DialectOf(m.options), q[k]).Sextet? || q[k] == EQUALS_SIGN)
    requires DecodeGroup(DialectOf(m.options), q) == Ok(bytes)
    ensures AfterWriteAll(m, w, q) == Outcome(w.(buffer := q, out := w.out + bytes), Ok(()))
  {
    var w1 := w.(position := 1, buffer := w.buffer[0 := q[0]]);
    var w2 := w1.(position := 2, buffer := w1.buffer[1 := q[1]]);
    var w3 := w2.(position := 3, buffer := w2.buffer[2 := q[2]]);
    assert w3.buffer[3 := q[3]] == q;
    calc {
      AfterWriteAll(m, w, q);
      { DecodingTakes(m, w, q[0]); }
      AfterWriteAll(m, w1, q[1..]);
      { DecodingTakes(m, w1, q[1]); assert q[1..][1..] == q[2..]; }
      AfterWriteAll(m, w2, q[2..]);
      { DecodingTakes(m, w2, q[2]); assert q[2..][1..] == q[3..]; }
      AfterWriteAll(m, w3, q[3..]);
      { DecodingCompletes(m, w3, q[3]); assert q[3..][1..] == []; }
      Outcome(w.(buffer := q, out := w.out + bytes), Ok(()));
    }
  }

  /** A line feed written to a decoding stream is dropped. */
  lemma DecodingSkipsNewLine(m: Mode, w: Writer)
    requires Decoding(m, w)
    ensures AfterWriteAll(m, w, [NEW_LINE]) == Outcome(w, Ok(()))
  {
  }

  /** A full group and the line end after it, written to a decoding stream, pass on the group's bytes. */
  lemma DecodingGroupLine(m: Mode, w: Writer, group: seq<byte>, brk: bool, g: nat)
    requires Decoding(m, w) && |group| == 3
    ensures var o := AfterWriteAll(m, w, EncodeGroup(DialectOf(m.options), group) + LineEnd(brk, g));
      o.result.Ok? && Decoding(m, o.next) && o.next.out == w.out + group
  {
    var q := EncodeGroup(DialectOf(m.options), group);
    WriteAllAppend(m, w, q, LineEnd(brk, g));
    DecodingGroup(m, w, group);
    if LineEnd(brk, g) != [] {
      DecodingSkipsNewLine(m, AfterWriteAll(m, w, q).next);
    }
  }

  /** The full groups of an encoding, written to a decoding stream, pass on the bytes they encode. */
  lemma {:induction false} DecodingBody(m: Mode, w: Writer, x: seq<byte>, brk: bool, g: nat)
    requires Decoding(m, w) && 3 * g <= |x|
    ensures var o := AfterWriteAll(m, w, Body(x, DialectOf(m.options), brk, g));
      o.result.Ok? && Decoding(m, o.next) && o.next.out == w.out + x[..3 * g]
  {
    var d := DialectOf(m.options);
    if g > 0 {
      var group := x[3 * (g - 1)..3 * g];
      var tail := EncodeGroup(d, group) + LineEnd(brk, g);
      var front := Body(x, d, brk, g - 1);
      assert Body(x, d, brk, g) == front + tail;
      DecodingBody(m, w, x, brk, g - 1);
      WriteAllAppend(m, w, front, tail);
      DecodingGroupLine(m, AfterWriteAll(m, w, front).next, group, brk, g);
      SliceJoin(x, 0, 3 * (g - 1), 3 * g);
      assert x[..3 * (g - 1)] == x[0..3 * (g - 1)] && x[..3 * g] == x[0..3 * g];
      ConcatAssoc(w.out, x[..3 * (g - 1)], group);
    } else {
      assert Body(x, d, brk, 0) == [];
    }
  }

  /** An encoding, written to a decoding stream between groups, passes on the bytes it encodes. */
  lemma DecodingEncoded(m: Mode, w: Writer, x: seq<byte>, brk: bool)
    requires Decoding(m, w)
    ensures var o := AfterWriteAll(m, w, Encoded(x, DialectOf(m.options), brk));
      o.result.Ok? && Decoding(m, o.next) && o.next.out == w.out + x
  {
    var d := DialectOf(m.options);
    var g := |x| / 3;
    var body := Body(x, d, brk, g);
    DecodingBody(m, w, x, brk, g);
    var w1 := AfterWriteAll(m, w, body).next;
    if 3 * g < |x| {
      var last := x[3 * g..];
      WriteAllAppend(m, w, body, EncodeGroup(d, last));
      DecodingGroup(m, w1, last);
      PrefixJoin(x, 3 * g);
      ConcatAssoc(w.out, x[..3 * g], last);
    } else {
      assert body + [] == body;
      assert x[..3 * g] == x;
    }
  }

  /**
   * The characters `encodeBytesToBytes` produces for `x`, written to a new
   * decoding stream with the same alphabet, pass `x` on and leave no partial
   * group, so a flush succeeds.
   */
  lemma DecodingStreamRoundTrip(options: Options, buffer: seq<byte>, x: seq<byte>, encodeOptions: Options)
    requires options & ENCODE == 0 && |buffer| == 4
    requires DialectOf(encodeOptions) == DialectOf(options)
    ensures EncodeChecked(Some(x), 0, |x|, encodeOptions).Ok?
    ensures var m := StreamMode(options);
      var o := AfterWriteAll(m, NewWriter(m, buffer), EncodeChecked(Some(x), 0, |x|, encodeOptions).value);
      && o.result.Ok? && o.next.out == x
      && AfterFlush(m, o.next) == Outcome(o.next, Ok(()))
  {
    var m := StreamMode(options);
    assert x[0..|x|] == x;
    DecodingEncoded(m, NewWriter(m, buffer), x, encodeOptions & DO_BREAK_LINES != 0);
    assert [] + x == x;
  }
}
