/**
 * Base64.InputStream: a filter that reads the stream it wraps three bytes at
 * a time and hands out their encoding character by character, or reads four
 * significant characters at a time and hands out the bytes they decode to.
 *
 * `Reader` is the stream's state and `AfterRead` and `AfterReadArray` are
 * its two read methods as functions; the class `InputStream` holds the same
 * fields and its methods are proved to make exactly the changes those
 * functions describe. The wrapped stream is the sequence of bytes it has
 * left to give. The lemmas show that reading an encoding stream to its end
 * gives what `encodeBytesToBytes` gives, less a final line feed, and that
 * reading a decoding stream over such an encoding gives the bytes back.
 */
module Base64InputStream {
  import opened Common
  import opened Base64Tables
  import opened Base64Codec

  /**
   * The fields of the stream that change: the next index of `buffer` to hand
   * out (-1 when the next read refills it), how many of the buffer's bytes
   * are meaningful, the characters handed out on the current line, and what
   * the wrapped stream has left.
   */
  datatype Reader = Reader(position: int, buffer: seq<byte>, numSigBytes: int, lineLength: int, input: seq<byte>)

  /** The states read() works on: `position` is -1 or an index of a buffer that has room for a decoded group. */
  type ReadState = r: Reader | 3 <= |r.buffer| && -1 <= r.position < |r.buffer|
    witness Reader(-1, [0, 0, 0], 0, 0, [])

  /** `bufferLength`: four characters when encoding, three bytes when decoding. */
  function ReaderLength(m: Mode): nat
  {
    if m.encode then 4 else 3
  }

  /** The buffer has the length the constructor gives it. */
  predicate ReaderOk(m: Mode, r: Reader)
  {
    |r.buffer| == ReaderLength(m) && -1 <= r.position < |r.buffer|
  }

  /** The state the constructor leaves over a wrapped stream holding `input`. */
  function NewReader(m: Mode, buffer: seq<byte>, input: seq<byte>): Reader
  {
    Reader(-1, buffer, 0, 0, input)
  }

  // ---------------------------------------------------------------------------
  // Significant characters
  // ---------------------------------------------------------------------------

  /** `decodabet[b & 0x7f] > WHITE_SPACE_ENC`: the low seven bits are a digit or '='. */
  predicate Significant(d: Dialect, c: byte)
  {
    TableValue(Decodabet(d, c & 0x7F)) > WHITE_SPACE_ENC
  }

  /**
   * The test a decoding stream applies to each character it reads. The
   * functions and lemmas below take the test as a parameter.
   */
  function SignificantIn(d: Dialect): byte -> bool
  {
    c => Significant(d, c)
  }

  /** The characters a decoding refill takes: one encoded group. */
  const GROUP_CHARS: nat := 4

  /** The significant characters of `s` from index `i` on, in order. */
  function SignificantFrom(sig: byte -> bool, s: seq<byte>, i: nat): seq<byte>
    requires i <= |s|
    decreases |s| - i
  {
    if i == |s| then []
    else (if sig(s[i]) then [s[i]] else []) + SignificantFrom(sig, s, i + 1)
  }

  /**
   * The inner do-while loop of read(), started at index `i`: the index of
   * the first significant character, or |s| when there is none. White space
   * and invalid characters alike are passed over.
   */
  function SkipFrom(sig: byte -> bool, s: seq<byte>, i: nat): (k: nat)
    requires i <= |s|
    ensures i <= k <= |s|
    decreases |s| - i
  {
    if i == |s| || sig(s[i]) then i else SkipFrom(sig, s, i + 1)
  }

  /** The inner loop passes over insignificant characters only, and stops at a significant one or at the end. */
  lemma {:induction false} SkipFromStops(sig: byte -> bool, s: seq<byte>, i: nat)
    requires i <= |s|
    ensures var k := SkipFrom(sig, s, i);
      (forall j :: i <= j < k ==> !sig(s[j])) && (k < |s| ==> sig(s[k]))
    decreases |s| - i
  {
    if i < |s| && !sig(s[i]) {
      SkipFromStops(sig, s, i + 1);
    }
  }

  /** The characters a refill of a decoding stream takes, and the index of the first character it did not read. */
  datatype Taken = Taken(chars: seq<byte>, end: nat)

  /**
   * The outer loop of a decoding refill, started at index `i`: up to `n`
   * significant characters, each after the characters the inner loop passes
   * over; the end of the wrapped stream stops it early.
   */
  function TakeFrom(sig: byte -> bool, s: seq<byte>, i: nat, n: nat): (t: Taken)
    requires i <= |s|
    ensures i <= t.end <= |s| && |t.chars| <= n
    ensures |t.chars| < n ==> t.end == |s|
    decreases n
  {
    if n == 0 then Taken([], i)
    else
      var k := SkipFrom(sig, s, i);
      if k == |s| then Taken([], |s|)
      else
        var t := TakeFrom(sig, s, k + 1, n - 1);
        Taken([s[k]] + t.chars, t.end)
  }

  /** Insignificant characters from `i` up to `k`, and a significant one or the end at `k`: the inner loop stops at `k`. */
  lemma {:induction false} SkipFromAt(sig: byte -> bool, s: seq<byte>, i: nat, k: nat)
    requires i <= k <= |s|
    requires forall j :: i <= j < k ==> !sig(s[j])
    requires k < |s| ==> sig(s[k])
    ensures SkipFrom(sig, s, i) == k
    decreases k - i
  {
    if i < k {
      SkipFromAt(sig, s, i + 1, k);
    }
  }

  /** Insignificant characters contribute nothing to the significant characters. */
  lemma {:induction false} SignificantPassesOver(sig: byte -> bool, s: seq<byte>, i: nat, k: nat)
    requires i <= k <= |s|
    requires forall j :: i <= j < k ==> !sig(s[j])
    ensures SignificantFrom(sig, s, i) == SignificantFrom(sig, s, k)
    decreases k - i
  {
    if i < k {
      assert !sig(s[i]);
      assert SignificantFrom(sig, s, i) == [] + SignificantFrom(sig, s, i + 1);
      SignificantPassesOver(sig, s, i + 1, k);
    }
  }

  /** The significant characters from `i` on: the first one the inner loop stops at, then the rest. */
  lemma SkipSignificant(sig: byte -> bool, s: seq<byte>, i: nat)
    requires i <= |s|
    ensures var k := SkipFrom(sig, s, i);
      SignificantFrom(sig, s, i) == if k < |s| then [s[k]] + SignificantFrom(sig, s, k + 1) else []
  {
    var k := SkipFrom(sig, s, i);
    SkipFromStops(sig, s, i);
    SignificantPassesOver(sig, s, i, k);
    if k < |s| {
      assert sig(s[k]);
      assert SignificantFrom(sig, s, k) == [s[k]] + SignificantFrom(sig, s, k + 1);
    }
  }

  /** A refill takes exactly the significant characters of what it reads: those it takes and those after it make up all of them. */
  lemma {:induction false} TakenChars(sig: byte -> bool, s: seq<byte>, i: nat, n: nat)
    requires i <= |s|
    ensures var t := TakeFrom(sig, s, i, n);
      t.chars + SignificantFrom(sig, s, t.end) == SignificantFrom(sig, s, i)
    decreases n
  {
    SkipSignificant(sig, s, i);
    if n > 0 && SkipFrom(sig, s, i) < |s| {
      var k := SkipFrom(sig, s, i);
      var t := TakeFrom(sig, s, k + 1, n - 1);
      TakenChars(sig, s, k + 1, n - 1);
      ConcatAssoc([s[k]], t.chars, SignificantFrom(sig, s, t.end));
    }
  }

  /** Part way through a refill: `got` is taken, and `left` characters are still to be found from index `at`; the refill as a whole takes `whole`. */
  ghost predicate TakingFrom(sig: byte -> bool, s: seq<byte>, whole: Taken, got: seq<byte>, at: nat, left: nat)
    requires at <= |s|
  {
    whole == Taken(got + TakeFrom(sig, s, at, left).chars, TakeFrom(sig, s, at, left).end)
  }

  /** A refill whose inner loop reaches the end takes nothing more: what was taken before is all. */
  lemma TakeNone(sig: byte -> bool, s: seq<byte>, i: nat, n: nat, whole: Taken, before: seq<byte>)
    requires i <= |s| && n > 0 && SkipFrom(sig, s, i) == |s|
    requires TakingFrom(sig, s, whole, before, i, n)
    ensures whole == Taken(before, |s|)
  {
    assert TakeFrom(sig, s, i, n) == Taken([], |s|);
    assert before + [] == before;
  }

  /** A refill with nothing left to find takes what it has. */
  lemma TakeDone(sig: byte -> bool, s: seq<byte>, whole: Taken, got: seq<byte>, at: nat)
    requires at <= |s| && TakingFrom(sig, s, whole, got, at, 0)
    ensures whole == Taken(got, at)
  {
    assert got + [] == got;
  }

  /** A refill whose inner loop stops at a significant character takes it, then goes on after it. */
  lemma TakeOne(sig: byte -> bool, s: seq<byte>, i: nat, n: nat, whole: Taken, before: seq<byte>, c: byte,
                after: seq<byte>, j: nat, m: nat)
    requires i <= |s| && n > 0 && SkipFrom(sig, s, i) < |s| && c == s[SkipFrom(sig, s, i)]
    requires TakingFrom(sig, s, whole, before, i, n)
    requires after == before + [c] && j == SkipFrom(sig, s, i) + 1 && m == n - 1
    ensures TakingFrom(sig, s, whole, after, j, m)
  {
    var t := TakeFrom(sig, s, j, m);
    assert TakeFrom(sig, s, i, n) == Taken([c] + t.chars, t.end);
    ConcatAssoc(before, [c], t.chars);
  }

  /** Starting the inner loop later, but not past the character it stops at, changes nothing. */
  lemma {:induction false} SkipLater(sig: byte -> bool, s: seq<byte>, i: nat, j: nat)
    requires i <= |s| && i <= j <= SkipFrom(sig, s, i)
    ensures SkipFrom(sig, s, j) == SkipFrom(sig, s, i)
    decreases j - i
  {
    if i < j {
      SkipLater(sig, s, i + 1, j);
    }
  }

  /** Starting a refill later, past characters it would pass over anyway, changes nothing. */
  lemma TakeLater(sig: byte -> bool, s: seq<byte>, i: nat, j: nat, n: nat)
    requires n > 0 && i <= |s| && i <= j <= SkipFrom(sig, s, i)
    ensures TakeFrom(sig, s, j, n) == TakeFrom(sig, s, i, n)
  {
    SkipLater(sig, s, i, j);
  }

  /** The inner loop over a suffix stops at the same character. */
  lemma {:induction false} SkipShift(sig: byte -> bool, s: seq<byte>, j: nat, i: nat)
    requires j <= i <= |s|
    ensures SkipFrom(sig, s[j..], i - j) == SkipFrom(sig, s, i) - j
    decreases |s| - i
  {
    if i < |s| {
      assert s[j..][i - j] == s[i];
      if !sig(s[i]) {
        SkipShift(sig, s, j, i + 1);
      }
    }
  }

  /** A refill over a suffix takes the same characters and stops at the same place. */
  lemma {:induction false} TakeShift(sig: byte -> bool, s: seq<byte>, j: nat, i: nat, n: nat)
    requires j <= i <= |s|
    ensures var t := TakeFrom(sig, s, i, n);
      TakeFrom(sig, s[j..], i - j, n) == Taken(t.chars, t.end - j)
    decreases n
  {
    if n > 0 {
      SkipShift(sig, s, j, i);
      var k := SkipFrom(sig, s, i);
      if k < |s| {
        assert s[j..][k - j] == s[k];
        TakeShift(sig, s, j, k + 1, n - 1);
      }
    }
  }

  /** Characters passed over, then four significant ones: a refill takes those four and stops after them. */
  lemma TakeGroup(sig: byte -> bool, s: seq<byte>, i: nat, p: nat)
    requires i <= p && p + 4 <= |s|
    requires forall j :: i <= j < p ==> !sig(s[j])
    requires sig(s[p]) && sig(s[p + 1]) && sig(s[p + 2]) && sig(s[p + 3])
    ensures TakeFrom(sig, s, i, 4) == Taken(s[p..p + 4], p + 4)
  {
    assert TakeFrom(sig, s, p + 4, 0) == Taken(s[p + 4..p + 4], p + 4);
    TakeSignificant(sig, s, p + 3, 1, p + 4);
    TakeSignificant(sig, s, p + 2, 2, p + 4);
    TakeSignificant(sig, s, p + 1, 3, p + 4);
    TakeSignificant(sig, s, p, 4, p + 4);
    SkipFromAt(sig, s, i, p);
    TakeLater(sig, s, i, p, 4);
  }

  /** A refill from a significant character takes it, then what the refill after it takes. */
  lemma TakeSignificant(sig: byte -> bool, s: seq<byte>, i: nat, n: nat, end: nat)
    requires i < end <= |s| && sig(s[i]) && n > 0
    requires TakeFrom(sig, s, i + 1, n - 1) == Taken(s[i + 1..end], end)
    ensures TakeFrom(sig, s, i, n) == Taken(s[i..end], end)
  {
    SkipFromAt(sig, s, i, i);
    assert [s[i]] + s[i + 1..end] == s[i..end];
  }

  /** The characters of an encoded group are significant; a line feed is not. */
  lemma GroupSignificant(d: Dialect, g: seq<byte>, k: nat)
    requires 1 <= |g| <= 3 && k < 4
    ensures Significant(d, EncodeGroup(d, g)[k]) && !Significant(d, NEW_LINE)
  {
    GroupCharacters(d, g, k);
    var c := EncodeGroup(d, g)[k];
    assert c & 0x7F == c;
  }

  // ---------------------------------------------------------------------------
  // read()
  // ---------------------------------------------------------------------------

  /**
   * Handing out from a filled buffer: -1 past its meaningful bytes (a
   * decoded group shorter than three bytes ends the stream there); '\n'
   * instead when an encoding stream's line is full; otherwise the next
   * character or byte, after which a spent buffer is marked for refilling.
   */
  function Serve(m: Mode, r: ReadState): (o: Outcome<ReadState, Option<byte>>)
    requires r.position >= 0
    ensures o.next.buffer == r.buffer && o.next.input == r.input && o.next.numSigBytes == r.numSigBytes
    ensures o.result.Ok? && (o.result.value.None? <==> r.position >= r.numSigBytes)
  {
    if r.position >= r.numSigBytes then Outcome(r, Ok(None))
    else if m.encode && m.breakLines && r.lineLength >= MAX_LINE_LENGTH then
      Outcome(r.(lineLength := 0), Ok(Some(NEW_LINE)))
    else
      var p := r.position + 1;
      Outcome(r.(lineLength := r.lineLength + 1, position := if p >= |r.buffer| then -1 else p),
              Ok(Some(r.buffer[r.position])))
  }

  /**
   * The refill of an encoding stream: up to three bytes read and encoded
   * into the buffer; `false` when none were left.
   */
  function EncodeFill(m: Mode, r: ReadState): (o: Outcome<ReadState, bool>)
    ensures o.result.Ok?
    ensures o.result.value ==> o.next.position == 0 && |o.next.buffer| == 4
    ensures !o.result.value ==> o.next == r && r.input == []
  {
    var n := if |r.input| < 3 then |r.input| else 3;
    if n == 0 then Outcome(r, Ok(false))
    else Outcome(r.(position := 0, buffer := EncodeGroup(DialectOf(m.options), r.input[..n]), numSigBytes := 4,
                    input := r.input[n..]), Ok(true))
  }

  /**
   * The refill of a decoding stream: four significant characters decoded
   * into the front of the buffer; `false` when none were left, and one to
   * three before the end throw.
   */
  function DecodeFill(m: Mode, r: ReadState): (o: Outcome<ReadState, bool>)
    ensures |o.next.buffer| == |r.buffer|
    ensures o.result == Ok(true) ==> o.next.position == 0
    ensures o.result == Ok(false) ==> o.next == r.(input := [])
  {
    var t := TakeFrom(SignificantIn(DialectOf(m.options)), r.input, 0, GROUP_CHARS);
    DecodeTaken(m, r.(input := r.input[t.end..]), t.chars)
  }

  /** What a decoding refill does with the characters it took, `taken` being the state after reading them. */
  function DecodeTaken(m: Mode, taken: ReadState, chars: seq<byte>): (o: Outcome<ReadState, bool>)
    ensures |o.next.buffer| == |taken.buffer|
    ensures o.result == Ok(true) ==> o.next.position == 0
    ensures o.result == Ok(false) <==> chars == []
    ensures o.result != Ok(true) ==> o.next == taken
  {
    if |chars| == 4 then
      var group := DecodeGroup(DialectOf(m.options), chars);
      if group.Err? then Outcome(taken, Err(group.error))
      else Outcome(taken.(position := 0, numSigBytes := |group.value|,
                          buffer := group.value + taken.buffer[|group.value|..]), Ok(true))
    else if |chars| == 0 then Outcome(taken, Ok(false))
    else Outcome(taken, Err(IO))
  }

  /**
   * read(): a refill when the buffer is spent, then the next character or
   * byte. Java's int result, `b & 0xFF` or -1 at the end of the stream, is
   * `Some(b)` or `None` here.
   */
  function AfterRead(m: Mode, r: ReadState): (o: Outcome<ReadState, Option<byte>>)
    ensures ReaderOk(m, r) ==> ReaderOk(m, o.next)
  {
    if r.position >= 0 then Serve(m, r)
    else
      var f := if m.encode then EncodeFill(m, r) else DecodeFill(m, r);
      if f.result.Err? then Outcome(f.next, Err(f.result.error))
      else if !f.result.value then Outcome(f.next, Ok(None))
      else Serve(m, f.next)
  }

  /** read()'s int result. */
  function ReadValue(b: Option<byte>): (v: int)
    ensures -1 <= v < 256 && (v == -1 <==> b.None?)
  {
    if b.None? then -1 else b.value as int
  }

  /** read() as a function of the state alone. */
  function Reading(m: Mode): ReadState -> Outcome<ReadState, Option<byte>>
  {
    r => AfterRead(m, r)
  }

  // ---------------------------------------------------------------------------
  // Successive reads, for any read() that returns a byte, -1 or an exception
  // ---------------------------------------------------------------------------

  /** What successive reads hand out: the bytes, then the exception, or whether -1 came. */
  datatype Drained<S> = Drained(next: S, bytes: seq<byte>, error: Option<Exception>, ended: bool)

  /** `s` handed out before whatever `dr` records. */
  function Prepend<S>(s: seq<byte>, dr: Drained<S>): Drained<S>
  {
    dr.(bytes := s + dr.bytes)
  }

  /** Up to `n` reads, stopping at the first -1 or exception. */
  function Drain<S>(step: S -> Outcome<S, Option<byte>>, s: S, n: nat): (dr: Drained<S>)
    ensures |dr.bytes| <= n
    ensures dr.error.None? && !dr.ended ==> |dr.bytes| == n
    decreases n
  {
    if n == 0 then Drained(s, [], None, false)
    else
      var o := step(s);
      if o.result.Err? then Drained(o.next, [], Some(o.result.error), false)
      else if o.result.value.None? then Drained(o.next, [], None, true)
      else Prepend([o.result.value.value], Drain(step, o.next, n - 1))
  }

  /** A read that hands out a byte puts it before the reads that follow. */
  lemma DrainOne<S>(step: S -> Outcome<S, Option<byte>>, s: S, n: nat)
    requires step(s).result.Ok? && step(s).result.value.Some?
    ensures Drain(step, s, n + 1) == Prepend([step(s).result.value.value], Drain(step, step(s).next, n))
  {
  }

  /** A read that returns -1 ends the reads. */
  lemma DrainEnds<S>(step: S -> Outcome<S, Option<byte>>, s: S, n: nat)
    requires step(s).result == Ok(None)
    ensures Drain(step, s, n + 1) == Drained(step(s).next, [], None, true)
  {
  }

  /** Reads that each hand out a byte, in a row, hand out those bytes. */
  lemma {:induction false} DrainRun<S>(step: S -> Outcome<S, Option<byte>>, states: seq<S>, bytes: seq<byte>, n: nat)
    requires |states| == |bytes| + 1
    requires forall i :: 0 <= i < |bytes| ==> step(states[i]) == Outcome(states[i + 1], Ok(Some(bytes[i])))
    ensures Drain(step, states[0], |bytes| + n) == Prepend(bytes, Drain(step, states[|bytes|], n))
    decreases |bytes|
  {
    if bytes != [] {
      DrainRun(step, states[1..], bytes[1..], n);
      assert |bytes| + n == (|bytes[1..]| + n) + 1;
      DrainOne(step, states[0], |bytes[1..]| + n);
      ConcatAssoc([bytes[0]], bytes[1..], Drain(step, states[|bytes|], n).bytes);
      assert [bytes[0]] + bytes[1..] == bytes;
    }
  }

  /** Two states whose next read is the same give the same reads. */
  lemma DrainSame<S>(step: S -> Outcome<S, Option<byte>>, s: S, s': S, n: nat)
    requires n > 0 && step(s) == step(s')
    ensures Drain(step, s, n) == Drain(step, s', n)
  {
  }

  /** Reads split in two: those of the first part, when it neither ended nor threw, then the rest. */
  lemma {:induction false} DrainSplit<S>(step: S -> Outcome<S, Option<byte>>, s: S, a: nat, b: nat)
    requires Drain(step, s, a).error.None? && !Drain(step, s, a).ended
    ensures Drain(step, s, a + b) == Prepend(Drain(step, s, a).bytes, Drain(step, Drain(step, s, a).next, b))
    decreases a
  {
    if a > 0 {
      var o := step(s);
      DrainSplit(step, o.next, a - 1, b);
      assert a + b - 1 == (a - 1) + b;
      ConcatAssoc([o.result.value.value], Drain(step, o.next, a - 1).bytes,
                  Drain(step, Drain(step, s, a).next, b).bytes);
    }
  }

  /** Bytes handed out before reads that hand out the rest and then end: all of them, then the end. */
  lemma DrainThen<S>(step: S -> Outcome<S, Option<byte>>, s: S, s': S, out: seq<byte>, rest: seq<byte>)
    requires Drain(step, s, |out| + |rest| + 1) == Prepend(out, Drain(step, s', |rest| + 1))
    requires var dr := Drain(step, s', |rest| + 1); dr.bytes == rest && dr.error.None? && dr.ended
    ensures var dr := Drain(step, s, |out + rest| + 1); dr.bytes == out + rest && dr.error.None? && dr.ended
  {
  }

  /** Reads that handed out `bytes` and ended are not changed by asking for more. */
  lemma DrainEndedMore<S>(step: S -> Outcome<S, Option<byte>>, s: S, bytes: seq<byte>, extra: seq<byte>)
    requires var dr := Drain(step, s, |bytes| + 1); dr.bytes == bytes && dr.error.None? && dr.ended
    ensures var dr := Drain(step, s, |bytes + extra| + 1); dr.bytes == bytes && dr.error.None? && dr.ended
  {
    DrainMore(step, s, |bytes| + 1, |extra|);
  }

  /** Reads that ended or threw are not changed by asking for more. */
  lemma {:induction false} DrainMore<S>(step: S -> Outcome<S, Option<byte>>, s: S, a: nat, b: nat)
    requires Drain(step, s, a).ended || Drain(step, s, a).error.Some?
    ensures Drain(step, s, a + b) == Drain(step, s, a)
    decreases a
  {
    var o := step(s);
    if o.result.Ok? && o.result.value.Some? {
      DrainMore(step, o.next, a - 1, b);
      assert a + b - 1 == (a - 1) + b;
    }
  }

  /** What read(byte[], off, len) leaves: the state, the array, and the count returned or the exception thrown. */
  datatype Filled<S> = Filled(next: S, dest: Option<seq<byte>>, result: Result<int>)

  /**
   * The loop of read(byte[], off, len) from index `i`: each byte read is
   * stored at `off + i`, a store into a null or too short array throwing
   * after the read; -1 first returns -1, later it ends the loop.
   */
  function FillLoop<S>(step: S -> Outcome<S, Option<byte>>, s: S, dest: Option<seq<byte>>, off: int, len: int, i: nat)
    : (f: Filled<S>)
    ensures dest.None? <==> f.dest.None?
    ensures dest.Some? ==> |f.dest.value| == |dest.value|
    decreases len - i
  {
    if i >= len then Filled(s, dest, Ok(i))
    else
      var o := step(s);
      if o.result.Err? then Filled(o.next, dest, Err(o.result.error))
      else if o.result.value.Some? then
        if dest.None? then Filled(o.next, dest, Err(NullPointer))
        else if off + i < 0 || off + i >= |dest.value| then Filled(o.next, dest, Err(IndexOutOfBounds))
        else FillLoop(step, o.next, Some(dest.value[off + i := o.result.value.value]), off, len, i + 1)
      else if i == 0 then Filled(o.next, dest, Ok(-1))
      else Filled(o.next, dest, Ok(i))
  }

  /** The loop of read(byte[], off, len) once `len` turns are done. */
  lemma FillEnd<S>(step: S -> Outcome<S, Option<byte>>, s: S, dest: Option<seq<byte>>, off: int, len: int, i: nat)
    requires len <= i
    ensures FillLoop(step, s, dest, off, len, i) == Filled(s, dest, Ok(i))
  {
  }

  /** One turn of the loop of read(byte[], off, len), after a read() whose outcome is `o`. */
  lemma FillTurn<S>(step: S -> Outcome<S, Option<byte>>, s: S, dest: Option<seq<byte>>, off: int, len: int, i: nat,
                    o: Outcome<S, Option<byte>>)
    requires i < len && step(s) == o
    ensures o.result.Err? ==> FillLoop(step, s, dest, off, len, i) == Filled(o.next, dest, Err(o.result.error))
    ensures o.result.Ok? && o.result.value.None? ==>
      FillLoop(step, s, dest, off, len, i) == Filled(o.next, dest, Ok(if i == 0 then -1 else i))
    ensures o.result.Ok? && o.result.value.Some? && dest.None? ==>
      FillLoop(step, s, dest, off, len, i) == Filled(o.next, dest, Err(NullPointer))
    ensures o.result.Ok? && o.result.value.Some? && dest.Some? && (off + i < 0 || off + i >= |dest.value|) ==>
      FillLoop(step, s, dest, off, len, i) == Filled(o.next, dest, Err(IndexOutOfBounds))
    ensures o.result.Ok? && o.result.value.Some? && dest.Some? && 0 <= off + i < |dest.value| ==>
      FillLoop(step, s, dest, off, len, i)
      == FillLoop(step, o.next, Some(dest.value[off + i := o.result.value.value]), off, len, i + 1)
  {
  }

  /**
   * Into an array with room for them, read(byte[], off, len) stores what
   * `len - i` reads hand out, and returns their count, or -1 when the first
   * returned -1, or the exception one threw.
   */
  lemma {:induction false} FillLoopDrains<S>(step: S -> Outcome<S, Option<byte>>, s: S, dest: seq<byte>, off: nat, len: int, i: nat)
    requires i <= len && off + len <= |dest|
    ensures var dr := Drain(step, s, len - i);
      FillLoop(step, s, Some(dest), off, len, i)
      == Filled(dr.next, Some(dest[..off + i] + dr.bytes + dest[off + i + |dr.bytes|..]),
                if dr.error.Some? then Err(dr.error.value)
                else if i == 0 && dr.bytes == [] && dr.ended then Ok(-1)
                else Ok(i + |dr.bytes|))
    decreases len - i
  {
    if i < len {
      var o := step(s);
      if o.result.Ok? && o.result.value.Some? {
        var b := o.result.value.value;
        var dest' := dest[off + i := b];
        FillLoopDrains(step, o.next, dest', off, len, i + 1);
        var dr' := Drain(step, o.next, len - (i + 1));
        assert Drain(step, s, len - i) == Prepend([b], dr');
        assert dest'[..off + i + 1] == dest[..off + i] + [b];
        assert dest'[off + i + 1 + |dr'.bytes|..] == dest[off + i + 1 + |dr'.bytes|..];
        ConcatAssoc(dest[..off + i], [b], dr'.bytes);
      } else {
        assert dest[..off + i] + [] + dest[off + i..] == dest;
      }
    } else {
      assert dest[..off + i] + [] + dest[off + i..] == dest;
    }
  }

  /** FillLoopDrains from the start of the loop. */
  lemma FillDrains<S>(step: S -> Outcome<S, Option<byte>>, s: S, dest: seq<byte>, off: nat, len: nat)
    requires off + len <= |dest|
    ensures var dr := Drain(step, s, len);
      FillLoop(step, s, Some(dest), off, len, 0)
      == Filled(dr.next, Some(dest[..off] + dr.bytes + dest[off + |dr.bytes|..]),
                if dr.error.Some? then Err(dr.error.value)
                else if dr.bytes == [] && dr.ended then Ok(-1)
                else Ok(|dr.bytes|))
  {
    FillLoopDrains(step, s, dest, off, len, 0);
  }

  // ---------------------------------------------------------------------------
  // read(byte[], off, len) and reads of the stream
  // ---------------------------------------------------------------------------

  /** Up to `n` read() calls, stopping at the first -1 or exception. */
  function ReadUpTo(m: Mode, r: ReadState, n: nat): Drained<ReadState>
  {
    Drain(Reading(m), r, n)
  }

  /** read(byte[], off, len). */
  function AfterReadArray(m: Mode, r: ReadState, dest: Option<seq<byte>>, off: int, len: int): Filled<ReadState>
  {
    FillLoop(Reading(m), r, dest, off, len, 0)
  }

  /** At the end, read() keeps returning -1 and changes nothing more. */
  lemma EndIsFinal(m: Mode, r: ReadState)
    requires AfterRead(m, r).result == Ok(None)
    ensures var r1 := AfterRead(m, r).next; AfterRead(m, r1) == Outcome(r1, Ok(None))
  {
    if r.position < 0 && !m.encode {
      assert TakeFrom(SignificantIn(DialectOf(m.options)), [], 0, GROUP_CHARS) == Taken([], 0);
    }
  }

  /**
   * A decoding stream whose wrapped stream has one to three significant
   * characters left throws IOException when it refills.
   */
  lemma PartialGroupThrows(m: Mode, r: ReadState)
    requires !m.encode && r.position < 0
    requires 0 < |SignificantFrom(SignificantIn(DialectOf(m.options)), r.input, 0)| < 4
    ensures AfterRead(m, r) == Outcome(r.(input := []), Err(IO))
  {
    var sig := SignificantIn(DialectOf(m.options));
    var t := TakeFrom(sig, r.input, 0, GROUP_CHARS);
    TakenChars(sig, r.input, 0, GROUP_CHARS);
    assert |t.chars| < 4 && t.end == |r.input|;
    assert t.chars == SignificantFrom(sig, r.input, 0);
    assert r.input[t.end..] == [];
  }

  /**
   * A decoding stream passes over every character whose low seven bits are
   * not a digit or '=' of its alphabet, invalid ones included: a wrapped
   * stream that starts with such characters reads as one without them.
   */
  lemma InsignificantPassedOver(m: Mode, r: ReadState, j: nat)
    requires !m.encode && r.position < 0 && j <= |r.input|
    requires forall k :: 0 <= k < j ==> !Significant(DialectOf(m.options), r.input[k])
    ensures AfterRead(m, r) == AfterRead(m, r.(input := r.input[j..]))
  {
    FillPassesOver(m, r, j);
  }

  /** The refill of InsignificantPassedOver. */
  lemma FillPassesOver(m: Mode, r: ReadState, j: nat)
    requires j <= |r.input|
    requires forall k :: 0 <= k < j ==> !Significant(DialectOf(m.options), r.input[k])
    ensures DecodeFill(m, r) == DecodeFill(m, r.(input := r.input[j..]))
  {
    var sig := SignificantIn(DialectOf(m.options));
    var t := TakeFrom(sig, r.input, 0, GROUP_CHARS);
    SkipFromStops(sig, r.input, 0);
    TakeLater(sig, r.input, 0, j, 4);
    TakeShift(sig, r.input, j, j, 4);
    var r' := r.(input := r.input[j..]);
    assert r'.input[t.end - j..] == r.input[t.end..];
    assert r'.(input := r'.input[t.end - j..]) == r.(input := r.input[t.end..]);
  }

  // ---------------------------------------------------------------------------
  // Handing out a filled buffer
  // ---------------------------------------------------------------------------

  /** The state after `j` bytes of a filled buffer were handed out. */
  function Served(r: ReadState, j: nat): ReadState
    requires r.position >= 0 && r.position + j <= |r.buffer|
  {
    var p := r.position + j;
    r.(lineLength := r.lineLength + j, position := if p >= |r.buffer| then -1 else p)
  }

  /** One character of a filled buffer, when no line break is due. */
  lemma ServeStep(m: Mode, r: ReadState, i: nat)
    requires r.position >= 0 && r.position + i < r.numSigBytes && r.position + i < |r.buffer|
    requires m.encode && m.breakLines ==> r.lineLength + i < MAX_LINE_LENGTH
    ensures AfterRead(m, Served(r, i)) == Outcome(Served(r, i + 1), Ok(Some(r.buffer[r.position + i])))
  {
  }

  /** The states a filled buffer passes through while it hands out `j` characters. */
  function ServedStates(r: ReadState, j: nat): (states: seq<ReadState>)
    requires r.position >= 0 && r.position + j <= |r.buffer|
    ensures |states| == j + 1 && states[0] == r && states[j] == Served(r, j)
    ensures forall i :: 0 <= i <= j ==> states[i] == Served(r, i)
  {
    assert Served(r, 0) == r;
    seq(j + 1, i requires 0 <= i <= j => Served(r, i))
  }

  /** Each of those states hands out the next character. */
  lemma ServeSteps(m: Mode, r: ReadState, j: nat)
    requires r.position >= 0 && r.position + j <= r.numSigBytes && r.position + j <= |r.buffer|
    requires m.encode && m.breakLines ==> r.lineLength + j <= MAX_LINE_LENGTH
    ensures var states := ServedStates(r, j);
      forall i :: 0 <= i < j ==> Reading(m)(states[i]) == Outcome(states[i + 1], Ok(Some(r.buffer[r.position..r.position + j][i])))
  {
    var states := ServedStates(r, j);
    forall i | 0 <= i < j
      ensures Reading(m)(states[i]) == Outcome(states[i + 1], Ok(Some(r.buffer[r.position..r.position + j][i])))
    {
      ServeStep(m, r, i);
    }
  }

  /** A filled buffer hands out `j` characters in a row when no line break falls among them. */
  lemma ServeRun(m: Mode, r: ReadState, j: nat, n: nat)
    requires r.position >= 0 && r.position + j <= r.numSigBytes && r.position + j <= |r.buffer|
    requires m.encode && m.breakLines ==> r.lineLength + j <= MAX_LINE_LENGTH
    ensures ReadUpTo(m, r, j + n) == Prepend(r.buffer[r.position..r.position + j], ReadUpTo(m, Served(r, j), n))
  {
    ServeSteps(m, r, j);
    DrainRun(Reading(m), ServedStates(r, j), r.buffer[r.position..r.position + j], n);
  }

  // ---------------------------------------------------------------------------
  // Reading an encoding stream
  // ---------------------------------------------------------------------------

  /** What comes before group `k + 1` (counting from 1): '\n' after every 19th group, when another follows. */
  function Sep(brk: bool, k: nat): seq<byte>
  {
    if k > 0 then LineEnd(brk, k) else []
  }

  /** The group of `x` that starts at byte `3 * k`: three bytes, or the one or two at the end. */
  function GroupAt(x: seq<byte>, k: nat): (g: seq<byte>)
    requires 3 * k < |x|
    ensures 1 <= |g| <= 3
  {
    if 3 * k + 3 <= |x| then x[3 * k..3 * k + 3] else x[3 * k..]
  }

  /** The characters an encoding stream hands out from group `k + 1` of `x` on. */
  function ReadRest(x: seq<byte>, d: Dialect, brk: bool, k: nat): seq<byte>
    decreases |x| - 3 * k
  {
    if 3 * k >= |x| then [] else Sep(brk, k) + EncodeGroup(d, GroupAt(x, k)) + ReadRest(x, d, brk, k + 1)
  }

  /** The characters `encodeBytesToBytes` produces for `x` from group `k + 1` on. */
  function EncodedFrom(x: seq<byte>, d: Dialect, brk: bool, k: nat): seq<byte>
    decreases |x| - 3 * k
  {
    if 3 * k >= |x| then []
    else EncodeGroup(d, GroupAt(x, k)) + (if 3 * k + 3 <= |x| then LineEnd(brk, k + 1) else []) + EncodedFrom(x, d, brk, k + 1)
  }

  /** The line feed `encodeBytesToBytes` ends with: after a last group of three bytes that fills a line. */
  function Trailing(x: seq<byte>, brk: bool): seq<byte>
  {
    if |x| % 3 == 0 then Sep(brk, |x| / 3) else []
  }

  /** The encoding is its first `k` groups and the rest read forward. */
  lemma {:induction false} EncodedForward(x: seq<byte>, d: Dialect, brk: bool, k: nat)
    requires 3 * k <= |x|
    ensures Body(x, d, brk, k) + EncodedFrom(x, d, brk, k) == Encoded(x, d, brk)
    decreases |x| - 3 * k
  {
    if 3 * k + 3 <= |x| {
      EncodedForward(x, d, brk, k + 1);
      EncodedForwardStep(x, d, brk, k);
    } else {
      EncodedForwardLast(x, d, brk, k);
    }
  }

  /** EncodedForward once fewer than three bytes are left: the padded group, or nothing. */
  lemma EncodedForwardLast(x: seq<byte>, d: Dialect, brk: bool, k: nat)
    requires 3 * k <= |x| < 3 * k + 3
    ensures Body(x, d, brk, k) + EncodedFrom(x, d, brk, k) == Encoded(x, d, brk)
  {
    var n := |x| - 3 * k;
    EncodedSplit(x, d, brk, k, 3 * k, n);
    if n > 0 {
      EncodedFromLast(x, d, brk, k);
    } else {
      assert Body(x, d, brk, k) + [] == Body(x, d, brk, k);
    }
  }

  /** Read forward from a last, short group: that group alone. */
  lemma EncodedFromLast(x: seq<byte>, d: Dialect, brk: bool, k: nat)
    requires 3 * k < |x| < 3 * k + 3
    ensures EncodedFrom(x, d, brk, k) == EncodeGroup(d, x[3 * k..3 * k + (|x| - 3 * k)])
  {
    var q := EncodeGroup(d, GroupAt(x, k));
    assert EncodedFrom(x, d, brk, k + 1) == [];
    assert EncodedFrom(x, d, brk, k) == q + [] + [];
    assert x[3 * k..] == x[3 * k..3 * k + (|x| - 3 * k)];
  }

  /** A full group moves from the forward reading to the groups before it. */
  lemma EncodedForwardStep(x: seq<byte>, d: Dialect, brk: bool, k: nat)
    requires 3 * k + 3 <= |x|
    ensures Body(x, d, brk, k + 1) + EncodedFrom(x, d, brk, k + 1) == Body(x, d, brk, k) + EncodedFrom(x, d, brk, k)
  {
    BodyNext(x, d, brk, k, 3 * k);
    var b := Body(x, d, brk, k);
    var q := EncodeGroup(d, GroupAt(x, k));
    var l := LineEnd(brk, k + 1);
    var f := EncodedFrom(x, d, brk, k + 1);
    assert EncodedFrom(x, d, brk, k) == q + l + f;
    ConcatAssoc(b + q, l, f);
    ConcatAssoc(b, q, l + f);
    ConcatAssoc(q, l, f);
  }

  /** Read forward, the stream's characters and the encoding differ only in the final line feed. */
  lemma {:induction false} ReadRestTrails(x: seq<byte>, d: Dialect, brk: bool, k: nat)
    requires 3 * k <= |x|
    ensures Sep(brk, k) + EncodedFrom(x, d, brk, k) == ReadRest(x, d, brk, k) + Trailing(x, brk)
    decreases |x| - 3 * k
  {
    if 3 * k == |x| {
      assert |x| / 3 == k;
    } else if 3 * k + 3 <= |x| {
      ReadRestTrails(x, d, brk, k + 1);
      var q := EncodeGroup(d, GroupAt(x, k));
      assert Sep(brk, k + 1) == LineEnd(brk, k + 1);
      calc {
        Sep(brk, k) + EncodedFrom(x, d, brk, k);
        Sep(brk, k) + (q + Sep(brk, k + 1) + EncodedFrom(x, d, brk, k + 1));
        { ConcatAssoc(q, Sep(brk, k + 1), EncodedFrom(x, d, brk, k + 1)); }
        Sep(brk, k) + (q + (ReadRest(x, d, brk, k + 1) + Trailing(x, brk)));
        { ConcatAssoc(q, ReadRest(x, d, brk, k + 1), Trailing(x, brk));
          ConcatAssoc(Sep(brk, k), q + ReadRest(x, d, brk, k + 1), Trailing(x, brk));
          ConcatAssoc(Sep(brk, k), q, ReadRest(x, d, brk, k + 1)); }
        ReadRest(x, d, brk, k) + Trailing(x, brk);
      }
    } else {
      assert EncodedFrom(x, d, brk, k + 1) == [] && ReadRest(x, d, brk, k + 1) == [];
      assert Trailing(x, brk) == [];
    }
  }

  /** `encodeBytesToBytes`'s output is what an encoding stream hands out, then the final line feed if there is one. */
  lemma EncodedIsReadRest(x: seq<byte>, d: Dialect, brk: bool)
    ensures Encoded(x, d, brk) == ReadRest(x, d, brk, 0) + Trailing(x, brk)
    ensures Trailing(x, brk) != [] <==> brk && |x| > 0 && |x| % 3 == 0 && (|x| / 3) % GROUPS_PER_LINE == 0
  {
    EncodedForward(x, d, brk, 0);
    ReadRestTrails(x, d, brk, 0);
    assert Body(x, d, brk, 0) == [] && Sep(brk, 0) == [];
  }

  /** The line length after `k` groups were handed out: four characters per group since the last line feed. */
  function LineAfter(k: nat): nat
  {
    if k == 0 then 0 else 4 * ((k - 1) % GROUPS_PER_LINE + 1)
  }

  /** An encoding stream with the first `k` groups of `x` handed out. */
  predicate EncReading(m: Mode, x: seq<byte>, k: nat, r: ReadState)
  {
    && m.encode && ReaderOk(m, r) && r.position == -1
    && 3 * k <= |x| && r.input == x[3 * k..]
    && (m.breakLines ==> r.lineLength == LineAfter(k))
  }

  /** The state after group `k + 1` of `x` was handed out. */
  function AfterGroup(m: Mode, x: seq<byte>, k: nat, r: ReadState): ReadState
    requires 3 * k < |x|
  {
    Reader(-1, EncodeGroup(DialectOf(m.options), GroupAt(x, k)), 4,
           if m.breakLines then LineAfter(k + 1) else r.lineLength + 4,
           if 3 * k + 3 <= |x| then x[3 * k + 3..] else [])
  }

  /** Refilling an encoding stream is invisible to the reads that follow: the first of them serves the new buffer. */
  lemma EncodeRefill(m: Mode, r: ReadState, n: nat)
    requires m.encode && r.position < 0 && r.input != [] && n > 0
    ensures var k := if |r.input| < 3 then |r.input| else 3;
      ReadUpTo(m, r, n) == ReadUpTo(m, r.(position := 0, buffer := EncodeGroup(DialectOf(m.options), r.input[..k]),
                                          numSigBytes := 4, input := r.input[k..]), n)
  {
    var k := if |r.input| < 3 then |r.input| else 3;
    var filled: ReadState := r.(position := 0, buffer := EncodeGroup(DialectOf(m.options), r.input[..k]),
                                numSigBytes := 4, input := r.input[k..]);
    assert AfterRead(m, r) == AfterRead(m, filled);
    DrainSame(Reading(m), r, filled, n);
  }

  /** The state after the refill that reads group `k + 1` of `x`. */
  function GroupFilled(m: Mode, x: seq<byte>, k: nat, r: ReadState): ReadState
    requires 3 * k < |x|
  {
    r.(position := 0, buffer := EncodeGroup(DialectOf(m.options), GroupAt(x, k)), numSigBytes := 4,
       input := if 3 * k + 3 <= |x| then x[3 * k + 3..] else [])
  }

  /** The refill before group `k + 1` reads that group. */
  lemma GroupRefill(m: Mode, x: seq<byte>, k: nat, r: ReadState, n: nat)
    requires EncReading(m, x, k, r) && 3 * k < |x| && n > 0
    ensures ReadUpTo(m, r, n) == ReadUpTo(m, GroupFilled(m, x, k, r), n)
  {
    var g := GroupAt(x, k);
    assert r.input[..|g|] == g && (if |r.input| < 3 then |r.input| else 3) == |g|;
    assert r.input[|g|..] == if 3 * k + 3 <= |x| then x[3 * k + 3..] else [];
    EncodeRefill(m, r, n);
  }

  /** One group read from an encoding stream: the line feed due before it, if any, then its four characters. */
  lemma EncGroupRead(m: Mode, x: seq<byte>, k: nat, r: ReadState, n: nat)
    requires EncReading(m, x, k, r) && 3 * k < |x|
    ensures var out := Sep(m.breakLines, k) + EncodeGroup(DialectOf(m.options), GroupAt(x, k));
      ReadUpTo(m, r, |out| + n) == Prepend(out, ReadUpTo(m, AfterGroup(m, x, k, r), n))
  {
    var out := Sep(m.breakLines, k) + EncodeGroup(DialectOf(m.options), GroupAt(x, k));
    GroupRefill(m, x, k, r, |out| + n);
    if Sep(m.breakLines, k) != [] {
      NewLineStep(m, x, k, r, n);
    } else {
      GroupStep(m, x, k, r, n);
    }
  }

  /** No line feed due before group `k + 1`: its four characters. */
  lemma GroupStep(m: Mode, x: seq<byte>, k: nat, r: ReadState, n: nat)
    requires EncReading(m, x, k, r) && 3 * k < |x| && Sep(m.breakLines, k) == []
    ensures var out := Sep(m.breakLines, k) + EncodeGroup(DialectOf(m.options), GroupAt(x, k));
      ReadUpTo(m, GroupFilled(m, x, k, r), |out| + n) == Prepend(out, ReadUpTo(m, AfterGroup(m, x, k, r), n))
  {
    var filled := GroupFilled(m, x, k, r);
    assert Sep(m.breakLines, k) + filled.buffer == filled.buffer;
    GroupFits(m, x, k, r);
    ServeGroup(m, filled, AfterGroup(m, x, k, r), n);
  }

  /** The line feed due before group `k + 1`, then the group's four characters. */
  lemma NewLineStep(m: Mode, x: seq<byte>, k: nat, r: ReadState, n: nat)
    requires EncReading(m, x, k, r) && 3 * k < |x| && Sep(m.breakLines, k) != []
    ensures var out := Sep(m.breakLines, k) + EncodeGroup(DialectOf(m.options), GroupAt(x, k));
      ReadUpTo(m, GroupFilled(m, x, k, r), |out| + n) == Prepend(out, ReadUpTo(m, AfterGroup(m, x, k, r), n))
  {
    var filled := GroupFilled(m, x, k, r);
    var nl: ReadState := filled.(lineLength := 0);
    NewLineDue(m, x, k, r);
    LineBreakServed(m, filled, 4 + n);
    ServeGroup(m, nl, AfterGroup(m, x, k, r), n);
    ConcatAssoc([NEW_LINE], nl.buffer, ReadUpTo(m, AfterGroup(m, x, k, r), n).bytes);
  }

  /** Without a line feed due, the group fits on the line and leaves the line length of `k + 1` groups. */
  lemma GroupFits(m: Mode, x: seq<byte>, k: nat, r: ReadState)
    requires EncReading(m, x, k, r) && 3 * k < |x| && Sep(m.breakLines, k) == []
    ensures var f := GroupFilled(m, x, k, r);
      (m.breakLines ==> f.lineLength + 4 <= MAX_LINE_LENGTH) && Served(f, 4) == AfterGroup(m, x, k, r)
  {
    if m.breakLines {
      LineContinues(k);
    }
    assert |GroupFilled(m, x, k, r).buffer| == 4;
  }

  /** Without a line feed before group `k + 1`, the group's characters fit on the line. */
  lemma LineContinues(k: nat)
    requires Sep(true, k) == []
    ensures LineAfter(k) + 4 <= MAX_LINE_LENGTH && LineAfter(k + 1) == LineAfter(k) + 4
  {
    if k > 0 {
      assert k % GROUPS_PER_LINE != 0;
      assert (k - 1) % GROUPS_PER_LINE + 1 == k % GROUPS_PER_LINE;
    }
  }

  /** With a line feed due, the line is full, and the group after it leaves the line length of `k + 1` groups. */
  lemma NewLineDue(m: Mode, x: seq<byte>, k: nat, r: ReadState)
    requires EncReading(m, x, k, r) && 3 * k < |x| && Sep(m.breakLines, k) != []
    ensures var f := GroupFilled(m, x, k, r);
      && Sep(m.breakLines, k) == [NEW_LINE] && m.breakLines && f.lineLength >= MAX_LINE_LENGTH
      && Served(f.(lineLength := 0), 4) == AfterGroup(m, x, k, r)
  {
    assert m.breakLines && k % GROUPS_PER_LINE == 0 && k > 0;
  }

  /** A freshly filled buffer of four characters, with room on the line for them, hands them all out. */
  lemma ServeGroup(m: Mode, f: ReadState, after: ReadState, n: nat)
    requires f.position == 0 && f.numSigBytes == 4 && |f.buffer| == 4 && after == Served(f, 4)
    requires m.encode && m.breakLines ==> f.lineLength + 4 <= MAX_LINE_LENGTH
    ensures ReadUpTo(m, f, |f.buffer| + n) == Prepend(f.buffer, ReadUpTo(m, after, n))
  {
    ServeRun(m, f, 4, n);
    assert f.buffer[0..4] == f.buffer;
  }

  /** A full line: the next read hands out '\n' and starts a new line. */
  lemma LineBreakServed(m: Mode, r: ReadState, n: nat)
    requires m.encode && m.breakLines && 0 <= r.position < r.numSigBytes && r.lineLength >= MAX_LINE_LENGTH
    ensures ReadUpTo(m, r, n + 1) == Prepend([NEW_LINE], ReadUpTo(m, r.(lineLength := 0), n))
  {
    assert AfterRead(m, r) == Outcome(r.(lineLength := 0), Ok(Some(NEW_LINE)));
    DrainOne(Reading(m), r, n);
  }

  /** An encoding stream hands out the rest of the encoding, less the final line feed, then -1. */
  lemma {:induction false} EncReadAll(m: Mode, x: seq<byte>, k: nat, r: ReadState)
    requires EncReading(m, x, k, r)
    ensures var rest := ReadRest(x, DialectOf(m.options), m.breakLines, k);
      var dr := ReadUpTo(m, r, |rest| + 1);
      dr.bytes == rest && dr.error.None? && dr.ended
    decreases |x| - 3 * k, 2
  {
    if 3 * k >= |x| {
      assert r.input == [];
      DrainEnds(Reading(m), r, 0);
    } else {
      EncReadGroups(m, x, k, r);
    }
  }

  /** EncReadAll when group `k + 1` exists: that group, then the rest. */
  lemma {:induction false} EncReadGroups(m: Mode, x: seq<byte>, k: nat, r: ReadState)
    requires EncReading(m, x, k, r) && 3 * k < |x|
    ensures var rest := ReadRest(x, DialectOf(m.options), m.breakLines, k);
      var dr := ReadUpTo(m, r, |rest| + 1);
      dr.bytes == rest && dr.error.None? && dr.ended
    decreases |x| - 3 * k, 1
  {
    var d := DialectOf(m.options);
    var brk := m.breakLines;
    var out := Sep(brk, k) + EncodeGroup(d, GroupAt(x, k));
    var rest := ReadRest(x, d, brk, k + 1);
    EncGroupRead(m, x, k, r, |rest| + 1);
    EncReadAfterGroup(m, x, k, r);
    ReadRestGroup(x, d, brk, k);
    ReadsThen(m, r, AfterGroup(m, x, k, r), out, rest, ReadRest(x, d, brk, k));
  }

  /** DrainThen for the reads of a stream. */
  lemma ReadsThen(m: Mode, r: ReadState, r': ReadState, out: seq<byte>, rest: seq<byte>, whole: seq<byte>)
    requires whole == out + rest
    requires ReadUpTo(m, r, |out| + (|rest| + 1)) == Prepend(out, ReadUpTo(m, r', |rest| + 1))
    requires var dr := ReadUpTo(m, r', |rest| + 1); dr.bytes == rest && dr.error.None? && dr.ended
    ensures var dr := ReadUpTo(m, r, |whole| + 1); dr.bytes == whole && dr.error.None? && dr.ended
  {
    DrainThen(Reading(m), r, r', out, rest);
  }

  /** Read forward from group `k + 1`: the line feed due before it, if any, the group, then the rest. */
  lemma ReadRestGroup(x: seq<byte>, d: Dialect, brk: bool, k: nat)
    requires 3 * k < |x|
    ensures ReadRest(x, d, brk, k) == Sep(brk, k) + EncodeGroup(d, GroupAt(x, k)) + ReadRest(x, d, brk, k + 1)
  {
  }

  /** After group `k + 1`, an encoding stream hands out the rest of the encoding, then -1. */
  lemma {:induction false} EncReadAfterGroup(m: Mode, x: seq<byte>, k: nat, r: ReadState)
    requires EncReading(m, x, k, r) && 3 * k < |x|
    ensures var rest := ReadRest(x, DialectOf(m.options), m.breakLines, k + 1);
      var dr := ReadUpTo(m, AfterGroup(m, x, k, r), |rest| + 1);
      dr.bytes == rest && dr.error.None? && dr.ended
    decreases |x| - 3 * k, 0
  {
    if 3 * k + 3 <= |x| {
      NextEncReading(m, x, k, r);
      EncReadAll(m, x, k + 1, AfterGroup(m, x, k, r));
    } else {
      LastGroupEnds(m, x, k, r);
    }
  }

  /** Once a full group is handed out, the stream is reading the next one. */
  lemma NextEncReading(m: Mode, x: seq<byte>, k: nat, r: ReadState)
    requires EncReading(m, x, k, r) && 3 * k + 3 <= |x|
    ensures EncReading(m, x, k + 1, AfterGroup(m, x, k, r))
  {
  }

  /** After the last, short group, the next read returns -1. */
  lemma LastGroupEnds(m: Mode, x: seq<byte>, k: nat, r: ReadState)
    requires EncReading(m, x, k, r) && 3 * k < |x| < 3 * k + 3
    ensures ReadRest(x, DialectOf(m.options), m.breakLines, k + 1) == []
    ensures ReadUpTo(m, AfterGroup(m, x, k, r), 1) == Drained(AfterGroup(m, x, k, r), [], None, true)
  {
    var r' := AfterGroup(m, x, k, r);
    assert AfterRead(m, r') == Outcome(r', Ok(None));
    DrainEnds(Reading(m), r', 0);
  }

  /**
   * Bytes read through a new encoding stream until it returns -1 are what
   * `encodeBytesToBytes` (without GZIP) gives for them, except that the
   * stream never ends with a line feed: `encodeBytesToBytes` ends with one
   * when line breaking is on and the bytes fill a whole number of 57-byte
   * lines.
   */
  lemma EncodingStreamReadsEncoded(options: Options, buffer: seq<byte>, x: seq<byte>)
    requires options & ENCODE == ENCODE && |buffer| == 4
    ensures EncodeChecked(Some(x), 0, |x|, options).Ok?
    ensures var m := StreamMode(options);
      var dr := ReadUpTo(m, NewReader(m, buffer, x), |EncodeChecked(Some(x), 0, |x|, options).value| + 1);
      && dr.error.None? && dr.ended
      && dr.bytes + Trailing(x, m.breakLines) == EncodeChecked(Some(x), 0, |x|, options).value
  {
    var m := StreamMode(options);
    var d := DialectOf(options);
    var r: ReadState := NewReader(m, buffer, x);
    WholeEncoded(x, options);
    EncodedIsReadRest(x, d, m.breakLines);
    EncReadingAtStart(m, buffer, x);
    EncReadAll(m, x, 0, r);
    DrainEndedMore(Reading(m), r, ReadRest(x, d, m.breakLines, 0), Trailing(x, m.breakLines));
  }

  /** `encodeBytesToBytes` over the whole of `x` succeeds with the encoding of `x`. */
  lemma WholeEncoded(x: seq<byte>, options: Options)
    ensures EncodeChecked(Some(x), 0, |x|, options) == Ok(Encoded(x, DialectOf(options), StreamMode(options).breakLines))
  {
    assert x[0..|x|] == x;
  }

  /** A new encoding stream has handed out none of the groups of what it wraps. */
  lemma EncReadingAtStart(m: Mode, buffer: seq<byte>, x: seq<byte>)
    requires m.encode && |buffer| == 4
    ensures EncReading(m, x, 0, NewReader(m, buffer, x))
  {
    assert x[3 * 0..] == x;
  }

  // ---------------------------------------------------------------------------
  // Reading a decoding stream
  // ---------------------------------------------------------------------------

  /** A decoding stream over the encoding of `x` in dialect `d`, with the first `k` groups read. */
  predicate DecReading(m: Mode, d: Dialect, brk: bool, x: seq<byte>, k: nat, r: ReadState)
  {
    && !m.encode && DialectOf(m.options) == d && ReaderOk(m, r) && r.position == -1
    && 3 * k <= |x| && r.input == Sep(brk, k) + EncodedFrom(x, d, brk, k)
  }

  /** What the encoding holds after group `k + 1`: the line feed due, if any, and the groups after it. */
  function EncodedAfter(x: seq<byte>, d: Dialect, brk: bool, k: nat): seq<byte>
    requires 3 * k < |x|
  {
    if 3 * k + 3 <= |x| then Sep(brk, k + 1) + EncodedFrom(x, d, brk, k + 1) else []
  }

  /** The wrapped stream of a decoding stream before group `k + 1`: a line feed or nothing, the group's four characters, and the rest. */
  lemma DecInput(d: Dialect, brk: bool, x: seq<byte>, k: nat)
    requires 3 * k < |x|
    ensures Sep(brk, k) + EncodedFrom(x, d, brk, k)
         == Sep(brk, k) + EncodeGroup(d, GroupAt(x, k)) + EncodedAfter(x, d, brk, k)
  {
    var q := EncodeGroup(d, GroupAt(x, k));
    if 3 * k + 3 <= |x| {
      assert Sep(brk, k + 1) == LineEnd(brk, k + 1);
      ConcatAssoc(q, LineEnd(brk, k + 1), EncodedFrom(x, d, brk, k + 1));
    } else {
      assert EncodedFrom(x, d, brk, k + 1) == [];
    }
    ConcatAssoc(Sep(brk, k), q, EncodedAfter(x, d, brk, k));
  }

  /** The refill before group `k + 1` passes over the line feed and takes the group's four characters. */
  lemma TakeEncodedGroup(d: Dialect, brk: bool, x: seq<byte>, k: nat)
    requires 3 * k < |x|
    ensures var s := Sep(brk, k) + EncodedFrom(x, d, brk, k);
      var p := |Sep(brk, k)|;
      p + 4 <= |s|
      && TakeFrom(SignificantIn(d), s, 0, GROUP_CHARS) == Taken(EncodeGroup(d, GroupAt(x, k)), p + 4)
      && s[p + 4..] == EncodedAfter(x, d, brk, k)
  {
    var g := GroupAt(x, k);
    var lead := Sep(brk, k);
    DecInput(d, brk, x, k);
    GroupSignificant(d, g, 0);
    GroupSignificant(d, g, 1);
    GroupSignificant(d, g, 2);
    GroupSignificant(d, g, 3);
    assert lead == [] || lead == [NEW_LINE];
    TakeAfterLead(SignificantIn(d), lead, EncodeGroup(d, g), EncodedAfter(x, d, brk, k));
  }

  /** At most one insignificant character, then four significant ones: a refill takes those four and leaves what follows them. */
  lemma TakeAfterLead(sig: byte -> bool, lead: seq<byte>, q: seq<byte>, after: seq<byte>)
    requires |q| == 4 && sig(q[0]) && sig(q[1]) && sig(q[2]) && sig(q[3])
    requires lead == [] || (|lead| == 1 && !sig(lead[0]))
    ensures var s := lead + q + after;
      |lead| + 4 <= |s| && TakeFrom(sig, s, 0, GROUP_CHARS) == Taken(q, |lead| + 4) && s[|lead| + 4..] == after
  {
    var lq := lead + q;
    var s := lq + after;
    var p := |lead|;
    assert lq[p] == q[0] && lq[p + 1] == q[1] && lq[p + 2] == q[2] && lq[p + 3] == q[3];
    assert s[p] == lq[p] && s[p + 1] == lq[p + 1] && s[p + 2] == lq[p + 2] && s[p + 3] == lq[p + 3];
    forall j | 0 <= j < p ensures !sig(s[j]) {
      assert s[j] == lq[j] == lead[j];
    }
    TakeGroup(sig, s, 0, p);
    assert s[p..p + 4] == lq[p..] == q;
    assert s[p + 4..] == after;
  }

  /** The state after the refill that decodes group `k + 1`. */
  function GroupDecoded(x: seq<byte>, d: Dialect, brk: bool, k: nat, r: ReadState): ReadState
    requires 3 * k < |x|
  {
    var g := GroupAt(x, k);
    r.(position := 0, numSigBytes := |g|, buffer := g + r.buffer[|g|..], input := EncodedAfter(x, d, brk, k))
  }

  /** The refill before group `k + 1` decodes it back into the buffer. */
  lemma DecodeRefill(m: Mode, d: Dialect, brk: bool, x: seq<byte>, k: nat, r: ReadState)
    requires DecReading(m, d, brk, x, k, r) && 3 * k < |x|
    ensures DecodeFill(m, r) == Outcome(GroupDecoded(x, d, brk, k, r), Ok(true))
  {
    TakeEncodedGroup(d, brk, x, k);
    GroupRoundTrip(d, GroupAt(x, k));
  }

  /** One group read from a decoding stream: the bytes it encodes. */
  lemma DecGroupRead(m: Mode, d: Dialect, brk: bool, x: seq<byte>, k: nat, r: ReadState, n: nat)
    requires DecReading(m, d, brk, x, k, r) && 3 * k < |x|
    ensures var g := GroupAt(x, k);
      ReadUpTo(m, r, |g| + n) == Prepend(g, ReadUpTo(m, Served(GroupDecoded(x, d, brk, k, r), |g|), n))
  {
    var g := GroupAt(x, k);
    var filled := GroupDecoded(x, d, brk, k, r);
    DecodeRefill(m, d, brk, x, k, r);
    assert AfterRead(m, r) == AfterRead(m, filled);
    DrainSame(Reading(m), r, filled, |g| + n);
    ServeRun(m, filled, |g|, n);
    assert filled.buffer[0..|g|] == g;
  }

  /** A decoding stream over the encoding hands out the rest of the bytes, then -1. */
  lemma {:induction false} DecReadAll(m: Mode, d: Dialect, brk: bool, x: seq<byte>, k: nat, r: ReadState)
    requires DecReading(m, d, brk, x, k, r)
    ensures var dr := ReadUpTo(m, r, |x[3 * k..]| + 1);
      dr.bytes == x[3 * k..] && dr.error.None? && dr.ended
    decreases |x| - 3 * k, 2
  {
    if 3 * k >= |x| {
      DecodeEnds(m, d, brk, x, k, r);
    } else {
      DecReadGroups(m, d, brk, x, k, r);
    }
  }

  /** With every group read, the next read returns -1: what is left holds no significant character. */
  lemma DecodeEnds(m: Mode, d: Dialect, brk: bool, x: seq<byte>, k: nat, r: ReadState)
    requires DecReading(m, d, brk, x, k, r) && 3 * k >= |x|
    ensures var dr := ReadUpTo(m, r, |x[3 * k..]| + 1);
      dr.bytes == x[3 * k..] && dr.error.None? && dr.ended
  {
    assert EncodedFrom(x, d, brk, k) == [];
    assert x[3 * k..] == [];
    assert Sep(brk, k) == [] || Sep(brk, k) == [NEW_LINE];
    GroupSignificant(d, [0], 0);
    assert TakeFrom(SignificantIn(d), r.input, 0, GROUP_CHARS) == Taken([], |r.input|);
    assert AfterRead(m, r) == Outcome(r.(input := []), Ok(None));
    DrainEnds(Reading(m), r, 0);
  }

  /** DecReadAll when group `k + 1` exists: its bytes, then the rest. */
  lemma {:induction false} DecReadGroups(m: Mode, d: Dialect, brk: bool, x: seq<byte>, k: nat, r: ReadState)
    requires DecReading(m, d, brk, x, k, r) && 3 * k < |x|
    ensures var dr := ReadUpTo(m, r, |x[3 * k..]| + 1);
      dr.bytes == x[3 * k..] && dr.error.None? && dr.ended
    decreases |x| - 3 * k, 1
  {
    var g := GroupAt(x, k);
    var rest := BytesAfter(x, k);
    DecGroupRead(m, d, brk, x, k, r, |rest| + 1);
    DecRestRead(m, d, brk, x, k, r);
    GroupSplit(x, k);
    ReadsThen(m, r, Served(GroupDecoded(x, d, brk, k, r), |g|), g, rest, x[3 * k..]);
  }

  /** The bytes of `x` after group `k + 1`. */
  function BytesAfter(x: seq<byte>, k: nat): seq<byte>
    requires 3 * k < |x|
  {
    if 3 * k + 3 <= |x| then x[3 * k + 3..] else []
  }

  /** The bytes from group `k + 1` on: that group, then those after it. */
  lemma GroupSplit(x: seq<byte>, k: nat)
    requires 3 * k < |x|
    ensures x[3 * k..] == GroupAt(x, k) + BytesAfter(x, k)
  {
    if 3 * k + 3 <= |x| {
      SliceJoinEnd(x, 3 * k, 3 * k + 3);
    } else {
      assert x[3 * k..] + [] == x[3 * k..];
    }
  }

  /** After group `k + 1`, the stream hands out the bytes after it, then -1. */
  lemma {:induction false} DecRestRead(m: Mode, d: Dialect, brk: bool, x: seq<byte>, k: nat, r: ReadState)
    requires DecReading(m, d, brk, x, k, r) && 3 * k < |x|
    ensures var r' := Served(GroupDecoded(x, d, brk, k, r), |GroupAt(x, k)|);
      var dr := ReadUpTo(m, r', |BytesAfter(x, k)| + 1);
      dr.bytes == BytesAfter(x, k) && dr.error.None? && dr.ended
    decreases |x| - 3 * k, 0
  {
    var r' := Served(GroupDecoded(x, d, brk, k, r), |GroupAt(x, k)|);
    if 3 * k + 3 <= |x| {
      assert DecReading(m, d, brk, x, k + 1, r');
      DecReadAll(m, d, brk, x, k + 1, r');
      assert x[3 * (k + 1)..] == BytesAfter(x, k);
    } else {
      assert AfterRead(m, r') == Outcome(r', Ok(None));
      DrainEnds(Reading(m), r', 0);
    }
  }

  /**
   * Reading a new decoding stream over what `encodeBytesToBytes` (without
   * GZIP) gives for `x`, in the same alphabet, hands out `x` and then -1,
   * whether or not the encoding broke lines.
   */
  lemma DecodingStreamReadsDecoded(encoding: Options, options: Options, buffer: seq<byte>, x: seq<byte>)
    requires options & ENCODE == 0 && DialectOf(encoding) == DialectOf(options) && |buffer| == 3
    ensures EncodeChecked(Some(x), 0, |x|, encoding).Ok?
    ensures var m := StreamMode(options);
      var dr := ReadUpTo(m, NewReader(m, buffer, EncodeChecked(Some(x), 0, |x|, encoding).value), |x| + 1);
      dr.bytes == x && dr.error.None? && dr.ended
  {
    var m := StreamMode(options);
    var d := DialectOf(options);
    var brk := encoding & DO_BREAK_LINES != 0;
    var y := Encoded(x, d, brk);
    assert x[0..|x|] == x && x[3 * 0..] == x;
    EncodedForward(x, d, brk, 0);
    assert Body(x, d, brk, 0) == [] && Sep(brk, 0) == [];
    var r: ReadState := NewReader(m, buffer, y);
    assert DecReading(m, d, brk, x, 0, r);
    DecReadAll(m, d, brk, x, 0, r);
  }

  // ---------------------------------------------------------------------------
  // The class
  // ---------------------------------------------------------------------------

  /** A nullable array's contents. */
  function Contents(a: array?<byte>): Option<seq<byte>>
    reads a
  {
    if a == null then None else Some(a[..])
  }

  class InputStream {
    const encode: bool
    const breakLines: bool
    const options: Options
    const bufferLength: nat
    const decodabet: Dialect
    const buffer: array<byte>
    var position: int
    var numSigBytes: int
    var lineLength: int
    /** What the wrapped stream has left to give. */
    var input: seq<byte>

    function Settings(): Mode
    {
      Mode(encode, breakLines, options)
    }

    /** The fields agree with the options and the buffer has its size. */
    ghost predicate Sound()
      reads this
    {
      && Settings() == StreamMode(options)
      && bufferLength == ReaderLength(Settings()) && buffer.Length == bufferLength
      && decodabet == DialectOf(options)
    }

    ghost predicate Valid()
      reads this
    {
      Sound() && -1 <= position < buffer.Length
    }

    ghost function State(): ReadState
      requires Valid()
      reads this, buffer
    {
      Reader(position, buffer[..], numSigBytes, lineLength, input)
    }

    /** InputStream(in, options), over a wrapped stream holding `input`. */
    constructor (input: seq<byte>, options: Options)
      ensures Valid() && Settings() == StreamMode(options)
      ensures State() == NewReader(Settings(), buffer[..], input)
      ensures buffer[..] == seq(ReaderLength(Settings()), i => 0)
      ensures fresh(buffer)
    {
      this.options := options;
      this.breakLines := options & DO_BREAK_LINES != 0;
      this.encode := options & ENCODE != 0;
      this.bufferLength := if options & ENCODE != 0 then 4 else 3;
      var length := if options & ENCODE != 0 then 4 else 3;
      this.buffer := new byte[length](i => 0);
      this.position := -1;
      this.lineLength := 0;
      this.numSigBytes := 0;
      this.decodabet := DialectOf(options);
      this.input := input;
    }

    /** `in.read()`: the next byte of the wrapped stream, or None at its end. */
    method ReadIn() returns (b: Option<byte>)
      modifies this`input
      ensures old(input) == [] ==> b.None? && input == []
      ensures old(input) != [] ==> b == Some(old(input)[0]) && input == old(input)[1..]
    {
      if input == [] {
        return None;
      }
      b := Some(input[0]);
      input := input[1..];
    }

    /** read(), with its int result: the byte handed out, -1 at the end of the stream, or the exception thrown. */
    method Read() returns (r: Result<int>)
      requires Valid()
      modifies this, buffer
      ensures Valid()
      ensures var o := AfterRead(Settings(), old(State()));
        State() == o.next && r == (if o.result.Err? then Err(o.result.error) else Ok(ReadValue(o.result.value)))
    {
      var b := ReadByte();
      if b.Err? {
        return Err(b.error);
      }
      r := Ok(if b.value.None? then -1 else b.value.value as int);
    }

    /** read(): a refill when the buffer is spent, then the next byte. */
    method ReadByte() returns (r: Result<Option<byte>>)
      requires Valid()
      modifies this, buffer
      ensures Valid()
      ensures Outcome(State(), r) == AfterRead(Settings(), old(State()))
    {
      if position < 0 {
        if encode {
          var filled := FillEncoded();
          if !filled {
            return Ok(None);
          }
        } else {
          var filled := FillDecoded();
          if filled.Err? {
            return Err(filled.error);
          }
          if !filled.value {
            return Ok(None);
          }
        }
      }
      r := ServeNext();
    }

    /** The encoding refill: up to three bytes read, then encode3to4 into the buffer. */
    method FillEncoded() returns (filled: bool)
      requires Valid() && encode && position < 0
      modifies this, buffer
      ensures Valid()
      ensures var o := EncodeFill(Settings(), old(State()));
        State() == o.next && o.result == Ok(filled)
    {
      ghost var in0 := input;
      var b3 := new byte[3];
      var numBinaryBytes := 0;
      var i := 0;
      while i < 3
        invariant 0 <= i <= 3 && i <= |in0| && numBinaryBytes == i
        invariant input == in0[i..] && b3[..i] == in0[..i]
        modifies this`input, b3
        decreases 3 - i
      {
        var b := ReadIn();
        if b.None? {
          break;
        }
        b3[i] := b.value;
        numBinaryBytes := numBinaryBytes + 1;
        i := i + 1;
      }
      assert numBinaryBytes == if |in0| < 3 then |in0| else 3;
      if numBinaryBytes > 0 {
        Encode3To4(b3, 0, numBinaryBytes, buffer, 0, options);
        assert buffer[..] == buffer[0..4];
        position := 0;
        numSigBytes := 4;
        return true;
      }
      return false;
    }

    /** The decoding refill: four significant characters read, each after those passed over, then decode4to3 into the buffer. */
    method FillDecoded() returns (r: Result<bool>)
      requires Valid() && !encode && position < 0
      modifies this, buffer
      ensures Valid()
      ensures var o := DecodeFill(Settings(), old(State()));
        State() == o.next && o.result == r
    {
      var b4 := new byte[4];
      var i := TakeChars(b4);
      if i == 4 {
        assert b4[..i] == b4[..];
        r := DecodeInto(b4);
      } else if i == 0 {
        r := Ok(false);
      } else {
        r := Err(IO);
      }
    }

    /** The decode4to3 call of the decoding refill: the four characters in `b4` decoded into the front of the buffer. */
    method DecodeInto(b4: array<byte>) returns (r: Result<bool>)
      requires Valid() && !encode && b4.Length == 4 && b4 != buffer
      modifies this`numSigBytes, this`position, buffer
      ensures Valid()
      ensures var o := DecodeTaken(Settings(), old(State()), b4[..]);
        State() == o.next && o.result == r
    {
      assert b4[..] == b4[0..4];
      var n :- Decode4To3(b4, 0, buffer, 0, options);
      numSigBytes := n;
      position := 0;
      return Ok(true);
    }

    /** The outer loop of the decoding refill: up to four significant characters into `b4`, and their number. */
    method TakeChars(b4: array<byte>) returns (i: nat)
      requires Valid() && b4.Length == 4
      modifies this`input, b4
      ensures i <= 4
      ensures var t := TakeFrom(SignificantIn(decodabet), old(input), 0, GROUP_CHARS);
        b4[..i] == t.chars && input == old(input)[t.end..]
    {
      ghost var in0 := input;
      ghost var sig := SignificantIn(decodabet);
      ghost var at: nat := 0;
      ghost var left: nat := 4;
      ghost var got: seq<byte> := [];
      ghost var whole := TakeFrom(sig, in0, at, left);
      assert got + whole.chars == whole.chars;
      i := 0;
      while i < 4
        invariant 0 <= i <= 4 && left == 4 - i && at <= |in0| && input == in0[at..]
        invariant b4[..i] == got
        invariant TakingFrom(sig, in0, whole, got, at, left)
        decreases 4 - i
      {
        ghost var start := at;
        var b := NextSignificant(sig, in0, start);
        if b.None? {
          TakeNone(sig, in0, start, left, whole, got);
          at := |in0|;
          break;
        }
        ghost var before := got;
        ghost var n := left;
        got := got + [b.value];
        at := SkipFrom(sig, in0, start) + 1;
        left := left - 1;
        TakeOne(sig, in0, start, n, whole, before, b.value, got, at, left);
        b4[i] := b.value;
        assert b4[..i + 1] == b4[..i] + [b.value];
        i := i + 1;
      }
    }

    /**
     * The inner do-while loop: reads until a significant character or the
     * end, and returns that character, or None at the end.
     */
    method NextSignificant(ghost sig: byte -> bool, ghost in0: seq<byte>, ghost start: nat) returns (b: Option<byte>)
      requires sig == SignificantIn(decodabet) && start <= |in0| && input == in0[start..]
      modifies this`input
      ensures b.None? ==> SkipFrom(sig, in0, start) == |in0| && input == []
      ensures b.Some? ==> SkipFrom(sig, in0, start) < |in0| && b.value == in0[SkipFrom(sig, in0, start)]
                          && input == in0[SkipFrom(sig, in0, start) + 1..]
    {
      ghost var at := start;
      b := ReadIn();
      if b.Some? {
        at := at + 1;
      }
      while b.Some? && !Significant(decodabet, b.value)
        invariant start <= at <= |in0| && input == in0[at..]
        invariant b.Some? ==> start < at && b.value == in0[at - 1] && forall j :: start <= j < at - 1 ==> !sig(in0[j])
        invariant b.None? ==> at == |in0| && forall j :: start <= j < at ==> !sig(in0[j])
        modifies this`input
        decreases |input| + (if b.Some? then 1 else 0)
      {
        b := ReadIn();
        if b.Some? {
          at := at + 1;
        }
      }
      if b.Some? {
        SkipFromAt(sig, in0, start, at - 1);
      } else {
        SkipFromAt(sig, in0, start, |in0|);
      }
    }

    /** Handing out from the filled buffer. */
    method ServeNext() returns (r: Result<Option<byte>>)
      requires Valid() && position >= 0
      modifies this
      ensures Valid()
      ensures Outcome(State(), r) == Serve(Settings(), old(State()))
    {
      if position >= numSigBytes {
        return Ok(None);
      }
      if encode && breakLines && lineLength >= MAX_LINE_LENGTH {
        lineLength := 0;
        return Ok(Some(NEW_LINE));
      }
      lineLength := lineLength + 1;
      var b := buffer[position];
      position := position + 1;
      if position >= bufferLength {
        position := -1;
      }
      return Ok(Some(b));
    }

    /** read(byte[], off, len): read() up to `len` times into `dest` from `off`. */
    method ReadInto(dest: array?<byte>, off: int, len: int) returns (r: Result<int>)
      requires Valid() && dest != buffer
      modifies this, buffer, dest
      ensures Valid()
      ensures Filled(State(), Contents(dest), r) == AfterReadArray(Settings(), old(State()), old(Contents(dest)), off, len)
    {
      ghost var f0 := AfterReadArray(Settings(), State(), Contents(dest), off, len);
      r := FillFrom(dest, off, len, f0);
    }

    /** The loop of read(byte[], off, len), proved against the loop of the model. */
    method FillFrom(dest: array?<byte>, off: int, len: int, ghost f0: Filled<ReadState>) returns (r: Result<int>)
      requires Valid() && dest != buffer
      requires FillLoop(Reading(Settings()), State(), Contents(dest), off, len, 0) == f0
      modifies this, buffer, dest
      ensures Valid()
      ensures Filled(State(), Contents(dest), r) == f0
    {
      ghost var m := Settings();
      var i := 0;
      while i < len
        invariant Valid() && Settings() == m && 0 <= i
        invariant FillLoop(Reading(m), State(), Contents(dest), off, len, i) == f0
        modifies this, buffer, dest
        decreases len - i
      {
        var done: bool;
        done, r := ReadOneInto(dest, off, len, i, f0);
        if done {
          return;
        }
        i := i + 1;
      }
      FillEnd(Reading(m), State(), Contents(dest), off, len, i);
      return Ok(i);
    }

    /** One turn of the loop of read(byte[], off, len): a read() and the store at `off + i`, or the end of the loop. */
    method ReadOneInto(dest: array?<byte>, off: int, len: int, i: nat, ghost f: Filled<ReadState>) returns (done: bool, r: Result<int>)
      requires Valid() && dest != buffer && i < len
      requires FillLoop(Reading(Settings()), State(), Contents(dest), off, len, i) == f
      modifies this, buffer, dest
      ensures Valid()
      ensures done ==> Filled(State(), Contents(dest), r) == f
      ensures !done ==> FillLoop(Reading(Settings()), State(), Contents(dest), off, len, i + 1) == f
    {
      ghost var s := State();
      ghost var d := Contents(dest);
      var b := ReadByte();
      FillTurn(Reading(Settings()), s, d, off, len, i, Outcome(State(), b));
      if b.Err? {
        done, r := true, Err(b.error);
      } else if b.value.None? {
        done, r := true, Ok(if i == 0 then -1 else i);
      } else if dest == null {
        done, r := true, Err(NullPointer);
      } else if off + i < 0 || off + i >= dest.Length {
        done, r := true, Err(IndexOutOfBounds);
      } else {
        dest[off + i] := b.value.value;
        assert Contents(dest) == Some(d.value[off + i := b.value.value]);
        done, r := false, Ok(i + 1);
      }
    }
  }
}
