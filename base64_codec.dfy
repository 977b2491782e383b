/**
 * The array-level Base64 codec: one group of three bytes to four characters
 * and back, `encodeBytesToBytes` without compression, and
 * `decode(byte[], int, int, int)`.
 *
 * The loops of the two array methods are proved against the specification
 * functions `Encoded` and `DecodeChecked`; the properties of the codec (exact
 * lengths, line breaks, the round trip) are lemmas about those functions.
 */
module Base64Codec {
  import opened Common
  import opened Base64Tables

  // ---------------------------------------------------------------------------
  // One group
  // ---------------------------------------------------------------------------

  /** The 24-bit buffer of up to three bytes, left-aligned, missing bytes zero. */
  function Pack(g: seq<byte>): bv32
    requires 1 <= |g| <= 3
  {
    (g[0] as bv32 << 16)
    | (if |g| > 1 then g[1] as bv32 << 8 else 0)
    | (if |g| > 2 then g[2] as bv32 else 0)
  }

  /** The low six bits of `x`. */
  function SixBits(x: bv32): Digit
  {
    (x & 0x3F) as byte
  }

  /** Java's narrowing `(byte) x`: the low eight bits. */
  function Low(x: bv32): byte
  {
    (x & 0xFF) as byte
  }

  /**
   * Four characters for one to three bytes (the switch of encode3to4): the
   * packed buffer read six bits at a time from the top, '=' standing for each
   * six bits no byte reached.
   */
  function EncodeGroup(d: Dialect, g: seq<byte>): (r: seq<byte>)
    requires 1 <= |g| <= 3
    ensures |r| == 4
  {
    seq(4, k requires 0 <= k < 4 => GroupCharAt(d, g, k))
  }

  /** Character `k` of the group's encoding. */
  function GroupCharAt(d: Dialect, g: seq<byte>, k: nat): byte
    requires 1 <= |g| <= 3 && k < 4
  {
    if k <= |g| then Alphabet(d, DigitOfGroup(g, k)) else EQUALS_SIGN
  }

  /** `DECODABET[c] & 0xFF` for an entry: the digit, or the low byte of -1, -5 or -9. */
  function EntryBits(e: Entry): bv32
  {
    match e
    case Sextet(v) => v as bv32
    case Padding => 0xFF
    case WhiteSpace => 0xFB
    case Invalid => 0xF7
  }

  /**
   * The table lookup of decode4to3: the table is indexed by the signed byte,
   * so a character of 0x80 or more is a negative index.
   */
  function Lookup(d: Dialect, c: byte): (r: Result<bv32>)
    ensures r.Err? <==> c >= 0x80
  {
    if c >= 0x80 then Err(IndexOutOfBounds) else Ok(EntryBits(Decodabet(d, c)))
  }

  /** The `n` bytes held by four looked-up values (the arithmetic of decode4to3). */
  function JoinBits(n: nat, a: bv32, b: bv32, c: bv32, e: bv32): (r: seq<byte>)
    requires 1 <= n <= 3
    ensures |r| == n
  {
    if n == 1 then
      var x := (a << 18) | (b << 12);
      [Low(x >> 16)]
    else if n == 2 then
      var x := (a << 18) | (b << 12) | (c << 6);
      [Low(x >> 16), Low(x >> 8)]
    else
      var x := (a << 18) | (b << 12) | (c << 6) | e;
      [Low(x >> 16), Low(x >> 8), Low(x)]
  }

  /**
   * Three, two or one bytes from four characters (decode4to3): '=' third
   * means one byte, '=' fourth means two, otherwise three. Only the
   * characters that are used are looked up.
   */
  function DecodeGroup(d: Dialect, q: seq<byte>): (r: Result<seq<byte>>)
    requires |q| == 4
    ensures r.Ok? ==> 1 <= |r.value| <= 3
  {
    var a :- Lookup(d, q[0]);
    var b :- Lookup(d, q[1]);
    if q[2] == EQUALS_SIGN then Ok(JoinBits(1, a, b, 0, 0))
    else
      var c :- Lookup(d, q[2]);
      if q[3] == EQUALS_SIGN then Ok(JoinBits(2, a, b, c, 0))
      else
        var e :- Lookup(d, q[3]);
        Ok(JoinBits(3, a, b, c, e))
  }

  /** How many bytes a group yields, and exactly when the lookup fails. */
  lemma DecodeGroupCount(d: Dialect, q: seq<byte>)
    requires |q| == 4
    ensures DecodeGroup(d, q).Ok? ==>
      |DecodeGroup(d, q).value| == (if q[2] == EQUALS_SIGN then 1 else if q[3] == EQUALS_SIGN then 2 else 3)
    ensures DecodeGroup(d, q).Err? <==>
      q[0] >= 0x80 || q[1] >= 0x80 || (q[2] != EQUALS_SIGN && (q[2] >= 0x80 || (q[3] != EQUALS_SIGN && q[3] >= 0x80)))
  {
  }

  /** The `k`-th digit of a group's buffer. */
  function DigitOfGroup(g: seq<byte>, k: nat): Digit
    requires 1 <= |g| <= 3 && k < 4
  {
    var x := Pack(g);
    if k == 0 then SixBits(x >> 18)
    else if k == 1 then SixBits(x >> 12)
    else if k == 2 then SixBits(x >> 6)
    else SixBits(x)
  }

  /**
   * Character `k` of an encoded group: for `k <= |g|` it is the alphabet
   * character of the `k`-th digit, which decodes to that digit; after that it
   * is '='.
   */
  lemma GroupChar(d: Dialect, g: seq<byte>, k: nat)
    requires 1 <= |g| <= 3 && k < 4
    ensures k <= |g| ==> EncodeGroup(d, g)[k] == Alphabet(d, DigitOfGroup(g, k))
    ensures k <= |g| ==> Lookup(d, EncodeGroup(d, g)[k]) == Ok(DigitOfGroup(g, k) as bv32)
    ensures EncodeGroup(d, g)[k] == EQUALS_SIGN <==> k > |g|
    ensures !IsWhiteSpace(EncodeGroup(d, g)[k])
  {
    var i := DigitOfGroup(g, k);
    AlphabetDecodes(d, i);
  }

  /** A group has exactly `3 - |g|` padding characters, at its end; the others decode to digits. */
  lemma GroupShape(d: Dialect, g: seq<byte>)
    requires 1 <= |g| <= 3
    ensures forall k :: 0 <= k < 4 ==> (EncodeGroup(d, g)[k] == EQUALS_SIGN <==> k > |g|)
    ensures forall k :: 0 <= k <= |g| ==> Decodabet(d, EncodeGroup(d, g)[k]).Sextet?
  {
    forall k | 0 <= k < 4
      ensures EncodeGroup(d, g)[k] == EQUALS_SIGN <==> k > |g|
      ensures k <= |g| ==> Decodabet(d, EncodeGroup(d, g)[k]).Sextet?
    {
      GroupChar(d, g, k);
      if k <= |g| {
        AlphabetDecodes(d, DigitOfGroup(g, k));
      }
    }
  }

  /** One byte survives the split into two digits and the join back. */
  lemma JoinSplit1(b0: byte)
    ensures var x := b0 as bv32 << 16;
      JoinBits(1, SixBits(x >> 18) as bv32, SixBits(x >> 12) as bv32, 0, 0) == [b0]
  {
  }

  /** Two bytes survive the split into three digits and the join back. */
  lemma JoinSplit2(b0: byte, b1: byte)
    ensures var x := (b0 as bv32 << 16) | (b1 as bv32 << 8);
      JoinBits(2, SixBits(x >> 18) as bv32, SixBits(x >> 12) as bv32, SixBits(x >> 6) as bv32, 0) == [b0, b1]
  {
  }

  /** Three bytes survive the split into four digits and the join back. */
  lemma JoinSplit3(b0: byte, b1: byte, b2: byte)
    ensures var x := (b0 as bv32 << 16) | (b1 as bv32 << 8) | b2 as bv32;
      JoinBits(3, SixBits(x >> 18) as bv32, SixBits(x >> 12) as bv32, SixBits(x >> 6) as bv32, SixBits(x) as bv32)
        == [b0, b1, b2]
  {
  }

  /** The bytes of a group survive the split into digits and the join back. */
  lemma JoinSplit(g: seq<byte>)
    requires 1 <= |g| <= 3
    ensures JoinBits(|g|, DigitOfGroup(g, 0) as bv32, DigitOfGroup(g, 1) as bv32,
      if |g| > 1 then DigitOfGroup(g, 2) as bv32 else 0,
      if |g| > 2 then DigitOfGroup(g, 3) as bv32 else 0) == g
  {
    if |g| == 1 {
      assert Pack(g) == g[0] as bv32 << 16;
      JoinSplit1(g[0]);
      assert g == [g[0]];
    } else if |g| == 2 {
      assert Pack(g) == (g[0] as bv32 << 16) | (g[1] as bv32 << 8);
      JoinSplit2(g[0], g[1]);
      assert g == [g[0], g[1]];
    } else {
      JoinSplit3(g[0], g[1], g[2]);
      assert g == [g[0], g[1], g[2]];
    }
  }

  /** Decoding an encoded group gives the group back, in every dialect. */
  lemma GroupRoundTrip(d: Dialect, g: seq<byte>)
    requires 1 <= |g| <= 3
    ensures DecodeGroup(d, EncodeGroup(d, g)) == Ok(g)
  {
    GroupChar(d, g, 0);
    GroupChar(d, g, 1);
    GroupChar(d, g, 2);
    GroupChar(d, g, 3);
    JoinSplit(g);
  }

  // ---------------------------------------------------------------------------
  // Whole inputs: the specification functions
  // ---------------------------------------------------------------------------

  /** Full groups on one line of broken output: 19 * 4 == MAX_LINE_LENGTH. */
  const GROUPS_PER_LINE: nat := 19

  /** The four characters of an encoded group are seven-bit and significant. */
  lemma GroupCharacters(d: Dialect, g: seq<byte>, k: nat)
    requires 1 <= |g| <= 3 && k < 4
    ensures EncodeGroup(d, g)[k] < 0x80
    ensures Decodabet(d, EncodeGroup(d, g)[k]).Sextet? || EncodeGroup(d, g)[k] == EQUALS_SIGN
  {
    GroupShape(d, g);
    if k <= |g| {
      GroupChar(d, g, k);
      AlphabetChar(d, DigitOfGroup(g, k));
    }
  }

  /**
   * The output of the first `g` full groups of `data`: their characters, and
   * when breaking lines a '\n' after every 19th group.
   */
  function Body(data: seq<byte>, d: Dialect, brk: bool, g: nat): seq<byte>
    requires 3 * g <= |data|
  {
    if g == 0 then []
    else Body(data, d, brk, g - 1) + EncodeGroup(d, data[3 * (g - 1)..3 * g]) + LineEnd(brk, g)
  }

  /** What follows group number `g` (counting from 1): '\n' after every 19th when breaking lines. */
  function LineEnd(brk: bool, g: nat): seq<byte>
  {
    if brk && g % GROUPS_PER_LINE == 0 then [NEW_LINE] else []
  }

  /** One more group of output. */
  lemma BodyStep(data: seq<byte>, d: Dialect, brk: bool, g: nat)
    requires 0 < g && 3 * g <= |data|
    ensures Body(data, d, brk, g) == Body(data, d, brk, g - 1) + EncodeGroup(d, data[3 * (g - 1)..3 * g]) + LineEnd(brk, g)
  {
  }

  /** One more group of output: the group at input index `i`, after the `g` groups before it. */
  lemma BodyNext(data: seq<byte>, d: Dialect, brk: bool, g: nat, i: nat)
    requires i == 3 * g && i + 3 <= |data|
    ensures Body(data, d, brk, g + 1) == Body(data, d, brk, g) + EncodeGroup(d, data[i..i + 3]) + LineEnd(brk, g + 1)
  {
  }

  /** The encoding is `g` full groups, then the `n` bytes left over from index `i` as a padded group if there are any. */
  lemma EncodedSplit(data: seq<byte>, d: Dialect, brk: bool, g: nat, i: nat, n: nat)
    requires i == 3 * g && i + n == |data| && n < 3
    ensures Encoded(data, d, brk) == Body(data, d, brk, g) + (if n > 0 then EncodeGroup(d, data[i..i + n]) else [])
  {
    assert |data| / 3 == g;
    if n > 0 {
      assert data[i..] == data[i..i + n];
    }
  }

  /** The encoding of `data`: its full groups, then the padded last group if one to two bytes remain. */
  function Encoded(data: seq<byte>, d: Dialect, brk: bool): seq<byte>
  {
    var g := |data| / 3;
    Body(data, d, brk, g) + (if 3 * g < |data| then EncodeGroup(d, data[3 * g..]) else [])
  }

  /** `encodeBytesToBytes` without GZIP, argument checks included. */
  function EncodeChecked(source: Option<seq<byte>>, off: int, len: int, options: Options): Result<seq<byte>>
  {
    if source.None? then Err(NullPointer)
    else if off < 0 || len < 0 || off + len > |source.value| then Err(IllegalArgument)
    else Ok(Encoded(source.value[off..off + len], DialectOf(options), options & DO_BREAK_LINES != 0))
  }

  /** The length of `g` full groups of output. */
  function BodyLength(g: nat, brk: bool): nat
  {
    4 * g + (if brk then g / GROUPS_PER_LINE else 0)
  }

  /** The array size `encodeBytesToBytes` allocates for `n` bytes. */
  function EncLen(n: nat, brk: bool): nat
  {
    var encLen := (n / 3) * 4 + (if n % 3 > 0 then 4 else 0);
    if brk then encLen + encLen / MAX_LINE_LENGTH else encLen
  }

  /** Every full group is four characters, plus one '\n' per 19 groups. */
  lemma {:induction false} BodyLengthIs(data: seq<byte>, d: Dialect, brk: bool, g: nat)
    requires 3 * g <= |data|
    ensures |Body(data, d, brk, g)| == BodyLength(g, brk)
  {
    if g > 0 {
      BodyLengthIs(data, d, brk, g - 1);
    }
  }

  /** The groups of output that fit in the allocated array: up to one per started group of input. */
  lemma BodyFits(n: nat, brk: bool, h: nat)
    requires h <= n / 3 + (if n % 3 > 0 then 1 else 0)
    ensures BodyLength(h, brk) <= EncLen(n, brk)
  {
    var c := n / 3 + (if n % 3 > 0 then 1 else 0);
    assert (n / 3) * 4 + (if n % 3 > 0 then 4 else 0) == 4 * c;
    assert (4 * c) / MAX_LINE_LENGTH == c / GROUPS_PER_LINE;
  }

  /**
   * The length of the encoding: exactly the allocated size without line
   * breaks; with them, never more than the allocated size, and one less
   * exactly when `encodeBytesToBytes` has to copy into a shorter array.
   */
  lemma EncodedLength(data: seq<byte>, d: Dialect, brk: bool)
    ensures var n := |data|;
      |Encoded(data, d, brk)| == 4 * (n / 3) + (if n % 3 > 0 then 4 else 0) + (if brk then (n / 3) / GROUPS_PER_LINE else 0)
    ensures !brk ==> |Encoded(data, d, brk)| == EncLen(|data|, false)
    ensures brk ==> EncLen(|data|, true) - 1 <= |Encoded(data, d, brk)| <= EncLen(|data|, true)
  {
    var n := |data|;
    BodyLengthIs(data, d, brk, n / 3);
    BodyFits(n, brk, n / 3 + (if n % 3 > 0 then 1 else 0));
  }

  /** The arithmetic of line positions: a group's characters never sit at column 76, a line's '\n' does. */
  lemma LinePosition(h: nat, j: nat)
    requires j <= 4
    ensures (BodyLength(h, true) + j) % (MAX_LINE_LENGTH + 1) == MAX_LINE_LENGTH
      <==> j == 4 && (h + 1) % GROUPS_PER_LINE == 0
  {
    var q, r := h / GROUPS_PER_LINE, h % GROUPS_PER_LINE;
    assert h == GROUPS_PER_LINE * q + r;
    assert BodyLength(h, true) + j == (MAX_LINE_LENGTH + 1) * q + (4 * r + j);
    assert (BodyLength(h, true) + j) % (MAX_LINE_LENGTH + 1) == 4 * r + j;
    if r == GROUPS_PER_LINE - 1 {
      assert h + 1 == GROUPS_PER_LINE * (q + 1);
    } else {
      assert (h + 1) % GROUPS_PER_LINE == r + 1;
    }
  }

  /**
   * With DO_BREAK_LINES, the output of full groups holds '\n' exactly at every
   * 77th position: lines of 76 characters, each followed by a line feed.
   */
  lemma {:induction false} LineBreaks(data: seq<byte>, d: Dialect, g: nat, k: nat)
    requires 3 * g <= |data| && k < |Body(data, d, true, g)|
    ensures Body(data, d, true, g)[k] == NEW_LINE <==> k % (MAX_LINE_LENGTH + 1) == MAX_LINE_LENGTH
  {
    var prev := Body(data, d, true, g - 1);
    var body := Body(data, d, true, g);
    BodyStep(data, d, true, g);
    var group := EncodeGroup(d, data[3 * (g - 1)..3 * g]);
    assert body == prev + group + LineEnd(true, g);
    if k < |prev| {
      assert body[k] == prev[k];
      LineBreaks(data, d, g - 1, k);
    } else {
      LastGroupBreaks(data, d, g, k - |prev|);
    }
  }

  /** The characters of group number `g`, and the line feed after it if any, sit where LineBreaks says. */
  lemma LastGroupBreaks(data: seq<byte>, d: Dialect, g: nat, j: nat)
    requires 0 < g && 3 * g <= |data| && j < 4 + |LineEnd(true, g)|
    ensures var prev := Body(data, d, true, g - 1);
      var body := prev + EncodeGroup(d, data[3 * (g - 1)..3 * g]) + LineEnd(true, g);
      body[|prev| + j] == NEW_LINE <==> (|prev| + j) % (MAX_LINE_LENGTH + 1) == MAX_LINE_LENGTH
  {
    var prev := Body(data, d, true, g - 1);
    var group := EncodeGroup(d, data[3 * (g - 1)..3 * g]);
    var body := prev + group + LineEnd(true, g);
    BodyLengthIs(data, d, true, g - 1);
    LinePosition(g - 1, j);
    if j < 4 {
      GroupChar(d, data[3 * (g - 1)..3 * g], j);
      assert body[|prev| + j] == group[j];
    } else {
      assert body[|prev| + j] == NEW_LINE;
    }
  }

  /** Without DO_BREAK_LINES the output holds no white space at all. */
  lemma {:induction false} NoBreaksNoWhiteSpace(data: seq<byte>, d: Dialect, g: nat, k: nat)
    requires 3 * g <= |data| && k < |Body(data, d, false, g)|
    ensures !IsWhiteSpace(Body(data, d, false, g)[k])
  {
    var prev := Body(data, d, false, g - 1);
    if k < |prev| {
      NoBreaksNoWhiteSpace(data, d, g - 1, k);
    } else {
      GroupChar(d, data[3 * (g - 1)..3 * g], k - |prev|);
    }
  }

  /**
   * The decoding loop of `decode`, from a position in the input with the
   * characters `b4` of an unfinished group and the bytes `out` decoded so far:
   * white space is skipped, a character with no table entry is an error,
   * every fourth significant character completes a group, a group ending in
   * '=' ends decoding, and an unfinished group at the end is dropped.
   */
  function DecodeRun(d: Dialect, s: seq<byte>, b4: seq<byte>, out: seq<byte>): Result<seq<byte>>
    requires |b4| < 4
    decreases |s|
  {
    if s == [] then Ok(out)
    else if Decodabet(d, s[0]) == Invalid then Err(IO)
    else if Decodabet(d, s[0]) == WhiteSpace then DecodeRun(d, s[1..], b4, out)
    else if |b4| < 3 then DecodeRun(d, s[1..], b4 + [s[0]], out)
    else
      var group :- DecodeGroup(d, b4 + [s[0]]);
      if s[0] == EQUALS_SIGN then Ok(out + group)
      else DecodeRun(d, s[1..], [], out + group)
  }

  /** `decode(source, off, len, options)`, argument checks included. */
  function DecodeChecked(source: Option<seq<byte>>, off: int, len: int, options: Options): Result<seq<byte>>
  {
    if source.None? then Err(NullPointer)
    else if off < 0 || off + len > |source.value| then Err(IllegalArgument)
    else if len == 0 then Ok([])
    else if len < 4 then Err(IllegalArgument)
    else DecodeRun(DialectOf(options), source.value[off..off + len], [], [])
  }

  /** A character with a table value of -1 or more joins the unfinished group. */
  lemma DecodeRunTakes(d: Dialect, q: seq<byte>, k: nat, s: seq<byte>, out: seq<byte>)
    requires k < 3 && k < |q|
    requires Decodabet(d, q[k]).Sextet? || Decodabet(d, q[k]).Padding?
    ensures DecodeRun(d, q[k..] + s, q[..k], out) == DecodeRun(d, q[k + 1..] + s, q[..k + 1], out)
  {
    assert (q[k..] + s)[0] == q[k];
    assert (q[k..] + s)[1..] == q[k + 1..] + s;
    assert q[..k] + [q[k]] == q[..k + 1];
  }

  /** A line feed between groups is skipped. */
  lemma DecodeRunSkipsNewLine(d: Dialect, s: seq<byte>, out: seq<byte>)
    ensures DecodeRun(d, [NEW_LINE] + s, [], out) == DecodeRun(d, s, [], out)
  {
    assert ([NEW_LINE] + s)[1..] == s;
  }

  /** The first three characters of an encoded group go into the unfinished group. */
  lemma DecodeRunTakesThree(d: Dialect, g: seq<byte>, s: seq<byte>, out: seq<byte>)
    requires 1 <= |g| <= 3
    ensures var q := EncodeGroup(d, g);
      DecodeRun(d, q + s, [], out) == DecodeRun(d, q[3..] + s, q[..3], out)
  {
    var q := EncodeGroup(d, g);
    GroupShape(d, g);
    assert q[0..] == q && q[..0] == [];
    DecodeRunTakes(d, q, 0, s, out);
    DecodeRunTakes(d, q, 1, s, out);
    DecodeRunTakes(d, q, 2, s, out);
  }

  /** The encoding of a full group, followed by anything, decodes to the group and carries on. */
  lemma DecodeRunFullGroup(d: Dialect, g: seq<byte>, s: seq<byte>, out: seq<byte>)
    requires |g| == 3
    ensures DecodeRun(d, EncodeGroup(d, g) + s, [], out) == DecodeRun(d, s, [], out + g)
  {
    var q := EncodeGroup(d, g);
    DecodeRunTakesThree(d, g, s, out);
    GroupChar(d, g, 3);
    GroupRoundTrip(d, g);
    var rest := q[3..] + s;
    assert rest[0] == q[3] && rest[1..] == s;
    assert q[..3] + [q[3]] == q;
  }

  /**
   * The encoding of a padded last group decodes to the group and ends
   * decoding: whatever follows it is not looked at.
   */
  lemma DecodeRunLastGroup(d: Dialect, g: seq<byte>, s: seq<byte>, out: seq<byte>)
    requires 1 <= |g| <= 2
    ensures DecodeRun(d, EncodeGroup(d, g) + s, [], out) == Ok(out + g)
  {
    var q := EncodeGroup(d, g);
    DecodeRunTakesThree(d, g, s, out);
    GroupChar(d, g, 3);
    GroupRoundTrip(d, g);
    var rest := q[3..] + s;
    assert rest[0] == q[3];
    assert q[..3] + [q[3]] == q;
  }

  /** A full group and the line end after it decode to the group. */
  lemma DecodeRunGroupLine(d: Dialect, group: seq<byte>, brk: bool, g: nat, rest: seq<byte>, out: seq<byte>)
    requires |group| == 3
    ensures DecodeRun(d, EncodeGroup(d, group) + (LineEnd(brk, g) + rest), [], out) == DecodeRun(d, rest, [], out + group)
  {
    var nl := LineEnd(brk, g);
    DecodeRunFullGroup(d, group, nl + rest, out);
    if nl == [] {
      assert nl + rest == rest;
    } else {
      DecodeRunSkipsNewLine(d, rest, out + group);
    }
  }

  /** The full groups of an encoding decode to the bytes they encode, whatever follows them. */
  lemma {:induction false} BodyDecodes(data: seq<byte>, d: Dialect, brk: bool, g: nat, rest: seq<byte>, out: seq<byte>)
    requires 3 * g <= |data|
    ensures DecodeRun(d, Body(data, d, brk, g) + rest, [], out) == DecodeRun(d, rest, [], out + data[..3 * g])
  {
    if g == 0 {
      assert Body(data, d, brk, 0) + rest == rest;
      assert out + data[..0] == out;
    } else {
      var group := data[3 * (g - 1)..3 * g];
      var nl := LineEnd(brk, g);
      var tail := EncodeGroup(d, group) + (nl + rest);
      var prefix := out + data[..3 * (g - 1)];
      calc {
        DecodeRun(d, Body(data, d, brk, g) + rest, [], out);
        { BodyStep(data, d, brk, g); assert Body(data, d, brk, g) + rest == Body(data, d, brk, g - 1) + tail; }
        DecodeRun(d, Body(data, d, brk, g - 1) + tail, [], out);
        { BodyDecodes(data, d, brk, g - 1, tail, out); }
        DecodeRun(d, tail, [], prefix);
        { DecodeRunGroupLine(d, group, brk, g, rest, prefix); }
        DecodeRun(d, rest, [], prefix + group);
        { assert prefix + group == out + data[..3 * g]; }
        DecodeRun(d, rest, [], out + data[..3 * g]);
      }
    }
  }

  /**
   * The round trip: decoding the encoding of any data, in the same dialect,
   * with or without line breaks, gives the data back.
   */
  lemma RoundTrip(data: seq<byte>, d: Dialect, brk: bool)
    ensures DecodeRun(d, Encoded(data, d, brk), [], []) == Ok(data)
  {
    var n := |data|;
    var g := n / 3;
    var body := Body(data, d, brk, g);
    if n % 3 > 0 {
      var last := EncodeGroup(d, data[3 * g..]);
      calc {
        DecodeRun(d, Encoded(data, d, brk), [], []);
        { assert Encoded(data, d, brk) == body + last; }
        DecodeRun(d, body + last, [], []);
        { BodyDecodes(data, d, brk, g, last, []); }
        DecodeRun(d, last, [], [] + data[..3 * g]);
        { assert last + [] == last; DecodeRunLastGroup(d, data[3 * g..], [], [] + data[..3 * g]); }
        Ok([] + data[..3 * g] + data[3 * g..]);
        { assert [] + data[..3 * g] + data[3 * g..] == data; }
        Ok(data);
      }
    } else {
      calc {
        DecodeRun(d, Encoded(data, d, brk), [], []);
        { assert Encoded(data, d, brk) == body + []; }
        DecodeRun(d, body + [], [], []);
        { BodyDecodes(data, d, brk, g, [], []); }
        DecodeRun(d, [], [], [] + data[..3 * g]);
        { assert [] + data[..3 * g] == data; }
        Ok(data);
      }
    }
  }

  /**
   * `decode(encodeBytesToBytes(x, 0, |x|, options), 0, n, options')` gives `x`
   * back whenever the two option words select the same alphabet.
   */
  lemma EncodeThenDecode(x: seq<byte>, options: Options, options': Options)
    requires options & GZIP == 0
    requires DialectOf(options) == DialectOf(options')
    ensures EncodeChecked(Some(x), 0, |x|, options).Ok?
    ensures var e := EncodeChecked(Some(x), 0, |x|, options).value;
      DecodeChecked(Some(e), 0, |e|, options') == Ok(x)
  {
    var brk := options & DO_BREAK_LINES != 0;
    var e := Encoded(x, DialectOf(options), brk);
    assert x[0..|x|] == x;
    RoundTrip(x, DialectOf(options), brk);
    EncodedLength(x, DialectOf(options), brk);
    assert e[0..|e|] == e;
  }

  // ---------------------------------------------------------------------------
  // The array methods
  // ---------------------------------------------------------------------------

  /**
   * encode3to4: writes the four characters of `numSigBytes` bytes of `source`
   * at `destOffset`; any count other than 1 to 3 writes nothing. The caller
   * guarantees the arrays are long enough.
   */
  method Encode3To4(source: array<byte>, srcOffset: int, numSigBytes: int,
                    destination: array<byte>, destOffset: int, options: Options)
    requires 0 <= srcOffset
    requires numSigBytes > 0 ==> srcOffset + (if numSigBytes < 3 then numSigBytes else 3) <= source.Length
    requires 1 <= numSigBytes <= 3 ==> 0 <= destOffset && destOffset + 4 <= destination.Length
    modifies destination
    ensures 1 <= numSigBytes <= 3 ==>
      destination[..destOffset] == old(destination[..destOffset])
      && destination[destOffset..destOffset + 4]
         == EncodeGroup(DialectOf(options), old(source[srcOffset..srcOffset + numSigBytes]))
      && destination[destOffset + 4..] == old(destination[destOffset + 4..])
    ensures !(1 <= numSigBytes <= 3) ==> destination[..] == old(destination[..])
  {
    var alphabet := DialectOf(options);
    if 1 <= numSigBytes <= 3 {
      WriteBytes(destination, destOffset, EncodeGroup(alphabet, source[srcOffset..srcOffset + numSigBytes]));
    }
  }

  /** Stores the bytes `q` at `destOffset`, leaving the rest of the array alone. */
  method WriteBytes(destination: array<byte>, destOffset: int, q: seq<byte>)
    requires 0 <= destOffset && destOffset + |q| <= destination.Length
    modifies destination
    ensures destination[..destOffset] == old(destination[..destOffset])
    ensures destination[destOffset..destOffset + |q|] == q
    ensures destination[destOffset + |q|..] == old(destination[destOffset + |q|..])
  {
    forall k | 0 <= k < |q| {
      destination[destOffset + k] := q[k];
    }
  }

  /**
   * encodeBytesToBytes without the GZIP option: the argument checks, then
   * the groups of `len` bytes from `off` written into an array of the
   * precomputed size `EncLen`, every write inside it, and the result cut to
   * the characters written.
   */
  method EncodeBytesToBytes(source: array?<byte>, off: int, len: int, options: Options) returns (r: Result<seq<byte>>)
    requires options & GZIP == 0
    ensures r == EncodeChecked(if source == null then None else Some(source[..]), off, len, options)
  {
    if source == null { return Err(NullPointer); }
    if off < 0 { return Err(IllegalArgument); }
    if len < 0 { return Err(IllegalArgument); }
    if off + len > source.Length { return Err(IllegalArgument); }

    var breakLines := options & DO_BREAK_LINES != 0;
    var encLen := (len / 3) * 4 + (if len % 3 > 0 then 4 else 0);
    if breakLines {
      encLen := encLen + encLen / MAX_LINE_LENGTH;
    }
    assert encLen == EncLen(len, breakLines);
    ghost var input := source[..];
    ghost var data := source[off..off + len];
    ghost var alphabet := DialectOf(options);
    assert EncodeChecked(Some(input), off, len, options) == Ok(Encoded(data, alphabet, breakLines));
    var outBuff := new byte[encLen];
    var d, e := EncodeFullGroups(source, off, len, options, outBuff, data, alphabet, breakLines);
    EncodedSplit(data, alphabet, breakLines, len / 3, d, len - d);
    BodyFits(len, breakLines, len / 3 + (if d < len then 1 else 0));
    e := EncodeLastGroup(source, off, len, options, outBuff, data, alphabet, breakLines, d, e);
    if e <= outBuff.Length - 1 {
      r := Ok(outBuff[..e]);
    } else {
      assert outBuff[..] == outBuff[..e];
      r := Ok(outBuff[..]);
    }
    assert source[..] == input;
  }

  /**
   * The tail of encodeBytesToBytes: the last one or two bytes, if any, as a
   * padded group. `data` is the input, `alphabet` and `breakLines` what
   * `options` selects.
   */
  method EncodeLastGroup(source: array<byte>, off: int, len: int, options: Options, outBuff: array<byte>,
                         ghost data: seq<byte>, ghost alphabet: Dialect, ghost breakLines: bool, d: int, e: int)
    returns (e': int)
    requires 0 <= off && 0 <= len && off + len <= source.Length && data == source[off..off + len]
    requires alphabet == DialectOf(options) && source != outBuff
    requires 0 <= d <= len <= d + 2
    requires 0 <= e && e + (if d < len then 4 else 0) <= outBuff.Length
    modifies outBuff
    ensures e' == e + (if d < len then 4 else 0)
    ensures outBuff[..e'] == old(outBuff[..e]) + (if d < len then EncodeGroup(alphabet, data[d..d + (len - d)]) else [])
  {
    e' := e;
    if d < len {
      SliceOfSlice(source, off, len, d, len - d);
      AppendGroup(source, d + off, len - d, outBuff, e, options, alphabet, data[d..d + (len - d)], outBuff[..e]);
      e' := e + 4;
    } else {
      assert outBuff[..e] + [] == outBuff[..e];
    }
  }

  /**
   * The loop of encodeBytesToBytes over the full groups: `d` counts input
   * bytes, `e` output characters, and `lineLength` the characters on the
   * current line, which a '\n' ends once it reaches MAX_LINE_LENGTH.
   */
  method EncodeFullGroups(source: array<byte>, off: int, len: int, options: Options, outBuff: array<byte>,
                          ghost data: seq<byte>, ghost alphabet: Dialect, breakLines: bool)
    returns (d: int, e: int)
    requires 0 <= off && 0 <= len && off + len <= source.Length && data == source[off..off + len]
    requires alphabet == DialectOf(options) && source != outBuff
    requires outBuff.Length == EncLen(len, breakLines)
    modifies outBuff
    ensures d == 3 * (len / 3)
    ensures e == BodyLength(len / 3, breakLines)
    ensures outBuff[..e] == Body(data, alphabet, breakLines, len / 3)
  {
    d, e := 0, 0;
    var len2 := len - 2;
    var lineLength := 0;
    ghost var g: nat := 0;
    while d < len2
      invariant d == 3 * g && 3 * g <= len
      invariant e == BodyLength(g, breakLines)
      invariant outBuff[..e] == Body(data, alphabet, breakLines, g)
      invariant breakLines ==> lineLength == 4 * (g % GROUPS_PER_LINE)
    {
      e, lineLength := EncodeStep(source, off, len, options, outBuff, data, alphabet, breakLines, d, g, e, lineLength);
      d, g := d + 3, g + 1;
    }
    FullGroupCount(len, g);
  }

  /**
   * One pass of the loop of encodeBytesToBytes: group number `g` appended at
   * `e`, then a '\n' when the line has reached MAX_LINE_LENGTH.
   */
  method EncodeStep(source: array<byte>, off: int, len: int, options: Options, outBuff: array<byte>,
                    ghost data: seq<byte>, ghost alphabet: Dialect, breakLines: bool,
                    d: int, ghost g: nat, e: int, lineLength: int)
    returns (e': int, lineLength': int)
    requires 0 <= off && 0 <= len && off + len <= source.Length && data == source[off..off + len]
    requires alphabet == DialectOf(options) && source != outBuff
    requires d == 3 * g && 3 * g + 3 <= len
    requires outBuff.Length == EncLen(len, breakLines)
    requires e == BodyLength(g, breakLines)
    requires outBuff[..e] == Body(data, alphabet, breakLines, g)
    requires breakLines ==> lineLength == 4 * (g % GROUPS_PER_LINE)
    modifies outBuff
    ensures e' == BodyLength(g + 1, breakLines)
    ensures outBuff[..e'] == Body(data, alphabet, breakLines, g + 1)
    ensures breakLines ==> lineLength' == 4 * ((g + 1) % GROUPS_PER_LINE)
  {
    StepCounters(len, breakLines, g, lineLength);
    ghost var body := Body(data, alphabet, breakLines, g);
    ghost var group := EncodeGroup(alphabet, data[d..d + 3]);
    BodyNext(data, alphabet, breakLines, g, d);
    SliceOfSlice(source, off, len, d, 3);
    AppendGroup(source, d + off, 3, outBuff, e, options, alphabet, data[d..d + 3], body);
    e', lineLength' := e + 4, lineLength + 4;
    if breakLines && lineLength' >= MAX_LINE_LENGTH {
      AppendNewLine(outBuff, e', body + group);
      e', lineLength' := e' + 1, 0;
    } else {
      assert body + group + [] == body + group;
    }
  }

  /** The '\n' that ends a full line, written after the `prefix` already written. */
  method AppendNewLine(outBuff: array<byte>, e: int, ghost prefix: seq<byte>)
    requires 0 <= e < outBuff.Length && outBuff[..e] == prefix
    modifies outBuff
    ensures outBuff[..e + 1] == prefix + [NEW_LINE]
  {
    outBuff[e] := NEW_LINE;
    assert outBuff[..e + 1] == outBuff[..e] + [NEW_LINE];
  }

  /** The counters of one pass of the encoding loop: where the group and any '\n' go, and the new line length. */
  lemma StepCounters(len: nat, brk: bool, g: nat, lineLength: int)
    requires 3 * g + 3 <= len && (brk ==> lineLength == 4 * (g % GROUPS_PER_LINE))
    ensures BodyLength(g + 1, brk) == BodyLength(g, brk) + 4 + |LineEnd(brk, g + 1)| <= EncLen(len, brk)
    ensures LineEnd(brk, g + 1) == (if brk && lineLength + 4 >= MAX_LINE_LENGTH then [NEW_LINE] else [])
    ensures brk ==> (if lineLength + 4 >= MAX_LINE_LENGTH then 0 else lineLength + 4) == 4 * ((g + 1) % GROUPS_PER_LINE)
  {
    NextGroup(g, brk);
    assert g + 1 <= len / 3;
    BodyFits(len, brk, g + 1);
  }

  /** The encode3to4 call of encodeBytesToBytes: `group`, the bytes at `srcOffset`, encoded after the `prefix` already written. */
  method AppendGroup(source: array<byte>, srcOffset: int, numSigBytes: int, outBuff: array<byte>, e: int,
                     options: Options, ghost alphabet: Dialect, ghost group: seq<byte>, ghost prefix: seq<byte>)
    requires 0 <= srcOffset && 1 <= numSigBytes <= 3 && srcOffset + numSigBytes <= source.Length
    requires group == source[srcOffset..srcOffset + numSigBytes] && alphabet == DialectOf(options)
    requires source != outBuff && 0 <= e && e + 4 <= outBuff.Length && outBuff[..e] == prefix
    modifies outBuff
    ensures outBuff[..e + 4] == prefix + EncodeGroup(alphabet, group)
  {
    Encode3To4(source, srcOffset, numSigBytes, outBuff, e, options);
    assert outBuff[..e + 4] == outBuff[..e] + outBuff[e..e + 4];
  }

  /** The loop over full groups stops after `len / 3` of them. */
  lemma FullGroupCount(len: nat, g: nat)
    requires 3 * g <= len && !(3 * g < len - 2)
    ensures g == len / 3
  {
  }

  /** A slice of a slice of an array is a slice of the array. */
  lemma SliceOfSlice(a: array<byte>, off: nat, len: nat, i: nat, n: nat)
    requires off + len <= a.Length && i + n <= len
    ensures a[off..off + len][i..i + n] == a[i + off..i + off + n]
  {
    var t := a[off..off + len];
    assert forall k :: i <= k < i + n ==> t[k] == a[off + k];
  }

  /** The counters of the encoding loop from one group to the next. */
  lemma NextGroup(g: nat, brk: bool)
    ensures var endsLine := (g + 1) % GROUPS_PER_LINE == 0;
      && (endsLine <==> 4 * (g % GROUPS_PER_LINE) + 4 >= MAX_LINE_LENGTH)
      && (endsLine ==> (g + 1) % GROUPS_PER_LINE == 0)
      && (!endsLine ==> (g + 1) % GROUPS_PER_LINE == g % GROUPS_PER_LINE + 1)
      && BodyLength(g + 1, brk) == BodyLength(g, brk) + 4 + |LineEnd(brk, g + 1)|
  {
  }

  /**
   * decode4to3 with its argument checks: both arrays present, four source
   * characters from `srcOffset` and room for three bytes from `destOffset`;
   * the bytes are those of DecodeGroup.
   */
  function Decode4To3Checked(source: Option<seq<byte>>, srcOffset: int, destLength: Option<nat>, destOffset: int,
                             options: Options): Result<seq<byte>>
  {
    if source.None? || destLength.None? then Err(NullPointer)
    else if srcOffset < 0 || srcOffset + 3 >= |source.value| then Err(IllegalArgument)
    else if destOffset < 0 || destOffset + 2 >= destLength.value then Err(IllegalArgument)
    else DecodeGroup(DialectOf(options), source.value[srcOffset..srcOffset + 4])
  }

  /**
   * decode4to3: the bytes of the four characters at `srcOffset` stored at
   * `destOffset`, and their number returned. Nothing is stored when it
   * throws, and `source` is read before `destination` is written, so the two
   * may be the same array.
   */
  method Decode4To3(source: array?<byte>, srcOffset: int, destination: array?<byte>, destOffset: int, options: Options)
    returns (r: Result<nat>)
    modifies destination
    ensures var spec := Decode4To3Checked(if source == null then None else Some(old(source[..])), srcOffset,
                                          if destination == null then None else Some(destination.Length), destOffset, options);
      && (r.Err? <==> spec.Err?)
      && (r.Err? ==> r.error == spec.error && (destination != null ==> destination[..] == old(destination[..])))
      && (r.Ok? ==> destination != null && r.value == |spec.value|
                    && destination[..destOffset] == old(destination[..destOffset])
                    && destination[destOffset..destOffset + r.value] == spec.value
                    && destination[destOffset + r.value..] == old(destination[destOffset + r.value..]))
  {
    if source == null { return Err(NullPointer); }
    if destination == null { return Err(NullPointer); }
    if srcOffset < 0 || srcOffset + 3 >= source.Length { return Err(IllegalArgument); }
    if destOffset < 0 || destOffset + 2 >= destination.Length { return Err(IllegalArgument); }
    var q0, q1, q2, q3 := source[srcOffset], source[srcOffset + 1], source[srcOffset + 2], source[srcOffset + 3];
    assert source[srcOffset..srcOffset + 4] == [q0, q1, q2, q3];
    var bytes :- DecodeChars(DialectOf(options), q0, q1, q2, q3);
    WriteBytes(destination, destOffset, bytes);
    r := Ok(|bytes|);
  }

  /** The branches of decode4to3 over the characters `q0`..`q3`: '=' third, '=' fourth, or neither. */
  method DecodeChars(decodabet: Dialect, q0: byte, q1: byte, q2: byte, q3: byte) returns (r: Result<seq<byte>>)
    ensures r == DecodeGroup(decodabet, [q0, q1, q2, q3])
    ensures r.Ok? ==> |r.value| == (if q2 == EQUALS_SIGN then 1 else if q3 == EQUALS_SIGN then 2 else 3)
  {
    if q2 == EQUALS_SIGN {
      var a :- Lookup(decodabet, q0);
      var b :- Lookup(decodabet, q1);
      r := Ok(JoinBits(1, a, b, 0, 0));
    } else if q3 == EQUALS_SIGN {
      var a :- Lookup(decodabet, q0);
      var b :- Lookup(decodabet, q1);
      var c :- Lookup(decodabet, q2);
      r := Ok(JoinBits(2, a, b, c, 0));
    } else {
      var a :- Lookup(decodabet, q0);
      var b :- Lookup(decodabet, q1);
      var c :- Lookup(decodabet, q2);
      var e :- Lookup(decodabet, q3);
      r := Ok(JoinBits(3, a, b, c, e));
    }
  }

  /**
   * decode(source, off, len, options): the argument checks, then the loop
   * over the characters, which skips white space, stops at an invalid
   * character, and decodes every fourth significant one with the three
   * before it into `outBuff`, of the estimated size `len * 3 / 4`; a group
   * ending in '=' ends the loop. The result is the part of `outBuff` written.
   */
  method Decode(source: array?<byte>, off: int, len: int, options: Options) returns (r: Result<seq<byte>>)
    ensures r == DecodeChecked(if source == null then None else Some(source[..]), off, len, options)
  {
    if source == null { return Err(NullPointer); }
    if off < 0 || off + len > source.Length { return Err(IllegalArgument); }
    if len == 0 {
      return Ok([]);
    } else if len < 4 {
      return Err(IllegalArgument);
    }
    ghost var spec := DecodeRun(DialectOf(options), source[off..off + len], [], []);
    var len34 := len * 3 / 4;
    var outBuff := new byte[len34];
    var outBuffPosn := 0;
    var b4 := new byte[4];
    var b4Posn := 0;
    var i := off;
    while i < off + len
      invariant off <= i <= off + len
      invariant 0 <= b4Posn < 4 && 0 <= outBuffPosn <= outBuff.Length
      invariant 4 * outBuffPosn <= 3 * (i - off - b4Posn)
      invariant spec == DecodeRun(DialectOf(options), source[i..off + len], b4[..b4Posn], outBuff[..outBuffPosn])
    {
      var more;
      more, b4Posn, outBuffPosn :- DecodeStep(source, i, off + len, options, b4, b4Posn, outBuff, outBuffPosn, spec, off);
      if !more {
        return Ok(outBuff[..outBuffPosn]);
      }
      i := i + 1;
    }
    r := Ok(outBuff[..outBuffPosn]);
  }

  /**
   * One pass of the loop of decode, at character `i` of the input running
   * from `start` to `end`: `more` is false when a group ending in '=' ends
   * the loop, and an exception is returned as an error.
   */
  method DecodeStep(source: array<byte>, i: int, end: int, options: Options, b4: array<byte>, b4Posn: int,
                    outBuff: array<byte>, outBuffPosn: int, ghost spec: Result<seq<byte>>, ghost start: int)
    returns (more: Result<bool>, b4Posn': int, outBuffPosn': int)
    requires 0 <= start <= i < end <= source.Length
    requires b4.Length == 4 && b4 != outBuff && source != b4 && source != outBuff
    requires 0 <= b4Posn < 4 && 0 <= outBuffPosn <= outBuff.Length && outBuff.Length == (end - start) * 3 / 4
    requires 4 * outBuffPosn <= 3 * (i - start - b4Posn)
    requires spec == DecodeRun(DialectOf(options), source[i..end], b4[..b4Posn], outBuff[..outBuffPosn])
    modifies b4, outBuff
    ensures more.Err? ==> spec == Err(more.error)
    ensures more == Ok(false) ==> 0 <= outBuffPosn' <= outBuff.Length && spec == Ok(outBuff[..outBuffPosn'])
    ensures more == Ok(true) ==>
      && 0 <= b4Posn' < 4 && 0 <= outBuffPosn' <= outBuff.Length
      && 4 * outBuffPosn' <= 3 * (i + 1 - start - b4Posn')
      && spec == DecodeRun(DialectOf(options), source[i + 1..end], b4[..b4Posn'], outBuff[..outBuffPosn'])
  {
    var decodabet := DialectOf(options);
    ghost var rest, held, out := source[i..end], b4[..b4Posn], outBuff[..outBuffPosn];
    assert rest[0] == source[i] && rest[1..] == source[i + 1..end];
    b4Posn', outBuffPosn' := b4Posn, outBuffPosn;
    var sbiDecode := TableValue(Decodabet(decodabet, source[i]));
    if sbiDecode >= WHITE_SPACE_ENC {
      if sbiDecode >= EQUALS_SIGN_ENC {
        b4[b4Posn'] := source[i];
        assert b4[..b4Posn' + 1] == held + [source[i]];
        b4Posn' := b4Posn' + 1;
        if b4Posn' > 3 {
          assert b4[..] == held + [source[i]];
          GroupRoom(start, i, end, outBuffPosn');
          DecodeRunGroup(decodabet, rest, held, out);
          var n :- AppendDecoded(b4, outBuff, outBuffPosn', options, out);
          outBuffPosn' := outBuffPosn' + n;
          b4Posn' := 0;
          if source[i] == EQUALS_SIGN {
            return Ok(false), b4Posn', outBuffPosn';
          }
        }
      }
    } else {
      return Err(IO), b4Posn', outBuffPosn';
    }
    more := Ok(true);
  }

  /** A group completed at index `i` fits the output array, and so do the bytes before it and its own. */
  lemma GroupRoom(start: int, i: int, end: int, e: int)
    requires 0 <= start <= i < end && 0 <= e && 4 * e <= 3 * (i - start - 3)
    ensures e + 2 < (end - start) * 3 / 4
    ensures 4 * (e + 3) <= 3 * (i + 1 - start)
  {
  }

  /** The decode4to3 call of decode: the group held in `b4` decoded after the bytes `out` already written. */
  method AppendDecoded(b4: array<byte>, outBuff: array<byte>, outBuffPosn: int, options: Options, ghost out: seq<byte>)
    returns (r: Result<nat>)
    requires b4.Length == 4 && b4 != outBuff
    requires 0 <= outBuffPosn && outBuffPosn + 2 < outBuff.Length && outBuff[..outBuffPosn] == out
    modifies outBuff
    ensures r.Err? ==> DecodeGroup(DialectOf(options), b4[..]) == Err(r.error)
    ensures r.Ok? ==> (DecodeGroup(DialectOf(options), b4[..]).Ok?
      && r.value == |DecodeGroup(DialectOf(options), b4[..]).value|
      && outBuffPosn + r.value <= outBuff.Length
      && outBuff[..outBuffPosn + r.value] == out + DecodeGroup(DialectOf(options), b4[..]).value)
  {
    assert b4[..] == b4[..][0..4];
    r := Decode4To3(b4, 0, outBuff, outBuffPosn, options);
    if r.Ok? {
      assert outBuff[..outBuffPosn + r.value] == outBuff[..outBuffPosn] + outBuff[outBuffPosn..outBuffPosn + r.value];
    }
  }

  /** The step of the decoding loop at the fourth significant character of a group. */
  lemma DecodeRunGroup(d: Dialect, s: seq<byte>, b4: seq<byte>, out: seq<byte>)
    requires s != [] && |b4| == 3 && (Decodabet(d, s[0]).Sextet? || Decodabet(d, s[0]).Padding?)
    ensures var group := DecodeGroup(d, b4 + [s[0]]);
      && (group.Err? ==> DecodeRun(d, s, b4, out) == Err(group.error))
      && (group.Ok? && s[0] == EQUALS_SIGN ==> DecodeRun(d, s, b4, out) == Ok(out + group.value))
      && (group.Ok? && s[0] != EQUALS_SIGN ==> DecodeRun(d, s, b4, out) == DecodeRun(d, s[1..], [], out + group.value))
  {
  }

}
