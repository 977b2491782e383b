/**
 * Java-level vocabulary shared by every model in this project: bytes, nullable
 * references, the exceptions the modelled code throws, and the few
 * java.lang.String operations the core relies on.
 */
module Common {

  /** A Java `byte`, kept as its eight bits: the signed value -117 is 0x8b. */
  type byte = bv8

  /** A Java reference that may be `null`. */
  datatype Option<+T> = None | Some(value: T)

  /** Java's `(byte) theByte`: the low eight bits. */
  function ToByte(x: int): byte
  {
    (x % 256) as byte
  }

  /** The exceptions the modelled code throws or lets propagate. */
  datatype Exception =
    | NullPointer            // java.lang.NullPointerException
    | IllegalArgument        // java.lang.IllegalArgumentException
    | IllegalState           // java.lang.IllegalStateException
    | IO                     // java.io.IOException
    | IndexOutOfBounds       // StringIndexOutOfBounds / ArrayIndexOutOfBounds
    | UnsupportedOperation   // java.lang.UnsupportedOperationException

  /** The value a Java method returns, or the exception it throws. */
  datatype Result<+T> = Ok(value: T) | Err(error: Exception) {
    predicate IsFailure() { Err? }
    function PropagateFailure<U>(): Result<U> requires Err? { Err(error) }
    function Extract(): T requires Ok? { value }
  }

  /** What an operation on an object leaves behind: the object's new state, and the value returned or the exception thrown. */
  datatype Outcome<+S, +T> = Outcome(next: S, result: Result<T>)

  // ---------------------------------------------------------------------------
  // Slices: facts about sequences stated once, away from larger proofs
  // ---------------------------------------------------------------------------

  /** Adjacent slices join. */
  lemma SliceJoin<T>(s: seq<T>, a: nat, b: nat, c: nat)
    requires a <= b <= c <= |s|
    ensures s[a..b] + s[b..c] == s[a..c]
  {
  }

  /** A slice and the rest of the sequence after it join. */
  lemma SliceJoinEnd<T>(s: seq<T>, a: nat, b: nat)
    requires a <= b <= |s|
    ensures s[a..b] + s[b..] == s[a..]
  {
  }

  /** A slice that reaches the end is the rest of the sequence. */
  lemma SliceToEnd<T>(s: seq<T>, a: nat, b: nat)
    requires a <= b == |s|
    ensures s[a..] == s[a..b]
  {
  }

  /** A slice grows by the element after it. */
  lemma SliceSnoc<T>(s: seq<T>, a: nat, b: nat)
    requires a <= b < |s|
    ensures s[a..b] + [s[b]] == s[a..b + 1]
  {
  }

  /** Concatenation is associative. */
  lemma ConcatAssoc<T>(a: seq<T>, b: seq<T>, c: seq<T>)
    ensures a + b + c == a + (b + c)
  {
  }

  /** A prefix and the rest join. */
  lemma PrefixJoin<T>(s: seq<T>, k: nat)
    requires k <= |s|
    ensures s[..k] + s[k..] == s
  {
  }

  /** The head and tail of a concatenation whose first part is not empty. */
  lemma ConcatTail<T>(s: seq<T>, t: seq<T>)
    requires s != []
    ensures (s + t)[0] == s[0] && (s + t)[1..] == s[1..] + t
  {
  }

  // ---------------------------------------------------------------------------
  // java.lang.String, restricted to what the core uses
  // ---------------------------------------------------------------------------

  /** Lower-case mapping of one character (ASCII letters only). */
  function LowerAscii(c: char): char
  {
    if 'A' <= c <= 'Z' then (c as int + 32) as char else c
  }

  /** `s.toLowerCase()` for ASCII text: same length, each character folded. */
  function ToLower(s: string): (r: string)
    ensures |r| == |s|
    ensures forall i :: 0 <= i < |s| ==> r[i] == LowerAscii(s[i])
  {
    seq(|s|, i requires 0 <= i < |s| => LowerAscii(s[i]))
  }

  /** `a.equalsIgnoreCase(b)`, and equality under String.CASE_INSENSITIVE_ORDER. */
  predicate EqualsIgnoreCase(a: string, b: string)
  {
    ToLower(a) == ToLower(b)
  }

  /** `s.endsWith(suffix)`. */
  predicate EndsWith(s: string, suffix: string)
  {
    |suffix| <= |s| && s[|s| - |suffix|..] == suffix
  }

  /** `s.startsWith(prefix, at)`: `prefix` occurs in `s` at index `at`. */
  predicate OccursAt(s: string, sub: string, at: int)
  {
    0 <= at && at + |sub| <= |s| && s[at..at + |sub|] == sub
  }

  /** `s.contains(sub)`. */
  predicate Contains(s: string, sub: string)
  {
    exists at :: 0 <= at <= |s| - |sub| && OccursAt(s, sub, at)
  }

  /** A string lacking some character of `sub` does not contain `sub`. */
  lemma MissingCharNotContained(s: string, sub: string, k: nat)
    requires k < |sub| && forall j :: 0 <= j < |s| ==> s[j] != sub[k]
    ensures !Contains(s, sub)
  {
    forall at | 0 <= at <= |s| - |sub| ensures !OccursAt(s, sub, at) {
      assert s[at + k] != sub[k];
      assert s[at..at + |sub|][k] == s[at + k];
    }
  }

  /** `s.indexOf(c)`: the first index holding `c`, or -1 (see IndexOfCharIsFirst). */
  function IndexOfChar(s: string, c: char): (i: int)
    ensures -1 <= i < |s|
  {
    if |s| == 0 then -1
    else if s[0] == c then 0
    else
      var j := IndexOfChar(s[1..], c);
      if j < 0 then -1 else j + 1
  }

  /** `indexOf` answers -1 exactly when `c` is absent, and otherwise an index holding `c` with none before it. */
  lemma {:induction false} IndexOfCharIsFirst(s: string, c: char)
    ensures IndexOfChar(s, c) == -1 <==> c !in s
    ensures 0 <= IndexOfChar(s, c) ==> s[IndexOfChar(s, c)] == c && c !in s[..IndexOfChar(s, c)]
    decreases |s|
  {
    if |s| > 0 && s[0] != c {
      IndexOfCharIsFirst(s[1..], c);
      var j := IndexOfChar(s[1..], c);
      if j >= 0 {
        assert s[..j + 1] == [s[0]] + s[1..][..j];
      } else {
        assert s == [s[0]] + s[1..];
      }
    }
  }

  /** `indexOf` and `lastIndexOf` agree on whether `c` occurs, and each finds `c` when it does. */
  lemma CharIndicesAgree(s: string, c: char)
    ensures IndexOfChar(s, c) < 0 <==> LastIndexOfChar(s, c) < 0
    ensures 0 <= IndexOfChar(s, c) ==> s[IndexOfChar(s, c)] == c
    ensures 0 <= LastIndexOfChar(s, c) ==> s[LastIndexOfChar(s, c)] == c
  {
    IndexOfCharIsFirst(s, c);
    LastIndexOfCharIsLast(s, c);
  }

  /** `s.lastIndexOf(c)`: the last index holding `c`, or -1 (see LastIndexOfCharIsLast). */
  function LastIndexOfChar(s: string, c: char): (i: int)
    ensures -1 <= i < |s|
  {
    if |s| == 0 then -1
    else if s[|s| - 1] == c then |s| - 1
    else LastIndexOfChar(s[..|s| - 1], c)
  }

  /** `lastIndexOf` answers -1 exactly when `c` is absent, and otherwise an index holding `c` with none after it. */
  lemma {:induction false} LastIndexOfCharIsLast(s: string, c: char)
    ensures LastIndexOfChar(s, c) == -1 <==> c !in s
    ensures 0 <= LastIndexOfChar(s, c) ==> s[LastIndexOfChar(s, c)] == c && c !in s[LastIndexOfChar(s, c) + 1..]
    decreases |s|
  {
    if |s| == 0 {
    } else if s[|s| - 1] == c {
      assert s[|s| - 1..] == [c];
    } else {
      var init := s[..|s| - 1];
      LastIndexOfCharIsLast(init, c);
      var j := LastIndexOfChar(init, c);
      assert LastIndexOfChar(s, c) == j;
      assert s == init + [s[|s| - 1]];
      if j >= 0 {
        assert s[j] == init[j];
        assert s[j + 1..] == init[j + 1..] + [s[|s| - 1]];
      }
    }
  }

  /** `s.lastIndexOf(sub)`: the last index at which `sub` occurs, or -1. */
  function LastIndexOf(s: string, sub: string): (i: int)
    ensures i == -1 || 0 <= i <= |s| - |sub|
    ensures i == -1 <==> !Contains(s, sub)
    ensures 0 <= i ==> OccursAt(s, sub, i)
    ensures forall k :: i < k <= |s| - |sub| ==> !OccursAt(s, sub, k)
  {
    LastIndexOfFrom(s, sub, |s| - |sub|)
  }

  /** The last index `<= from` at which `sub` occurs in `s`, or -1. */
  function LastIndexOfFrom(s: string, sub: string, from: int): (i: int)
    requires from <= |s| - |sub|
    ensures i == -1 || 0 <= i <= from
    ensures 0 <= i ==> OccursAt(s, sub, i)
    ensures forall k :: i < k <= from ==> !OccursAt(s, sub, k)
    ensures from == |s| - |sub| ==> (i == -1 <==> !Contains(s, sub))
    decreases from + 1
  {
    if from < 0 then -1
    else if OccursAt(s, sub, from) then from
    else LastIndexOfFrom(s, sub, from - 1)
  }

  /**
   * `s.replace(target, replacement)` for a non-empty target: every occurrence,
   * scanning left to right without overlap, is replaced.
   */
  function ReplaceAll(s: string, target: string, replacement: string): (r: string)
    requires |target| > 0
    ensures !Contains(s, target) ==> r == s
    decreases |s|
  {
    if |s| < |target| then s
    else if s[..|target|] == target then
      assert OccursAt(s, target, 0);
      replacement + ReplaceAll(s[|target|..], target, replacement)
    else
      assert !Contains(s, target) ==> !Contains(s[1..], target) by {
        if Contains(s[1..], target) {
          var at :| 0 <= at <= |s[1..]| - |target| && OccursAt(s[1..], target, at);
          assert OccursAt(s, target, at + 1);
        }
      }
      [s[0]] + ReplaceAll(s[1..], target, replacement)
  }

  /** A leading occurrence is replaced and the scan resumes after it. */
  lemma ReplaceAllAtStart(s: string, target: string, replacement: string)
    requires |target| > 0 && OccursAt(s, target, 0)
    ensures ReplaceAll(s, target, replacement) == replacement + ReplaceAll(s[|target|..], target, replacement)
  {
    assert s[..|target|] == target;
  }

  /** Without a leading occurrence, the first character is kept. */
  lemma ReplaceAllSkip(s: string, target: string, replacement: string)
    requires |target| > 0 && s != [] && !OccursAt(s, target, 0)
    ensures ReplaceAll(s, target, replacement) == [s[0]] + ReplaceAll(s[1..], target, replacement)
  {
    if |s| >= |target| {
      assert s[..|target|] != target;
    }
  }

  /** An occurrence in the tail of `s` is an occurrence in `s`, one place later. */
  lemma OccursInTail(s: string, sub: string, k: nat)
    requires s != []
    ensures OccursAt(s[1..], sub, k) <==> OccursAt(s, sub, k + 1)
  {
    if k + |sub| <= |s| - 1 {
      assert s[1..][k..k + |sub|] == s[k + 1..k + 1 + |sub|];
    }
  }

  /** A string not containing `sub` has no tail containing it. */
  lemma NotContainedInTail(s: string, sub: string)
    requires s != [] && !Contains(s, sub)
    ensures !Contains(s[1..], sub)
  {
    if Contains(s[1..], sub) {
      var at :| 0 <= at <= |s[1..]| - |sub| && OccursAt(s[1..], sub, at);
      OccursInTail(s, sub, at);
    }
  }

  /** Java's `Long.toString(n)` / `Integer.toString(n)`: decimal, with a leading '-' when negative. */
  function DecimalString(n: int): (r: string)
    ensures |r| > 0
  {
    if n < 0 then "-" + NaturalString(-n) else NaturalString(n)
  }

  /** The decimal digits of a natural number, without leading zeros. */
  function NaturalString(n: nat): (r: string)
    ensures |r| > 0
    ensures forall i :: 0 <= i < |r| ==> '0' <= r[i] <= '9'
  {
    if n < 10 then [('0' as int + n) as char]
    else NaturalString(n / 10) + [('0' as int + n % 10) as char]
  }
}
