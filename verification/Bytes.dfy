/** Bytes, machine words, and the result of a bounded read.

    A reader is specified on the bytes that remain between the cursor and the end of the section, so
    one specification serves every position, and the bytes a reader leaves behind are part of its
    result whether it succeeds or fails. */
module Bytes {

  type byte = b: int | 0 <= b < 256

  type Bytes = seq<byte>

  /** The content of a NUL-terminated string, without its terminator. */
  type CString = s: Bytes | 0 !in s

  const U16 := 0x1_0000
  const U32 := 0x1_0000_0000
  const U64 := 0x1_0000_0000_0000_0000

  type u16 = x: int | 0 <= x < U16
  type u32 = x: int | 0 <= x < U32
  type u64 = x: int | 0 <= x < U64
  type i64 = x: int | -0x8000_0000_0000_0000 <= x < 0x8000_0000_0000_0000

  /** Reduction of any integer to an unsigned 64-bit word. */
  function Wrap(x: int): u64 {
    x % U64
  }

  /** The signed reading of an unsigned 64-bit word, as a C cast to `int64_t`. */
  function Signed(x: u64): i64 {
    if x < 0x8000_0000_0000_0000 then x else x - U64
  }

  function Min(a: int, b: int): int {
    if a <= b then a else b
  }

  function Take<T>(s: seq<T>, n: nat): seq<T> {
    if |s| <= n then s else s[..n]
  }

  /** Outcome of a read: the value and what remains, or only what remains. `Overread` stands for a
      `strlen` that finds no terminator in its section, where the C program reads past the section and
      has no defined behaviour; the model stops there. */
  datatype Read<+T> = Got(value: T, rest: Bytes) | Bad(rest: Bytes) | Overread {
    predicate IsFailure() {
      !Got?
    }

    function PropagateFailure<U>(): Read<U>
      requires IsFailure()
    {
      if Bad? then Bad(rest) else Overread
    }

    function Extract(): (T, Bytes)
      requires Got?
    {
      (value, rest)
    }
  }

  /** How a method that reports success through a flag and an out-parameter meets a `Read`. */
  function Outcome<T>(ok: bool, value: T, rest: Bytes): Read<T> {
    if ok then Got(value, rest) else Bad(rest)
  }

  /** The same for a method that can also run into an unterminated string. */
  datatype Status = Accepted | Rejected | Unterminated

  function StatusOutcome<T>(status: Status, value: T, rest: Bytes): Read<T> {
    match status
    case Accepted => Got(value, rest)
    case Rejected => Bad(rest)
    case Unterminated => Overread
  }

  // ---- Little-endian integers ----

  function LeValue(s: Bytes): (v: nat)
    decreases |s|
  {
    if s == [] then 0 else s[0] + 256 * LeValue(s[1..])
  }

  function LeBytes(v: nat, n: nat): (s: Bytes)
    ensures |s| == n
    decreases n
  {
    if n == 0 then [] else [v % 256] + LeBytes(v / 256, n - 1)
  }

  function Pow256(n: nat): (p: nat)
    ensures p > 0
  {
    if n == 0 then 1 else 256 * Pow256(n - 1)
  }

  lemma {:induction false} LeRoundTrip(v: nat, n: nat)
    requires v < Pow256(n)
    ensures LeValue(LeBytes(v, n)) == v
  {
    if n > 0 {
      LeRoundTrip(v / 256, n - 1);
      var s := LeBytes(v, n);
      assert s[1..] == LeBytes(v / 256, n - 1);
    }
  }

  lemma {:induction false} LeBound(s: Bytes)
    ensures LeValue(s) < Pow256(|s|)
    decreases |s|
  {
    if s != [] {
      LeBound(s[1..]);
    }
  }

  lemma Pow256Words()
    ensures Pow256(1) == 256
    ensures Pow256(2) == U16
    ensures Pow256(4) == U32
    ensures Pow256(8) == U64
  {
    assert Pow256(3) == 256 * Pow256(2);
    assert Pow256(5) == 256 * Pow256(4);
    assert Pow256(6) == 256 * Pow256(5);
    assert Pow256(7) == 256 * Pow256(6);
  }

  function Byte(s: Bytes): Read<byte> {
    if s == [] then Bad(s) else Got(s[0], s[1..])
  }

  /** Reads an `n`-byte little-endian word; a short section is left untouched. */
  function Le(s: Bytes, n: nat): Read<nat> {
    if |s| < n then Bad(s) else Got(LeValue(s[..n]), s[n..])
  }

  function Skip(s: Bytes, n: nat): Read<()> {
    if |s| < n then Bad(s) else Got((), s[n..])
  }

  lemma LeOfEncoding(v: nat, n: nat, tail: Bytes)
    requires v < Pow256(n)
    ensures Le(LeBytes(v, n) + tail, n) == Got(v, tail)
  {
    var s := LeBytes(v, n) + tail;
    assert s[..n] == LeBytes(v, n);
    assert s[n..] == tail;
    LeRoundTrip(v, n);
  }

  /** Bytes behind a word do not matter. */
  lemma LeStable(s: Bytes, n: nat, tail: Bytes)
    requires n <= |s|
    ensures Le(s + tail, n) == Got(LeValue(s[..n]), s[n..] + tail)
    ensures Skip(s + tail, n) == Got((), s[n..] + tail)
  {
    assert (s + tail)[..n] == s[..n];
    assert (s + tail)[n..] == s[n..] + tail;
  }

  /** The `n`-byte word at an offset of a file. */
  function WordAt(file: Bytes, off: nat, n: nat): (v: nat)
    requires off + n <= |file|
    ensures v < Pow256(n)
  {
    LeBound(file[off..off + n]);
    LeValue(file[off..off + n])
  }

  /** A word written at the end of `pre` is read back there. */
  lemma WordBehind(pre: Bytes, v: nat, n: nat, post: Bytes)
    requires v < Pow256(n)
    ensures WordAt(pre + LeBytes(v, n) + post, |pre|, n) == v
  {
    hide LeValue, LeBytes, Pow256;
    var file := pre + LeBytes(v, n) + post;
    assert file[|pre|..|pre| + n] == LeBytes(v, n);
    LeRoundTrip(v, n);
  }

  /** Part of a piece of a file is the same part of the file. */
  lemma PartOfPiece(file: Bytes, off: nat, piece: Bytes, k: nat, n: nat)
    requires off + |piece| <= |file| && file[off..off + |piece|] == piece && k + n <= |piece|
    ensures file[off + k..off + k + n] == piece[k..k + n]
  {
    var a, b := file[off + k..off + k + n], piece[k..k + n];
    forall i | 0 <= i < n
      ensures a[i] == b[i]
    {
      assert b[i] == file[off..off + |piece|][k + i];
    }
  }

  lemma PartBehind(a: Bytes, b: Bytes, k: nat, n: nat)
    requires k + n <= |b|
    ensures (a + b)[|a| + k..|a| + k + n] == b[k..k + n]
  {
  }

  /** A word inside a piece of a file is that of the piece. */
  lemma WordInside(file: Bytes, off: nat, piece: Bytes, k: nat, n: nat)
    requires off + |piece| <= |file| && file[off..off + |piece|] == piece && k + n <= |piece|
    ensures WordAt(file, off + k, n) == WordAt(piece, k, n)
  {
    PartOfPiece(file, off, piece, k, n);
  }

  // ---- NUL-terminated strings ----

  /** `strlen` limited to the bytes at hand. */
  function StrLen(s: Bytes): (n: nat)
    ensures n <= |s|
    ensures 0 !in s[..n]
    ensures n < |s| ==> s[n] == 0
    ensures n == |s| <==> 0 !in s
    decreases |s|
  {
    if s == [] || s[0] == 0 then 0 else
      var n := StrLen(s[1..]);
      assert s == [s[0]] + s[1..] && s[..n + 1] == [s[0]] + s[1..][..n];
      n + 1
  }

  /** The string that starts at the first byte. */
  function CStr(s: Bytes): CString {
    s[..StrLen(s)]
  }

  lemma NonZeroPrefix(s: Bytes, n: nat)
    requires n <= |s| && 0 !in s[..n]
    ensures forall k | 0 <= k < n :: s[k] != 0
  {
    forall k | 0 <= k < n
      ensures s[k] != 0
    {
      assert s[..n][k] == s[k];
    }
  }

  lemma StrLenUnique(s: Bytes, n: nat)
    requires n <= |s| && 0 !in s[..n]
    requires n < |s| ==> s[n] == 0
    ensures StrLen(s) == n
  {
    NonZeroPrefix(s, n);
    NonZeroPrefix(s, StrLen(s));
  }

  lemma CStrOfTerminated(s: CString, tail: Bytes)
    ensures StrLen(s + [0] + tail) == |s|
    ensures CStr(s + [0] + tail) == s
  {
    var t := s + [0] + tail;
    assert t[..|s|] == s;
    StrLenUnique(t, |s|);
  }

  /** Bytes after the terminator do not matter. */
  lemma CStrStable(s: Bytes, tail: Bytes)
    requires 0 in s
    ensures StrLen(s + tail) == StrLen(s)
    ensures CStr(s + tail) == CStr(s)
  {
    var n := StrLen(s);
    assert (s + tail)[..n] == s[..n];
    StrLenUnique(s + tail, n);
  }
}
