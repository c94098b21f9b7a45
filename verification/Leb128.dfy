/** LEB128 integers (section 7.6 of the DWARF 5 standard), as `bw_uleb` and `bw_sleb` read them. */
module Leb128 {
  import opened Bytes

  function Pow2(n: nat): (p: nat)
    ensures p > 0
  {
    if n == 0 then 1 else 2 * Pow2(n - 1)
  }

  /** Bitwise OR of two naturals. */
  function Or(a: nat, b: nat): nat {
    if a == 0 && b == 0 then 0
    else 2 * Or(a / 2, b / 2) + if a % 2 == 1 || b % 2 == 1 then 1 else 0
  }

  lemma {:induction false} OrZero(b: nat)
    ensures Or(0, b) == b
  {
    if b > 0 {
      OrZero(b / 2);
    }
  }

  /** ORing bits above `k` into a value below `2^k` adds them. */
  lemma {:induction false} OrDisjoint(a: nat, b: nat, k: nat)
    requires a < Pow2(k)
    ensures Or(a, b * Pow2(k)) == a + b * Pow2(k)
    decreases k
  {
    if k == 0 {
      OrZero(b);
    } else {
      var h := b * Pow2(k - 1);
      assert b * Pow2(k) == 2 * h;
      OrDisjoint(a / 2, b, k - 1);
    }
  }

  /** Bitwise OR of two 64-bit words. */
  function OrWord(a: u64, b: u64): u64 {
    Pow2Top();
    OrBelow(a, b, 64);
    Or(a, b)
  }

  /** ORing into a word bits that are all at or above `k` adds them. */
  lemma OrWordDisjoint(a: u64, w: u64, b: nat, k: nat)
    requires a < Pow2(k) && w == b * Pow2(k)
    ensures OrWord(a, w) == a + w
  {
    hide Or, Pow2;
    OrDisjoint(a, b, k);
  }

  lemma {:induction false} OrBelow(a: nat, b: nat, k: nat)
    requires a < Pow2(k) && b < Pow2(k)
    ensures Or(a, b) < Pow2(k)
    decreases k
  {
    if k > 0 && !(a == 0 && b == 0) {
      OrBelow(a / 2, b / 2, k - 1);
    }
  }

  lemma PowZero()
    ensures Pow2(0) == 1
  {
  }

  lemma PowNext(n: nat)
    ensures Pow2(n + 1) == 2 * Pow2(n)
  {
  }

  lemma Pow2Seven(n: nat)
    ensures Pow2(n + 7) == 128 * Pow2(n)
  {
    assert Pow2(n + 1) == 2 * Pow2(n);
    assert Pow2(n + 2) == 2 * Pow2(n + 1);
    assert Pow2(n + 3) == 2 * Pow2(n + 2);
    assert Pow2(n + 4) == 2 * Pow2(n + 3);
    assert Pow2(n + 5) == 2 * Pow2(n + 4);
    assert Pow2(n + 6) == 2 * Pow2(n + 5);
  }

  lemma Pow2Top()
    ensures Pow2(63) == 0x8000_0000_0000_0000
    ensures Pow2(64) == U64
  {
    hide Pow2;
    PowZero();
    Pow2Seven(0);
    Pow2Seven(7);
    Pow2Seven(14);
    Pow2Seven(21);
    Pow2Seven(28);
    Pow2Seven(35);
    Pow2Seven(42);
    Pow2Seven(49);
    Pow2Seven(56);
    PowNext(63);
  }

  /** Shifts the decoders pass through: one of the ten groups of a 64-bit integer. */
  predicate GroupShift(shift: nat) {
    shift % 7 == 0 && shift <= 63
  }

  lemma {:induction false} GroupPower(shift: nat)
    requires GroupShift(shift)
    ensures shift < 63 ==> Pow2(shift + 7) == 128 * Pow2(shift) <= 0x8000_0000_0000_0000
    ensures shift == 63 ==> Pow2(shift) == 0x8000_0000_0000_0000
    ensures Pow2(shift + 7) == 128 * Pow2(shift)
  {
    Pow2Top();
    Pow2Seven(shift);
    if shift < 56 {
      GroupPowerBelow(shift + 7);
    }
  }

  lemma {:induction false} GroupPowerBelow(shift: nat)
    requires GroupShift(shift)
    ensures Pow2(shift) <= 0x8000_0000_0000_0000
    decreases 63 - shift
  {
    if shift < 63 {
      Pow2Seven(shift);
      GroupPowerBelow(shift + 7);
    } else {
      Pow2Top();
    }
  }

  // ---- The decoders ----

  /** A number shifted left. */
  function Placed(x: int, shift: nat): int {
    x * Pow2(shift)
  }

  /** What one more 7-bit group contributes to the 64-bit accumulator at `shift`. */
  function Group(b: byte, shift: nat): u64 {
    Wrap(Placed(b % 128, shift))
  }

  function UlebFrom(s: Bytes, shift: nat, r: u64): (u: Read<u64>)
    ensures !u.Overread?
    ensures u.Got? ==> |u.rest| < |s|
    ensures u.Bad? ==> |u.rest| <= |s|
    decreases |s|
  {
    if s == [] then Bad(s) else
    var r' := OrWord(r, Group(s[0], shift));
    if s[0] < 128 then Got(r', s[1..])
    else if shift + 7 >= 64 then Bad(s[1..])
    else UlebFrom(s[1..], shift + 7, r')
  }

  function Uleb(s: Bytes): (u: Read<u64>)
    ensures !u.Overread?
    ensures u.Got? ==> |u.rest| < |s|
    ensures u.Bad? ==> |u.rest| <= |s|
  {
    UlebFrom(s, 0, 0)
  }

  /** Bits from `shift` up, all set. */
  function HighBits(shift: nat): u64 {
    Wrap((U64 - 1) * Pow2(shift))
  }

  /** Sign extension after the last group `b`, when it ends below bit 63. */
  function SlebEnd(r: u64, shift: nat, b: byte): i64 {
    Signed(if shift < 64 && b % 128 >= 64 then OrWord(r, HighBits(shift)) else r)
  }

  function SlebFrom(s: Bytes, shift: nat, r: u64): (u: Read<i64>)
    ensures !u.Overread?
    ensures u.Got? ==> |u.rest| < |s|
    ensures u.Bad? ==> |u.rest| <= |s|
    decreases |s|
  {
    if s == [] || shift >= 64 then Bad(s) else
    var r' := OrWord(r, Group(s[0], shift));
    if s[0] >= 128 then SlebFrom(s[1..], shift + 7, r')
    else Got(SlebEnd(r', shift + 7, s[0]), s[1..])
  }

  function Sleb(s: Bytes): (u: Read<i64>)
    ensures !u.Overread?
    ensures u.Got? ==> |u.rest| < |s|
    ensures u.Bad? ==> |u.rest| <= |s|
  {
    SlebFrom(s, 0, 0)
  }

  // ---- What an encoding means ----

  /** Length of the encoding at the front of `s`: the first byte without a continuation bit ends it. */
  function LebLength(s: Bytes): (n: nat)
    ensures n <= |s|
    ensures n > 0 ==> s[n - 1] < 128
    decreases |s|
  {
    if s == [] then 0
    else if s[0] < 128 then 1
    else
      var n := LebLength(s[1..]);
      if n == 0 then 0 else n + 1
  }

  /** The sum of 7-bit groups, least significant first. */
  function UnsignedSum(s: Bytes): nat
    decreases |s|
  {
    if s == [] then 0 else s[0] % 128 + 128 * UnsignedSum(s[1..])
  }

  /** The same sum with the last group read as a 7-bit two's complement number. */
  function SignedSum(s: Bytes): int
    decreases |s|
  {
    if s == [] then 0
    else if |s| == 1 then if s[0] % 128 >= 64 then s[0] % 128 - 128 else s[0] % 128
    else s[0] % 128 + 128 * SignedSum(s[1..])
  }

  lemma WrapAddMultiple(x: int, q: int)
    ensures Wrap(x + U64 * q) == Wrap(x)
  {
  }

  lemma GroupBelow(g: nat, p: nat, r: u64)
    requires g < 128 && r < p
    ensures r + g * p < 128 * p
  {
    assert g * p <= 127 * p;
  }

  lemma TopGroup(g: nat)
    ensures g * 0x8000_0000_0000_0000 % U64 == (g % 2) * 0x8000_0000_0000_0000
  {
    var h := g / 2;
    WrapAddMultiple((g % 2) * 0x8000_0000_0000_0000, h);
  }

  lemma SmallGroup(b: byte, shift: nat, r: u64)
    requires GroupShift(shift) && shift < 63 && r < Pow2(shift)
    ensures Group(b, shift) == (b % 128) * Pow2(shift)
    ensures r + Group(b, shift) < Pow2(shift + 7) < U64
  {
    hide Pow2;
    GroupPower(shift);
    GroupBelow(b % 128, Pow2(shift), r);
  }

  /** Below the tenth group nothing is lost. */
  lemma LowGroupAdds(b: byte, shift: nat, r: u64)
    requires GroupShift(shift) && shift < 63 && r < Pow2(shift)
    ensures OrWord(r, Group(b, shift)) == r + (b % 128) * Pow2(shift) < Pow2(shift + 7) < U64
  {
    hide OrWord, Pow2, Group;
    SmallGroup(b, shift, r);
    OrWordDisjoint(r, Group(b, shift), b % 128, shift);
  }

  /** The tenth group keeps one bit. */
  lemma TopGroupAdds(b: byte, r: u64)
    requires r < Pow2(63)
    ensures OrWord(r, Group(b, 63)) == Wrap(r + (b % 128) * Pow2(63))
  {
    hide OrWord, Pow2;
    Pow2Top();
    TopGroup(b % 128);
    OrWordDisjoint(r, Group(b, 63), b % 128 % 2, 63);
    TopGroupWraps(b % 128, r);
  }

  /** Each group lands above the bits already collected; only the tenth loses bits, all beyond bit 63. */
  lemma GroupAdds(b: byte, shift: nat, r: u64)
    requires GroupShift(shift) && r < Pow2(shift)
    ensures shift < 63 ==> OrWord(r, Group(b, shift)) == r + Placed(b % 128, shift) < Pow2(shift + 7)
    ensures OrWord(r, Group(b, shift)) == Wrap(r + Placed(b % 128, shift))
  {
    hide OrWord, Group, Pow2;
    if shift < 63 {
      LowGroupAdds(b, shift, r);
      WrapSmall(r + Placed(b % 128, shift));
    } else {
      TopGroupAdds(b, r);
    }
  }

  lemma WrapSmall(x: int)
    requires 0 <= x < U64
    ensures Wrap(x) == x
  {
  }

  lemma TopGroupWraps(g: nat, r: u64)
    requires r < 0x8000_0000_0000_0000
    ensures Wrap(r + g * 0x8000_0000_0000_0000) == r + (g % 2) * 0x8000_0000_0000_0000
  {
    WrapAddMultiple(r + (g % 2) * 0x8000_0000_0000_0000, g / 2);
  }

  lemma NextGroup(shift: nat, r: int, g: int, rest: int)
    ensures (r + Placed(g, shift)) + Placed(rest, shift + 7) == r + Placed(g + 128 * rest, shift)
  {
    hide Pow2;
    Pow2Seven(shift);
    Regroup(Pow2(shift), g, rest);
  }

  lemma Regroup(p: int, g: int, rest: int)
    ensures g * p + rest * (128 * p) == (g + 128 * rest) * p
  {
  }

  /** Which bytes the ULEB loop takes. */
  lemma {:induction false} UlebFromShape(s: Bytes, shift: nat, r: u64, most: nat)
    requires 0 < most && shift == 7 * (10 - most)
    ensures var n, u := LebLength(s), UlebFrom(s, shift, r);
      && (u.Got? <==> 0 < n <= most)
      && (u.Got? ==> u.rest == s[n..])
      && (u.Bad? ==> u.rest == s[Min(|s|, most)..])
    decreases |s|
  {
    hide OrWord, Group;
    if s != [] && s[0] >= 128 && shift < 63 {
      UlebFromShape(s[1..], shift + 7, OrWord(r, Group(s[0], shift)), most - 1);
    }
  }

  /** The sum up to the terminating byte, group by group. */
  lemma SumSplits(s: Bytes)
    requires LebLength(s) > 0
    ensures s[0] < 128 ==> UnsignedSum(s[..LebLength(s)]) == s[0]
    ensures s[0] < 128 ==> s[..LebLength(s)] == [s[0]]
    ensures s[0] >= 128 ==> LebLength(s[1..]) > 0
    ensures s[0] >= 128 ==>
      UnsignedSum(s[..LebLength(s)]) == s[0] % 128 + 128 * UnsignedSum(s[1..][..LebLength(s[1..])])
    ensures s[0] >= 128 ==>
      SignedSum(s[..LebLength(s)]) == s[0] % 128 + 128 * SignedSum(s[1..][..LebLength(s[1..])])
  {
    var t := s[..LebLength(s)];
    if s[0] < 128 {
      assert t == [s[0]];
    } else {
      assert t[1..] == s[1..][..LebLength(s[1..])];
    }
  }

  /** What the ULEB loop computes, from any group on. */
  lemma {:induction false} UlebFromValue(s: Bytes, shift: nat, r: u64)
    requires GroupShift(shift) && r < Pow2(shift) && UlebFrom(s, shift, r).Got?
    requires LebLength(s) > 0
    ensures UlebFrom(s, shift, r).value == Wrap(r + Placed(UnsignedSum(s[..LebLength(s)]), shift))
    decreases |s|
  {
    hide OrWord, Group, Pow2, Wrap, UnsignedSum, LebLength, Placed;
    SumSplits(s);
    GroupAdds(s[0], shift, r);
    if s[0] >= 128 {
      UlebFromValue(s[1..], shift + 7, OrWord(r, Group(s[0], shift)));
      NextGroup(shift, r, s[0] % 128, UnsignedSum(s[1..][..LebLength(s[1..])]));
    }
  }

  /** A ULEB is accepted exactly when it ends within ten bytes, and its value is the sum of its groups
      modulo 2^64. A rejected one leaves the cursor after ten bytes or at the end of the section. */
  lemma UlebMeaning(s: Bytes)
    ensures var n, u := LebLength(s), Uleb(s);
      && (u.Got? <==> 0 < n <= 10)
      && (u.Got? ==> u.value == Wrap(UnsignedSum(s[..n])) && u.rest == s[n..])
      && (u.Bad? ==> u.rest == s[Min(|s|, 10)..])
  {
    hide UlebFrom, UnsignedSum, LebLength, Wrap;
    UlebFromShape(s, 0, 0, 10);
    if Uleb(s).Got? {
      UlebValue(s);
    }
  }

  lemma UlebValue(s: Bytes)
    requires Uleb(s).Got? && LebLength(s) > 0
    ensures Uleb(s).value == Wrap(UnsignedSum(s[..LebLength(s)]))
  {
    hide UlebFrom, UnsignedSum, LebLength, Wrap, Pow2;
    PowZero();
    UlebFromValue(s, 0, 0);
  }

  lemma {:induction false} SlebFromShape(s: Bytes, shift: nat, r: u64, most: nat)
    requires 0 < most && shift == 7 * (10 - most)
    ensures var n, u := LebLength(s), SlebFrom(s, shift, r);
      && (u.Got? <==> 0 < n <= most)
      && (u.Got? ==> u.rest == s[n..])
      && (u.Bad? ==> u.rest == s[Min(|s|, most)..])
    decreases |s|
  {
    hide SlebFrom, OrWord, Group, LebLength;
    SlebFromStep(s, shift, r);
    LebLengthStep(s);
    if s != [] && s[0] >= 128 {
      var r' := OrWord(r, Group(s[0], shift));
      if most > 1 {
        SlebFromShape(s[1..], shift + 7, r', most - 1);
      } else {
        SlebFromStep(s[1..], 70, r');
      }
    }
  }

  lemma LebLengthStep(s: Bytes)
    ensures LebLength(s) ==
      if s == [] then 0 else if s[0] < 128 then 1
      else if LebLength(s[1..]) == 0 then 0 else LebLength(s[1..]) + 1
  {
  }

  /** One turn of the SLEB loop. */
  lemma SlebFromStep(s: Bytes, shift: nat, r: u64)
    ensures s == [] || shift >= 64 ==> SlebFrom(s, shift, r) == Bad(s)
    ensures s != [] && shift < 64 && s[0] >= 128 ==>
      SlebFrom(s, shift, r) == SlebFrom(s[1..], shift + 7, OrWord(r, Group(s[0], shift)))
    ensures s != [] && shift < 64 && s[0] < 128 ==>
      SlebFrom(s, shift, r).Got? && SlebFrom(s, shift, r).rest == s[1..]
  {
    hide OrWord, Group, SlebEnd;
  }

  lemma {:induction false} SlebFromValue(s: Bytes, shift: nat, r: u64)
    requires GroupShift(shift) && r < Pow2(shift) && SlebFrom(s, shift, r).Got?
    requires LebLength(s) > 0
    ensures SlebFrom(s, shift, r).value == Signed(Wrap(r + Placed(SignedSum(s[..LebLength(s)]), shift)))
    decreases |s|
  {
    hide OrWord, Group, Pow2, Wrap, SignedSum, LebLength, SlebEnd, Signed, SlebFrom, Placed;
    SumSplits(s);
    SlebFromStep(s, shift, r);
    SlebFromStep(s[1..], shift + 7, OrWord(r, Group(s[0], shift)));
    GroupPower(shift);
    GroupAdds(s[0], shift, r);
    if s[0] >= 128 {
      var r' := OrWord(r, Group(s[0], shift));
      SlebFromValue(s[1..], shift + 7, r');
      NextGroup(shift, r, s[0] % 128, SignedSum(s[1..][..LebLength(s[1..])]));
    } else {
      SlebLast(s[0], shift, r, s[1..]);
      assert s == [s[0]] + s[1..];
    }
  }

  lemma SignedSumOne(b: byte)
    ensures SignedSum([b]) == if b % 128 >= 64 then b % 128 - 128 else b % 128
  {
  }

  /** The last group of an SLEB: sign extension subtracts `2^(shift + 7)` modulo 2^64. */
  lemma SlebLast(b: byte, shift: nat, r: u64, tail: Bytes)
    requires GroupShift(shift) && r < Pow2(shift) && b < 128
    ensures SlebFrom([b] + tail, shift, r) == Got(Signed(Wrap(r + Placed(SignedSum([b]), shift))), tail)
  {
    hide OrWord, Group, Pow2, HighBits, Signed, SignedSum, Placed, Wrap;
    var r' := OrWord(r, Group(b, shift));
    GroupAdds(b, shift, r);
    GroupPower(shift);
    SignedSumOne(b);
    assert ([b] + tail)[1..] == tail;
    if b >= 64 {
      NegativeGroup(r, b, shift);
      if shift < 63 {
        SignExtension(r', shift + 7);
      } else {
        WrapAddMultiple(r + Placed(b, shift), -64);
      }
    }
  }

  lemma NegativeGroup(r: int, b: int, shift: nat)
    ensures r + Placed(b - 128, shift) == r + Placed(b, shift) - 128 * Pow2(shift)
  {
    hide Pow2;
  }

  lemma SignExtension(r: u64, shift: nat)
    requires GroupShift(shift) && r < Pow2(shift)
    ensures OrWord(r, HighBits(shift)) == Wrap(r - Pow2(shift))
  {
    hide OrWord, HighBits, Pow2;
    HighBitsValue(shift);
    OrWordDisjoint(r, HighBits(shift), Pow2(64 - shift) - 1, shift);
    WrapAddMultiple(r - Pow2(shift), 1);
  }

  /** `HighBits(shift)` is a multiple of `2^shift`, so it shares no bit with a value below it. */
  lemma HighBitsValue(shift: nat)
    requires GroupShift(shift)
    ensures HighBits(shift) == U64 - Pow2(shift) == (Pow2(64 - shift) - 1) * Pow2(shift)
  {
    hide Pow2;
    var p := Pow2(shift);
    GroupPowerBelow(shift);
    WrapAddMultiple(U64 - p, p - 1);
    assert (U64 - 1) * p == U64 - p + U64 * (p - 1);
    Pow2Sum(64 - shift, shift);
    Pow2Top();
  }

  lemma {:induction false} Pow2Sum(a: nat, b: nat)
    ensures Pow2(a + b) == Pow2(a) * Pow2(b)
    decreases a
  {
    if a > 0 {
      Pow2Sum(a - 1, b);
      Associate(Pow2(a - 1), Pow2(b));
    }
  }

  lemma Associate(x: int, y: int)
    ensures 2 * x * y == 2 * (x * y)
  {
  }

  /** The signed counterpart of `UlebMeaning`, for every encoding of up to ten bytes. */
  lemma SlebMeaning(s: Bytes)
    ensures var n, u := LebLength(s), Sleb(s);
      && (u.Got? <==> 0 < n <= 10)
      && (u.Got? ==> u.value == Signed(Wrap(SignedSum(s[..n]))) && u.rest == s[n..])
      && (u.Bad? ==> u.rest == s[Min(|s|, 10)..])
  {
    hide SlebFrom, SignedSum, LebLength, Signed, Wrap;
    SlebFromShape(s, 0, 0, 10);
    if Sleb(s).Got? {
      SlebValue(s);
    }
  }

  lemma SlebValue(s: Bytes)
    requires Sleb(s).Got? && LebLength(s) > 0
    ensures Sleb(s).value == Signed(Wrap(SignedSum(s[..LebLength(s)])))
  {
    hide SlebFrom, SignedSum, LebLength, Signed, Wrap, Pow2;
    PowZero();
    SlebFromValue(s, 0, 0);
  }

  // ---- Encoders ----

  function EncodeUleb(n: nat): (s: Bytes)
    ensures s != []
    decreases n
  {
    if n < 128 then [n] else [128 + n % 128] + EncodeUleb(n / 128)
  }

  function EncodeSleb(v: int): (s: Bytes)
    ensures s != []
    decreases if v < 0 then -v else v
  {
    if -64 <= v < 64 then [v % 128] else [128 + v % 128] + EncodeSleb(v / 128)
  }

  /** `EncodeUleb(n)` followed by `zeros` groups of zero, as producers that reserve room write it. */
  function PadUleb(n: nat, zeros: nat): (s: Bytes)
    ensures s != []
    decreases n
  {
    if n < 128 then if zeros == 0 then [n] else [128 + n] + ZeroGroups(zeros)
    else [128 + n % 128] + PadUleb(n / 128, zeros)
  }

  function ZeroGroups(zeros: nat): (s: Bytes)
    requires zeros > 0
    ensures |s| == zeros
    decreases zeros
  {
    if zeros == 1 then [0] else [128] + ZeroGroups(zeros - 1)
  }

  lemma {:induction false} ZeroGroupsMeaning(zeros: nat, tail: Bytes)
    requires zeros > 0
    ensures UnsignedSum(ZeroGroups(zeros)) == 0
    ensures LebLength(ZeroGroups(zeros) + tail) == zeros
    decreases zeros
  {
    if zeros > 1 {
      hide LebLength, UnsignedSum;
      ZeroGroupsMeaning(zeros - 1, tail);
      ConsMeaning(128, ZeroGroups(zeros - 1), tail);
    } else {
      OneGroup(0, tail);
    }
  }

  lemma ConsMeaning(b: byte, t: Bytes, tail: Bytes)
    requires b >= 128 && LebLength(t + tail) > 0
    ensures UnsignedSum([b] + t) == b % 128 + 128 * UnsignedSum(t)
    ensures t != [] ==> SignedSum([b] + t) == b % 128 + 128 * SignedSum(t)
    ensures LebLength([b] + t + tail) == 1 + LebLength(t + tail)
  {
    var s := [b] + t;
    assert s[1..] == t;
    assert (s + tail)[1..] == t + tail;
  }

  lemma {:induction false} PadUlebMeaning(n: nat, zeros: nat, tail: Bytes)
    ensures UnsignedSum(PadUleb(n, zeros)) == n
    ensures LebLength(PadUleb(n, zeros) + tail) == |PadUleb(n, zeros)|
    decreases n
  {
    if n < 128 {
      PadLast(n, zeros, tail);
    } else {
      hide LebLength, UnsignedSum, PadUleb;
      PadStep(n, zeros);
      PadUlebMeaning(n / 128, zeros, tail);
      ConsMeaning(128 + n % 128, PadUleb(n / 128, zeros), tail);
      LowGroup(n);
    }
  }

  lemma PadStep(n: nat, zeros: nat)
    requires n >= 128
    ensures PadUleb(n, zeros) == [128 + n % 128] + PadUleb(n / 128, zeros)
  {
  }

  lemma LowGroup(n: int)
    ensures (128 + n % 128) % 128 + 128 * (n / 128) == n
  {
  }

  lemma PadLast(n: nat, zeros: nat, tail: Bytes)
    requires n < 128
    ensures UnsignedSum(PadUleb(n, zeros)) == n
    ensures LebLength(PadUleb(n, zeros) + tail) == |PadUleb(n, zeros)|
  {
    if zeros > 0 {
      hide LebLength, UnsignedSum, ZeroGroups;
      ZeroGroupsMeaning(zeros, tail);
      ConsMeaning(128 + n, ZeroGroups(zeros), tail);
    } else {
      OneGroup(n, tail);
    }
  }

  lemma OneGroup(b: byte, tail: Bytes)
    requires b < 128
    ensures UnsignedSum([b]) == b && LebLength([b] + tail) == 1
  {
    assert [b][1..] == [];
  }

  lemma {:induction false} EncodeUlebLength(n: nat, groups: nat)
    requires groups > 0 && n < Pow2(7 * groups)
    ensures |EncodeUleb(n)| <= groups
    decreases groups
  {
    hide Pow2;
    Pow2Seven(7 * (groups - 1));
    if n >= 128 {
      assert groups > 1 by {
        PowZero();
      }
      EncodeUlebLength(n / 128, groups - 1);
    }
  }

  lemma {:induction false} PadUlebNone(n: nat)
    ensures PadUleb(n, 0) == EncodeUleb(n)
    decreases n
  {
    if n >= 128 {
      PadUlebNone(n / 128);
    }
  }

  /** Padding an encoding with zero groups, up to ten bytes in all, does not change what it decodes to. */
  lemma PaddedUlebRoundTrip(n: u64, zeros: nat, tail: Bytes)
    requires |PadUleb(n, zeros)| <= 10
    ensures Uleb(PadUleb(n, zeros) + tail) == Got(n, tail)
  {
    var s := PadUleb(n, zeros);
    hide PadUleb, UnsignedSum, LebLength, Uleb;
    PadUlebMeaning(n, zeros, tail);
    WrapSmall(n);
    UlebMeaning(s + tail);
    assert (s + tail)[..|s|] == s && (s + tail)[|s|..] == tail;
  }

  lemma U64BelowSeventyBits(n: u64)
    ensures n < Pow2(70)
  {
    GroupPower(63);
  }

  /** Decoding undoes encoding for every 64-bit value, and leaves whatever follows unread. */
  lemma UlebRoundTrip(n: u64, tail: Bytes)
    ensures Uleb(EncodeUleb(n) + tail) == Got(n, tail)
  {
    hide Pow2, Uleb, PadUleb, EncodeUleb;
    U64BelowSeventyBits(n);
    PadUlebNone(n);
    EncodeUlebLength(n, 10);
    PaddedUlebRoundTrip(n, 0, tail);
  }

  lemma {:induction false} EncodeSlebMeaning(v: int, tail: Bytes)
    ensures SignedSum(EncodeSleb(v)) == v
    ensures LebLength(EncodeSleb(v) + tail) == |EncodeSleb(v)|
    decreases if v < 0 then -v else v
  {
    if !(-64 <= v < 64) {
      hide LebLength, SignedSum, EncodeSleb;
      SlebStep(v);
      EncodeSlebMeaning(v / 128, tail);
      ConsMeaning(128 + v % 128, EncodeSleb(v / 128), tail);
      LowGroup(v);
    }
  }

  lemma SlebStep(v: int)
    requires !(-64 <= v < 64)
    ensures EncodeSleb(v) == [128 + v % 128] + EncodeSleb(v / 128)
  {
  }

  lemma {:induction false} EncodeSlebLength(v: int, groups: nat)
    requires groups > 0 && -64 * Pow2(7 * (groups - 1)) <= v < 64 * Pow2(7 * (groups - 1))
    ensures |EncodeSleb(v)| <= groups
    decreases groups
  {
    hide Pow2;
    PowZero();
    if groups > 1 {
      Pow2Seven(7 * (groups - 2));
      if !(-64 <= v < 64) {
        EncodeSlebLength(v / 128, groups - 1);
      }
    }
  }

  lemma SlebRoundTrip(v: i64, tail: Bytes)
    ensures Sleb(EncodeSleb(v) + tail) == Got(v, tail)
  {
    var s := EncodeSleb(v);
    hide Sleb, EncodeSleb, SignedSum, LebLength, Pow2;
    GroupPower(63);
    EncodeSlebLength(v, 10);
    EncodeSlebMeaning(v, tail);
    SlebMeaning(s + tail);
    assert (s + tail)[..|s|] == s && (s + tail)[|s|..] == tail;
    SignedOfWrap(v);
  }

  lemma SignedOfWrap(v: i64)
    ensures Signed(Wrap(v)) == v
  {
    if v < 0 {
      WrapAddMultiple(v, 1);
    }
  }

  // ---- Bytes appended to the section do not disturb an accepted read ----

  lemma UlebStable(s: Bytes, tail: Bytes)
    requires Uleb(s).Got?
    ensures Uleb(s + tail) == Got(Uleb(s).value, Uleb(s).rest + tail)
  {
    hide Uleb, UnsignedSum, LebLength, Wrap;
    UlebMeaning(s);
    UlebMeaning(s + tail);
    LebLengthStable(s, tail);
    var n := LebLength(s);
    assert (s + tail)[..n] == s[..n];
  }

  lemma SlebStable(s: Bytes, tail: Bytes)
    requires Sleb(s).Got?
    ensures Sleb(s + tail) == Got(Sleb(s).value, Sleb(s).rest + tail)
  {
    hide Sleb, SignedSum, LebLength, Wrap, Signed;
    SlebMeaning(s);
    SlebMeaning(s + tail);
    LebLengthStable(s, tail);
    var n := LebLength(s);
    assert (s + tail)[..n] == s[..n];
  }

  lemma {:induction false} LebLengthStable(s: Bytes, tail: Bytes)
    requires LebLength(s) > 0
    ensures LebLength(s + tail) == LebLength(s)
    decreases |s|
  {
    if s[0] >= 128 {
      LebLengthStable(s[1..], tail);
      assert (s + tail)[1..] == s[1..] + tail;
    }
  }
}
