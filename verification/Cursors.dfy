/** The bounded cursor over a section (`bw_cur_t`).

    Every method meets the `Read` specification of the bytes that remained when it was called. */
module Cursors {
  import opened Bytes
  import opened Leb128

  class Cursor {
    const data: Bytes
    var p: nat
    var dwarf64: bool

    ghost predicate Valid()
      reads this
    {
      p <= |data|
    }

    /** The bytes between the cursor and the end of the section. */
    ghost function Rest(): Bytes
      reads this
      requires Valid()
    {
      data[p..]
    }

    constructor (section: Bytes)
      ensures Valid() && data == section && p == 0 && !dwarf64
    {
      data, p, dwarf64 := section, 0, false;
    }

    predicate Ok(n: nat)
      reads this
      requires Valid()
      ensures Ok(n) <==> n <= |Rest()|
    {
      |data| - p >= n
    }

    /** `bw_u16`, `bw_u32` and `bw_u64`, by width. */
    method Word(n: nat) returns (ok: bool, v: nat)
      requires Valid()
      modifies `p
      ensures Valid()
      ensures Le(old(Rest()), n) == Outcome(ok, v, Rest())
      ensures v < Pow256(n)
    {
      if !Ok(n) {
        return false, 0;
      }
      assert data[p..][..n] == data[p..p + n];
      LeBound(data[p..p + n]);
      v := LeValue(data[p..p + n]);
      p := p + n;
      return true, v;
    }

    method U8() returns (ok: bool, v: byte)
      requires Valid()
      modifies `p
      ensures Valid()
      ensures Byte(old(Rest())) == Outcome(ok, v, Rest())
    {
      if !Ok(1) {
        return false, 0;
      }
      v := data[p];
      p := p + 1;
      return true, v;
    }

    method SkipBytes(n: nat) returns (ok: bool)
      requires Valid()
      modifies `p
      ensures Valid()
      ensures Skip(old(Rest()), n) == Outcome(ok, (), Rest())
    {
      if !Ok(n) {
        return false;
      }
      p := p + n;
      return true;
    }

    method ReadUleb() returns (ok: bool, v: u64)
      requires Valid()
      modifies `p
      ensures Valid()
      ensures Uleb(old(Rest())) == Outcome(ok, v, Rest())
    {
      var r: u64, shift := 0, 0;
      ghost var start := Rest();
      while Ok(1)
        invariant Valid()
        invariant UlebFrom(Rest(), shift, r) == Uleb(start)
        decreases |data| - p
      {
        hide OrWord, Group;
        var b := data[p];
        p := p + 1;
        r := OrWord(r, Group(b, shift));
        if b < 128 {
          return true, r;
        }
        shift := shift + 7;
        if shift >= 64 {
          return false, 0;
        }
      }
      return false, 0;
    }

    method ReadSleb() returns (ok: bool, v: i64)
      requires Valid()
      modifies `p
      ensures Valid()
      ensures Sleb(old(Rest())) == Outcome(ok, v, Rest())
    {
      hide OrWord, Group, HighBits;
      var r: u64, shift, b: byte := 0, 0, 128;
      ghost var start := Rest();
      while b >= 128
        invariant Valid()
        invariant b >= 128 ==> SlebFrom(Rest(), shift, r) == Sleb(start)
        invariant b < 128 ==> Sleb(start) == Got(SlebEnd(r, shift, b), Rest())
        decreases b >= 128, |data| - p
      {
        if !Ok(1) || shift >= 64 {
          return false, 0;
        }
        b := data[p];
        p := p + 1;
        r := OrWord(r, Group(b, shift));
        shift := shift + 7;
      }
      if shift < 64 && b % 128 >= 64 {
        r := OrWord(r, HighBits(shift));
      }
      return true, Signed(r);
    }

    /** `strlen` from the cursor: the length, or failure when no terminator is in the section. */
    method StringLength() returns (terminated: bool, n: nat)
      requires Valid()
      ensures n == StrLen(Rest())
      ensures terminated <==> 0 in Rest()
    {
      n := 0;
      while p + n < |data| && data[p + n] != 0
        invariant p + n <= |data|
        invariant 0 !in data[p..p + n]
      {
        assert data[p..p + n + 1] == data[p..p + n] + [data[p + n]];
        n := n + 1;
      }
      assert data[p..][..n] == data[p..p + n];
      StrLenUnique(Rest(), n);
      terminated := p + n < |data|;
    }
  }
}
