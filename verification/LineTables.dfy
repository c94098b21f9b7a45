/** The row table and its string pool (`bw_dwarf_tab_t`): two fixed buffers with fill counters. */
module LineTables {
  import opened Bytes

  const ROW_MAX := 65536
  const STR_MAX := 256 * 1024

  datatype Row = Row(addr: u64, nameOff: u32, line: u32)

  // ---- The string pool ----

  /** The pool and the offset after `bw_add_str`; the offset is -1 when the pool is full. */
  datatype Added = Added(pool: Bytes, off: int)

  /** What `bw_add_str` stores of `s`: it stops at a NUL and at the room left, less the terminator. */
  function Stored(pool: Bytes, s: Bytes): CString
    requires |pool| < STR_MAX
  {
    CStr(Take(s, STR_MAX - |pool| - 1))
  }

  function AddString(pool: Bytes, s: Bytes): (a: Added)
    requires |pool| <= STR_MAX
    ensures |a.pool| <= STR_MAX
    ensures pool <= a.pool
    ensures -1 <= a.off < |a.pool|
  {
    if |pool| + 1 > STR_MAX then Added(pool, -1)
    else Added(pool + Stored(pool, s) + [0], |pool|)
  }

  /** Every string of the pool is terminated inside it. */
  predicate Closed(pool: Bytes) {
    pool != [] ==> pool[|pool| - 1] == 0
  }

  predicate StartsString(pool: Bytes, off: int) {
    0 <= off < |pool| && 0 in pool[off..]
  }

  /** The string at an offset of the pool. */
  function NameAt(pool: Bytes, off: int): CString {
    if 0 <= off < |pool| then CStr(pool[off..]) else []
  }

  lemma StoredWhole(pool: Bytes, s: CString)
    requires |pool| + |s| < STR_MAX
    ensures Stored(pool, s) == s
  {
    StrLenUnique(s, |s|);
  }

  /** Interning keeps the pool closed, only appends to it, and the new offset names what was stored. */
  lemma AddStringFacts(pool: Bytes, s: Bytes)
    requires |pool| <= STR_MAX && Closed(pool)
    ensures var a := AddString(pool, s);
      && Closed(a.pool)
      && pool <= a.pool
      && (a.off == -1 <==> |pool| == STR_MAX)
      && (a.off == -1 ==> a.pool == pool)
      && (a.off != -1 ==> StartsString(a.pool, a.off) && NameAt(a.pool, a.off) == Stored(pool, s))
  {
    hide StrLen, Stored, CStr;
    if |pool| < STR_MAX {
      var t := Stored(pool, s);
      var p := pool + t + [0];
      assert p[|pool|..] == t + [0] == t + [0] + [];
      CStrOfTerminated(t, []);
    }
  }

  /** Strings already in the pool keep their value however it grows. */
  lemma NameStable(pool: Bytes, more: Bytes, off: int)
    requires StartsString(pool, off)
    ensures StartsString(pool + more, off)
    ensures NameAt(pool + more, off) == NameAt(pool, off)
  {
    assert (pool + more)[off..] == pool[off..] + more;
    CStrStable(pool[off..], more);
  }

  lemma ClosedStarts(pool: Bytes, off: int)
    requires Closed(pool) && 0 <= off < |pool|
    ensures StartsString(pool, off)
  {
    assert pool[off..][|pool| - 1 - off] == 0;
  }

  lemma AddStringFull(pool: Bytes, s: Bytes)
    requires |pool| == STR_MAX
    ensures AddString(pool, s) == Added(pool, -1)
  {
  }

  /** `i` is where the copy loop of `bw_add_str` stops. */
  lemma AddStringIs(pool: Bytes, s: Bytes, i: nat)
    requires |pool| < STR_MAX && i <= |s| && i < STR_MAX - |pool|
    requires forall k | 0 <= k < i :: s[k] != 0
    requires i == |s| || i == STR_MAX - |pool| - 1 || s[i] == 0
    ensures AddString(pool, s) == Added(pool + s[..i] + [0], |pool|)
  {
    hide StrLen;
    var clipped := Take(s, STR_MAX - |pool| - 1);
    assert clipped[..i] == s[..i];
    StrLenUnique(clipped, i);
  }

  // ---- The table ----

  /** Appending to a table that drops what does not fit. */
  function Capped(rows: seq<Row>): seq<Row> {
    Take(rows, ROW_MAX)
  }

  lemma CappedAppend(a: seq<Row>, b: seq<Row>)
    ensures Capped(Capped(a) + b) == Capped(a + b)
  {
  }

  class LineTable {
    const rows: array<Row>
    var nrow: nat
    const strs: array<byte>
    var nstr: nat

    ghost predicate Valid()
      reads this
    {
      rows.Length == ROW_MAX && strs.Length == STR_MAX && nrow <= ROW_MAX && nstr <= STR_MAX
    }

    ghost function Rows(): seq<Row>
      reads this, rows
      requires Valid()
      ensures |Rows()| <= ROW_MAX
    {
      rows[..nrow]
    }

    ghost function Pool(): Bytes
      reads this, strs
      requires Valid()
      ensures |Pool()| == nstr <= STR_MAX
    {
      strs[..nstr]
    }

    constructor ()
      ensures Valid() && fresh(rows) && fresh(strs)
      ensures Rows() == [] && Pool() == []
    {
      rows := new Row[ROW_MAX](_ => Row(0, 0, 0));
      strs := new byte[STR_MAX](_ => 0);
      nrow, nstr := 0, 0;
    }

    /** `bw_dwarf_tab_reset` */
    method Reset()
      requires Valid()
      modifies this
      ensures Valid() && Rows() == [] && Pool() == []
    {
      nrow, nstr := 0, 0;
    }

    /** Copies into the pool behind `nstr` up to `n` bytes, and ends before a NUL. */
    method CopyString(s: Bytes, n: nat) returns (i: nat)
      requires Valid() && n <= |s| && nstr + n < STR_MAX
      modifies strs
      ensures i <= n && (i < n ==> s[i] == 0) && forall k | 0 <= k < i :: s[k] != 0
      ensures strs[..nstr + i] == old(strs[..nstr]) + s[..i]
    {
      i := 0;
      while i < n && s[i] != 0
        invariant i <= n
        invariant forall k | 0 <= k < nstr :: strs[k] == old(strs[k])
        invariant forall k | 0 <= k < i :: strs[nstr + k] == s[k] != 0
      {
        strs[nstr + i] := s[i];
        i := i + 1;
      }
    }

    /** `bw_add_str` */
    method AddStr(s: Bytes) returns (off: int)
      requires Valid()
      modifies `nstr, strs
      ensures Valid()
      ensures Added(Pool(), off) == AddString(old(Pool()), s)
    {
      hide AddString;
      assert old(Pool()) == strs[..nstr];
      if nstr + 1 > STR_MAX {
        AddStringFull(Pool(), s);
        return -1;
      }
      var n := |s|;
      if n >= STR_MAX - nstr {
        n := STR_MAX - nstr - 1;
      }
      var i := CopyString(s, n);
      ghost var copied := strs[..nstr + i];
      strs[nstr + i] := 0;
      AddStringIs(old(Pool()), s, i);
      assert strs[..nstr + i + 1] == copied + [0];
      off := nstr;
      nstr := nstr + i + 1;
    }

    /** The string that `tab->strs + off` points at. */
    method StringAt(off: nat) returns (s: CString)
      requires Valid() && Closed(Pool()) && off < nstr
      ensures s == NameAt(Pool(), off)
    {
      hide StrLen;
      var i := off;
      ClosedStarts(Pool(), off);
      assert Pool()[nstr - 1] == strs[nstr - 1] == 0;
      while strs[i] != 0
        invariant off <= i < nstr
        invariant forall k | off <= k < i :: strs[k] != 0
        decreases nstr - i
      {
        i := i + 1;
      }
      s := strs[off..i];
      assert Pool()[off..][..i - off] == s;
      StrLenUnique(Pool()[off..], i - off);
    }

    /** `bw_emit` */
    method Emit(addr: u64, fileOff: int, line: u64)
      requires Valid() && fileOff < STR_MAX
      modifies `nrow, rows
      ensures Valid()
      ensures Rows() == Capped(old(Rows()) + Emitted(addr, fileOff, line))
    {
      if nrow >= ROW_MAX || fileOff < 0 || addr == 0 || line == 0 || line > 0xffff_ffff {
        return;
      }
      rows[nrow] := Row(addr, fileOff, line);
      nrow := nrow + 1;
    }
  }

  /** The row `bw_emit` adds when there is room, if it adds one at all. */
  function Emitted(addr: u64, fileOff: int, line: u64): seq<Row>
    requires fileOff < STR_MAX
  {
    if fileOff >= 0 && addr != 0 && 0 < line <= 0xffff_ffff then [Row(addr, fileOff, line)] else []
  }
}
