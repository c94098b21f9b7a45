/** Attribute forms of version 5 entry tables: `bw_form_skip`, `bw_form_path`, `bw_form_udata`. */
module Forms {
  import opened Bytes
  import opened Leb128
  import opened Cursors

  const ADDR: u64 := 0x01
  const BLOCK2: u64 := 0x03
  const BLOCK4: u64 := 0x04
  const DATA2: u64 := 0x05
  const DATA4: u64 := 0x06
  const DATA8: u64 := 0x07
  const STRING: u64 := 0x08
  const BLOCK: u64 := 0x09
  const BLOCK1: u64 := 0x0a
  const DATA1: u64 := 0x0b
  const FLAG: u64 := 0x0c
  const SDATA: u64 := 0x0d
  const STRP: u64 := 0x0e
  const UDATA: u64 := 0x0f
  const REF_ADDR: u64 := 0x10
  const SEC_OFFSET: u64 := 0x17
  const EXPRLOC: u64 := 0x18
  const FLAG_PRESENT: u64 := 0x19
  const DATA16: u64 := 0x1e
  const LINE_STRP: u64 := 0x1f
  const IMPLICIT_CONST: u64 := 0x21

  /** Size of a section offset: 4 bytes, or 8 in the 64-bit format. */
  type OffsetSize = n: nat | n == 4 || n == 8 witness 4

  /** `.debug_line_str` and `.debug_str`; an absent section is empty. */
  datatype Sections = Sections(lineStr: Bytes, debugStr: Bytes)

  /** Number of bytes of a form whose size does not depend on its content. */
  function FixedSize(form: u64, offsetSize: OffsetSize): (n: int)
    ensures -1 <= n <= 16
  {
    if form == FLAG_PRESENT || form == IMPLICIT_CONST then 0
    else if form == DATA1 || form == FLAG then 1
    else if form == DATA2 then 2
    else if form == DATA4 then 4
    else if form == DATA8 || form == ADDR then 8
    else if form == DATA16 then 16
    else if form == STRP || form == LINE_STRP || form == SEC_OFFSET || form == REF_ADDR then offsetSize
    else -1
  }

  /** Width of the length word of `BLOCK1`, `BLOCK2` and `BLOCK4`, else 0. */
  function BlockWidth(form: u64): nat {
    if form == BLOCK1 then 1 else if form == BLOCK2 then 2 else if form == BLOCK4 then 4 else 0
  }

  function StringForm(s: Bytes): (r: Read<CString>)
    ensures r.Got? ==> |r.rest| < |s|
    ensures !r.Overread?
  {
    if 0 in s then Got(CStr(s), s[StrLen(s) + 1..]) else Bad([])
  }

  function FormSkip(form: u64, offsetSize: OffsetSize, s: Bytes): (r: Read<()>)
    ensures r.Got? ==> |r.rest| <= |s|
  {
    if FixedSize(form, offsetSize) >= 0 then Skip(s, FixedSize(form, offsetSize))
    else if form == UDATA then
      var (_, s1) :- Uleb(s);
      Got((), s1)
    else if form == SDATA then
      var (_, s1) :- Sleb(s);
      Got((), s1)
    else if form == STRING then
      var (_, s1) :- StringForm(s);
      Got((), s1)
    else if BlockWidth(form) > 0 then
      var (len, s1) :- Le(s, BlockWidth(form));
      Skip(s1, len)
    else if form == BLOCK || form == EXPRLOC then
      var (len, s1) :- Uleb(s);
      Skip(s1, len)
    else Bad(s)
  }

  function FormPath(form: u64, offsetSize: OffsetSize, sections: Sections, s: Bytes): (r: Read<CString>)
    ensures r.Got? ==> |r.rest| <= |s|
  {
    if form == STRING then StringForm(s)
    else if form == LINE_STRP || form == STRP then
      var (off, s1) :- Le(s, offsetSize);
      var section := if form == LINE_STRP then sections.lineStr else sections.debugStr;
      if off >= |section| then Got([], s1)
      else if 0 !in section[off..] then Overread
      else Got(CStr(section[off..]), s1)
    else
      var (_, s1) :- FormSkip(form, offsetSize, s);
      Got([], s1)
  }

  /** The forms a number may have. */
  predicate NumberForm(form: u64) {
    form == UDATA || form == DATA1 || form == DATA2 || form == DATA4
  }

  function FormUdata(form: u64, s: Bytes): (r: Read<u64>)
    ensures r.Got? ==> |r.rest| <= |s|
  {
    if form == UDATA then Uleb(s)
    else if NumberForm(form) then
      var (v, s1) :- Le(s, FixedSize(form, 4));
      LeSmall(s, FixedSize(form, 4));
      Got(v, s1)
    else Bad(s)
  }

  lemma LeSmall(s: Bytes, n: nat)
    requires n <= |s| && (n == 1 || n == 2 || n == 4)
    ensures LeValue(s[..n]) < U32
  {
    LeBound(s[..n]);
    Pow256Words();
  }

  // ---- The readers agree on how many bytes a form occupies ----

  /** `bw_form_path` succeeds exactly when `bw_form_skip` does, and leaves the cursor at the same place.
      (An unterminated string in a string section counts as success of the read itself.) */
  lemma PathOccupiesSkippedBytes(form: u64, offsetSize: OffsetSize, sections: Sections, s: Bytes)
    ensures var path, skip := FormPath(form, offsetSize, sections, s), FormSkip(form, offsetSize, s);
      && (path.Bad? <==> skip.Bad?)
      && !skip.Overread?
      && (path.Got? ==> path.rest == skip.rest)
      && (path.Bad? ==> path.rest == skip.rest)
  {
    hide Uleb, Sleb, LeValue, StrLen, CStr, StringForm;
  }

  /** The same for `bw_form_udata` on its four forms; it refuses every other one. */
  lemma UdataOccupiesSkippedBytes(form: u64, offsetSize: OffsetSize, s: Bytes)
    ensures var number, skip := FormUdata(form, s), FormSkip(form, offsetSize, s);
      if NumberForm(form) then
        (number.Got? <==> skip.Got?) && (number.Got? ==> number.rest == skip.rest)
      else number == Bad(s)
  {
  }

  // ---- Bytes appended to the section do not disturb an accepted read ----

  lemma StringFormStable(s: Bytes, tail: Bytes)
    requires 0 in s
    ensures StringForm(s + tail) == Got(CStr(s), s[StrLen(s) + 1..] + tail)
  {
    CStrStable(s, tail);
    var n := StrLen(s);
    assert (s + tail)[n] == 0;
    assert (s + tail)[n + 1..] == s[n + 1..] + tail;
  }

  lemma FormSkipStable(form: u64, offsetSize: OffsetSize, s: Bytes, tail: Bytes)
    requires FormSkip(form, offsetSize, s).Got?
    ensures FormSkip(form, offsetSize, s + tail) == Got((), FormSkip(form, offsetSize, s).rest + tail)
  {
    hide Uleb, Sleb, StrLen, CStr, LeValue;
    if FixedSize(form, offsetSize) >= 0 {
      LeStable(s, FixedSize(form, offsetSize), tail);
    } else if form == UDATA {
      UlebStable(s, tail);
    } else if form == SDATA {
      SlebStable(s, tail);
    } else if form == STRING {
      StringFormStable(s, tail);
    } else if BlockWidth(form) > 0 {
      LeStable(s, BlockWidth(form), tail);
      LeStable(s[BlockWidth(form)..], LeValue(s[..BlockWidth(form)]), tail);
    } else {
      UlebStable(s, tail);
      LeStable(Uleb(s).rest, Uleb(s).value, tail);
    }
  }

  lemma FormPathStable(form: u64, offsetSize: OffsetSize, sections: Sections, s: Bytes, tail: Bytes)
    requires FormPath(form, offsetSize, sections, s).Got?
    ensures FormPath(form, offsetSize, sections, s + tail)
         == FormPath(form, offsetSize, sections, s).(rest := FormPath(form, offsetSize, sections, s).rest + tail)
  {
    hide FormSkip, StrLen, CStr, LeValue;
    if form == STRING {
      StringFormStable(s, tail);
    } else if form == LINE_STRP || form == STRP {
      LeStable(s, offsetSize, tail);
    } else {
      FormSkipStable(form, offsetSize, s, tail);
    }
  }

  lemma FormUdataStable(form: u64, s: Bytes, tail: Bytes)
    requires FormUdata(form, s).Got?
    ensures FormUdata(form, s + tail) == FormUdata(form, s).(rest := FormUdata(form, s).rest + tail)
  {
    hide Uleb, LeValue;
    if form == UDATA {
      UlebStable(s, tail);
    } else {
      LeStable(s, FixedSize(form, 4), tail);
    }
  }

  // ---- The methods ----

  /** `bw_form_skip` */
  method SkipForm(c: Cursor, form: u64, offsetSize: OffsetSize) returns (ok: bool)
    requires c.Valid()
    modifies c`p
    ensures c.Valid()
    ensures FormSkip(form, offsetSize, old(c.Rest())) == Outcome(ok, (), c.Rest())
  {
    hide Uleb, Sleb, StringForm, LeValue;
    if form == FLAG_PRESENT {
      return true;
    } else if form == DATA1 || form == FLAG {
      ok := c.SkipBytes(1);
    } else if form == DATA2 {
      ok := c.SkipBytes(2);
    } else if form == DATA4 {
      ok := c.SkipBytes(4);
    } else if form == STRP || form == LINE_STRP || form == SEC_OFFSET {
      ok := c.SkipBytes(offsetSize);
    } else if form == DATA8 || form == ADDR {
      ok := c.SkipBytes(8);
    } else if form == DATA16 {
      ok := c.SkipBytes(16);
    } else if form == UDATA {
      var n;
      ok, n := c.ReadUleb();
    } else if form == SDATA {
      var n;
      ok, n := c.ReadSleb();
    } else if form == STRING {
      ok := SkipString(c);
    } else if form == BLOCK1 || form == BLOCK2 || form == BLOCK4 {
      var len;
      ok, len := c.Word(BlockWidth(form));
      if ok {
        ok := c.SkipBytes(len);
      }
    } else if form == BLOCK || form == EXPRLOC {
      var len;
      ok, len := c.ReadUleb();
      if ok {
        ok := c.SkipBytes(len);
      }
    } else if form == IMPLICIT_CONST {
      return true;
    } else if form == REF_ADDR {
      ok := c.SkipBytes(offsetSize);
    } else {
      return false;
    }
  }

  /** The scan in `bw_form_skip`: every byte is stepped over as it is looked at. */
  method SkipString(c: Cursor) returns (ok: bool)
    requires c.Valid()
    modifies c`p
    ensures c.Valid()
    ensures var r := StringForm(old(c.Rest())); (ok <==> r.Got?) && c.Rest() == r.rest
  {
    hide StrLen;
    ghost var start := c.Rest();
    while c.Ok(1)
      invariant c.Valid() && old(c.p) <= c.p
      invariant forall k | old(c.p) <= k < c.p :: c.data[k] != 0
      decreases |c.data| - c.p
    {
      c.p := c.p + 1;
      if c.data[c.p - 1] == 0 {
        StrLenUnique(start, c.p - 1 - old(c.p));
        assert start[c.p - 1 - old(c.p)] == 0;
        return true;
      }
    }
    return false;
  }

  /** The scan in `bw_form_path`: it stops at the terminator, and steps over it only when there is one. */
  method ReadString(c: Cursor) returns (ok: bool, path: CString)
    requires c.Valid()
    modifies c`p
    ensures c.Valid()
    ensures StringForm(old(c.Rest())) == Outcome(ok, path, c.Rest())
  {
    hide StrLen;
    ghost var s := c.Rest();
    var start := c.p;
    while c.Ok(1) && c.data[c.p] != 0
      invariant c.Valid() && start <= c.p
      invariant forall k | start <= k < c.p :: c.data[k] != 0
      decreases |c.data| - c.p
    {
      c.p := c.p + 1;
    }
    StrLenUnique(s, c.p - start);
    if !c.Ok(1) {
      assert s[..|s|] == s;
      return false, [];
    }
    path := c.data[start..c.p];
    assert s[c.p - start] == 0 && CStr(s) == path;
    c.p := c.p + 1;
    return true, path;
  }

  /** `bw_form_path` */
  method ReadPath(c: Cursor, form: u64, offsetSize: OffsetSize, sections: Sections)
    returns (status: Status, path: CString)
    requires c.Valid()
    modifies c`p
    ensures c.Valid()
    ensures var path' := FormPath(form, offsetSize, sections, old(c.Rest()));
      if path'.Overread? then status == Unterminated else path' == StatusOutcome(status, path, c.Rest())
  {
    hide StrLen, LeValue, FormSkip, StringForm;
    path := [];
    var ok;
    if form == STRING {
      ok, path := ReadString(c);
    } else if form == LINE_STRP || form == STRP {
      var off;
      ok, off := c.Word(offsetSize);
      if ok {
        var section := if form == LINE_STRP then sections.lineStr else sections.debugStr;
        if off < |section| {
          if 0 !in section[off..] {
            return Unterminated, [];
          }
          path := CStr(section[off..]);
        }
      }
    } else {
      ok := SkipForm(c, form, offsetSize);
    }
    status := if ok then Accepted else Rejected;
  }

  /** `bw_form_udata` */
  method ReadUdata(c: Cursor, form: u64) returns (ok: bool, v: u64)
    requires c.Valid()
    modifies c`p
    ensures c.Valid()
    ensures FormUdata(form, old(c.Rest())) == Outcome(ok, v, c.Rest())
  {
    hide Uleb, LeValue;
    if form == UDATA {
      ok, v := c.ReadUleb();
    } else if NumberForm(form) {
      var w;
      ok, w := c.Word(FixedSize(form, 4));
      if ok {
        LeSmall(old(c.Rest()), FixedSize(form, 4));
      }
      v := if ok then w else 0;
    } else {
      return false, 0;
    }
  }
}
