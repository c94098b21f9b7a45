/** Joining a directory and a file name into a bounded buffer (`bw_join_path`). */
module Paths {
  import opened Bytes
  import opened Wrappers

  const SLASH: byte := 47
  const BACKSLASH: byte := 92
  const COLON: byte := 58

  predicate Letter(b: byte) {
    65 <= b <= 90 || 97 <= b <= 122
  }

  predicate Separator(b: byte) {
    b == SLASH || b == BACKSLASH
  }

  /** A path from the root, or one with a drive letter. */
  predicate Absolute(file: CString) {
    file != [] && (Separator(file[0]) || (Letter(file[0]) && |file| > 1 && file[1] == COLON))
  }

  /** The join without any length limit. */
  function IdealJoin(dir: CString, file: CString): (path: CString)
    ensures path == [] <==> dir == [] && file == []
  {
    if Absolute(file) || dir == [] then file
    else if Separator(dir[|dir| - 1]) then dir + file
    else dir + [SLASH] + file
  }

  /** An absolute file, one that starts with a slash, a backslash or a drive letter and a colon, is taken alone. */
  lemma AbsoluteAlone(dir: CString, file: CString)
    requires file != []
    requires file[0] == 47 || file[0] == 92
          || (|file| > 1 && file[1] == 58 && (65 <= file[0] <= 90 || 97 <= file[0] <= 122))
    ensures IdealJoin(dir, file) == file
  {
  }

  lemma NoDirectory(file: CString)
    ensures IdealJoin([], file) == file
  {
  }

  /** Any other file stands behind its directory and one separator: the directory's own last byte when that is a slash
      or a backslash, and else a slash. */
  lemma RelativeBehind(dir: CString, file: CString)
    requires dir != []
    requires file != [] ==> file[0] != 47 && file[0] != 92
    requires |file| > 1 && file[1] == 58 ==> !(65 <= file[0] <= 90) && !(97 <= file[0] <= 122)
    ensures var path := IdealJoin(dir, file);
      var n := |path| - |file|;
      && n >= 1 && path[n..] == file && dir <= path[..n]
      && (path[n - 1] == 47 || path[n - 1] == 92)
      && path[..n] == if dir[|dir| - 1] in {47, 92} then dir else dir + [47]
  {
    var last := dir[|dir| - 1];
    var head := if last == 47 || last == 92 then dir else dir + [47];
    assert IdealJoin(dir, file) == head + file;
  }

  function ContentOf(s: Option<CString>): CString {
    if s.None? then [] else s.value
  }

  lemma TakeAppend(a: Bytes, b: Bytes, n: nat)
    ensures Take(Take(a, n) + b, n) == Take(a + b, n)
  {
  }

  /** Copies `s` behind the `start` bytes already in `dst`, keeping one byte free. */
  method CopyInto(dst: array<byte>, start: nat, s: CString) returns (i: nat)
    requires start < dst.Length
    modifies dst
    ensures i < dst.Length
    ensures dst[..i] == Take(old(dst[..start]) + s, dst.Length - 1)
    ensures forall k | i <= k < dst.Length :: dst[k] == old(dst[k])
  {
    var j := 0;
    i := start;
    while j < |s| && i + 1 < dst.Length
      invariant j <= |s| && i < dst.Length && i == start + j
      invariant forall k | 0 <= k < start :: dst[k] == old(dst[k])
      invariant forall k | 0 <= k < j :: dst[start + k] == s[k]
      invariant forall k | i <= k < dst.Length :: dst[k] == old(dst[k])
    {
      dst[i] := s[j];
      i := i + 1;
      j := j + 1;
    }
    assert dst[..i] == (old(dst[..start]) + s)[..i];
  }

  /** The loop body for the directory part; `i` bytes of `dst` are written. */
  method JoinDirectory(dst: array<byte>, dir: CString) returns (i: nat)
    requires dst.Length > 0 && dir != []
    modifies dst
    ensures i < dst.Length
    ensures dst[..i] == Take(if Separator(dir[|dir| - 1]) then dir else dir + [SLASH], dst.Length - 1)
    ensures forall k | i <= k < dst.Length :: dst[k] == old(dst[k])
  {
    i := CopyInto(dst, 0, dir);
    assert dst[..i] == Take(dir, dst.Length - 1) by {
      assert old(dst[..0]) + dir == dir;
    }
    if i > 0 && !Separator(dst[i - 1]) && i + 1 < dst.Length {
      assert i == |dir| && dst[i - 1] == dst[..i][i - 1] == dir[i - 1];
      dst[i] := SLASH;
      i := i + 1;
      assert dst[..i] == dir + [SLASH];
    } else if i == |dir| && i + 1 < dst.Length {
      assert dst[i - 1] == dst[..i][i - 1] == dir[i - 1];
    }
  }

  /** The part of the ideal join before the file name. */
  function Head(dir: CString, file: CString): (head: CString)
    ensures head + file == IdealJoin(dir, file)
  {
    if Absolute(file) || dir == [] then []
    else if Separator(dir[|dir| - 1]) then dir
    else dir + [SLASH]
  }

  method WriteHead(dst: array<byte>, dir: Option<CString>, name: CString) returns (i: nat)
    requires dst.Length > 0
    modifies dst
    ensures i < dst.Length
    ensures dst[..i] == Take(Head(ContentOf(dir), name), dst.Length - 1)
    ensures forall k | i <= k < dst.Length :: dst[k] == old(dst[k])
  {
    i := 0;
    if !Absolute(name) && dir.Some? && dir.value != [] {
      i := JoinDirectory(dst, dir.value);
    }
  }

  /** `dst` receives the longest prefix of the ideal join that leaves room for the terminator. */
  method JoinPath(dst: array<byte>, dir: Option<CString>, file: Option<CString>) returns (ok: bool)
    modifies dst
    ensures dst.Length == 0 ==> !ok
    ensures dst.Length > 0 ==>
      var path := Take(IdealJoin(ContentOf(dir), ContentOf(file)), dst.Length - 1);
      && dst[..|path| + 1] == path + [0]
      && (forall k | |path| < k < dst.Length :: dst[k] == old(dst[k]))
      && (ok <==> path != [])
  {
    hide IdealJoin, Head;
    if dst.Length == 0 {
      return false;
    }
    var name := ContentOf(file);
    var i := WriteHead(dst, dir, name);
    i := CopyInto(dst, i, name);
    TakeAppend(Head(ContentOf(dir), name), name, dst.Length - 1);
    ghost var written := dst[..i];
    dst[i] := 0;
    assert dst[..i + 1] == written + [0];
    return i > 0;
  }
}
