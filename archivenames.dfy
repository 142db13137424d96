/*
 * How the archive readers match entry names. A name is kept as the UTF-8
 * bytes WriteFileToArchive stores; `Path.GetFileName` keeps what follows
 * the last directory separator and the path's root, and the single-file extractors compare
 * those base names with StringComparison.OrdinalIgnoreCase.
 */
module ArchiveNames {
  import opened Common

  /** '/' and '\\', the two directory separators GetFileName splits at. */
  predicate IsSeparator(b: Byte) {
    b == 47 || b == 92
  }

  /** A name with no directory separator in it. */
  predicate PlainName(name: seq<Byte>) {
    forall i :: 0 <= i < |name| ==> !IsSeparator(name[i])
  }

  /** An ASCII letter, the only characters Windows accepts before a volume separator. */
  predicate IsDriveLetter(b: Byte) {
    65 <= b <= 90 || 97 <= b <= 122
  }

  /** A path that starts with a drive letter and ':' ("C:abc", "C:\abc"). */
  predicate HasDrive(p: seq<Byte>) {
    |p| >= 2 && IsDriveLetter(p[0]) && p[1] == 58
  }

  /** The extended prefix "\\?\" or "\??\", spelled with back slashes only. */
  predicate IsExtended(p: seq<Byte>) {
    |p| >= 4 && p[0] == 92 && (p[1] == 92 || p[1] == 63) && p[2] == 63 && p[3] == 92
  }

  /** A device path: the extended prefix, or two separators, '.' or '?', and a separator. */
  predicate IsDevice(p: seq<Byte>) {
    IsExtended(p)
    || (|p| >= 4 && IsSeparator(p[0]) && IsSeparator(p[1]) && (p[2] == 46 || p[2] == 63) && IsSeparator(p[3]))
  }

  /** A device path of the form "\\?\UNC\server\share". */
  predicate IsDeviceUnc(p: seq<Byte>) {
    |p| >= 8 && IsDevice(p) && IsSeparator(p[7]) && p[4] == 85 && p[5] == 78 && p[6] == 67
  }

  /** The first separator at or after `i`, or |p| when there is none. */
  function NextSeparator(p: seq<Byte>, i: nat): (j: nat)
    requires i <= |p|
    ensures i <= j <= |p|
    ensures forall k :: i <= k < j ==> !IsSeparator(p[k])
    ensures j < |p| ==> IsSeparator(p[j])
    decreases |p| - i
  {
    if i == |p| || IsSeparator(p[i]) then i else NextSeparator(p, i + 1)
  }

  /**
   * The length of the root `Path.GetPathRoot` finds on Windows (the
   * runtime's GetRootLength): a UNC "\\server\share" up to the separator
   * after the share, a device prefix with its first component, a single
   * leading separator, or a drive "C:" with the separator after it.
   */
  function RootLength(p: seq<Byte>): (n: nat)
    ensures n <= |p|
  {
    var unc := IsDeviceUnc(p);
    if (!IsDevice(p) || unc) && |p| > 0 && IsSeparator(p[0]) then
      if unc || (|p| > 1 && IsSeparator(p[1])) then
        // skip past "server\share", stopping at the second separator
        var server := NextSeparator(p, if unc then 8 else 2);
        if server == |p| then |p| else NextSeparator(p, server + 1)
      else 1
    else if IsDevice(p) then
      var i := NextSeparator(p, 4);
      if i < |p| && i > 4 then i + 1 else i
    else if HasDrive(p) then
      if |p| > 2 && IsSeparator(p[2]) then 3 else 2
    else 0
  }

  /** The index of the last separator of `p`, or -1 when it has none. */
  function LastSeparator(p: seq<Byte>): (i: int)
    ensures -1 <= i < |p|
    ensures 0 <= i ==> IsSeparator(p[i])
    ensures forall k :: i < k < |p| ==> !IsSeparator(p[k])
  {
    if p == [] then -1
    else if IsSeparator(p[|p| - 1]) then |p| - 1
    else LastSeparator(p[..|p| - 1])
  }

  /**
   * Path.GetFileName on Windows: what follows the last separator, except
   * that the root is never part of the name, so "C:abc" gives "abc" and
   * "\\server\share" gives the empty name.
   */
  function BaseName(path: seq<Byte>): (name: seq<Byte>)
    ensures |name| <= |path|
    ensures forall i :: 0 <= i < |name| ==> !IsSeparator(name[i])
  {
    var root := RootLength(path);
    var last := LastSeparator(path);
    path[if last < root then root else last + 1..]
  }

  /**
   * The base name starts after the root, and right after a separator
   * unless it starts at the root.
   */
  lemma BaseNameRoot(path: seq<Byte>)
    ensures RootLength(path) <= |path| - |BaseName(path)|
    ensures |BaseName(path)| < |path|
      ==> IsSeparator(path[|path| - |BaseName(path)| - 1]) || |path| - |BaseName(path)| == RootLength(path)
  {
  }

  /** The base name is the tail of the path. */
  lemma BaseNameIsSuffix(path: seq<Byte>)
    ensures BaseName(path) == path[|path| - |BaseName(path)|..]
  {
  }

  /** A name with no separator and no drive is its own base name. */
  lemma BaseNameOfPlainName(name: seq<Byte>)
    requires forall i :: 0 <= i < |name| ==> !IsSeparator(name[i])
    requires !HasDrive(name)
    ensures BaseName(name) == name
  {
  }

  /** A drive-relative name without separators loses its drive: "C:abc" gives "abc". */
  lemma DriveRelativeName(name: seq<Byte>)
    requires forall i :: 0 <= i < |name| ==> !IsSeparator(name[i])
    requires HasDrive(name)
    ensures BaseName(name) == name[2..]
  {
  }

  /**
   * Taking the base name twice is taking it once, unless the base name
   * itself begins with a drive ("C:D:x" gives "D:x", and then "x").
   */
  lemma BaseNameIdempotent(path: seq<Byte>)
    requires !HasDrive(BaseName(path))
    ensures BaseName(BaseName(path)) == BaseName(path)
  {
    BaseNameOfPlainName(BaseName(path));
  }

  /** The two leading separators of a UNC path, or the "\??\" prefix of a device path. */
  predicate UncOrDevicePrefix(p: seq<Byte>) {
    (|p| >= 2 && IsSeparator(p[0]) && IsSeparator(p[1])) || (|p| >= 4 && p[0] == 92 && p[1] == 63 && p[2] == 63 && p[3] == 92)
  }

  /**
   * The base name of `dir + sep + name` is `name` when `name` has no
   * separator and the path does not begin as a UNC or device path, whose
   * root would swallow `name`.
   */
  lemma BaseNameAfterSeparator(dir: seq<Byte>, sep: Byte, name: seq<Byte>)
    requires IsSeparator(sep) && forall i :: 0 <= i < |name| ==> !IsSeparator(name[i])
    requires !UncOrDevicePrefix(dir + [sep])
    ensures BaseName(dir + [sep] + name) == name
  {
    var path := dir + [sep] + name;
    assert forall k :: |dir| < k < |path| ==> path[k] == name[k - |dir| - 1];
    assert LastSeparator(path) == |dir| by {
      assert IsSeparator(path[|dir|]);
    }
    assert RootLength(path) <= |dir| + 1 by {
      if |dir| < 3 {
        if |path| > 3 {
          assert path[3] == name[3 - |dir| - 1];
        }
      } else {
        assert (dir + [sep])[..4] == path[..4];
      }
      if |dir| == 0 && |path| > 1 {
        assert path[1] == name[0];
      }
    }
  }

  /** "\\server\share" has an empty base name: the whole path is its root. */
  lemma UncShareName(server: seq<Byte>, share: seq<Byte>)
    requires server != [] && server[0] != 46 && server[0] != 63
    requires forall i :: 0 <= i < |server| ==> !IsSeparator(server[i])
    requires forall i :: 0 <= i < |share| ==> !IsSeparator(share[i])
    ensures BaseName([92, 92] + server + [92] + share) == []
  {
    var path := [92, 92] + server + [92] + share;
    assert !IsDevice(path) by {
      assert path[2] == server[0];
    }
    assert forall k :: 2 <= k < 2 + |server| ==> path[k] == server[k - 2];
    assert NextSeparator(path, 2) == 2 + |server| by {
      assert IsSeparator(path[2 + |server|]);
    }
    assert forall k :: 3 + |server| <= k < |path| ==> path[k] == share[k - 3 - |server|];
    assert NextSeparator(path, 3 + |server|) == |path|;
  }

  /** The ordinal case folding of one byte: ASCII 'A'..'Z' become 'a'..'z'. */
  function FoldCase(b: Byte): Byte {
    if 65 <= b <= 90 then b + 32 else b
  }

  /** String.Equals(a, b, StringComparison.OrdinalIgnoreCase) on ASCII names. */
  predicate EqualsIgnoreCase(a: seq<Byte>, b: seq<Byte>) {
    |a| == |b| && forall i :: 0 <= i < |a| ==> FoldCase(a[i]) == FoldCase(b[i])
  }

  /**
   * The test of both extractors: the base name of the entry's stored path
   * equals the base name of the requested file, ignoring case.
   */
  predicate SameFileName(stored: seq<Byte>, requested: seq<Byte>) {
    EqualsIgnoreCase(BaseName(stored), BaseName(requested))
  }

  /** The test of the single-file extractors for one requested file, as a predicate on stored paths. */
  function MatchesFile(requested: seq<Byte>): (matches: seq<Byte> -> bool)
    ensures forall stored :: matches(stored) == SameFileName(stored, requested)
  {
    stored => SameFileName(stored, requested)
  }

  /**
   * The content of the first of `files` whose name satisfies `matches`, the
   * one a linear search over the entries in archive order stops at; None
   * when no name does.
   */
  function FirstMatch<T>(files: seq<(seq<Byte>, T)>, matches: seq<Byte> -> bool): (r: Option<T>)
    ensures r.None? <==> forall i :: 0 <= i < |files| ==> !matches(files[i].0)
    ensures forall i :: 0 <= i < |files| && matches(files[i].0) && (forall j :: 0 <= j < i ==> !matches(files[j].0))
              ==> r == Some(files[i].1)
  {
    if files == [] then None
    else if matches(files[0].0) then Some(files[0].1)
    else
      assert forall i :: 1 <= i < |files| ==> files[i] == files[1..][i - 1];
      FirstMatch(files[1..], matches)
  }

  /**
   * Each content under its path's base name. These are the (name, contents)
   * pairs CompressFilesAsync archives for the picked files, and the files
   * DecompressAllAsync writes for an archive of `files`.
   */
  function BaseNamed(files: seq<(seq<Byte>, seq<Byte>)>): (outs: seq<(seq<Byte>, seq<Byte>)>)
    ensures |outs| == |files| && forall i :: 0 <= i < |files| ==> outs[i] == (BaseName(files[i].0), files[i].1)
  {
    seq(|files|, i requires 0 <= i < |files| => (BaseName(files[i].0), files[i].1))
  }

  /**
   * Files already named by their base names keep those names when cut again,
   * unless a base name itself starts with a drive.
   */
  lemma BaseNamedTwice(files: seq<(seq<Byte>, seq<Byte>)>)
    requires forall i :: 0 <= i < |files| ==> !HasDrive(BaseName(files[i].0))
    ensures BaseNamed(BaseNamed(files)) == BaseNamed(files)
  {
    forall i | 0 <= i < |files|
      ensures BaseNamed(BaseNamed(files))[i] == BaseNamed(files)[i]
    {
      BaseNameIdempotent(files[i].0);
    }
  }

  /** Every output after the first `n` is named by a name with no separator. */
  predicate PlainFrom(outs: seq<(seq<Byte>, seq<Byte>)>, n: nat) {
    forall i :: n <= i < |outs| ==> PlainName(outs[i].0)
  }

  /**
   * The outputs of a decompression loop that went on after writing `out`
   * keep those written before it, and are all plainly named from `out` on.
   */
  lemma OutputsAfter(outputs: seq<(seq<Byte>, seq<Byte>)>, out: (seq<Byte>, seq<Byte>), all: seq<(seq<Byte>, seq<Byte>)>)
    requires PlainName(out.0)
    requires |all| >= |outputs| + 1 && all[..|outputs| + 1] == outputs + [out] && PlainFrom(all, |outputs| + 1)
    ensures all[..|outputs|] == outputs && PlainFrom(all, |outputs|)
  {
    assert all[..|outputs|] == all[..|outputs| + 1][..|outputs|];
    assert all[|outputs|] == out;
  }

  /** The outputs of the files: that of the first, then those of the others. */
  lemma BaseNamedCons(files: seq<(seq<Byte>, seq<Byte>)>, outputs: seq<(seq<Byte>, seq<Byte>)>)
    requires files != []
    ensures outputs + [(BaseName(files[0].0), files[0].1)] + BaseNamed(files[1..]) == outputs + BaseNamed(files)
  {
    var head := [(BaseName(files[0].0), files[0].1)];
    var rest := BaseNamed(files[1..]);
    forall i | 0 <= i < |files|
      ensures BaseNamed(files)[i] == (head + rest)[i]
    {
      if i > 0 {
        assert files[1..][i - 1] == files[i];
      }
    }
    assert BaseNamed(files) == head + rest;
    assert outputs + head + rest == outputs + (head + rest);
  }
}
