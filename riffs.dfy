/**
 * Finding the files of a session (riffs.cpp): a file belongs to the session when its
 * name equals the opened name except for one run of digits; each file accepted gets
 * the running offset of the session's concatenated byte space.
 */

/** `matches_except_for_digits` and what it decides. */
module NameMatch {
  predicate IsDigit(c: char)
  {
    '0' <= c <= '9'
  }

  /** Every character of s at a position in [lo, hi) is a digit. */
  predicate DigitsBetween(s: string, lo: nat, hi: nat)
    requires lo <= hi <= |s|
  {
    forall q :: lo <= q < hi ==> IsDigit(s[q])
  }

  /** The end of the common prefix when scanning forward from p. */
  function PrefixFrom(a: string, b: string, p: nat): (r: nat)
    requires p <= |a| && p <= |b|
    ensures p <= r <= |a| && r <= |b|
    decreases |a| - p
  {
    if p == |a| || p == |b| || a[p] != b[p] then p else PrefixFrom(a, b, p + 1)
  }

  /** The characters before the end of the common prefix agree, and it stops at a difference or an end. */
  lemma {:induction false} PrefixFromStops(a: string, b: string, p: nat)
    requires p <= |a| && p <= |b|
    ensures var r := PrefixFrom(a, b, p);
      && (forall q {:trigger a[q]} :: p <= q < r ==> a[q] == b[q])
      && (r < |a| && r < |b| ==> a[r] != b[r])
    decreases |a| - p
  {
    if !(p == |a| || p == |b| || a[p] != b[p]) {
      PrefixFromStops(a, b, p + 1);
    }
  }

  /**
   * The start of the common suffix of a[..pa] and b[..pb] when scanning backward,
   * never going below p on either side.
   */
  function SuffixFrom(a: string, b: string, p: nat, pa: nat, pb: nat): (r: (nat, nat))
    requires p <= pa <= |a| && p <= pb <= |b|
    ensures p <= r.0 <= pa && p <= r.1 <= pb && pa - r.0 == pb - r.1
    decreases pa
  {
    if pa == p || pb == p || a[pa - 1] != b[pb - 1] then (pa, pb)
    else SuffixFrom(a, b, p, pa - 1, pb - 1)
  }

  /** The characters from the start of the common suffix agree, and it stops at the prefix or a difference. */
  lemma {:induction false} SuffixFromStops(a: string, b: string, p: nat, pa: nat, pb: nat)
    requires p <= pa <= |a| && p <= pb <= |b|
    ensures var r := SuffixFrom(a, b, p, pa, pb);
      && (forall q :: r.0 <= q < pa ==> a[q] == b[q - r.0 + r.1])
      && (r.0 == p || r.1 == p || a[r.0 - 1] != b[r.1 - 1])
    decreases pa
  {
    if !(pa == p || pb == p || a[pa - 1] != b[pb - 1]) {
      SuffixFromStops(a, b, p, pa - 1, pb - 1);
    }
  }

  /** A scan whose stopping point is known ends there. */
  lemma {:induction false} PrefixIs(a: string, b: string, p: nat, r: nat)
    requires p <= r <= |a| && r <= |b|
    requires forall q {:trigger a[q]} :: p <= q < r ==> a[q] == b[q]
    requires r == |a| || r == |b| || a[r] != b[r]
    ensures PrefixFrom(a, b, p) == r
    decreases r - p
  {
    if p < r {
      assert a[p] == b[p];
      PrefixIs(a, b, p + 1, r);
    }
  }
  /** A backward scan whose stopping point is known ends there. */
  lemma {:induction false} SuffixIs(a: string, b: string, p: nat, pa: nat, pb: nat, ra: nat, rb: nat)
    requires p <= ra <= pa <= |a| && p <= rb <= pb <= |b| && pa - ra == pb - rb
    requires forall q :: ra <= q < pa ==> a[q] == b[q - ra + rb]
    requires ra == p || rb == p || a[ra - 1] != b[rb - 1]
    ensures SuffixFrom(a, b, p, pa, pb) == (ra, rb)
    decreases pa
  {
    if pa == ra {
      assert pb == rb;
    } else {
      assert pa - 1 - ra + rb == pb - 1;
      assert a[pa - 1] == b[pb - 1];
      SuffixIs(a, b, p, pa - 1, pb - 1, ra, rb);
    }
  }

  /** What `matches_except_for_digits` decides: only digits between the common prefix and suffix. */
  predicate Matches(a: string, b: string)
  {
    var p := PrefixFrom(a, b, 0);
    var e := SuffixFrom(a, b, p, |a|, |b|);
    DigitsBetween(a, p, e.0) && DigitsBetween(b, p, e.1)
  }

  /** The first loop: the length of the common prefix. */
  method ScanPrefix(a: string, b: string) returns (p: nat)
    ensures p == PrefixFrom(a, b, 0)
  {
    p := 0;
    while p != |a| && p != |b|
      invariant p <= |a| && p <= |b|
      invariant forall q {:trigger a[q]} :: 0 <= q < p ==> a[q] == b[q]
    {
      if a[p] != b[p] {
        break;
      }
      p := p + 1;
    }
    PrefixIs(a, b, 0, p);
  }

  /** The second loop: where the common suffix starts in each name, not below p. */
  method ScanSuffix(a: string, b: string, p: nat) returns (pa: nat, pb: nat)
    requires p <= |a| && p <= |b|
    ensures (pa, pb) == SuffixFrom(a, b, p, |a|, |b|)
  {
    pa, pb := |a|, |b|;
    while pa != p && pb != p
      invariant p <= pa <= |a| && p <= pb <= |b| && |a| - pa == |b| - pb
      invariant forall q :: pa <= q < |a| ==> a[q] == b[q - pa + pb]
    {
      if a[pa - 1] != b[pb - 1] {
        break;
      }
      pa, pb := pa - 1, pb - 1;
    }
    SuffixIs(a, b, p, |a|, |b|, pa, pb);
  }

  /** The third and fourth loops: whether s[lo..hi] is all digits (`isdigit`). */
  method ScanDigits(s: string, lo: nat, hi: nat) returns (r: bool)
    requires lo <= hi <= |s|
    ensures r == DigitsBetween(s, lo, hi)
  {
    for q := lo to hi
      invariant DigitsBetween(s, lo, q)
    {
      if !IsDigit(s[q]) {
        return false;
      }
    }
    return true;
  }

  /** `matches_except_for_digits`. */
  method MatchesExceptForDigits(a: string, b: string) returns (r: bool)
    ensures r == Matches(a, b)
  {
    var p := ScanPrefix(a, b);
    var pa, pb := ScanSuffix(a, b, p);
    r := ScanDigits(a, p, pa);
    if r {
      r := ScanDigits(b, p, pb);
    }
  }

  /**
   * a and b are one text x + y with a digit run in between: a == x + a[i..ja] + y and
   * b == x + b[i..jb] + y, written with positions (either run may be empty).
   */
  predicate DigitRunVariant(a: string, b: string, i: nat, ja: nat, jb: nat)
  {
    && i <= ja <= |a| && i <= jb <= |b| && |a| - ja == |b| - jb
    && (forall q {:trigger a[q]} :: 0 <= q < i ==> a[q] == b[q])
    && (forall q :: ja <= q < |a| ==> a[q] == b[q - ja + jb])
    && DigitsBetween(a, i, ja) && DigitsBetween(b, i, jb)
  }

  lemma DigitRunVariantSymmetric(a: string, b: string, i: nat, ja: nat, jb: nat)
    requires DigitRunVariant(a, b, i, ja, jb)
    ensures DigitRunVariant(b, a, i, jb, ja)
  {
    forall q | jb <= q < |b|
      ensures b[q] == a[q - jb + ja]
    {
      var q' := q - jb + ja;
      assert a[q'] == b[q' - ja + jb];
    }
  }

  /**
   * The case the suffix scan stops because it reached the prefix in a, with b the
   * longer name: every character of b from i up to where the suffix starts is a digit.
   * Past its digit run, b repeats at distance jb - ja characters that come earlier in b.
   */
  lemma {:induction false} DigitsUpToSuffix(a: string, b: string, i: nat, ja: nat, jb: nat, p: nat, n: nat, q: nat)
    requires DigitRunVariant(a, b, i, ja, jb) && ja < jb
    requires p <= |a| && p <= |b| && forall k {:trigger a[k]} :: 0 <= k < p ==> a[k] == b[k]
    requires p + n == |a|
    requires i <= q < |b| - n
    ensures IsDigit(b[q])
    decreases q
  {
    if q >= jb {
      var q' := q - jb + ja;
      assert b[q] == a[q'];
      assert a[q'] == b[q'];
      DigitsUpToSuffix(a, b, i, ja, jb, p, n, q');
    }
  }

  /** The digit runs the matcher finds around a shared prefix and suffix. */
  lemma MatchesGivesVariant(a: string, b: string)
    requires Matches(a, b)
    ensures var p := PrefixFrom(a, b, 0);
      var e := SuffixFrom(a, b, p, |a|, |b|);
      DigitRunVariant(a, b, p, e.0, e.1)
  {
    PrefixFromStops(a, b, 0);
    SuffixFromStops(a, b, PrefixFrom(a, b, 0), |a|, |b|);
  }

  /** When the suffix scan reached the prefix in a, the longer b has only digits in between. */
  lemma LongerSideDigits(a: string, b: string, i: nat, ja: nat, jb: nat, p: nat, eb: nat)
    requires DigitRunVariant(a, b, i, ja, jb)
    requires i <= p <= |a| && p <= eb <= |b| && |a| - p == |b| - eb
    requires forall q {:trigger a[q]} :: 0 <= q < p ==> a[q] == b[q]
    ensures DigitsBetween(b, p, eb)
  {
    if eb > p {
      forall q | p <= q < eb
        ensures IsDigit(b[q])
      {
        DigitsUpToSuffix(a, b, i, ja, jb, p, |a| - p, q);
      }
    }
  }

  /**
   * Between a prefix that reaches the digit runs and a suffix scan that stopped,
   * both names hold only digits.
   */
  lemma SegmentsAreDigits(a: string, b: string, i: nat, ja: nat, jb: nat, p: nat, ea: nat, eb: nat)
    requires DigitRunVariant(a, b, i, ja, jb)
    requires i <= p <= ea <= |a| && p <= eb <= |b| && |a| - ea == |b| - eb
    requires forall q {:trigger a[q]} :: 0 <= q < p ==> a[q] == b[q]
    requires ea == p || eb == p || a[ea - 1] != b[eb - 1]
    ensures DigitsBetween(a, p, ea) && DigitsBetween(b, p, eb)
  {
    if ja < ea {
      assert a[ea - 1] == b[ea - 1 - ja + jb];
      if ea == p {
        LongerSideDigits(a, b, i, ja, jb, p, eb);
      } else {
        DigitRunVariantSymmetric(a, b, i, ja, jb);
        forall q | 0 <= q < p
          ensures b[q] == a[q]
        {
          assert a[q] == b[q];
        }
        LongerSideDigits(b, a, i, jb, ja, p, ea);
      }
    }
  }

  /** Texts that differ only in a digit run match. */
  lemma VariantMatches(a: string, b: string, i: nat, ja: nat, jb: nat)
    requires DigitRunVariant(a, b, i, ja, jb)
    ensures Matches(a, b)
  {
    var p := PrefixFrom(a, b, 0);
    PrefixFromStops(a, b, 0);
    var e := SuffixFrom(a, b, p, |a|, |b|);
    SuffixFromStops(a, b, p, |a|, |b|);
    assert p >= i;
    SegmentsAreDigits(a, b, i, ja, jb, p, e.0, e.1);
  }

  /** A name matches exactly when it is the other name with one digit run replaced. */
  lemma MatchesIffVariant(a: string, b: string)
    ensures Matches(a, b) <==> exists i: nat, ja: nat, jb: nat :: DigitRunVariant(a, b, i, ja, jb)
  {
    if Matches(a, b) {
      MatchesGivesVariant(a, b);
    }
    if exists i: nat, ja: nat, jb: nat :: DigitRunVariant(a, b, i, ja, jb) {
      var i: nat, ja: nat, jb: nat :| DigitRunVariant(a, b, i, ja, jb);
      VariantMatches(a, b, i, ja, jb);
    }
  }

  /** Every name matches itself. */
  lemma MatchesReflexive(a: string)
    ensures Matches(a, a)
  {
    VariantMatches(a, a, |a|, |a|, |a|);
  }

  /** Matching does not depend on the order of the two names. */
  lemma MatchesSymmetric(a: string, b: string)
    ensures Matches(a, b) <==> Matches(b, a)
  {
    if Matches(a, b) {
      MatchesGivesVariant(a, b);
      var p := PrefixFrom(a, b, 0);
      var e := SuffixFrom(a, b, p, |a|, |b|);
      DigitRunVariantSymmetric(a, b, p, e.0, e.1);
      VariantMatches(b, a, p, e.1, e.0);
    }
    if Matches(b, a) {
      MatchesGivesVariant(b, a);
      var p := PrefixFrom(b, a, 0);
      var e := SuffixFrom(b, a, p, |b|, |a|);
      DigitRunVariantSymmetric(b, a, p, e.0, e.1);
      VariantMatches(a, b, p, e.1, e.0);
    }
  }

  /** A character of a that is not a digit also occurs in every name a matches. */
  lemma NonDigitIsShared(a: string, b: string, k: nat)
    requires Matches(a, b) && k < |a| && !IsDigit(a[k])
    ensures exists q :: 0 <= q < |b| && b[q] == a[k]
  {
    MatchesGivesVariant(a, b);
    var i := PrefixFrom(a, b, 0);
    var e := SuffixFrom(a, b, i, |a|, |b|);
    if k < i {
      assert b[k] == a[k];
    } else {
      assert k >= e.0;
      assert b[k - e.0 + e.1] == a[k];
    }
  }

  /** A numbered name matches another number of a different width. */
  lemma RunNumbersMatch()
    ensures Matches("run1.riff", "run22.riff")
  {
    VariantMatches("run1.riff", "run22.riff", 3, 4, 5);
  }

  /** A letter in place of the number does not match. */
  lemma LetterDoesNotMatch()
    ensures !Matches("run1.riff", "runA.riff")
  {
    var a, b := "run1.riff", "runA.riff";
    PrefixFromStops(a, b, 0);
    assert PrefixFrom(a, b, 0) == 3;
    var e := SuffixFrom(a, b, 3, |a|, |b|);
    SuffixFromStops(a, b, 3, |a|, |b|);
    assert e.0 == e.1 && a[e.0 - 1] != b[e.1 - 1] by {
      assert forall q :: 4 <= q < |a| ==> a[q] == b[q];
    }
    assert !IsDigit(b[3]);
  }

}

/** `load_all_riffs`: the directory to list, and the files accepted with their offsets. */
module Riffs {
  import opened Bytes
  import opened Container
  import opened NameMatch

  /** The position of the last '/' in path, if any (`find_last_of('/')`). */
  function LastSlash(path: string): (r: Option<nat>)
    ensures r.None? ==> forall i :: 0 <= i < |path| ==> path[i] != '/'
    ensures r.Some? ==> r.value < |path| && path[r.value] == '/'
    ensures r.Some? ==> forall i :: r.value < i < |path| ==> path[i] != '/'
  {
    if |path| == 0 then None
    else if path[|path| - 1] == '/' then Some(|path| - 1)
    else LastSlash(path[..|path| - 1])
  }

  /** The directory `load_all_riffs` lists: the text before the last '/', or "." without one. */
  function DirPrefix(path: string): (r: string)
    ensures (forall i :: 0 <= i < |path| ==> path[i] != '/') ==> r == "."
    ensures (exists i :: 0 <= i < |path| && path[i] == '/') ==>
      && |r| < |path| && r == path[..|r|] && path[|r|] == '/'
      && forall i :: |r| < i < |path| ==> path[i] != '/'
  {
    match LastSlash(path)
    case None => "."
    case Some(i) => path[..i]
  }

  /** The path of a listed entry: its name appended to the listed directory with a '/'. */
  function EntryPath(dir: string, name: string): (r: string)
    ensures |r| == |dir| + 1 + |name| && r[|dir|] == '/'
  {
    dir + "/" + name
  }

  /**
   * The entries of the listing of directory dir, in the order listed, whose entry
   * paths match target, as (entry path, contents) pairs. `load_all_riffs` matches
   * against the session path itself.
   */
  function Accepted(listing: seq<(string, seq<byte>)>, dir: string, target: string): seq<(string, seq<byte>)>
  {
    if listing == [] then []
    else
      var last := listing[|listing| - 1];
      var r := Accepted(listing[..|listing| - 1], dir, target);
      var s := EntryPath(dir, last.0);
      if Matches(s, target) then r + [(s, last.1)] else r
  }

  /** Accepting one more entry of the listing. */
  lemma AcceptedStep(listing: seq<(string, seq<byte>)>, n: nat, dir: string, target: string)
    requires n < |listing|
    ensures var s := EntryPath(dir, listing[n].0);
      Accepted(listing[..n + 1], dir, target) ==
      Accepted(listing[..n], dir, target) + if Matches(s, target) then [(s, listing[n].1)] else []
  {
    assert listing[..n + 1][..n] == listing[..n];
  }

  /** Only entries of the listing, and only matching ones, are accepted, in listing order. */
  lemma {:induction false} AcceptedAreMatching(listing: seq<(string, seq<byte>)>, dir: string, target: string)
    ensures |Accepted(listing, dir, target)| <= |listing|
    ensures forall k :: 0 <= k < |Accepted(listing, dir, target)| ==>
      var e := Accepted(listing, dir, target)[k];
      Matches(e.0, target) && exists n :: 0 <= n < |listing| && e == (EntryPath(dir, listing[n].0), listing[n].1)
    decreases |listing|
  {
    if listing != [] {
      var init := listing[..|listing| - 1];
      AcceptedAreMatching(init, dir, target);
      var r := Accepted(init, dir, target);
      forall k | 0 <= k < |r|
        ensures exists n :: 0 <= n < |listing| && r[k] == (EntryPath(dir, listing[n].0), listing[n].1)
      {
        var n :| 0 <= n < |init| && r[k] == (EntryPath(dir, init[n].0), init[n].1);
        assert init[n] == listing[n];
      }
      var s := EntryPath(dir, listing[|listing| - 1].0);
      if Matches(s, target) {
        var r' := Accepted(listing, dir, target);
        assert r'[|r|] == (s, listing[|listing| - 1].1);
      }
    }
  }

  /** Every entry path holds a '/', so a target without one accepts nothing. */
  lemma {:induction false} AcceptedNeedsSlash(listing: seq<(string, seq<byte>)>, dir: string, target: string)
    requires forall i :: 0 <= i < |target| ==> target[i] != '/'
    ensures Accepted(listing, dir, target) == []
    decreases |listing|
  {
    if listing != [] {
      AcceptedNeedsSlash(listing[..|listing| - 1], dir, target);
      var s := EntryPath(dir, listing[|listing| - 1].0);
      if Matches(s, target) {
        NonDigitIsShared(s, target, |dir|);
      }
    }
  }

  /** The entry named name is accepted when the target is its own entry path. */
  lemma {:induction false} AcceptedHasOwnEntry(listing: seq<(string, seq<byte>)>, dir: string, n: nat)
    requires n < |listing|
    ensures (EntryPath(dir, listing[n].0), listing[n].1) in Accepted(listing, dir, EntryPath(dir, listing[n].0))
    decreases |listing|
  {
    var target := EntryPath(dir, listing[n].0);
    var last := |listing| - 1;
    AcceptedStep(listing, last, dir, target);
    assert listing[..last + 1] == listing;
    if n < last {
      AcceptedHasOwnEntry(listing[..last], dir, n);
      assert listing[..last][n] == listing[n];
    } else {
      MatchesReflexive(target);
    }
  }

  /**
   * A session path without a '/' loads no file: its directory is ".", every entry
   * path is "./" and a name, and the '/' is not a digit the path could match.
   */
  lemma BarePathLoadsNothing(listing: seq<(string, seq<byte>)>, path: string)
    requires forall i :: 0 <= i < |path| ==> path[i] != '/'
    ensures Accepted(listing, DirPrefix(path), path) == []
  {
    AcceptedNeedsSlash(listing, DirPrefix(path), path);
  }

  /** The session a user opens as "run1.riff", with that file in the current directory, has no file. */
  lemma BareRunLoadsNothing(contents: seq<byte>)
    ensures Accepted([("run1.riff", contents)], DirPrefix("run1.riff"), "run1.riff") == []
  {
    BarePathLoadsNothing([("run1.riff", contents)], "run1.riff");
  }

  /** The file name part of path: the text after its last '/', or all of it. */
  function BaseName(path: string): (r: string)
    ensures |r| <= |path| && r == path[|path| - |r|..]
    ensures forall i :: 0 <= i < |r| ==> r[i] != '/'
  {
    match LastSlash(path)
    case None => path
    case Some(i) => path[i + 1..]
  }

  /**
   * The path that names path's own file in the listing of its directory, the target
   * evidently intended: path itself when it has a '/', else "./" and path.
   */
  function ListedPath(path: string): (r: string)
    ensures (exists i :: 0 <= i < |path| && path[i] == '/') ==> r == path
    ensures (forall i :: 0 <= i < |path| ==> path[i] != '/') ==> r == "./" + path
  {
    EntryPath(DirPrefix(path), BaseName(path))
  }

  /** Matched against ListedPath, the listed file that the session path names is always loaded. */
  lemma AcceptedIntendedHasOwnFile(listing: seq<(string, seq<byte>)>, path: string, n: nat)
    requires n < |listing| && listing[n].0 == BaseName(path)
    ensures (ListedPath(path), listing[n].1) in Accepted(listing, DirPrefix(path), ListedPath(path))
  {
    AcceptedHasOwnEntry(listing, DirPrefix(path), n);
  }

  /** Matched against ListedPath, "run1.riff" in the current directory is loaded as "./run1.riff". */
  lemma BareRunLoadsOwnFile(contents: seq<byte>)
    ensures ("./run1.riff", contents) in Accepted([("run1.riff", contents)], DirPrefix("run1.riff"), ListedPath("run1.riff"))
  {
    var path := "run1.riff";
    assert forall i :: 0 <= i < |path| ==> path[i] != '/';
    assert BaseName(path) == path;
    assert ListedPath(path) == "./run1.riff";
    AcceptedIntendedHasOwnFile([(path, contents)], path, 0);
  }

  /** The sum of the addressable sizes of files. */
  function TotalSize(files: seq<RiffFile>): nat
  {
    if files == [] then 0 else TotalSize(files[..|files| - 1]) + files[|files| - 1].size
  }

  /** files are the accepted entries, opened in order, each at the sum of the sizes before it. */
  predicate Loaded(files: seq<RiffFile>, accepted: seq<(string, seq<byte>)>)
  {
    && |files| == |accepted|
    && forall k :: 0 <= k < |files| ==>
      && (files[k].path, files[k].contents) == accepted[k]
      && files[k].offset == TotalSize(files[..k])
  }

  /** Opening one more accepted entry at the total size so far. */
  lemma LoadedExtends(files: seq<RiffFile>, accepted: seq<(string, seq<byte>)>, f: RiffFile)
    requires Loaded(files, accepted) && f.offset == TotalSize(files)
    ensures Loaded(files + [f], accepted + [(f.path, f.contents)])
  {
    var files' := files + [f];
    assert files'[..|files|] == files;
    assert forall k :: 0 <= k <= |files| ==> files'[..k] == files[..k];
  }

  /**
   * The matching and offset loop of `load_all_riffs`, over the listing of the prefix
   * directory: every entry whose path matches path is opened under that path, in
   * listing order, at the sum of the sizes of the files opened before it.
   */
  method LoadAllRiffs(path: string, listing: seq<(string, seq<byte>)>) returns (files: seq<RiffFile>)
    ensures |files| == |Accepted(listing, DirPrefix(path), path)|
    ensures forall k :: 0 <= k < |files| ==>
      && (files[k].path, files[k].contents) == Accepted(listing, DirPrefix(path), path)[k]
      && files[k].offset == TotalSize(files[..k])
  {
    var dir := DirPrefix(path);
    files := [];
    var offset := 0;
    var n := 0;
    while n < |listing|
      invariant n <= |listing|
      invariant offset == TotalSize(files)
      invariant Loaded(files, Accepted(listing[..n], dir, path))
    {
      AcceptedStep(listing, n, dir, path);
      var name := EntryPath(dir, listing[n].0);
      var m := MatchesExceptForDigits(name, path);
      if m {
        var f := new RiffFile(name, listing[n].1, offset);
        LoadedExtends(files, Accepted(listing[..n], dir, path), f);
        files := files + [f];
        offset := offset + f.size;
      }
      n := n + 1;
    }
    assert listing[..n] == listing;
  }
}
