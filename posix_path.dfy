/**
 * The POSIX path functions the prefix derivation uses: os.path.basename and
 * os.path.splitext with '/' as the only separator and '.' as the extension separator.
 */
module PosixPath {

  const SEP := '/'
  const EXT_SEP := '.'

  /** Python's str.rfind for one character: the last index holding c, or -1. */
  function RFind(s: string, c: char): (r: int)
    ensures -1 <= r < |s|
    ensures r >= 0 ==> s[r] == c
    ensures forall j :: r < j < |s| ==> s[j] != c
  {
    LastBefore(s, c, |s|)
  }

  /** The last index below n holding c, or -1. */
  function LastBefore(s: string, c: char, n: nat): (r: int)
    requires n <= |s|
    ensures -1 <= r < n
    ensures r >= 0 ==> s[r] == c
    ensures forall j :: r < j < n ==> s[j] != c
  {
    if n == 0 then -1
    else if s[n - 1] == c then n - 1
    else LastBefore(s, c, n - 1)
  }

  /** The text after the last '/' of p (all of p when it has none). */
  function Basename(p: string): string {
    p[RFind(p, SEP) + 1..]
  }

  /** The basename is the longest suffix of p without a '/'. */
  lemma BasenameIsFinalComponent(p: string)
    ensures var r := Basename(p);
      && (forall j :: 0 <= j < |r| ==> r[j] != SEP)
      && |r| <= |p| && p[|p| - |r|..] == r
      && (|r| == |p| || p[|p| - |r| - 1] == SEP)
  {
  }

  predicate AllDots(s: string) {
    forall j :: 0 <= j < |s| ==> s[j] == EXT_SEP
  }

  /**
   * Where the extension of p starts: at the last '.' of its final component,
   * unless everything before that dot in the component is dots (".bashrc",
   * ".."); at |p| when there is no extension.
   */
  function ExtensionStart(p: string): (e: nat)
    ensures e <= |p|
    ensures e < |p| ==> p[e] == EXT_SEP && RFind(p, SEP) < e
    ensures forall j :: e < j < |p| ==> p[j] != EXT_SEP
  {
    var sepIndex := RFind(p, SEP);
    var dotIndex := RFind(p, EXT_SEP);
    if dotIndex > sepIndex && !AllDots(p[sepIndex + 1..dotIndex]) then dotIndex else |p|
  }

  /** os.path.splitext: (root, ext), split where the extension starts. */
  function Splitext(p: string): (string, string) {
    var e := ExtensionStart(p);
    (p[..e], p[e..])
  }

  /**
   * Root and extension put back together give p; the extension is empty or
   * a '.' followed by characters that are neither '.' nor '/'.
   */
  lemma SplitextJoin(p: string)
    ensures var r := Splitext(p);
      && r.0 + r.1 == p
      && (r.1 == [] || r.1[0] == EXT_SEP)
      && forall j :: 1 <= j < |r.1| ==> r.1[j] != EXT_SEP && r.1[j] != SEP
  {
    var e := ExtensionStart(p);
    var ext := p[e..];
    assert p[..e] + ext == p;
    forall j | 1 <= j < |ext|
      ensures ext[j] != EXT_SEP && ext[j] != SEP
    {
      assert ext[j] == p[e + j];
    }
  }

  /** The basename of dir + "/" + name, for a name without '/', is that name. */
  lemma BasenameOfJoin(dir: string, name: string)
    requires forall j :: 0 <= j < |name| ==> name[j] != SEP
    ensures Basename(dir + "/" + name) == name
  {
    var p := dir + "/" + name;
    assert forall j :: |dir| < j < |p| ==> p[j] == name[j - |dir| - 1];
    LastOccurrence(p, SEP, |dir|);
    assert p[|dir| + 1..] == name;
  }

  /**
   * A stem that does not start with '.', followed by a '.' and characters that
   * are neither '.' nor '/', splits into exactly that stem and extension.
   */
  lemma SplitextOfJoin(stem: string, ext: string)
    requires |stem| > 0 && stem[0] != EXT_SEP
    requires forall j :: 0 <= j < |stem| ==> stem[j] != SEP
    requires |ext| > 0 && ext[0] == EXT_SEP
    requires forall j :: 1 <= j < |ext| ==> ext[j] != EXT_SEP && ext[j] != SEP
    ensures Splitext(stem + ext) == (stem, ext)
  {
    ExtensionStartOfJoin(stem, ext);
    var p := stem + ext;
    assert p[..|stem|] == stem && p[|stem|..] == ext;
  }

  /** The extension of such a stem + ext starts right after the stem. */
  lemma ExtensionStartOfJoin(stem: string, ext: string)
    requires |stem| > 0 && stem[0] != EXT_SEP
    requires forall j :: 0 <= j < |stem| ==> stem[j] != SEP
    requires |ext| > 0 && ext[0] == EXT_SEP
    requires forall j :: 1 <= j < |ext| ==> ext[j] != EXT_SEP && ext[j] != SEP
    ensures ExtensionStart(stem + ext) == |stem|
  {
    var p := stem + ext;
    assert RFind(p, SEP) == -1 by {
      forall j | 0 <= j < |p|
        ensures p[j] != SEP
      {
        if j >= |stem| {
          assert p[j] == ext[j - |stem|];
        }
      }
      NoOccurrence(p, SEP);
    }
    assert RFind(p, EXT_SEP) == |stem| by {
      forall j | |stem| < j < |p|
        ensures p[j] != EXT_SEP
      {
        assert p[j] == ext[j - |stem|];
      }
      LastOccurrence(p, EXT_SEP, |stem|);
    }
    ExtensionStartAt(p, |stem|);
  }

  /**
   * In a path without '/' whose first character is not a '.', the extension
   * starts at the last '.' when that '.' is not the first character.
   */
  lemma ExtensionStartAt(p: string, k: nat)
    requires 0 < k < |p| && p[0] != EXT_SEP
    requires RFind(p, SEP) == -1
    requires RFind(p, EXT_SEP) == k
    ensures ExtensionStart(p) == k
  {
    assert p[0..k][0] == p[0];
  }

  /** The component holds a '.' somewhere after a character that is not a '.'. */
  predicate HasInnerDot(b: string) {
    exists i, j :: 0 <= i < j < |b| && b[i] != EXT_SEP && b[j] == EXT_SEP
  }

  /** An extension is split off exactly when the final component has an inner dot. */
  lemma SplitextHasExtension(p: string)
    ensures Splitext(p).1 != [] <==> HasInnerDot(Basename(p))
  {
    if Splitext(p).1 != [] {
      ExtensionHasInnerDot(p);
    }
    if HasInnerDot(Basename(p)) {
      InnerDotHasExtension(p);
    }
  }

  lemma ExtensionHasInnerDot(p: string)
    requires Splitext(p).1 != []
    ensures HasInnerDot(Basename(p))
  {
    var b := Basename(p);
    var s := RFind(p, SEP);
    var d := RFind(p, EXT_SEP);
    assert b == p[s + 1..];
    assert ExtensionStart(p) < |p|;
    assert d > s && !AllDots(p[s + 1..d]);
    var k :| 0 <= k < d - (s + 1) && p[s + 1..d][k] != EXT_SEP;
    assert b[k] != EXT_SEP && b[d - s - 1] == EXT_SEP;
  }

  lemma InnerDotHasExtension(p: string)
    requires HasInnerDot(Basename(p))
    ensures Splitext(p).1 != []
  {
    var b := Basename(p);
    var i, j :| 0 <= i < j < |b| && b[i] != EXT_SEP && b[j] == EXT_SEP;
    InnerDotAt(p, i, j);
  }

  /** A non-dot at i and a dot at j > i in the final component: an extension is split off. */
  lemma InnerDotAt(p: string, i: nat, j: nat)
    requires var b := Basename(p); i < j < |b| && b[i] != EXT_SEP && b[j] == EXT_SEP
    ensures Splitext(p).1 != []
  {
    var s := RFind(p, SEP);
    var d := RFind(p, EXT_SEP);
    assert p[s + 1 + i] != EXT_SEP && p[s + 1 + j] == EXT_SEP by {
      assert Basename(p) == p[s + 1..];
    }
    RFindAtLeast(p, EXT_SEP, s + 1 + j);
    assert !AllDots(p[s + 1..d]) by {
      assert p[s + 1..d][i] == p[s + 1 + i];
    }
    assert ExtensionStart(p) == d;
  }

  /** c occurs at k and nowhere after it: k is its last occurrence. */
  lemma LastOccurrence(s: string, c: char, k: nat)
    requires k < |s| && s[k] == c
    requires forall j :: k < j < |s| ==> s[j] != c
    ensures RFind(s, c) == k
  {
    RFindAtLeast(s, c, k);
  }

  /** c does not occur in s at all. */
  lemma NoOccurrence(s: string, c: char)
    requires forall j :: 0 <= j < |s| ==> s[j] != c
    ensures RFind(s, c) == -1
  {
  }

  /** c occurs at k, so its last occurrence is at k or later. */
  lemma RFindAtLeast(s: string, c: char, k: nat)
    requires k < |s| && s[k] == c
    ensures RFind(s, c) >= k
  {
  }
}
