/**
 * The three functions of Python's `posixpath` module (`os.path` on POSIX)
 * that the script calls: `split`, `splitext` and `join` with two components.
 * Paths are strings; the separator is '/' and the extension separator '.'.
 *
 * The functions carry only the bounds their bodies need; what they mean is
 * stated by the lemmas after them, so that callers that only pass their
 * results along do not pay for those facts.
 */
module PosixPath {

  /** The index of the last `c` among the first n characters of `s`, or -1. */
  function LastBefore(s: string, c: char, n: nat): (r: int)
    requires n <= |s|
    ensures -1 <= r < n
    decreases n
  {
    if n == 0 then -1 else if s[n - 1] == c then n - 1 else LastBefore(s, c, n - 1)
  }

  /** Python's `s.rfind(c)`: the index of the last `c` in `s`, or -1. */
  function RFind(s: string, c: char): (r: int)
    ensures -1 <= r < |s|
  {
    LastBefore(s, c, |s|)
  }

  lemma {:induction false} LastBeforeIsLast(s: string, c: char, n: nat)
    requires n <= |s|
    ensures var r := LastBefore(s, c, n);
      && (r >= 0 ==> s[r] == c)
      && (forall k :: r < k < n ==> s[k] != c)
    decreases n
  {
    if n > 0 && s[n - 1] != c {
      LastBeforeIsLast(s, c, n - 1);
    }
  }

  lemma RFindIsLast(s: string, c: char)
    ensures var r := RFind(s, c);
      && (r >= 0 ==> s[r] == c)
      && (forall k :: r < k < |s| ==> s[k] != c)
  {
    LastBeforeIsLast(s, c, |s|);
  }

  predicate AllSlashes(s: string) {
    forall i :: 0 <= i < |s| ==> s[i] == '/'
  }

  /** Whether the first n characters of `s` are all '/': the test
      `head == '/' * len(head)` of `split`. */
  function SlashesOnly(s: string, n: nat): bool
    requires n <= |s|
    decreases n
  {
    n == 0 || (s[n - 1] == '/' && SlashesOnly(s, n - 1))
  }

  lemma {:induction false} SlashesOnlyIsAllSlashes(s: string, n: nat)
    requires n <= |s|
    ensures SlashesOnly(s, n) <==> forall i :: 0 <= i < n ==> s[i] == '/'
    decreases n
  {
    if n > 0 {
      SlashesOnlyIsAllSlashes(s, n - 1);
    }
  }

  /** Whether some character of `s` from index i up to j is not '.': the
      loop of `splitext` that skips the leading dots of the last component. */
  function NonDotFrom(s: string, i: nat, j: nat): bool
    requires i <= j <= |s|
    decreases j - i
  {
    i < j && (s[i] != '.' || NonDotFrom(s, i + 1, j))
  }

  lemma {:induction false} NonDotFromFinds(s: string, i: nat, j: nat)
    requires i <= j <= |s|
    ensures NonDotFrom(s, i, j) <==> exists x :: i <= x < j && s[x] != '.'
    decreases j - i
  {
    if i < j {
      NonDotFromFinds(s, i + 1, j);
    }
  }

  /** What `splitext` can return as an extension: empty, or a '.' followed
      by characters that are neither '.' nor '/'. */
  predicate IsExtension(e: string) {
    e == [] || (e[0] == '.' && forall k :: 1 <= k < |e| ==> e[k] != '.' && e[k] != '/')
  }

  /** The length of the first n characters of `s` once trailing '/' are
      removed from them. */
  function StrippedLength(s: string, n: nat): (k: nat)
    requires n <= |s|
    ensures k <= n
    decreases n
  {
    if n > 0 && s[n - 1] == '/' then StrippedLength(s, n - 1) else n
  }

  /** Python's `s.rstrip('/')`. */
  function RStripSlashes(s: string): (r: string)
    ensures |r| <= |s|
  {
    s[..StrippedLength(s, |s|)]
  }

  lemma {:induction false} StrippedLengthStrips(s: string, n: nat)
    requires n <= |s|
    ensures var k := StrippedLength(s, n);
      && (forall i :: k <= i < n ==> s[i] == '/')
      && (k == 0 || s[k - 1] != '/')
    decreases n
  {
    if n > 0 && s[n - 1] == '/' {
      StrippedLengthStrips(s, n - 1);
    }
  }

  lemma RStripSlashesRemovesTrailing(s: string)
    ensures var r := RStripSlashes(s);
      && r == s[..|r|]
      && AllSlashes(s[|r|..])
      && (r == [] || r[|r| - 1] != '/')
  {
    StrippedLengthStrips(s, |s|);
    var k := StrippedLength(s, |s|);
    assert forall i :: 0 <= i < |s| - k ==> s[k..][i] == s[i + k];
  }

  /** The last component of `p`: everything after its last '/'. */
  function Base(p: string): string {
    p[RFind(p, '/') + 1..]
  }

  lemma BaseIsLastComponent(p: string)
    ensures var b := Base(p);
      && '/' !in b
      && |b| <= |p| && b == p[|p| - |b|..]
      && (|b| == |p| || p[|p| - |b| - 1] == '/')
  {
    RFindIsLast(p, '/');
  }

  /** `posixpath.split(p)`: the pair (head, tail) where tail is everything
      after the last '/' and head is everything before it, with trailing
      slashes removed unless head consists of slashes only. */
  function Split(p: string): (string, string) {
    var i := RFind(p, '/') + 1;
    var head, tail := p[..i], p[i..];
    if head != [] && !SlashesOnly(head, |head|) then (RStripSlashes(head), tail) else (head, tail)
  }

  /** The tail of `split(p)` is the last component; `p` is the head, then
      only slashes, then the tail; the head ends with '/' only when it is
      all slashes. */
  lemma SplitParts(p: string)
    ensures var (head, tail) := Split(p);
      && tail == Base(p)
      && |head| + |tail| <= |p| && head == p[..|head|]
      && AllSlashes(p[|head|..|p| - |tail|])
      && (head == [] || AllSlashes(head) || head[|head| - 1] != '/')
      && (head != [] && !AllSlashes(head) ==> |head| + |tail| < |p|)
      && (head == [] ==> tail == p)
  {
    var i := RFind(p, '/') + 1;
    var head, tail := p[..i], p[i..];
    RFindIsLast(p, '/');
    SlashesOnlyIsAllSlashes(head, |head|);
    if head != [] && !AllSlashes(head) {
      var stripped := RStripSlashes(head);
      RStripSlashesRemovesTrailing(head);
      assert p[|stripped|..|p| - |tail|] == head[|stripped|..];
    }
  }

  /** `posixpath.splitext(p)`: the pair (root, ext) where ext runs from the
      last '.' of the last component to the end, provided some character
      other than '.' comes before that dot within the component; otherwise
      ext is empty. */
  function SplitExt(p: string): (string, string) {
    var sepIndex := RFind(p, '/');
    var dotIndex := RFind(p, '.');
    if dotIndex > sepIndex && NonDotFrom(p, sepIndex + 1, dotIndex) then
      (p[..dotIndex], p[dotIndex..])
    else
      (p, [])
  }

  /** `splitext` splits `p` without losing anything, and the second part is
      an extension. */
  lemma SplitExtRoundTrip(p: string)
    ensures SplitExt(p).0 + SplitExt(p).1 == p
    ensures IsExtension(SplitExt(p).1)
  {
    var sepIndex := RFind(p, '/');
    var dotIndex := RFind(p, '.');
    RFindIsLast(p, '/');
    RFindIsLast(p, '.');
    if dotIndex > sepIndex && NonDotFrom(p, sepIndex + 1, dotIndex) {
      var ext := p[dotIndex..];
      assert p[..dotIndex] + ext == p;
      assert forall k :: 1 <= k < |ext| ==> ext[k] == p[dotIndex + k];
    }
  }

  /** A '.' in the last component with some other character before it. */
  predicate HasInnerDot(b: string) {
    exists x, y :: 0 <= x < y < |b| && b[x] != '.' && b[y] == '.'
  }

  /** The extension `splitext` finds is a suffix of the last component, and it
      is non-empty exactly when that component has a '.' with some other
      character than '.' before it. */
  lemma SplitExtOfBase(p: string)
    ensures var ext := SplitExt(p).1;
      |ext| <= |Base(p)| && ext == Base(p)[|Base(p)| - |ext|..]
    ensures SplitExt(p).1 != [] <==> HasInnerDot(Base(p))
  {
    var base, ext := Base(p), SplitExt(p).1;
    var sepIndex, dotIndex := RFind(p, '/'), RFind(p, '.');
    var off := sepIndex + 1;
    assert base == p[off..];
    if ext != [] {
      assert ext == p[dotIndex..];
    }
    ExtensionNeedsInnerDot(p);
    InnerDotGivesExtension(p);
  }

  lemma ExtensionNeedsInnerDot(p: string)
    ensures SplitExt(p).1 != [] ==> HasInnerDot(Base(p))
  {
    var base, ext := Base(p), SplitExt(p).1;
    var sepIndex, dotIndex := RFind(p, '/'), RFind(p, '.');
    RFindIsLast(p, '.');
    var off := sepIndex + 1;
    assert base == p[off..];
    if ext != [] {
      assert dotIndex > sepIndex && NonDotFrom(p, off, dotIndex);
      NonDotFromFinds(p, off, dotIndex);
      var y :| off <= y < dotIndex && p[y] != '.';
      var x := y - off;
      assert base[x] == p[y];
      assert base[dotIndex - off] == p[dotIndex];
    }
  }

  lemma InnerDotGivesExtension(p: string)
    ensures HasInnerDot(Base(p)) ==> SplitExt(p).1 != []
  {
    var base := Base(p);
    var sepIndex, dotIndex := RFind(p, '/'), RFind(p, '.');
    RFindIsLast(p, '.');
    var off := sepIndex + 1;
    assert base == p[off..];
    if HasInnerDot(base) {
      var x, y :| 0 <= x < y < |base| && base[x] != '.' && base[y] == '.';
      assert p[y + off] == '.';
      assert y + off <= dotIndex;
      assert p[x + off] == base[x];
      NonDotFromFinds(p, off, dotIndex);
    }
  }

  /** `posixpath.join(a, b)`: `b` alone when it is absolute, otherwise `b`
      appended to `a` with a '/' between them unless `a` is empty or already
      ends with one. */
  function Join(a: string, b: string): string {
    if b != [] && b[0] == '/' then b
    else if a == [] || a[|a| - 1] == '/' then a + b
    else a + "/" + b
  }

  /** `join(a, b)` ends with `b`; what comes before it is empty or ends with
      '/', and is `a` or `a + "/"` when `b` is relative. */
  lemma JoinShape(a: string, b: string)
    ensures var r := Join(a, b);
      && |b| <= |r| && r[|r| - |b|..] == b
      && (b != [] && b[0] == '/' ==> r == b)
      && (b == [] || b[0] != '/' ==> r[..|r| - |b|] == a || r[..|r| - |b|] == a + "/")
      && (var d := r[..|r| - |b|]; d == [] || d[|d| - 1] == '/')
  {
  }

  /** `join(a, b)` is `b` after a prefix that is empty or ends with '/'. */
  lemma JoinParts(a: string, b: string) returns (pre: string)
    ensures Join(a, b) == pre + b
    ensures pre == [] || pre[|pre| - 1] == '/'
  {
    var r := Join(a, b);
    JoinShape(a, b);
    pre := r[..|r| - |b|];
    assert r == pre + r[|r| - |b|..];
  }

  /** Joining the head of `split(p)` with a relative name `b` keeps the
      directory of `p`: what comes before `b` is a prefix `d` of `p` that is
      empty or ends in '/', and `p` is `d`, then only slashes, then the last
      component of `p`. */
  lemma JoinHeadKeepsDirectory(p: string, b: string)
    requires b == [] || b[0] != '/'
    ensures var r := Join(Split(p).0, b); var d := r[..|r| - |b|];
      && |d| + |Base(p)| <= |p|
      && d == p[..|d|]
      && AllSlashes(p[|d|..|p| - |Base(p)|])
      && (d == [] || d[|d| - 1] == '/')
  {
    var head, tail := Split(p).0, Split(p).1;
    SplitParts(p);
    JoinShape(head, b);
    var r := Join(head, b);
    var d := r[..|r| - |b|];
    if head != [] && !AllSlashes(head) {
      assert d == head + "/";
      assert p[|head|..|p| - |tail|][0] == p[|head|];
    } else if head != [] {
      assert d == head;
    }
  }
}
