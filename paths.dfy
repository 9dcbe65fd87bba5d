/** The parts of Python's `os.path` (POSIX flavour, separator `/`) that the renamer relies on. */
module Paths {
  import opened Text

  /** Some character strictly between positions `lo` and `hi` of `p` is not a dot. */
  predicate HasNonDot(p: string, lo: int, hi: int) {
    exists k :: lo <= k < hi && 0 <= k < |p| && p[k] != '.'
  }

  /**
   * `os.path.splitext`: the extension is everything from the last dot, provided that dot lies in
   * the last path component and is not one of the dots that the component starts with.
   */
  function SplitExt(p: string): (r: (string, string))
    ensures r.0 + r.1 == p
    ensures r.1 != [] ==> r.1[0] == '.' && '.' !in r.1[1..] && '/' !in r.1
    ensures r.1 != [] ==> HasNonDot(p, LastIndexOf(p, '/') + 1, |r.0|)
    ensures r.1 == [] ==> forall k :: LastIndexOf(p, '/') < k < |p| && p[k] == '.' ==>
                            !HasNonDot(p, LastIndexOf(p, '/') + 1, k)
  {
    var sep := LastIndexOf(p, '/');
    var dot := LastIndexOf(p, '.');
    if dot > sep && HasNonDot(p, sep + 1, dot) then
      assert forall k :: 0 <= k < |p[dot..]| ==> p[dot..][k] == p[dot + k];
      (p[..dot], p[dot..])
    else
      assert forall k :: sep < k < |p| && p[k] == '.' ==> !HasNonDot(p, sep + 1, k) by {
        forall k | sep < k < |p| && p[k] == '.' ensures !HasNonDot(p, sep + 1, k) {
          assert sep < k <= dot;
          assert !HasNonDot(p, sep + 1, dot);
        }
      }
      (p, "")
  }

  function Ext(p: string): (r: string)
    ensures Contains(p, r)
  {
    var r := SplitExt(p).1;
    assert OccursAt(p, r, |p| - |r|) by { assert SplitExt(p).0 + r == p; }
    r
  }

  /** `os.path.basename`: the text after the last separator. */
  function Basename(p: string): (r: string)
    ensures '/' !in r
    ensures |r| <= |p| && p[|p| - |r|..] == r
    ensures |r| < |p| ==> p[|p| - |r| - 1] == '/'
  {
    p[LastIndexOf(p, '/') + 1..]
  }

  /** The text without its trailing separators (`rstrip('/')`). */
  function StripTrailingSeparators(s: string): (r: string)
    ensures |r| <= |s| && r == s[..|r|]
    ensures |r| > 0 ==> r[|r| - 1] != '/'
    ensures forall k :: |r| <= k < |s| ==> s[k] == '/'
  {
    if |s| > 0 && s[|s| - 1] == '/' then StripTrailingSeparators(s[..|s| - 1]) else s
  }

  /**
   * `os.path.dirname`: the text up to the last separator, without trailing separators unless it
   * consists of separators only.
   */
  function Dirname(p: string): (r: string)
    ensures |r| <= |p| && r == p[..|r|]
    ensures '/' !in p ==> r == []
    ensures |r| > 0 && r[|r| - 1] == '/' ==> forall k :: 0 <= k < |r| ==> r[k] == '/'
    ensures |r| <= LastIndexOf(p, '/') + 1
    ensures '/' in p ==> |r| > 0
    ensures forall k :: |r| <= k <= LastIndexOf(p, '/') ==> p[k] == '/'
    ensures (forall k :: 0 <= k <= LastIndexOf(p, '/') ==> p[k] == '/') ==> r == p[..LastIndexOf(p, '/') + 1]
  {
    var head := p[..LastIndexOf(p, '/') + 1];
    if head != [] && exists k :: 0 <= k < |head| && head[k] != '/' then StripTrailingSeparators(head) else head
  }

  /** `os.path.join(a, b)` for two components. */
  function Join(a: string, b: string): (r: string)
    ensures |b| > 0 && b[0] == '/' ==> r == b
    ensures !(|b| > 0 && b[0] == '/') ==> exists pre :: r == pre + b && (pre == [] || pre[|pre| - 1] == '/')
    ensures !(|b| > 0 && b[0] == '/') ==> r == a + (if a == [] || a[|a| - 1] == '/' then "" else "/") + b
  {
    if |b| > 0 && b[0] == '/' then b
    else if a == [] || a[|a| - 1] == '/' then a + b
    else
      assert (a + "/") + b == a + "/" + b;
      a + "/" + b
  }

  /** Looking for a non-dot in `b` or in the same range shifted behind a prefix is the same. */
  lemma HasNonDotShift(pre: string, b: string, lo: int, hi: int)
    requires 0 <= lo <= hi <= |b|
    ensures HasNonDot(pre + b, |pre| + lo, |pre| + hi) <==> HasNonDot(b, lo, hi)
  {
    var q := pre + b;
    if HasNonDot(q, |pre| + lo, |pre| + hi) {
      var k :| |pre| + lo <= k < |pre| + hi && 0 <= k < |q| && q[k] != '.';
      assert b[k - |pre|] == q[k];
    }
    if HasNonDot(b, lo, hi) {
      var k :| lo <= k < hi && 0 <= k < |b| && b[k] != '.';
      assert q[|pre| + k] == b[k];
    }
  }

  /** Prefixing a directory that ends in a separator does not change a file name's extension. */
  lemma ExtUnderDirectory(pre: string, b: string)
    requires pre == [] || pre[|pre| - 1] == '/'
    requires '/' !in b
    ensures Ext(pre + b) == Ext(b)
  {
    var q := pre + b;
    LastIndexOfAppendWithout(pre, b, '/');
    assert LastIndexOf(q, '/') == |pre| - 1;
    assert LastIndexOf(b, '/') == -1 by { LastIndexOfAppendWithout([], b, '/'); assert [] + b == b; }
    if '.' in b {
      LastIndexOfAppendWith(pre, b, '.');
      var db := LastIndexOf(b, '.');
      HasNonDotShift(pre, b, 0, db);
      assert q[|pre| + db..] == b[db..];
    } else {
      LastIndexOfAppendWithout(pre, b, '.');
    }
  }
}
