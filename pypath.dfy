/** The Python string and POSIX path operations the pipeline names its files
    with: `str.replace`, `str.rfind`, `os.path.basename`, `os.path.splitext`
    and `os.path.join`, as CPython's `posixpath` defines them. */
module PyPath {

  /** `pat` occurs in `s` starting at index `i`. */
  predicate OccursAt(s: string, pat: string, i: int)
  {
    0 <= i && i + |pat| <= |s| && s[i..i + |pat|] == pat
  }

  /** `pat in s`, Python's substring test. */
  predicate Contains(s: string, pat: string)
  {
    exists i | 0 <= i <= |s| :: OccursAt(s, pat, i)
  }

  /** `s.replace(pat, rep)` for a non-empty `pat`: scanning left to right, every
      non-overlapping occurrence of `pat` is replaced by `rep`. */
  function Replace(s: string, pat: string, rep: string): string
    requires |pat| > 0
    decreases |s|
  {
    if |s| < |pat| then s
    else if s[..|pat|] == pat then rep + Replace(s[|pat|..], pat, rep)
    else [s[0]] + Replace(s[1..], pat, rep)
  }

  /** A string in which `pat` does not occur is left as it is. */
  lemma {:induction false} ReplaceAbsent(s: string, pat: string, rep: string)
    requires |pat| > 0 && !Contains(s, pat)
    ensures Replace(s, pat, rep) == s
    decreases |s|
  {
    if |s| >= |pat| {
      assert !OccursAt(s, pat, 0);
      forall i | 0 <= i <= |s[1..]| && OccursAt(s[1..], pat, i)
        ensures false
      {
        assert s[1..][i..i + |pat|] == s[i + 1..i + 1 + |pat|];
        assert OccursAt(s, pat, i + 1);
      }
      ReplaceAbsent(s[1..], pat, rep);
    }
  }

  /** When `pat` occurs at the start of `s`, the first thing replaced is it. */
  lemma ReplaceLeading(s: string, pat: string, rep: string)
    requires |pat| > 0 && OccursAt(s, pat, 0)
    ensures Replace(s, pat, rep) == rep + Replace(s[|pat|..], pat, rep)
  {
  }

  /** No occurrence of `pat` in `a + b` begins inside `a` and ends inside `b`. */
  predicate NoStraddle(a: string, b: string, pat: string)
  {
    forall i :: 0 <= i < |a| < i + |pat| ==> !OccursAt(a + b, pat, i)
  }

  /** If the first character of `b` is not among `pat`'s later characters,
      no occurrence of `pat` can straddle the seam of `a + b`. */
  lemma NoStraddleAtSeam(a: string, b: string, pat: string)
    requires |pat| > 0 && |b| > 0 && b[0] !in pat[1..]
    ensures NoStraddle(a, b, pat)
  {
    forall i | 0 <= i < |a| < i + |pat|
      ensures !OccursAt(a + b, pat, i)
    {
      var k := |a| - i;
      assert pat[1..][k - 1] == pat[k];
      if i + |pat| <= |a + b| {
        assert (a + b)[i..i + |pat|][k] == (a + b)[|a|] == b[0];
      }
    }
  }

  /** Dropping a prefix of `a` keeps the seam free of straddling occurrences. */
  lemma NoStraddleSuffix(a: string, b: string, pat: string, k: nat)
    requires k <= |a| && NoStraddle(a, b, pat)
    ensures NoStraddle(a[k..], b, pat)
  {
    forall i | 0 <= i < |a[k..]| < i + |pat|
      ensures !OccursAt(a[k..] + b, pat, i)
    {
      assert a[k..] + b == (a + b)[k..];
      if OccursAt(a[k..] + b, pat, i) {
        assert (a + b)[k..][i..i + |pat|] == (a + b)[i + k..i + k + |pat|];
        assert OccursAt(a + b, pat, i + k);
      }
    }
  }

  /** Replacing distributes over a concatenation whose seam no occurrence
      crosses. */
  lemma {:induction false} ReplaceConcat(a: string, b: string, pat: string, rep: string)
    requires |pat| > 0 && NoStraddle(a, b, pat)
    ensures Replace(a + b, pat, rep) == Replace(a, pat, rep) + Replace(b, pat, rep)
    decreases |a|
  {
    if a == [] {
      assert a + b == b;
    } else if |a| < |pat| {
      if |a + b| >= |pat| {
        assert !OccursAt(a + b, pat, 0);
      }
      NoStraddleSuffix(a, b, pat, 1);
      ReplaceConcat(a[1..], b, pat, rep);
      ReplaceStepShort(a, b, pat, rep);
    } else if a[..|pat|] == pat {
      NoStraddleSuffix(a, b, pat, |pat|);
      ReplaceConcat(a[|pat|..], b, pat, rep);
      ReplaceStepMatch(a, b, pat, rep);
    } else {
      NoStraddleSuffix(a, b, pat, 1);
      ReplaceConcat(a[1..], b, pat, rep);
      ReplaceStepSkip(a, b, pat, rep);
    }
  }

  /** One step of `ReplaceConcat` when `a` is shorter than `pat`, so `a` is
      left as it is. */
  lemma ReplaceStepShort(a: string, b: string, pat: string, rep: string)
    requires 0 < |a| < |pat|
    requires |a + b| >= |pat| ==> (a + b)[..|pat|] != pat
    requires Replace(a[1..] + b, pat, rep) == Replace(a[1..], pat, rep) + Replace(b, pat, rep)
    ensures Replace(a + b, pat, rep) == Replace(a, pat, rep) + Replace(b, pat, rep)
  {
    var rb := Replace(b, pat, rep);
    assert Replace(a, pat, rep) == a;
    assert Replace(a[1..], pat, rep) == a[1..];
    if |a + b| >= |pat| {
      calc {
        Replace(a + b, pat, rep);
        [a[0]] + Replace((a + b)[1..], pat, rep);
        { assert (a + b)[1..] == a[1..] + b; }
        [a[0]] + (Replace(a[1..], pat, rep) + rb);
        [a[0]] + (a[1..] + rb);
        { assert [a[0]] + a[1..] == a; }
        a + rb;
      }
    } else {
      assert |b| < |pat|;
    }
  }

  /** One step of `ReplaceConcat` when `a` starts with `pat`: so does
      `a + b`, and both replace it first. */
  lemma ReplaceStepMatch(a: string, b: string, pat: string, rep: string)
    requires 0 < |pat| <= |a| && a[..|pat|] == pat
    requires Replace(a[|pat|..] + b, pat, rep) == Replace(a[|pat|..], pat, rep) + Replace(b, pat, rep)
    ensures Replace(a + b, pat, rep) == Replace(a, pat, rep) + Replace(b, pat, rep)
  {
    assert (a + b)[..|pat|] == pat;
    assert (a + b)[|pat|..] == a[|pat|..] + b;
    assert Replace(a + b, pat, rep) == rep + Replace(a[|pat|..] + b, pat, rep);
  }

  /** One step of `ReplaceConcat` when `a` is at least as long as `pat` but
      does not start with it: neither does `a + b`, and both keep `a[0]`. */
  lemma ReplaceStepSkip(a: string, b: string, pat: string, rep: string)
    requires 0 < |pat| <= |a| && a[..|pat|] != pat
    requires Replace(a[1..] + b, pat, rep) == Replace(a[1..], pat, rep) + Replace(b, pat, rep)
    ensures Replace(a + b, pat, rep) == Replace(a, pat, rep) + Replace(b, pat, rep)
  {
    var ab := a + b;
    assert |ab| >= |pat| && ab[..|pat|] == a[..|pat|];
    assert ab[0] == a[0] && ab[1..] == a[1..] + b;
    calc {
      Replace(a + b, pat, rep);
      [ab[0]] + Replace(ab[1..], pat, rep);
      [a[0]] + Replace(a[1..] + b, pat, rep);
      [a[0]] + (Replace(a[1..], pat, rep) + Replace(b, pat, rep));
      ([a[0]] + Replace(a[1..], pat, rep)) + Replace(b, pat, rep);
      Replace(a, pat, rep) + Replace(b, pat, rep);
    }
  }

  /** `s.rfind(c)`: the index of the last `c` in `s`, or -1 when there is none. */
  function RFind(s: string, c: char): (i: int)
    ensures -1 <= i < |s|
    ensures i >= 0 ==> s[i] == c
    ensures forall j :: i < j < |s| ==> s[j] != c
  {
    if |s| == 0 then -1
    else if s[|s| - 1] == c then |s| - 1
    else RFind(s[..|s| - 1], c)
  }

  /** `os.path.basename(p)`: what follows the last '/'. */
  function Basename(p: string): (r: string)
    ensures '/' !in r
    ensures |r| <= |p| && r == p[|p| - |r|..]
    ensures '/' !in p ==> r == p
  {
    p[RFind(p, '/') + 1..]
  }

  /** The basename of `d + "/" + n` is `n` whenever `n` holds no '/'. */
  lemma BasenameAfterSlash(d: string, n: string)
    requires '/' !in n
    ensures Basename(d + "/" + n) == n
  {
    var p := d + "/" + n;
    assert p[|d|] == '/';
    var i := RFind(p, '/');
    assert i == |d| by {
      forall j | |d| < j < |p| ensures p[j] != '/' { assert p[j] == n[j - |d| - 1]; }
    }
    assert p[i + 1..] == n;
  }

  /** Every character of `p[from..to]` is a dot. */
  predicate AllDots(p: string, from: int, to: int)
    requires 0 <= from <= to <= |p|
  {
    forall k :: from <= k < to ==> p[k] == '.'
  }

  /** `os.path.splitext(p)`: the extension is the part from the last '.' of
      the last path component, provided that component has some character
      other than '.' before it (so ".bashrc" and "a/..." have no extension). */
  function Splitext(p: string): (r: (string, string))
    ensures r.0 + r.1 == p
    ensures r.1 == [] || (r.1[0] == '.' && '.' !in r.1[1..] && '/' !in r.1)
  {
    var sep := RFind(p, '/');
    var dot := RFind(p, '.');
    if dot > sep && !AllDots(p, sep + 1, dot) then
      assert forall j :: 0 <= j < |p[dot..]| ==> p[dot..][j] == p[dot + j];
      (p[..dot], p[dot..])
    else
      (p, [])
  }

  /** The name an artifact is derived from: `splitext(basename(p))[0]`. */
  function Stem(p: string): (r: string)
    ensures '/' !in r
  {
    var b := Basename(p);
    assert b == Splitext(b).0 + Splitext(b).1;
    Splitext(b).0
  }

  /** A plain name, a dot and a plain extension: `splitext` splits at that
      dot. */
  lemma SplitextSimple(n: string, e: string)
    requires |n| > 0 && '/' !in n && '.' !in n
    requires |e| > 0 && '/' !in e && '.' !in e
    ensures Splitext(n + "." + e) == (n, "." + e)
  {
    var p := n + "." + e;
    forall k | 0 <= k < |p| ensures p[k] != '/' && (p[k] == '.' <==> k == |n|) {
      if k < |n| { assert p[k] == n[k]; }
      else if k > |n| { assert p[k] == e[k - |n| - 1]; }
    }
    var sep, dot := RFind(p, '/'), RFind(p, '.');
    assert sep == -1;
    assert p[|n|] == '.';
    assert dot >= 0 && p[dot] == '.';
    assert dot == |n|;
    assert p[0] == n[0];
    assert !AllDots(p, 0, dot);
    assert p[..dot] == n;
    assert p[dot..] == "." + e;
  }

  /** The stem of `dir/name.ext` is `name`, and so is that of `name.ext`. */
  lemma StemSimple(d: string, n: string, e: string)
    requires |n| > 0 && '/' !in n && '.' !in n
    requires |e| > 0 && '/' !in e && '.' !in e
    ensures Stem(d + "/" + n + "." + e) == n
    ensures Stem(n + "." + e) == n
  {
    var f := n + "." + e;
    forall k | 0 <= k < |f| ensures f[k] != '/' {
      if k < |n| { assert f[k] == n[k]; }
      else if k > |n| { assert f[k] == e[k - |n| - 1]; }
    }
    assert d + "/" + n + "." + e == d + "/" + f;
    BasenameAfterSlash(d, f);
    SplitextSimple(n, e);
  }

  /** `os.path.join(a, b)` for two components. */
  function Join(a: string, b: string): (r: string)
    ensures |b| > 0 && b[0] == '/' ==> r == b
    ensures (|b| == 0 || b[0] != '/') && |a| > 0 && a[|a| - 1] != '/' ==> r == a + "/" + b
  {
    if |b| > 0 && b[0] == '/' then b
    else if |a| == 0 || a[|a| - 1] == '/' then a + b
    else a + "/" + b
  }
}
