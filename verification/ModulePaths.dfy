/** Qualified names, module paths, and the lexicographic range that holds a module's descendants. */
module ModulePaths {
  import opened Wrappers

  const SEPARATOR: string := "::"

  ghost predicate StartsWith(s: string, prefix: string) {
    |prefix| <= |s| && s[..|prefix|] == prefix
  }

  /** A separator begins at position `i`. */
  predicate SeparatorAt(s: string, i: nat) {
    i + 2 <= |s| && s[i] == ':' && s[i + 1] == ':'
  }

  /** The last separator that begins before `k`. */
  function LastSeparator(s: string, k: nat): (at: Option<nat>)
    ensures at.None? ==> forall i: nat :: i < k ==> !SeparatorAt(s, i)
    ensures at.Some? ==> SeparatorAt(s, at.value) && at.value < k && forall i: nat :: at.value < i < k ==>
        !SeparatorAt(s, i)
  {
    if k == 0 then None
    else if SeparatorAt(s, k - 1) then Some(k - 1)
    else LastSeparator(s, k - 1)
  }

  /** A qualified name without its last segment. */
  function ModulePathOf(qualified: string): (path: string)
    ensures StartsWith(qualified, path)
  {
    match LastSeparator(qualified, |qualified|)
    case Some(i) => qualified[..i]
    case None => ""
  }

  /** A name inside a module has that module as its path. */
  lemma ModuleOfMember(path: string, segment: string)
    requires ':' !in segment
    ensures ModulePathOf(path + SEPARATOR + segment) == path
    ensures ModulePathOf(segment) == ""
  {
    var q := path + SEPARATOR + segment;
    assert SeparatorAt(q, |path|);
    forall i: nat | i > |path|
      ensures !SeparatorAt(q, i)
    {
      if i + 2 <= |q| {
        assert q[i + 1] == segment[i - |path| - 1];
        assert segment[i - |path| - 1] in segment;
      }
    }
    assert q[..|path|] == path;
    forall i: nat
      ensures !SeparatorAt(segment, i)
    {
      assert i < |segment| ==> segment[i] in segment;
    }
  }

  // ---------------------------------------------------------------- lexicographic order

  /** Strictly smaller in dictionary order. */
  predicate Less(a: string, b: string) {
    if b == "" then false
    else if a == "" then true
    else a[0] < b[0] || (a[0] == b[0] && Less(a[1..], b[1..]))
  }

  /** The two agree below `k`, where `a` has ended or has the smaller character. */
  ghost predicate SmallerAt(a: string, b: string, k: nat) {
    k <= |a| && k < |b| && a[..k] == b[..k] && (k == |a| || a[k] < b[k])
  }

  /** Dictionary order: one string is smaller at the first place where they differ. */
  lemma {:induction false} LessAtDifference(a: string, b: string)
    ensures Less(a, b) <==> exists k: nat :: SmallerAt(a, b, k)
  {
    if b != "" && (a == "" || a[0] < b[0]) {
      assert SmallerAt(a, b, 0);
    } else if b != "" && a[0] == b[0] {
      LessAtDifference(a[1..], b[1..]);
      if k: nat :| SmallerAt(a[1..], b[1..], k) {
        assert a[..k + 1] == [a[0]] + a[1..][..k] && b[..k + 1] == [b[0]] + b[1..][..k];
        assert SmallerAt(a, b, k + 1);
      }
      if k: nat :| SmallerAt(a, b, k) {
        assert k > 0;
        assert a[..k][1..] == a[1..][..k - 1] && b[..k][1..] == b[1..][..k - 1];
        assert SmallerAt(a[1..], b[1..], k - 1);
      }
    } else if k: nat :| SmallerAt(a, b, k) {
      AgreeFirst(a, b, k);
    }
  }

  /** Strings that agree below a place agree at the start. */
  lemma AgreeFirst(a: string, b: string, k: nat)
    requires k <= |a| && k < |b| && a[..k] == b[..k] && k > 0
    ensures a[0] == b[0]
  {
    assert a[..k][0] == b[..k][0];
  }

  /** Strings between `p` followed by `c` and `p` followed by the next character are exactly those
      that start with `p` followed by `c`. */
  lemma {:induction false} BumpRange(p: string, c: char, d: char, s: string)
    requires c as int + 1 == d as int
    ensures (!Less(s, p + [c]) && Less(s, p + [d])) <==> StartsWith(s, p + [c])
  {
    var lower, upper := p + [c], p + [d];
    if s == "" {
    } else if p == "" {
      assert lower[1..] == "" && upper[1..] == "";
      assert StartsWith(s, lower) <==> s[0] == c;
    } else {
      assert lower[1..] == p[1..] + [c] && upper[1..] == p[1..] + [d];
      BumpRange(p[1..], c, d, s[1..]);
      if StartsWith(s, lower) {
        assert s[1..][..|p|] == s[..|p| + 1][1..];
      }
      if s[0] == p[0] && StartsWith(s[1..], p[1..] + [c]) {
        assert s[..|p| + 1] == [s[0]] + s[1..][..|p|];
        assert lower == [p[0]] + lower[1..];
      }
    }
  }

  /** The range scanned for descendants of a module: from `prefix::` up to `prefix:;`. */
  predicate InRange(s: string, prefix: string) {
    !Less(s, prefix + SEPARATOR) && Less(s, prefix + ":;")
  }

  lemma RangeIsDescendants(prefix: string, s: string)
    ensures InRange(s, prefix) <==> StartsWith(s, prefix + SEPARATOR)
  {
    BumpRange(prefix + ":", ':', ';', s);
    assert prefix + ":" + [':'] == prefix + SEPARATOR && prefix + ":" + [';'] == prefix + ":;";
  }
}
