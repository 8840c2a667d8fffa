/** Go strings and the few `strings` package operations the codec uses.

    A Go string is a sequence of bytes; here each byte is a `char` below 256, so that string
    literals can be written directly and `[]byte(s)` / `string(b)` are the identity. */
module GoStrings {

  type Byte = c: char | c as int < 256 witness 'a'

  type GoString = seq<Byte>

  /** A route-variable map. A key that is absent reads as "" (Go's zero value). */
  type RouteMap = map<GoString, GoString>

  function Lookup(m: RouteMap, key: GoString): GoString {
    if key in m then m[key] else ""
  }

  /** strings.HasPrefix(s, prefix), with Go's argument order. */
  predicate HasPrefix(s: GoString, prefix: GoString) {
    prefix <= s
  }

  /** `sep` occurs in `s` starting at index `i`. */
  predicate OccursAt(s: GoString, sep: GoString, i: int) {
    0 <= i && i + |sep| <= |s| && s[i..i + |sep|] == sep
  }

  predicate Contains(s: GoString, sep: GoString) {
    exists i :: 0 <= i <= |s| && OccursAt(s, sep, i)
  }

  /** The first occurrence of `sep` at or after `from`, or -1. */
  function IndexFrom(s: GoString, sep: GoString, from: nat): (r: int)
    decreases |s| - from
    ensures r == -1 || (from <= r && OccursAt(s, sep, r))
    ensures r == -1 ==> forall j :: from <= j ==> !OccursAt(s, sep, j)
    ensures r != -1 ==> forall j :: from <= j < r ==> !OccursAt(s, sep, j)
  {
    if |s| < from + |sep| then -1
    else if s[from..from + |sep|] == sep then from
    else IndexFrom(s, sep, from + 1)
  }

  /** strings.Index: the index of the first occurrence of `sep` in `s`, or -1 if there is none. */
  function Index(s: GoString, sep: GoString): (r: int)
    ensures r == -1 <==> !Contains(s, sep)
    ensures r != -1 ==> OccursAt(s, sep, r) && forall j :: 0 <= j < r ==> !OccursAt(s, sep, j)
  {
    IndexFrom(s, sep, 0)
  }

  /** An occurrence anywhere bounds the first occurrence from above. */
  lemma IndexAtMost(s: GoString, sep: GoString, k: int)
    requires OccursAt(s, sep, k)
    ensures 0 <= Index(s, sep) <= k
  {
  }

  /** Nothing occurs inside the part of `s` before its first occurrence of `sep`. */
  lemma PrefixBeforeIndex(s: GoString, sep: GoString)
    requires |sep| > 0 && Index(s, sep) != -1
    ensures !Contains(s[..Index(s, sep)], sep)
  {
    var i := Index(s, sep);
    forall j | 0 <= j <= i && OccursAt(s[..i], sep, j)
      ensures false
    {
      assert s[..i][j..j + |sep|] == s[j..j + |sep|];
      assert OccursAt(s, sep, j);
    }
  }

  /** A one-byte separator placed after a string free of it is the first occurrence. */
  lemma IndexOfSeparatorAfter(a: GoString, sep: GoString, b: GoString)
    requires |sep| == 1 && !Contains(a, sep)
    ensures Index(a + sep + b, sep) == |a|
  {
    var t := a + sep + b;
    assert OccursAt(t, sep, |a|) by {
      assert t[|a|..|a| + 1] == sep;
    }
    forall j | 0 <= j < |a|
      ensures !OccursAt(t, sep, j)
    {
      assert t[j..j + 1] == a[j..j + 1];
      assert !OccursAt(a, sep, j);
    }
    IndexAtMost(t, sep, |a|);
  }
}
