/**
 Lexical path operations of Go's `path/filepath` on '/'-separated paths
 (the Unix behaviour of the library).
 */
module Paths {
  import opened Text

  /** `filepath.IsAbs`: the path starts at the root. */
  predicate IsAbs(p: string) {
    p != [] && p[0] == '/'
  }

  /** `r` is the part of `q` after its last '/', or all of `q` when it has none. */
  predicate IsLastElementOf(r: string, q: string) {
    && '/' !in r
    && |r| <= |q| && r == q[|q| - |r|..]
    && (|r| < |q| ==> q[|q| - |r| - 1] == '/')
  }

  /** The last element of the text after a '/' is the last element of the whole. */
  lemma LastElementOfSuffix(q: string, i: nat, r: string)
    requires i < |q| && q[i] == '/'
    requires IsLastElementOf(r, q[i + 1..])
    ensures IsLastElementOf(r, q)
  {
    var rest := q[i + 1..];
    var n := |q| - |r|;
    assert |rest| - |r| + i + 1 == n;
    assert r == rest[|rest| - |r|..];
    assert rest[|rest| - |r|..] == q[n..];
    if |r| < |rest| {
      assert q[n - 1] == rest[|rest| - |r| - 1];
    } else {
      assert n - 1 == i;
    }
  }

  /** The text after the last '/' of `q`, or all of `q` when it has none. */
  function LastElement(q: string): (r: string)
    ensures IsLastElementOf(r, q)
    ensures q != [] && q[|q| - 1] != '/' ==> r != []
    decreases |q|
  {
    if '/' in q then
      var i := IndexOf(q, '/');
      var rest := q[i + 1..];
      assert q[|q| - 1] != '/' ==> |rest| > 0 && rest[|rest| - 1] == q[|q| - 1];
      var r := LastElement(rest);
      LastElementOfSuffix(q, i, r);
      r
    else
      q
  }

  /**
   `filepath.Base`: the last element of the path after trailing separators are
   dropped; "." for the empty path and "/" for a path of separators only.
   */
  function Base(p: string): (r: string)
    ensures r != []
    ensures r == "/" || '/' !in r
    ensures p != [] && '/' !in p ==> r == p
    ensures p == [] ==> r == "."
    ensures p != [] && TrimRightChar(p, '/') == [] ==> r == "/"
    ensures TrimRightChar(p, '/') != [] ==> IsLastElementOf(r, TrimRightChar(p, '/'))
  {
    if p == [] then "."
    else
      var q := TrimRightChar(p, '/');
      if q == [] then "/" else LastElement(q)
  }

  /**
   `filepath.Join` of two elements: empty elements are dropped and the rest
   joined with one '/'. Go also cleans the result lexically; this model does not.
   */
  function Join(dir: string, elem: string): (r: string)
    ensures dir != [] && elem != [] ==> r == dir + "/" + elem
    ensures dir == [] ==> r == elem
  {
    if dir == [] then elem
    else if elem == [] then dir
    else dir + "/" + elem
  }

  /** The last element of `prefix + "/" + name` is `name` when `name` has no '/'. */
  lemma {:induction false} LastElementAfterSeparator(prefix: string, name: string)
    requires '/' !in name
    ensures LastElement(prefix + "/" + name) == name
    decreases |prefix|
  {
    var q := prefix + "/" + name;
    assert q[|prefix|] == '/';
    var i := IndexOf(q, '/');
    if '/' in prefix {
      var j := IndexOf(prefix, '/');
      assert prefix == prefix[..j] + ['/'] + prefix[j + 1..];
      assert q == prefix[..j] + ['/'] + (prefix[j + 1..] + "/" + name);
      IndexOfAfter(prefix[..j], '/', prefix[j + 1..] + "/" + name);
      assert q[i + 1..] == prefix[j + 1..] + "/" + name;
      LastElementAfterSeparator(prefix[j + 1..], name);
    } else {
      IndexOfAfter(prefix, '/', name);
      assert q[i + 1..] == name;
    }
  }

  /** The base name of `prefix/name` is `name` for a '/'-free `name`, whatever the prefix (the empty one included). */
  lemma BaseAfterSeparator(prefix: string, name: string)
    requires name != [] && '/' !in name
    ensures Base(prefix + "/" + name) == name
  {
    var p := prefix + "/" + name;
    assert p[|p| - 1] == name[|name| - 1];
    LastElementAfterSeparator(prefix, name);
  }

  /** The base name of an element joined under a directory is that element. */
  lemma BaseOfJoin(dir: string, name: string)
    requires dir != [] && name != [] && '/' !in name
    ensures Base(Join(dir, name)) == name
  {
    BaseAfterSeparator(dir, name);
  }

  /** Taking the base name twice changes nothing. */
  lemma BaseIdempotent(p: string)
    ensures Base(Base(p)) == Base(p)
  {
  }
}
