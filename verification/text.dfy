/**
 Bytes, and string primitives with the semantics of Go's `strings` package,
 stated on `seq<char>` (one element per Unicode code point).
 */
module Text {

  /** An octet of a frame, a file or a decoded payload. */
  newtype byte = x: int | 0 <= x < 256

  /** Go's `unicode.IsSpace`: the Latin-1 spaces and the Unicode White_Space characters. */
  predicate IsSpace(c: char) {
    || c == ' ' || c == '\t' || c == '\n' || c == '\U{0B}' || c == '\U{0C}' || c == '\r'
    || c == '\U{85}' || c == '\U{A0}' || c == '\U{1680}'
    || ('\U{2000}' <= c <= '\U{200A}')
    || c == '\U{2028}' || c == '\U{2029}' || c == '\U{202F}' || c == '\U{205F}' || c == '\U{3000}'
  }

  /** Neither end of `s` is a space: what `strings.TrimSpace` leaves behind. */
  predicate Trimmed(s: string) {
    s == [] || (!IsSpace(s[0]) && !IsSpace(s[|s| - 1]))
  }

  /** Every character of `s` is white space. */
  predicate AllSpace(s: string) {
    forall k :: 0 <= k < |s| ==> IsSpace(s[k])
  }

  function TrimLeadingSpace(s: string): (r: string)
    ensures |r| <= |s| && r == s[|s| - |r|..]
    ensures r == [] || !IsSpace(r[0])
    ensures (s == [] || !IsSpace(s[0])) ==> r == s
    decreases |s|
  {
    if s != [] && IsSpace(s[0]) then TrimLeadingSpace(s[1..]) else s
  }

  function TrimTrailingSpace(s: string): (r: string)
    ensures r <= s
    ensures r == [] || !IsSpace(r[|r| - 1])
    ensures (s == [] || !IsSpace(s[|s| - 1])) ==> r == s
    decreases |s|
  {
    if s != [] && IsSpace(s[|s| - 1]) then TrimTrailingSpace(s[..|s| - 1]) else s
  }

  /**
   Go's `strings.TrimSpace`: a trimmed string made of characters of `s`, and
   the identity on trimmed strings; `TrimSpaceOfPadded` states which one.
   */
  function TrimSpace(s: string): (r: string)
    ensures Trimmed(r)
    ensures Trimmed(s) ==> r == s
    ensures forall c :: c in r ==> c in s
  {
    var left := TrimLeadingSpace(s);
    var r := TrimTrailingSpace(left);
    TrimSpaceChars(s, left, r);
    assert Trimmed(s) ==> left == s;
    r
  }

  /** Leading white space is dropped up to the first other character. */
  lemma {:induction false} TrimLeadingOfPadded(a: string, t: string)
    requires AllSpace(a)
    requires t == [] || !IsSpace(t[0])
    ensures TrimLeadingSpace(a + t) == t
    decreases |a|
  {
    if a == [] {
      assert a + t == t;
    } else {
      assert (a + t)[0] == a[0];
      assert (a + t)[1..] == a[1..] + t;
      assert AllSpace(a[1..]) by {
        forall k | 0 <= k < |a[1..]|
          ensures IsSpace(a[1..][k])
        {
          assert a[1..][k] == a[k + 1];
        }
      }
      TrimLeadingOfPadded(a[1..], t);
    }
  }

  /** Trailing white space is dropped back to the last other character. */
  lemma {:induction false} TrimTrailingOfPadded(t: string, b: string)
    requires AllSpace(b)
    requires t == [] || !IsSpace(t[|t| - 1])
    ensures TrimTrailingSpace(t + b) == t
    decreases |b|
  {
    if b == [] {
      assert t + b == t;
    } else {
      var s := t + b;
      var b' := b[..|b| - 1];
      assert s[|s| - 1] == b[|b| - 1];
      assert s[..|s| - 1] == t + b';
      assert AllSpace(b') by {
        forall k | 0 <= k < |b'|
          ensures IsSpace(b'[k])
        {
          assert b'[k] == b[k];
        }
      }
      TrimTrailingOfPadded(t, b');
    }
  }

  /**
   `strings.TrimSpace` removes exactly the white space around a trimmed core:
   for any white space `a` and `b` and any trimmed `m`, `a + m + b` trims to `m`.
   */
  lemma TrimSpaceOfPadded(a: string, m: string, b: string)
    requires AllSpace(a) && AllSpace(b) && Trimmed(m)
    ensures TrimSpace(a + m + b) == m
  {
    var s := a + m + b;
    assert s == a + (m + b);
    if m == [] {
      assert AllSpace(a + b) by {
        forall k | 0 <= k < |a + b|
          ensures IsSpace((a + b)[k])
        {
          if k < |a| {
            assert (a + b)[k] == a[k];
          } else {
            assert (a + b)[k] == b[k - |a|];
          }
        }
      }
      assert s == (a + b) + [];
      TrimLeadingOfPadded(a + b, []);
    } else {
      assert (m + b)[0] == m[0];
      TrimLeadingOfPadded(a, m + b);
      TrimTrailingOfPadded(m, b);
    }
  }

  /** Trimming on both sides keeps only characters of the text trimmed. */
  lemma TrimSpaceChars(s: string, left: string, r: string)
    requires left == TrimLeadingSpace(s) && r == TrimTrailingSpace(left)
    ensures forall c :: c in r ==> c in s
  {
    var k := |s| - |left|;
    assert left == s[k..];
    assert r <= left;
    forall c | c in r
      ensures c in s
    {
      var i :| 0 <= i < |r| && r[i] == c;
      assert left[i] == c;
      assert s[k + i] == c;
    }
  }

  /** A slice holds only characters of the sequence it is cut from. */
  lemma SliceChars(s: string, i: nat, j: nat)
    requires i <= j <= |s|
    ensures forall c :: c in s[i..j] ==> c in s
  {
    forall c | c in s[i..j]
      ensures c in s
    {
      var k :| 0 <= k < j - i && s[i..j][k] == c;
      assert s[i + k] == c;
    }
  }

  lemma TrimSpaceIdempotent(s: string)
    ensures TrimSpace(TrimSpace(s)) == TrimSpace(s)
  {
  }

  /** The position of the first `c` in `s` (Go's `strings.IndexByte` when it is not -1). */
  function IndexOf(s: string, c: char): (i: nat)
    requires c in s
    ensures i < |s| && s[i] == c
    ensures c !in s[..i]
  {
    if s[0] == c then 0 else 1 + IndexOf(s[1..], c)
  }

  /** The first `c` of `a + [c] + b` is the one after `a` when `a` holds none. */
  lemma IndexOfAfter(a: string, c: char, b: string)
    requires c !in a
    ensures c in a + [c] + b
    ensures IndexOf(a + [c] + b, c) == |a|
  {
    var s := a + [c] + b;
    assert s[|a|] == c;
    assert s[..|a|] == a;
    var i := IndexOf(s, c);
    assert forall j :: 0 <= j < |a| ==> s[j] == a[j];
  }

  /** `pieces` joined with `sep` between consecutive elements (Go's `strings.Join`). */
  function JoinWith(pieces: seq<string>, sep: char): string
    decreases |pieces|
  {
    if pieces == [] then ""
    else if |pieces| == 1 then pieces[0]
    else pieces[0] + [sep] + JoinWith(pieces[1..], sep)
  }

  /**
   Go's `strings.Split(s, string(sep))`: the maximal `sep`-free pieces of `s`,
   never empty, and joining them back gives `s`.
   */
  function Split(s: string, sep: char): (r: seq<string>)
    ensures |r| >= 1
    ensures forall i :: 0 <= i < |r| ==> sep !in r[i]
    ensures JoinWith(r, sep) == s
    decreases |s|
  {
    if sep in s then
      var i := IndexOf(s, sep);
      var rest := Split(s[i + 1..], sep);
      assert s == s[..i] + [sep] + s[i + 1..];
      [s[..i]] + rest
    else
      [s]
  }

  /** Splitting a join of `sep`-free pieces gives the pieces back. */
  lemma {:induction false} SplitJoin(pieces: seq<string>, sep: char)
    requires |pieces| >= 1
    requires forall i :: 0 <= i < |pieces| ==> sep !in pieces[i]
    ensures Split(JoinWith(pieces, sep), sep) == pieces
    decreases |pieces|
  {
    if |pieces| > 1 {
      var rest := JoinWith(pieces[1..], sep);
      assert JoinWith(pieces, sep) == pieces[0] + [sep] + rest;
      SplitCons(pieces[0], sep, rest);
      SplitJoin(pieces[1..], sep);
      assert [pieces[0]] + pieces[1..] == pieces;
    }
  }

  /** A `sep`-free piece followed by `sep` is split off as the first piece. */
  lemma SplitCons(a: string, sep: char, rest: string)
    requires sep !in a
    ensures Split(a + [sep] + rest, sep) == [a] + Split(rest, sep)
  {
    var s := a + [sep] + rest;
    IndexOfAfter(a, sep, rest);
    assert s[|a| + 1..] == rest;
    assert s[..|a|] == a;
  }

  /** Every character of a piece occurs in the joined string. */
  lemma {:induction false} JoinWithContains(pieces: seq<string>, sep: char, i: nat, c: char)
    requires i < |pieces| && c in pieces[i]
    ensures c in JoinWith(pieces, sep)
    decreases |pieces|
  {
    if |pieces| > 1 {
      var rest := JoinWith(pieces[1..], sep);
      assert JoinWith(pieces, sep) == pieces[0] + [sep] + rest;
      if i > 0 {
        JoinWithContains(pieces[1..], sep, i - 1, c);
      }
    }
  }

  /** Go's `strings.TrimLeft(s, string(c))`: every leading `c` removed. */
  function TrimLeftChar(s: string, c: char): (r: string)
    ensures |r| <= |s| && r == s[|s| - |r|..]
    ensures r == [] || r[0] != c
    ensures (s == [] || s[0] != c) ==> r == s
    decreases |s|
  {
    if s != [] && s[0] == c then TrimLeftChar(s[1..], c) else s
  }

  /** Go's `strings.TrimRight(s, string(c))`: every trailing `c` removed. */
  function TrimRightChar(s: string, c: char): (r: string)
    ensures r <= s
    ensures r == [] || r[|r| - 1] != c
    ensures (s == [] || s[|s| - 1] != c) ==> r == s
    ensures forall k :: |r| <= k < |s| ==> s[k] == c
    decreases |s|
  {
    if s != [] && s[|s| - 1] == c then
      var t := s[..|s| - 1];
      var r := TrimRightChar(t, c);
      assert forall k :: |r| <= k < |t| ==> s[k] == t[k];
      r
    else s
  }

  /** Go's `strings.TrimPrefix`. */
  function TrimPrefix(s: string, prefix: string): (r: string)
    ensures prefix <= s ==> prefix + r == s
    ensures !(prefix <= s) ==> r == s
  {
    if prefix <= s then s[|prefix|..] else s
  }

  /** Go's `strings.ReplaceAll(s, string(c), rep)`. */
  function ReplaceChar(s: string, c: char, rep: string): (r: string)
    ensures c !in rep ==> c !in r
    ensures c !in s ==> r == s
    decreases |s|
  {
    if s == [] then []
    else (if s[0] == c then rep else [s[0]]) + ReplaceChar(s[1..], c, rep)
  }

  /** Replacing a character by a single character works position by position. */
  lemma {:induction false} ReplaceCharPointwise(s: string, c: char, d: char)
    ensures |ReplaceChar(s, c, [d])| == |s|
    ensures forall i :: 0 <= i < |s| ==>
      ReplaceChar(s, c, [d])[i] == (if s[i] == c then d else s[i])
    decreases |s|
  {
    if s != [] {
      ReplaceCharPointwise(s[1..], c, d);
    }
  }

  /** A character that no piece holds and that is not the separator is absent from the join. */
  lemma {:induction false} JoinWithAvoids(pieces: seq<string>, sep: char, x: char)
    requires x != sep
    requires forall i :: 0 <= i < |pieces| ==> x !in pieces[i]
    ensures x !in JoinWith(pieces, sep)
    decreases |pieces|
  {
    if |pieces| > 1 {
      JoinWithAvoids(pieces[1..], sep, x);
    }
  }

  /** A character absent from `s` is absent from each of its pieces. */
  lemma SplitAvoids(s: string, sep: char, x: char)
    requires x !in s
    ensures forall i :: 0 <= i < |Split(s, sep)| ==> x !in Split(s, sep)[i]
  {
    var pieces := Split(s, sep);
    forall i | 0 <= i < |pieces|
      ensures x !in pieces[i]
    {
      if x in pieces[i] {
        JoinWithContains(pieces, sep, i, x);
      }
    }
  }
}
