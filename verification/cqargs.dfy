/**
 The argument list of a CQ code, `,key=value,key=value`: how the relay splits
 it into an attribute map, how it writes one back, and the comma escape it
 applies to URLs embedded in it.
 */
module CQArgs {
  import opened Wrappers
  import opened Text

  type Attrs = map<string, string>

  /** A key that survives being written as `key=` and split again. */
  predicate CleanKey(k: string) {
    ',' !in k && ']' !in k && '=' !in k && Trimmed(k)
  }

  /** A value that survives being written after `=` and split again. */
  predicate CleanValue(v: string) {
    ',' !in v && ']' !in v && Trimmed(v)
  }

  predicate CleanPair(p: (string, string)) {
    CleanKey(p.0) && CleanValue(p.1)
  }

  predicate CleanAttrs(attrs: Attrs) {
    forall k :: k in attrs ==> CleanPair((k, attrs[k]))
  }

  /** `piece` is `key=value` cut at its first '=': the key holds none. */
  predicate SplitsAt(piece: string, key: string, value: string) {
    piece == key + "=" + value && '=' !in key
  }

  /**
   One comma-separated piece split at its first '=' (Go's `strings.SplitN(kv, "=", 2)`)
   with key and value trimmed; a piece without '=' (the empty piece among them)
   contributes nothing.
   */
  function SplitPair(piece: string): (r: Option<(string, string)>)
    ensures r.Some? <==> '=' in piece
    ensures r.Some? && ',' !in piece && ']' !in piece ==> CleanPair(r.value)
  {
    if '=' in piece then
      var i := IndexOf(piece, '=');
      SliceChars(piece, 0, i);
      SliceChars(piece, i + 1, |piece|);
      Some((TrimSpace(piece[..i]), TrimSpace(piece[i + 1..])))
    else
      None
  }

  /**
   A piece `key=value` whose key holds no '=' splits into the trimmed key and
   the trimmed value, whatever the value holds.
   */
  lemma SplitPairAt(piece: string, key: string, value: string)
    requires SplitsAt(piece, key, value)
    ensures SplitPair(piece) == Some((TrimSpace(key), TrimSpace(value)))
  {
    IndexOfAfter(key, '=', value);
    assert piece[..|key|] == key;
    assert piece[|key| + 1..] == value;
  }

  /** The key/value pairs of the pieces, in order. */
  function PairsOf(pieces: seq<string>): seq<(string, string)>
    decreases |pieces|
  {
    if pieces == [] then []
    else
      match SplitPair(pieces[0])
      case Some(kv) => [kv] + PairsOf(pieces[1..])
      case None => PairsOf(pieces[1..])
  }

  /** Pieces free of ',' and ']' give clean pairs. */
  lemma {:induction false} PairsOfClean(pieces: seq<string>)
    requires forall i :: 0 <= i < |pieces| ==> ',' !in pieces[i] && ']' !in pieces[i]
    ensures forall i :: 0 <= i < |PairsOf(pieces)| ==> CleanPair(PairsOf(pieces)[i])
    decreases |pieces|
  {
    if pieces != [] {
      PairsOfClean(pieces[1..]);
    }
  }

  function PairKeys(pairs: seq<(string, string)>): (r: seq<string>)
    ensures |r| == |pairs|
    ensures forall i :: 0 <= i < |pairs| ==> r[i] == pairs[i].0
    decreases |pairs|
  {
    if pairs == [] then [] else [pairs[0].0] + PairKeys(pairs[1..])
  }

  /** The map the pairs build when each later pair overwrites an earlier one with the same key. */
  function ToMap(pairs: seq<(string, string)>): (m: Attrs)
    ensures forall k :: k in m <==> k in PairKeys(pairs)
    ensures (forall i :: 0 <= i < |pairs| ==> CleanPair(pairs[i])) ==> CleanAttrs(m)
    decreases |pairs|
  {
    if pairs == [] then map[]
    else map[pairs[0].0 := pairs[0].1] + ToMap(pairs[1..])
  }

  /** A key maps to the value of the last pair that names it. */
  lemma {:induction false} ToMapLastWins(pairs: seq<(string, string)>, k: string, i: nat)
    requires i < |pairs| && pairs[i].0 == k
    requires forall j :: i < j < |pairs| ==> pairs[j].0 != k
    ensures k in ToMap(pairs) && ToMap(pairs)[k] == pairs[i].1
    decreases |pairs|
  {
    var rest := pairs[1..];
    if i > 0 {
      forall j | i - 1 < j < |rest|
        ensures rest[j].0 != k
      {
        assert rest[j] == pairs[j + 1];
      }
      ToMapLastWins(rest, k, i - 1);
    } else {
      var keys := PairKeys(rest);
      forall j | 0 <= j < |keys|
        ensures keys[j] != k
      {
        assert rest[j] == pairs[j + 1];
      }
      assert k !in ToMap(rest);
    }
  }

  /** The pairs of an argument string: leading commas dropped, then split on ','. */
  function ArgPairs(args: string): seq<(string, string)>
  {
    PairsOf(Split(TrimLeftChar(args, ','), ','))
  }

  /** The attribute map of an argument string. */
  function ParseArgs(args: string): (m: Attrs)
    ensures forall k :: k in m <==> k in PairKeys(ArgPairs(args))
  {
    ToMap(ArgPairs(args))
  }

  /**
   Inside a tag (no ']') every parsed key and value is clean: comma-free,
   bracket-free, trimmed, and keys hold no '='.
   */
  lemma ParseArgsClean(args: string)
    requires ']' !in args
    ensures CleanAttrs(ParseArgs(args))
  {
    var body := TrimLeftChar(args, ',');
    SliceChars(args, |args| - |body|, |args|);
    SplitAvoids(body, ',', ']');
    PairsOfClean(Split(body, ','));
  }

  /** `key=value` for each key in turn. */
  function AttrPieces(attrs: Attrs, keys: seq<string>): (r: seq<string>)
    requires forall i :: 0 <= i < |keys| ==> keys[i] in attrs
    ensures |r| == |keys|
    decreases |keys|
  {
    if keys == [] then []
    else [keys[0] + "=" + attrs[keys[0]]] + AttrPieces(attrs, keys[1..])
  }

  /** The pieces of clean attributes hold neither ',' nor ']'. */
  lemma {:induction false} AttrPiecesClean(attrs: Attrs, keys: seq<string>)
    requires forall i :: 0 <= i < |keys| ==> keys[i] in attrs
    requires CleanAttrs(attrs)
    ensures forall i :: 0 <= i < |keys| ==>
      ',' !in AttrPieces(attrs, keys)[i] && ']' !in AttrPieces(attrs, keys)[i]
    decreases |keys|
  {
    if keys != [] {
      assert CleanPair((keys[0], attrs[keys[0]]));
      AttrPiecesClean(attrs, keys[1..]);
    }
  }

  /**
   The argument text the relay writes for a rebuilt tag: `,file=<file>` first,
   then `,key=value` for every key of `order`.
   */
  function RenderAttrs(attrs: Attrs, order: seq<string>): string
    requires "file" in attrs
    requires forall i :: 0 <= i < |order| ==> order[i] in attrs
  {
    "," + JoinWith(AttrPieces(attrs, ["file"] + order), ',')
  }

  /** `order` lists every key of `attrs` except "file", each exactly once. */
  predicate EnumeratesOthers(attrs: Attrs, order: seq<string>) {
    && (forall i, j :: 0 <= i < j < |order| ==> order[i] != order[j])
    && (forall i :: 0 <= i < |order| ==> order[i] in attrs && order[i] != "file")
    && (forall k :: k in attrs && k != "file" ==> k in order)
  }

  /** The keys of `keys` in first-occurrence order, without repeats and without those in `seen`. */
  function FreshKeys(keys: seq<string>, seen: set<string>): (r: seq<string>)
    ensures forall i, j :: 0 <= i < j < |r| ==> r[i] != r[j]
    ensures forall k :: k in r <==> k in keys && k !in seen
    decreases |keys|
  {
    if keys == [] then []
    else if keys[0] in seen then FreshKeys(keys[1..], seen)
    else [keys[0]] + FreshKeys(keys[1..], seen + {keys[0]})
  }

  /** A clean pair written as `key=value` splits back into itself. */
  lemma SplitPairOfPiece(k: string, v: string)
    requires CleanPair((k, v))
    ensures SplitPair(k + "=" + v) == Some((k, v))
  {
    IndexOfAfter(k, '=', v);
    var piece := k + "=" + v;
    assert piece[..|k|] == k;
    assert piece[|k| + 1..] == v;
  }

  function KeyedPairs(attrs: Attrs, keys: seq<string>): seq<(string, string)>
    requires forall i :: 0 <= i < |keys| ==> keys[i] in attrs
    decreases |keys|
  {
    if keys == [] then [] else [(keys[0], attrs[keys[0]])] + KeyedPairs(attrs, keys[1..])
  }

  lemma PairsOfCons(piece: string, kv: (string, string), rest: seq<string>)
    requires SplitPair(piece) == Some(kv)
    ensures PairsOf([piece] + rest) == [kv] + PairsOf(rest)
  {
    assert ([piece] + rest)[1..] == rest;
  }

  lemma {:induction false} PairsOfPieces(attrs: Attrs, keys: seq<string>)
    requires CleanAttrs(attrs)
    requires forall i :: 0 <= i < |keys| ==> keys[i] in attrs
    ensures PairsOf(AttrPieces(attrs, keys)) == KeyedPairs(attrs, keys)
    decreases |keys|
  {
    if keys != [] {
      var k := keys[0];
      var v := attrs[k];
      var rest := AttrPieces(attrs, keys[1..]);
      assert CleanPair((k, v));
      SplitPairOfPiece(k, v);
      assert AttrPieces(attrs, keys) == [k + "=" + v] + rest;
      PairsOfCons(k + "=" + v, (k, v), rest);
      PairsOfPieces(attrs, keys[1..]);
    }
  }

  lemma {:induction false} ToMapOfKeyed(attrs: Attrs, keys: seq<string>)
    requires forall i :: 0 <= i < |keys| ==> keys[i] in attrs
    ensures ToMap(KeyedPairs(attrs, keys)) == map k | k in keys :: attrs[k]
    decreases |keys|
  {
    if keys != [] {
      ToMapOfKeyed(attrs, keys[1..]);
    }
  }

  /** The pieces of a rendering start with the file piece; none holds ',' or ']'. */
  lemma RenderedPieces(attrs: Attrs, order: seq<string>)
    requires "file" in attrs
    requires CleanAttrs(attrs)
    requires forall i :: 0 <= i < |order| ==> order[i] in attrs
    ensures var pieces := AttrPieces(attrs, ["file"] + order);
      && pieces[0] == "file=" + attrs["file"]
      && forall i :: 0 <= i < |pieces| ==> ',' !in pieces[i] && ']' !in pieces[i]
  {
    AttrPiecesClean(attrs, ["file"] + order);
  }

  /** The rendering is one ',' before the joined pieces, and no ']' anywhere. */
  lemma RenderedText(attrs: Attrs, order: seq<string>)
    requires "file" in attrs
    requires CleanAttrs(attrs)
    requires forall i :: 0 <= i < |order| ==> order[i] in attrs
    ensures var joined := JoinWith(AttrPieces(attrs, ["file"] + order), ',');
      && ']' !in RenderAttrs(attrs, order)
      && TrimLeftChar(RenderAttrs(attrs, order), ',') == joined
  {
    var pieces := AttrPieces(attrs, ["file"] + order);
    var joined := JoinWith(pieces, ',');
    RenderedPieces(attrs, order);
    JoinWithAvoids(pieces, ',', ']');
    assert joined[0] == 'f';
    assert ("," + joined)[1..] == joined;
  }

  /** Parsing the joined pieces gives back the map restricted to their keys. */
  lemma {:induction false} ParseJoinedPieces(attrs: Attrs, keys: seq<string>)
    requires |keys| >= 1
    requires CleanAttrs(attrs)
    requires forall i :: 0 <= i < |keys| ==> keys[i] in attrs
    ensures ToMap(PairsOf(Split(JoinWith(AttrPieces(attrs, keys), ','), ','))) == map k | k in keys :: attrs[k]
  {
    var pieces := AttrPieces(attrs, keys);
    AttrPiecesClean(attrs, keys);
    SplitJoin(pieces, ',');
    PairsOfPieces(attrs, keys);
    ToMapOfKeyed(attrs, keys);
  }

  /**
   Writing an attribute map with `RenderAttrs`, in any order that covers its
   keys, and parsing the text again gives the same map back, provided every
   key and value is clean. The text never holds ']' and so stays inside its tag.
   */
  lemma RenderParseRoundTrip(attrs: Attrs, order: seq<string>)
    requires "file" in attrs
    requires CleanAttrs(attrs)
    requires forall i :: 0 <= i < |order| ==> order[i] in attrs
    requires forall k :: k in attrs && k != "file" ==> k in order
    ensures ']' !in RenderAttrs(attrs, order)
    ensures ParseArgs(RenderAttrs(attrs, order)) == attrs
  {
    var keys := ["file"] + order;
    var text := RenderAttrs(attrs, order);
    var joined := JoinWith(AttrPieces(attrs, keys), ',');
    RenderedText(attrs, order);
    assert ArgPairs(text) == PairsOf(Split(joined, ','));
    ParseJoinedPieces(attrs, keys);
    CoveringKeys(attrs, keys);
  }

  /** Keys that cover the whole map select all of it. */
  lemma CoveringKeys(attrs: Attrs, keys: seq<string>)
    requires forall i :: 0 <= i < |keys| ==> keys[i] in attrs
    requires forall k :: k in attrs ==> k in keys
    ensures (map k | k in keys :: attrs[k]) == attrs
  {
  }

  /** Go's `strings.ReplaceAll(text, ",", "%2C")`, applied to URLs put into tag arguments. */
  function EscapeCommas(text: string): (r: string)
    ensures ',' !in r
    ensures ',' !in text ==> r == text
  {
    ReplaceChar(text, ',', "%2C")
  }

  /** `s` holds the escape sequence "%2C" somewhere. */
  predicate HasEscape(s: string)
    decreases |s|
  {
    s != [] && ("%2C" <= s || HasEscape(s[1..]))
  }

  /** Percent-decodes "%2C" back to ',' scanning left to right. */
  function UnescapeCommas(s: string): string
    decreases |s|
  {
    if s == [] then []
    else if "%2C" <= s then "," + UnescapeCommas(s[3..])
    else [s[0]] + UnescapeCommas(s[1..])
  }

  /** Escaping is undone by decoding, for any text that did not already hold "%2C". */
  lemma {:induction false} EscapeCommasRoundTrip(text: string)
    requires !HasEscape(text)
    ensures UnescapeCommas(EscapeCommas(text)) == text
    decreases |text|
  {
    if text != [] {
      var rest := text[1..];
      var er := EscapeCommas(rest);
      assert !HasEscape(rest);
      EscapeCommasRoundTrip(rest);
      assert EscapeCommas(text) == (if text[0] == ',' then "%2C" else [text[0]]) + er;
      if text[0] == ',' {
        assert ("%2C" + er)[3..] == er;
      } else {
        EscapedHead(text);
        assert ([text[0]] + er)[1..] == er;
      }
    }
  }

  /** Escaping a non-empty text starts with its first character, or with "%" for a comma. */
  lemma EscapeFirst(s: string)
    requires s != []
    ensures EscapeCommas(s)[0] == (if s[0] == ',' then '%' else s[0])
    ensures s[0] != ',' ==> EscapeCommas(s) == [s[0]] + EscapeCommas(s[1..])
  {
  }

  /**
   A text without "%2C" whose first character is not a comma keeps that
   character and does not start with "%2C" once escaped.
   */
  lemma EscapedHead(text: string)
    requires !HasEscape(text)
    requires text != [] && text[0] != ','
    ensures !("%2C" <= [text[0]] + EscapeCommas(text[1..]))
  {
    var rest := text[1..];
    var e := [text[0]] + EscapeCommas(rest);
    if text[0] == '%' && |rest| >= 1 {
      EscapeFirst(rest);
      if rest[0] == '2' && |rest| >= 2 {
        var r2 := rest[1..];
        assert rest[1] != 'C' by {
          assert text[..3] == "%2" + [rest[1]];
        }
        EscapeFirst(r2);
        assert e[2] == EscapeCommas(r2)[0];
      }
    }
  }
}
