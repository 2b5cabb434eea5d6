/**
 The two inline markup dialects the relay recognises in message text, and a
 scanner that cuts a text into literal characters and tags:

 - CQ media codes, the pattern `\[CQ:(image|record|video)([^\]]*)]`: the kind
   need not be followed by a comma, and the arguments run to the first ']';
 - picture tags, the pattern `\[图:([^\]]+)]`: a non-empty source up to the first ']'.

 Matches are taken leftmost first and do not overlap, as Go's
 `Regexp.ReplaceAllStringFunc` finds them.
 */
module Tags {
  import opened Wrappers
  import opened Text

  const MediaKinds: seq<string> := ["image", "record", "video"]
  const MediaOpen: string := "[CQ:"
  const PictureOpen: string := "[图:"

  /** A piece of scanned text: one literal character or one whole tag. */
  datatype Token = Char(c: char) | Media(kind: string, args: string) | Picture(src: string)

  /** The text a token was cut from. */
  function Raw(t: Token): string {
    match t
    case Char(c) => [c]
    case Media(kind, args) => MediaOpen + kind + args + "]"
    case Picture(src) => PictureOpen + src + "]"
  }

  function Flatten(ts: seq<Token>): string
    decreases |ts|
  {
    if ts == [] then "" else Raw(ts[0]) + Flatten(ts[1..])
  }

  /** The shape the patterns give a tag: a known kind, a non-empty source, no ']' inside. */
  predicate WellFormed(t: Token) {
    match t
    case Char(_) => true
    case Media(kind, args) => kind in MediaKinds && ']' !in args
    case Picture(src) => src != [] && ']' !in src
  }

  /** The alternation `(image|record|video)` at the start of `s`. */
  function KindAt(s: string): (r: Option<string>)
    ensures r.Some? ==> r.value in MediaKinds && r.value <= s
  {
    if "image" <= s then Some("image")
    else if "record" <= s then Some("record")
    else if "video" <= s then Some("video")
    else None
  }

  /** The media pattern matched at the start of `s`. */
  function MatchMedia(s: string): (m: Option<Token>)
    ensures m.Some? ==> m.value.Media? && WellFormed(m.value) && Raw(m.value) <= s
  {
    if MediaOpen <= s then
      match KindAt(s[|MediaOpen|..])
      case None => None
      case Some(kind) =>
        var tail := s[|MediaOpen| + |kind|..];
        if ']' in tail then
          var j := IndexOf(tail, ']');
          assert s == MediaOpen + kind + tail;
          assert tail == tail[..j] + "]" + tail[j + 1..];
          Some(Media(kind, tail[..j]))
        else
          None
    else
      None
  }

  /** The picture pattern matched at the start of `s`. */
  function MatchPicture(s: string): (m: Option<Token>)
    ensures m.Some? ==> m.value.Picture? && WellFormed(m.value) && Raw(m.value) <= s
  {
    if PictureOpen <= s then
      var tail := s[|PictureOpen|..];
      if ']' in tail && IndexOf(tail, ']') > 0 then
        var j := IndexOf(tail, ']');
        assert s == PictureOpen + tail;
        assert tail == tail[..j] + "]" + tail[j + 1..];
        Some(Picture(tail[..j]))
      else
        None
    else
      None
  }

  lemma KindAtOf(kind: string, rest: string)
    requires kind in MediaKinds
    ensures KindAt(kind + rest) == Some(kind)
  {
    var s := kind + rest;
    assert s[0] == kind[0];
  }

  /**
   The media pattern matches at the start of `s` exactly when `s` begins with a
   well-formed media tag, and then it matches that tag.
   */
  lemma MatchMediaIff(s: string, kind: string, args: string)
    ensures MatchMedia(s) == Some(Media(kind, args))
        <==> kind in MediaKinds && ']' !in args && Raw(Media(kind, args)) <= s
  {
    if kind in MediaKinds && ']' !in args && Raw(Media(kind, args)) <= s {
      var rest := s[|Raw(Media(kind, args))|..];
      assert s == Raw(Media(kind, args)) + rest;
      MatchMediaOf(kind, args, rest);
    }
  }

  /** A well-formed media tag followed by anything is matched as that tag. */
  lemma MatchMediaOf(kind: string, args: string, rest: string)
    requires kind in MediaKinds && ']' !in args
    ensures MatchMedia(Raw(Media(kind, args)) + rest) == Some(Media(kind, args))
  {
    var body := kind + (args + "]" + rest);
    var s := MediaOpen + body;
    assert Raw(Media(kind, args)) + rest == s;
    assert s[..|MediaOpen|] == MediaOpen;
    assert s[|MediaOpen|..] == body;
    KindAtOf(kind, args + "]" + rest);
    var tail := args + "]" + rest;
    assert s[|MediaOpen| + |kind|..] == tail;
    IndexOfAfter(args, ']', rest);
    assert tail[..|args|] == args;
    MatchMediaUnfold(s, kind);
  }

  /** The match once the opener and the kind are known: up to the first ']'. */
  lemma MatchMediaUnfold(s: string, kind: string)
    requires MediaOpen <= s && KindAt(s[|MediaOpen|..]) == Some(kind)
    requires ']' in s[|MediaOpen| + |kind|..]
    ensures var tail := s[|MediaOpen| + |kind|..];
      MatchMedia(s) == Some(Media(kind, tail[..IndexOf(tail, ']')]))
  {
  }

  /**
   The picture pattern matches at the start of `s` exactly when `s` begins with
   a well-formed picture tag, and then it matches that tag.
   */
  lemma MatchPictureIff(s: string, src: string)
    ensures MatchPicture(s) == Some(Picture(src))
        <==> src != [] && ']' !in src && Raw(Picture(src)) <= s
  {
    if src != [] && ']' !in src && Raw(Picture(src)) <= s {
      var rest := s[|Raw(Picture(src))|..];
      assert s == PictureOpen + src + "]" + rest;
      var tail := s[|PictureOpen|..];
      assert tail == src + "]" + rest;
      IndexOfAfter(src, ']', rest);
      assert tail[..|src|] == src;
    }
  }

  /** Which of the two patterns a scan looks for. */
  datatype Dialect = CQMedia | PictureTag

  function Match(d: Dialect, s: string): (m: Option<Token>)
    ensures m.Some? ==> WellFormed(m.value) && Raw(m.value) <= s && |Raw(m.value)| > 0
  {
    match d
    case CQMedia => MatchMedia(s)
    case PictureTag => MatchPicture(s)
  }

  predicate OfDialect(d: Dialect, t: Token) {
    t.Char? || (d == CQMedia && t.Media?) || (d == PictureTag && t.Picture?)
  }

  /** Each token is what the pattern finds at its own position. */
  predicate Leftmost(d: Dialect, ts: seq<Token>) {
    forall i :: 0 <= i < |ts| ==>
      && WellFormed(ts[i]) && OfDialect(d, ts[i])
      && Match(d, Flatten(ts[i..])) == (if ts[i].Char? then None else Some(ts[i]))
  }

  lemma LeftmostCons(d: Dialect, t: Token, rest: seq<Token>)
    requires Leftmost(d, rest)
    requires WellFormed(t) && OfDialect(d, t)
    requires Match(d, Raw(t) + Flatten(rest)) == (if t.Char? then None else Some(t))
    ensures Flatten([t] + rest) == Raw(t) + Flatten(rest)
    ensures Leftmost(d, [t] + rest)
  {
    var ts := [t] + rest;
    assert ts[1..] == rest;
    forall i | 0 <= i < |ts|
      ensures WellFormed(ts[i]) && OfDialect(d, ts[i])
      ensures Match(d, Flatten(ts[i..])) == (if ts[i].Char? then None else Some(ts[i]))
    {
      if i > 0 {
        assert ts[i..] == rest[i - 1..];
        assert ts[i] == rest[i - 1];
      }
    }
  }

  /** The token the pattern cuts at the start of a non-empty text. */
  function FirstToken(d: Dialect, s: string): (t: Token)
    requires s != []
    ensures 0 < |Raw(t)| && Raw(t) <= s
  {
    match Match(d, s) case Some(tag) => tag case None => Char(s[0])
  }

  /**
   Cuts `s` into tokens left to right: at each position the tag the pattern
   matches there, if any, else one literal character. Flattening the tokens
   gives `s` back; `ScanLeftmost` states that each token is what the pattern
   finds (or fails to find) at its own position.
   */
  function Scan(d: Dialect, s: string): (ts: seq<Token>)
    ensures Flatten(ts) == s
    decreases |s|
  {
    if s == [] then []
    else
      var t := FirstToken(d, s);
      var n := |Raw(t)|;
      assert s == Raw(t) + s[n..];
      var rest := Scan(d, s[n..]);
      assert ([t] + rest)[1..] == rest;
      [t] + rest
  }

  /** Every token of a scan is well formed and is what the pattern finds at its own position. */
  lemma {:induction false} ScanLeftmost(d: Dialect, s: string)
    ensures Leftmost(d, Scan(d, s))
    decreases |s|
  {
    if s != [] {
      var t := FirstToken(d, s);
      var n := |Raw(t)|;
      assert s == Raw(t) + s[n..];
      var rest := Scan(d, s[n..]);
      ScanLeftmost(d, s[n..]);
      LeftmostCons(d, t, rest);
    }
  }

  /** The tokens of a text read as literal characters only. */
  function Chars(p: string): (ts: seq<Token>)
    ensures |ts| == |p| && forall i :: 0 <= i < |p| ==> ts[i] == Char(p[i])
    ensures Flatten(ts) == p
    decreases |p|
  {
    if p == [] then [] else [Char(p[0])] + Chars(p[1..])
  }

  /** Neither pattern matches at a position that does not hold '['. */
  lemma NoMatchWithoutOpen(d: Dialect, s: string)
    requires s != [] && s[0] != '['
    ensures Match(d, s).None?
  {
  }

  /** Where no tag matches, the first token is the first character. */
  lemma ScanCharFirst(d: Dialect, s: string)
    requires s != [] && Match(d, s).None?
    ensures Scan(d, s) == [Char(s[0])] + Scan(d, s[1..])
  {
  }

  /** A tag of the scanned dialect at the start of the text is the first token. */
  lemma ScanTagFirst(d: Dialect, t: Token, rest: string)
    requires !t.Char? && WellFormed(t) && OfDialect(d, t)
    ensures Scan(d, Raw(t) + rest) == [t] + Scan(d, rest)
  {
    var s := Raw(t) + rest;
    match t
    case Media(kind, args) => MatchMediaOf(kind, args, rest);
    case Picture(src) => MatchPictureIff(s, src);
    assert s[|Raw(t)|..] == rest;
  }

  /** A prefix without '[' scans as its literal characters, and the scan goes on after it. */
  lemma {:induction false} ScanPlainPrefix(d: Dialect, p: string, rest: string)
    requires '[' !in p
    ensures Scan(d, p + rest) == Chars(p) + Scan(d, rest)
    decreases |p|
  {
    if p == [] {
      assert p + rest == rest;
    } else {
      assert p == [p[0]] + p[1..];
      ScanPlainStep(d, p, rest);
      ScanPlainPrefix(d, p[1..], rest);
      var head, tail, after := [Char(p[0])], Chars(p[1..]), Scan(d, rest);
      assert Chars(p) == head + tail;
      assert Scan(d, p[1..] + rest) == tail + after;
      calc {
        Scan(d, p + rest);
        head + Scan(d, p[1..] + rest);
        head + (tail + after);
        { SeqAssoc(head, tail, after); }
        (head + tail) + after;
        Chars(p) + after;
      }
    }
  }

  lemma SeqAssoc<T>(a: seq<T>, b: seq<T>, c: seq<T>)
    ensures a + (b + c) == (a + b) + c
  {
  }

  lemma ScanPlainStep(d: Dialect, p: string, rest: string)
    requires p != [] && p[0] != '['
    ensures Scan(d, p + rest) == [Char(p[0])] + Scan(d, p[1..] + rest)
  {
    var s := p + rest;
    NoMatchWithoutOpen(d, s);
    ScanCharFirst(d, s);
    assert s[1..] == p[1..] + rest;
  }

  /** Text without '[' holds no tag of either dialect. */
  lemma {:induction false} ScanPlain(d: Dialect, s: string)
    requires '[' !in s
    ensures forall i :: 0 <= i < |Scan(d, s)| ==> Scan(d, s)[i].Char?
    decreases |s|
  {
    if s != [] {
      var ts := Scan(d, s);
      assert Match(d, s).None?;
      assert ts == [Char(s[0])] + Scan(d, s[1..]);
      ScanPlain(d, s[1..]);
    }
  }
}
