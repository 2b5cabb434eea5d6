/**
 The outbound rewrite engine of the relay (`rewriteIfUpload` and the text
 passes it uses). Every frame the bot client sends is offered to it; it
 returns either the frame's own bytes or a re-encoded command whose media
 references have been replaced by what the resolver returned.
 */
module Rewrite {
  import opened Wrappers
  import opened Text
  import opened CQArgs
  import opened Tags
  import opened Json
  import opened Resolver

  /** The resolver as the engine sees it: a reference and a suggested name in, a resolution out. */
  type ResolveFn = (string, string) -> Resolution

  // ---------------------------------------------------------------------------
  // CQ media tags in message text

  /** The reference a tag names, "" when it has no `file` attribute. */
  function FileRef(attrs: Attrs): string {
    if "file" in attrs then attrs["file"] else ""
  }

  /** The tag's own `name` attribute, "" when absent. */
  function NameAttr(attrs: Attrs): string {
    if "name" in attrs then attrs["name"] else ""
  }

  /** A tag left alone without consulting the resolver: a remote `url`, or a `file` that is missing, empty or remote. */
  predicate KeepsMediaTag(attrs: Attrs) {
    || ("url" in attrs && IsHttp(attrs["url"]))
    || FileRef(attrs) == ""
    || IsHttp(FileRef(attrs))
  }

  /** The attributes after a successful resolve: `file` is the escaped URL, `name` the resolved name when there is one. */
  function UpdatedAttrs(attrs: Attrs, url: string, name: string): (r: Attrs)
    ensures "file" in r && r["file"] == EscapeCommas(url)
    ensures name != "" ==> "name" in r && r["name"] == name
    ensures forall k :: k in r <==> k in attrs || k == "file" || (k == "name" && name != "")
    ensures forall k :: k in attrs && k != "file" && (k != "name" || name == "") ==> r[k] == attrs[k]
  {
    var withFile := attrs["file" := EscapeCommas(url)];
    if name != "" then withFile["name" := name] else withFile
  }

  /**
   The order in which the model writes the attributes other than `file`. Go
   walks a map here, in an unspecified order; the model fixes first occurrence
   in the original text, with a newly added `name` last.
   */
  function RebuildOrder(args: string, name: string): seq<string> {
    FreshKeys(PairKeys(ArgPairs(args)) + (if name != "" then ["name"] else []), {"file"})
  }

  lemma RebuildOrderEnumerates(args: string, url: string, name: string)
    ensures EnumeratesOthers(UpdatedAttrs(ParseArgs(args), url, name), RebuildOrder(args, name))
  {
    RebuildOrderPresent(args, url, name);
    RebuildOrderComplete(args, url, name);
  }

  lemma RebuildOrderPresent(args: string, url: string, name: string)
    ensures var attrs := UpdatedAttrs(ParseArgs(args), url, name);
      var order := RebuildOrder(args, name);
      forall i :: 0 <= i < |order| ==> order[i] in attrs && order[i] != "file"
  {
    var parsed := ParseArgs(args);
    var attrs := UpdatedAttrs(parsed, url, name);
    var original := PairKeys(ArgPairs(args));
    var keys := original + (if name != "" then ["name"] else []);
    var order := FreshKeys(keys, {"file"});
    forall i | 0 <= i < |order|
      ensures order[i] in attrs && order[i] != "file"
    {
      var k := order[i];
      assert k in keys && k != "file";
      if k in original {
        assert k in parsed;
      } else {
        assert k == "name" && name != "";
      }
    }
  }

  lemma RebuildOrderComplete(args: string, url: string, name: string)
    ensures var attrs := UpdatedAttrs(ParseArgs(args), url, name);
      forall k :: k in attrs && k != "file" ==> k in RebuildOrder(args, name)
  {
    var parsed := ParseArgs(args);
    var attrs := UpdatedAttrs(parsed, url, name);
    var original := PairKeys(ArgPairs(args));
    var keys := original + (if name != "" then ["name"] else []);
    assert forall k :: k in original ==> k in keys;
    assert name != "" ==> "name" in keys;
    assert forall k :: k in attrs && k != "file" ==> k in keys;
    FreshKeysKeeps(keys, "file");
  }

  lemma FreshKeysKeeps(keys: seq<string>, dropped: string)
    ensures forall k :: k in keys && k != dropped ==> k in FreshKeys(keys, {dropped})
  {
    forall k | k in keys && k != dropped
      ensures k in FreshKeys(keys, {dropped})
    {
      assert k !in {dropped};
    }
  }

  /**
   The replacement of one `[CQ:<kind><args>]` match. The tag comes back
   verbatim when it is kept or the resolver gives no URL; otherwise it is
   rebuilt as `[CQ:<kind>,file=<escaped URL>` followed by `,key=value` for
   every other attribute, in some order, and `]`.
   */
  function RewriteMediaTag(resolve: ResolveFn, kind: string, args: string): (r: string)
    ensures var attrs := ParseArgs(args);
      KeepsMediaTag(attrs) || resolve(FileRef(attrs), NameAttr(attrs)).url == "" ==>
        r == Raw(Media(kind, args))
    ensures var attrs := ParseArgs(args);
      var up := resolve(FileRef(attrs), NameAttr(attrs));
      !KeepsMediaTag(attrs) && up.url != "" ==>
        exists order ::
          && EnumeratesOthers(UpdatedAttrs(attrs, up.url, up.name), order)
          && r == MediaOpen + kind + RenderAttrs(UpdatedAttrs(attrs, up.url, up.name), order) + "]"
  {
    var attrs := ParseArgs(args);
    if KeepsMediaTag(attrs) then Raw(Media(kind, args))
    else
      var up := resolve(FileRef(attrs), NameAttr(attrs));
      if up.url == "" then Raw(Media(kind, args))
      else
        var updated := UpdatedAttrs(attrs, up.url, up.name);
        var order := RebuildOrder(args, up.name);
        RebuildOrderEnumerates(args, up.url, up.name);
        MediaOpen + kind + RenderAttrs(updated, order) + "]"
  }

  /** Replacing `file` and `name` with clean values keeps a clean attribute map clean. */
  lemma UpdatedAttrsClean(attrs: Attrs, url: string, name: string)
    requires CleanAttrs(attrs)
    requires CleanValue(EscapeCommas(url))
    requires name == "" || CleanValue(name)
    ensures CleanAttrs(UpdatedAttrs(attrs, url, name))
  {
    var updated := UpdatedAttrs(attrs, url, name);
    forall k | k in updated
      ensures CleanPair((k, updated[k]))
    {
      if k == "file" {
        assert CleanKey("file");
      } else if k == "name" && name != "" {
        assert CleanKey("name");
      } else {
        assert CleanPair((k, attrs[k]));
      }
    }
  }

  /**
   A rebuilt media tag is found again by the media pattern, with the same kind,
   and splitting its arguments gives the original attribute map with only
   `file` changed (and `name`, when the resolver named the media) — provided
   the escaped URL and the new name are themselves clean attribute values.
   */
  lemma RewrittenMediaTagRescans(resolve: ResolveFn, kind: string, args: string, rest: string)
    requires kind in MediaKinds && ']' !in args
    requires !KeepsMediaTag(ParseArgs(args))
    requires resolve(FileRef(ParseArgs(args)), NameAttr(ParseArgs(args))).url != ""
    requires CleanValue(EscapeCommas(resolve(FileRef(ParseArgs(args)), NameAttr(ParseArgs(args))).url))
    requires var n := resolve(FileRef(ParseArgs(args)), NameAttr(ParseArgs(args))).name; n == "" || CleanValue(n)
    ensures var r := RewriteMediaTag(resolve, kind, args);
      var m := MatchMedia(r + rest);
      var up := resolve(FileRef(ParseArgs(args)), NameAttr(ParseArgs(args)));
      && m.Some? && m.value.kind == kind && Raw(m.value) == r
      && ParseArgs(m.value.args) == UpdatedAttrs(ParseArgs(args), up.url, up.name)
  {
    var attrs := ParseArgs(args);
    var up := resolve(FileRef(attrs), NameAttr(attrs));
    var updated := UpdatedAttrs(attrs, up.url, up.name);
    var order := RebuildOrder(args, up.name);
    RebuildOrderEnumerates(args, up.url, up.name);
    ParseArgsClean(args);
    UpdatedAttrsClean(attrs, up.url, up.name);
    var newArgs := RenderAttrs(updated, order);
    RenderParseRoundTrip(updated, order);
    var r := RewriteMediaTag(resolve, kind, args);
    assert r == Raw(Media(kind, newArgs));
    MatchMediaIff(r + rest, kind, newArgs);
  }

  // ---------------------------------------------------------------------------
  // Picture tags in message text

  /** The tag a resolved picture becomes. */
  function PictureReplacement(url: string): string {
    Raw(Media("image", ",file=" + EscapeCommas(url)))
  }

  /**
   The replacement of one `[图:<src>]` match: the trimmed source is always
   resolved, with no check for a remote URL, and a resolved picture becomes an
   image tag holding only the escaped URL.
   */
  function RewritePictureTag(resolve: ResolveFn, src: string): (r: string)
    ensures resolve(TrimSpace(src), "").url == "" ==> r == Raw(Picture(src))
    ensures resolve(TrimSpace(src), "").url != "" ==> r == PictureReplacement(resolve(TrimSpace(src), "").url)
  {
    var up := resolve(TrimSpace(src), "");
    if up.url == "" then Raw(Picture(src)) else PictureReplacement(up.url)
  }

  /** The arguments of that image tag are the rendering of the single `file` attribute. */
  lemma PictureArgsRender(url: string)
    ensures RenderAttrs(map["file" := EscapeCommas(url)], []) == ",file=" + EscapeCommas(url)
  {
    var attrs := map["file" := EscapeCommas(url)];
    var pieces := AttrPieces(attrs, ["file"]);
    assert ["file"][1..] == [] && ["file"] + [] == ["file"];
    assert "file" + "=" == "file=";
    assert pieces == ["file=" + EscapeCommas(url)] + AttrPieces(attrs, []);
    assert RenderAttrs(attrs, []) == "," + JoinWith(pieces, ',');
    assert JoinWith(pieces, ',') == "file=" + EscapeCommas(url);
  }

  /** The arguments of that image tag split back into the single `file` attribute. */
  lemma PictureArgsParse(url: string)
    requires CleanValue(EscapeCommas(url))
    ensures ']' !in ",file=" + EscapeCommas(url)
    ensures ParseArgs(",file=" + EscapeCommas(url)) == map["file" := EscapeCommas(url)]
  {
    var attrs := map["file" := EscapeCommas(url)];
    assert CleanKey("file");
    assert CleanAttrs(attrs);
    RenderParseRoundTrip(attrs, []);
    PictureArgsRender(url);
  }

  /**
   The image tag a picture becomes is a media tag whose only attribute is
   `file`, when the escaped URL is a clean value: a ']' in the URL (an IPv6
   literal host, say) would end the tag early.
   */
  lemma PictureReplacementRescans(url: string, rest: string)
    requires CleanValue(EscapeCommas(url))
    ensures var m := MatchMedia(PictureReplacement(url) + rest);
      && m.Some? && m.value.kind == "image" && Raw(m.value) == PictureReplacement(url)
      && ParseArgs(m.value.args) == map["file" := EscapeCommas(url)]
  {
    PictureArgsParse(url);
    MatchMediaIff(PictureReplacement(url) + rest, "image", ",file=" + EscapeCommas(url));
  }

  // ---------------------------------------------------------------------------
  // Whole texts

  function RewriteToken(resolve: ResolveFn, t: Token): string {
    match t
    case Char(c) => [c]
    case Media(kind, args) => RewriteMediaTag(resolve, kind, args)
    case Picture(src) => RewritePictureTag(resolve, src)
  }

  /** Every token replaced by its rewrite, literal characters by themselves. */
  function Render(resolve: ResolveFn, ts: seq<Token>): (r: string)
    ensures (forall i :: 0 <= i < |ts| ==> RewriteToken(resolve, ts[i]) == Raw(ts[i])) ==> r == Flatten(ts)
    decreases |ts|
  {
    if ts == [] then ""
    else RewriteToken(resolve, ts[0]) + Render(resolve, ts[1..])
  }

  /** Rendering distributes over concatenation: each token is rewritten on its own. */
  lemma {:induction false} RenderAppend(resolve: ResolveFn, a: seq<Token>, b: seq<Token>)
    ensures Render(resolve, a + b) == Render(resolve, a) + Render(resolve, b)
    decreases |a|
  {
    if a == [] {
      assert a + b == b;
    } else {
      assert (a + b)[1..] == a[1..] + b;
      RenderAppend(resolve, a[1..], b);
    }
  }

  /** A single token renders as its rewrite. */
  lemma RenderSingle(resolve: ResolveFn, t: Token)
    ensures Render(resolve, [t]) == RewriteToken(resolve, t)
  {
    assert [t][1..] == [];
  }

  /** Literal characters render as themselves. */
  lemma RenderChars(resolve: ResolveFn, p: string)
    ensures Render(resolve, Chars(p)) == p
  {
  }

  /**
   One pass over a text holding a tag of its dialect after a prefix without
   '[': the prefix is kept, the tag is replaced by its rewrite, and the pass
   goes on after the tag.
   */
  lemma PassOverTag(resolve: ResolveFn, d: Dialect, p: string, t: Token, rest: string)
    requires '[' !in p
    requires !t.Char? && WellFormed(t) && OfDialect(d, t)
    ensures Render(resolve, Scan(d, p + Raw(t) + rest))
         == p + RewriteToken(resolve, t) + Render(resolve, Scan(d, rest))
  {
    assert p + Raw(t) + rest == p + (Raw(t) + rest);
    ScanPlainPrefix(d, p, Raw(t) + rest);
    ScanTagFirst(d, t, rest);
    RenderAppend(resolve, Chars(p), [t] + Scan(d, rest));
    RenderAppend(resolve, [t], Scan(d, rest));
    RenderChars(resolve, p);
    RenderSingle(resolve, t);
  }

  /** `rewriteCQMediaInText`: every media tag match replaced, the rest of the text kept. */
  function RewriteMediaTags(resolve: ResolveFn, s: string): string {
    Render(resolve, Scan(CQMedia, s))
  }

  /** `rewritePictureTagInText`: every picture tag match replaced, the rest of the text kept. */
  function RewritePictureTags(resolve: ResolveFn, s: string): string {
    Render(resolve, Scan(PictureTag, s))
  }

  /** A string message: the media pass first, then the picture pass on its output. */
  function RewriteMessageText(resolve: ResolveFn, s: string): string {
    RewritePictureTags(resolve, RewriteMediaTags(resolve, s))
  }

  /**
   The media pass replaces the first media tag of a text by `RewriteMediaTag`
   of its kind and arguments, keeps the text before it, and carries on after it.
   */
  lemma MediaTagInText(resolve: ResolveFn, p: string, kind: string, args: string, rest: string)
    requires '[' !in p
    requires kind in MediaKinds && ']' !in args
    ensures RewriteMediaTags(resolve, p + Raw(Media(kind, args)) + rest)
         == p + RewriteMediaTag(resolve, kind, args) + RewriteMediaTags(resolve, rest)
  {
    PassOverTag(resolve, CQMedia, p, Media(kind, args), rest);
  }

  /**
   The picture pass replaces the first picture tag of a text by
   `RewritePictureTag` of its source, keeps the text before it, and carries on
   after it.
   */
  lemma PictureTagInText(resolve: ResolveFn, p: string, src: string, rest: string)
    requires '[' !in p
    requires src != [] && ']' !in src
    ensures RewritePictureTags(resolve, p + Raw(Picture(src)) + rest)
         == p + RewritePictureTag(resolve, src) + RewritePictureTags(resolve, rest)
  {
    PassOverTag(resolve, PictureTag, p, Picture(src), rest);
  }

  /** The media pass leaves a text whose only '[' opens a picture tag unchanged. */
  lemma MediaPassSkipsPicture(resolve: ResolveFn, p: string, src: string, rest: string)
    requires '[' !in p && '[' !in src && '[' !in rest
    ensures RewriteMediaTags(resolve, p + Raw(Picture(src)) + rest) == p + Raw(Picture(src)) + rest
  {
    var tail := Raw(Picture(src))[1..] + rest;
    assert p + Raw(Picture(src)) + rest == p + ("[" + tail);
    assert "[" + tail != [] && ("[" + tail)[1..] == tail;
    assert !(MediaOpen <= "[" + tail) by {
      assert ("[" + tail)[1] == PictureOpen[1] != MediaOpen[1];
    }
    assert '[' !in tail by {
      assert Raw(Picture(src))[1..] == PictureOpen[1..] + src + "]";
    }
    ScanPlainPrefix(CQMedia, p, "[" + tail);
    ScanCharFirst(CQMedia, "[" + tail);
    ScanPlainPrefix(CQMedia, tail, []);
    assert tail + [] == tail;
    RenderAppend(resolve, Chars(p), [Char('[')] + Scan(CQMedia, tail));
    RenderAppend(resolve, [Char('[')], Scan(CQMedia, tail));
    RenderChars(resolve, p);
    RenderSingle(resolve, Char('['));
    RenderChars(resolve, tail);
  }

  /**
   A message whose only tag is one picture tag (no '[' elsewhere) comes out
   with that tag replaced by the picture rewrite and everything else kept:
   the media pass does not touch it, the picture pass rewrites it.
   */
  lemma MessageWithOnePicture(resolve: ResolveFn, p: string, src: string, rest: string)
    requires '[' !in p && '[' !in src && '[' !in rest
    requires src != [] && ']' !in src
    ensures RewriteMessageText(resolve, p + Raw(Picture(src)) + rest)
         == p + RewritePictureTag(resolve, src) + rest
  {
    MediaPassSkipsPicture(resolve, p, src, rest);
    PictureTagInText(resolve, p, src, rest);
    ScanPlain(PictureTag, rest);
  }

  /** A resolver that never produces a URL. */
  ghost predicate NeverResolves(resolve: ResolveFn) {
    forall ref, name :: resolve(ref, name).url == ""
  }

  lemma {:induction false} ScanUnchanged(resolve: ResolveFn, d: Dialect, s: string)
    requires NeverResolves(resolve)
    ensures Render(resolve, Scan(d, s)) == s
  {
    var ts := Scan(d, s);
    forall i | 0 <= i < |ts|
      ensures RewriteToken(resolve, ts[i]) == Raw(ts[i])
    {
      match ts[i]
      case Char(_) =>
      case Media(kind, args) =>
        var attrs := ParseArgs(args);
        assert resolve(FileRef(attrs), NameAttr(attrs)).url == "";
      case Picture(src) =>
        assert resolve(TrimSpace(src), "").url == "";
    }
  }

  /** With a resolver that never produces a URL, message text is never changed. */
  lemma UnresolvableTextUnchanged(resolve: ResolveFn, s: string)
    requires NeverResolves(resolve)
    ensures RewriteMediaTags(resolve, s) == s
    ensures RewritePictureTags(resolve, s) == s
    ensures RewriteMessageText(resolve, s) == s
  {
    ScanUnchanged(resolve, CQMedia, s);
    ScanUnchanged(resolve, PictureTag, s);
  }

  /** Text without '[' is never changed, whatever the resolver does. */
  lemma PlainTextUnchanged(resolve: ResolveFn, s: string)
    requires '[' !in s
    ensures RewriteMessageText(resolve, s) == s
  {
    ScanPlain(CQMedia, s);
    ScanPlain(PictureTag, s);
  }

  /**
   A text that is exactly one picture tag with a resolvable source becomes the
   image tag of the resolved URL.
   */
  lemma SinglePictureTag(resolve: ResolveFn, src: string)
    requires src != [] && ']' !in src
    requires resolve(TrimSpace(src), "").url != ""
    ensures RewritePictureTags(resolve, Raw(Picture(src))) == PictureReplacement(resolve(TrimSpace(src), "").url)
  {
    var s := Raw(Picture(src));
    MatchPictureIff(s, src);
    assert s == Raw(Picture(src)) + [];
    var ts := Scan(PictureTag, s);
    assert ts == [Picture(src)] + Scan(PictureTag, []);
  }
}
