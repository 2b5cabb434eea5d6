/**
 The command level of the outbound rewrite engine: message segments, the
 three send actions, the two upload actions, and the frame in/frame out
 function the relay applies to every text frame from the bot client.
 */
module Commands {
  import opened Wrappers
  import opened Text
  import opened CQArgs
  import opened Tags
  import opened Json
  import opened Resolver
  import opened Rewrite

  /** A resolver that never produces a URL or a local path. */
  ghost predicate NeverUploads(resolve: ResolveFn) {
    forall ref, name :: resolve(ref, name).url == "" && resolve(ref, name).localPath == ""
  }

  // ---------------------------------------------------------------------------
  // Message segments

  /** The reference a media segment names: `data.file`, else `data.path`. */
  function SegmentSource(data: map<string, Json>): string {
    if StrField(data, "file") != "" then StrField(data, "file") else StrField(data, "path")
  }

  /** The segment data after a successful resolve: `url` and `file` both the URL, `path` gone. */
  function ResolvedData(data: map<string, Json>, url: string): (r: map<string, Json>)
    ensures r.Keys == data.Keys + {"url", "file"} - {"path"}
    ensures r["url"] == JStr(url) && r["file"] == JStr(url)
    ensures forall k :: k in data && k != "url" && k != "file" && k != "path" ==> k in r && r[k] == data[k]
  {
    data["url" := JStr(url)]["file" := JStr(url)] - {"path"}
  }

  /** The segment with its `data` member replaced. */
  function WithData(seg: map<string, Json>, data: map<string, Json>): map<string, Json> {
    seg["data" := JObj(data)]
  }

  /**
   One element of an array message, and whether it changed. Media segments
   with a remote `url`, or with no `file` and no `path`, are skipped; a
   resolved media segment gets the URL in `url` and `file` and loses `path`;
   a text segment gets the picture pass; nothing else is touched.
   */
  function RewriteSegment(resolve: ResolveFn, el: Json): (r: (Json, bool))
    ensures !r.1 ==> r.0 == el
    ensures r.1 ==>
      && el.JObj? && ObjField(el.fields, "data").Some? && r.0.JObj?
      && r.0.fields.Keys == el.fields.Keys
      && (forall k :: k in el.fields && k != "data" ==> r.0.fields[k] == el.fields[k])
    ensures r.1 && StrField(el.fields, "type") in MediaKinds ==>
      var data := ObjField(el.fields, "data").value;
      && !IsHttp(StrField(data, "url")) && SegmentSource(data) != ""
      && resolve(SegmentSource(data), "").url != ""
      && r.0.fields["data"] == JObj(ResolvedData(data, resolve(SegmentSource(data), "").url))
    ensures r.1 && StrField(el.fields, "type") !in MediaKinds ==>
      var text := StrField(ObjField(el.fields, "data").value, "text");
      && StrField(el.fields, "type") == "text"
      && RewritePictureTags(resolve, text) != text
      && r.0.fields["data"] == JObj(ObjField(el.fields, "data").value["text" := JStr(RewritePictureTags(resolve, text))])
    ensures el.JObj? && ObjField(el.fields, "data").Some? && StrField(el.fields, "type") in MediaKinds ==>
      var data := ObjField(el.fields, "data").value;
      r.1 <==> !IsHttp(StrField(data, "url")) && SegmentSource(data) != "" && resolve(SegmentSource(data), "").url != ""
    ensures el.JObj? && ObjField(el.fields, "data").Some? && StrField(el.fields, "type") == "text" ==>
      var text := StrField(ObjField(el.fields, "data").value, "text");
      r.1 <==> RewritePictureTags(resolve, text) != text
  {
    match el
    case JObj(seg) =>
      (match ObjField(seg, "data")
       case None => (el, false)
       case Some(data) =>
         var kind := StrField(seg, "type");
         if kind in MediaKinds then
           var src := SegmentSource(data);
           if IsHttp(StrField(data, "url")) || src == "" then (el, false)
           else
             var up := resolve(src, "");
             if up.url == "" then (el, false)
             else (JObj(WithData(seg, ResolvedData(data, up.url))), true)
         else if kind == "text" then
           var text := StrField(data, "text");
           var rewritten := RewritePictureTags(resolve, text);
           if text == "" || rewritten == text then (el, false)
           else (JObj(WithData(seg, data["text" := JStr(rewritten)])), true)
         else (el, false))
    case _ => (el, false)
  }

  /**
   The loop over an array message: every element rewritten independently, in
   place, and a flag that is set exactly when some element changed.
   */
  function RewriteSegments(resolve: ResolveFn, items: seq<Json>): (r: (seq<Json>, bool))
    ensures |r.0| == |items|
    ensures forall i :: 0 <= i < |items| ==> r.0[i] == RewriteSegment(resolve, items[i]).0
    ensures r.1 <==> exists i :: 0 <= i < |items| && RewriteSegment(resolve, items[i]).1
    ensures !r.1 ==> r.0 == items
    decreases |items|
  {
    if items == [] then ([], false)
    else
      var head := RewriteSegment(resolve, items[0]);
      var tail := RewriteSegments(resolve, items[1..]);
      assert forall i :: 1 <= i < |items| ==> items[i] == items[1..][i - 1];
      ([head.0] + tail.0, head.1 || tail.1)
  }

  // ---------------------------------------------------------------------------
  // Send actions

  /**
   The new parameters of a send action, None when the original frame is to be
   forwarded. Only `message` ever changes: a string message when the two text
   passes change it, an array message when some segment changed.
   */
  function RewriteSendParams(resolve: ResolveFn, params: Json): (r: Option<Json>)
    ensures r.Some? ==>
      && params.JObj? && r.value.JObj?
      && r.value.fields.Keys == params.fields.Keys + {"message"}
      && (forall k :: k in params.fields && k != "message" ==> r.value.fields[k] == params.fields[k])
    ensures params.JObj? && Field(params.fields, "message").JStr? ==>
      var text := Field(params.fields, "message").s;
      && (r.Some? <==> RewriteMessageText(resolve, text) != text)
      && (r.Some? ==> r.value.fields["message"] == JStr(RewriteMessageText(resolve, text)))
    ensures params.JObj? && Field(params.fields, "message").JArr? ==>
      var items := Field(params.fields, "message").items;
      && (r.Some? <==> exists i :: 0 <= i < |items| && RewriteSegment(resolve, items[i]).1)
      && (r.Some? ==> r.value.fields["message"] == JArr(RewriteSegments(resolve, items).0))
    ensures !(params.JObj? && (Field(params.fields, "message").JStr? || Field(params.fields, "message").JArr?)) ==> r.None?
  {
    match params
    case JObj(fields) =>
      (match Field(fields, "message")
       case JStr(text) =>
         var rewritten := RewriteMessageText(resolve, text);
         if rewritten != text then Some(JObj(fields["message" := JStr(rewritten)])) else None
       case JArr(items) =>
         var (out, changed) := RewriteSegments(resolve, items);
         if changed then Some(JObj(fields["message" := JArr(out)])) else None
       case _ => None)
    case _ => None
  }

  // ---------------------------------------------------------------------------
  // Upload actions

  datatype UploadKind = PrivateFile | GroupFile

  /** The member naming the recipient. */
  function IdKey(kind: UploadKind): string {
    match kind
    case PrivateFile => "user_id"
    case GroupFile => "group_id"
  }

  /** The send action an upload is converted into when only a URL is available. */
  function SendActionFor(kind: UploadKind): string {
    match kind
    case PrivateFile => "send_private_msg"
    case GroupFile => "send_group_msg"
  }

  /** The upload action itself. */
  function UploadActionFor(kind: UploadKind): string {
    match kind
    case PrivateFile => "upload_private_file"
    case GroupFile => "upload_group_file"
  }

  /** `[CQ:file,file=<escaped URL>,name=<name>]`; the name is written as it is. */
  function FileTag(url: string, name: string): string {
    "[CQ:file,file=" + EscapeCommas(url) + ",name=" + name + "]"
  }

  /** `json.Marshal` of the typed send struct: the recipient and the message. */
  function SendParamsJson(idKey: string, id: int, message: string): Json {
    JObj(map[idKey := JNum(id as real), "message" := JStr(message)])
  }

  /**
   An upload command after resolving its `file` once: the same action with
   the local path when there is one, else the matching send action carrying a
   file tag when there is a URL, else None (forward the original frame).
   Parameters that do not decode into the typed struct leave the frame alone.
   */
  function RewriteUpload(resolve: ResolveFn, kind: UploadKind, cmd: Envelope): (r: Option<Envelope>)
    ensures DecodeUploadParams(IdKey(kind), cmd.params).None? ==> r.None?
    ensures r.Some? ==> r.value.echo == cmd.echo
    ensures DecodeUploadParams(IdKey(kind), cmd.params).Some? ==>
      var p := DecodeUploadParams(IdKey(kind), cmd.params).value;
      var up := resolve(p.file, p.name);
      && (up.localPath != "" ==>
            r == Some(Envelope(UploadActionFor(kind), UploadParamsJson(IdKey(kind), UploadParams(p.id, up.localPath, up.name)), cmd.echo)))
      && (up.localPath == "" && up.url != "" ==>
            r == Some(Envelope(SendActionFor(kind), SendParamsJson(IdKey(kind), p.id, FileTag(up.url, up.name)), cmd.echo)))
      && (up.localPath == "" && up.url == "" ==> r.None?)
  {
    match DecodeUploadParams(IdKey(kind), cmd.params)
    case None => None
    case Some(p) =>
      var up := resolve(p.file, p.name);
      if up.localPath != "" then
        Some(Envelope(UploadActionFor(kind), UploadParamsJson(IdKey(kind), UploadParams(p.id, up.localPath, up.name)), cmd.echo))
      else if up.url != "" then
        Some(Envelope(SendActionFor(kind), SendParamsJson(IdKey(kind), p.id, FileTag(up.url, up.name)), cmd.echo))
      else None
  }

  // ---------------------------------------------------------------------------
  // Dispatch

  datatype Action = SendMsg | SendPrivateMsg | SendGroupMsg | UploadPrivateFile | UploadGroupFile

  function ActionName(a: Action): string {
    match a
    case SendMsg => "send_msg"
    case SendPrivateMsg => "send_private_msg"
    case SendGroupMsg => "send_group_msg"
    case UploadPrivateFile => "upload_private_file"
    case UploadGroupFile => "upload_group_file"
  }

  /** The action a command names; any other name is an action the relay does not touch. */
  function ParseAction(s: string): (r: Option<Action>)
    ensures r.Some? ==> ActionName(r.value) == s
    ensures r.None? ==> forall a: Action :: ActionName(a) != s
  {
    if s == "send_msg" then Some(SendMsg)
    else if s == "send_private_msg" then Some(SendPrivateMsg)
    else if s == "send_group_msg" then Some(SendGroupMsg)
    else if s == "upload_private_file" then Some(UploadPrivateFile)
    else if s == "upload_group_file" then Some(UploadGroupFile)
    else None
  }

  /** The command to send instead of the original, None to forward the original frame. */
  function RewriteCommand(resolve: ResolveFn, cmd: Envelope): (r: Option<Envelope>)
    ensures ParseAction(cmd.action).None? ==> r.None?
    ensures r.Some? ==> r.value.echo == cmd.echo
    ensures ParseAction(cmd.action) == Some(UploadPrivateFile) ==> r == RewriteUpload(resolve, PrivateFile, cmd)
    ensures ParseAction(cmd.action) == Some(UploadGroupFile) ==> r == RewriteUpload(resolve, GroupFile, cmd)
    ensures ParseAction(cmd.action) in {Some(SendMsg), Some(SendPrivateMsg), Some(SendGroupMsg)} ==>
      && (r.Some? <==> RewriteSendParams(resolve, cmd.params).Some?)
      && (r.Some? ==> r.value == Envelope(cmd.action, RewriteSendParams(resolve, cmd.params).value, cmd.echo))
  {
    match ParseAction(cmd.action)
    case None => None
    case Some(UploadPrivateFile) => RewriteUpload(resolve, PrivateFile, cmd)
    case Some(UploadGroupFile) => RewriteUpload(resolve, GroupFile, cmd)
    case Some(_) =>
      (match RewriteSendParams(resolve, cmd.params)
       case None => None
       case Some(params) => Some(Envelope(cmd.action, params, cmd.echo)))
  }

  /**
   `rewriteIfUpload`: the bytes to forward for one text frame. A frame that is
   not JSON, not a command, names another action or needs no change is
   forwarded as it is; otherwise the replacement command is serialized.
   */
  function RewriteFrame(codec: Codec, resolve: ResolveFn, frame: seq<byte>): (r: seq<byte>)
    ensures codec.parse(frame).None? ==> r == frame
    ensures codec.parse(frame).Some? && DecodeEnvelope(codec.parse(frame).value).None? ==> r == frame
    ensures codec.parse(frame).Some? && DecodeEnvelope(codec.parse(frame).value).Some? ==>
      var cmd := DecodeEnvelope(codec.parse(frame).value).value;
      && (RewriteCommand(resolve, cmd).None? ==> r == frame)
      && (RewriteCommand(resolve, cmd).Some? ==> r == codec.serialize(EnvelopeJson(RewriteCommand(resolve, cmd).value)))
  {
    match codec.parse(frame)
    case None => frame
    case Some(j) =>
      (match DecodeEnvelope(j)
       case None => frame
       case Some(cmd) =>
         (match RewriteCommand(resolve, cmd)
          case None => frame
          case Some(e) => codec.serialize(EnvelopeJson(e))))
  }

  // ---------------------------------------------------------------------------
  // Properties of the engine

  /** With a resolver that never produces anything, no command is ever replaced. */
  lemma {:induction false} UnresolvableCommandsPassThrough(resolve: ResolveFn, cmd: Envelope)
    requires NeverUploads(resolve)
    ensures RewriteCommand(resolve, cmd).None?
  {
    assert NeverResolves(resolve) by {
      forall ref, name
        ensures resolve(ref, name).url == ""
      {
        assert resolve(ref, name).url == "" && resolve(ref, name).localPath == "";
      }
    }
    match ParseAction(cmd.action)
    case None =>
    case Some(UploadPrivateFile) =>
      if DecodeUploadParams(IdKey(PrivateFile), cmd.params).Some? {
        var p := DecodeUploadParams(IdKey(PrivateFile), cmd.params).value;
        assert resolve(p.file, p.name).url == "" && resolve(p.file, p.name).localPath == "";
      }
    case Some(UploadGroupFile) =>
      if DecodeUploadParams(IdKey(GroupFile), cmd.params).Some? {
        var p := DecodeUploadParams(IdKey(GroupFile), cmd.params).value;
        assert resolve(p.file, p.name).url == "" && resolve(p.file, p.name).localPath == "";
      }
    case Some(_) =>
      if cmd.params.JObj? {
        match Field(cmd.params.fields, "message")
        case JStr(text) =>
          UnresolvableTextUnchanged(resolve, text);
        case JArr(items) =>
          forall i | 0 <= i < |items|
            ensures !RewriteSegment(resolve, items[i]).1
          {
            SegmentUnchanged(resolve, items[i]);
          }
        case _ =>
      }
  }

  lemma SegmentUnchanged(resolve: ResolveFn, el: Json)
    requires NeverResolves(resolve)
    ensures !RewriteSegment(resolve, el).1
  {
    if el.JObj? && ObjField(el.fields, "data").Some? {
      var data := ObjField(el.fields, "data").value;
      assert resolve(SegmentSource(data), "").url == "";
      UnresolvableTextUnchanged(resolve, StrField(data, "text"));
    }
  }

  /** Fail-open: with a resolver that never produces anything, every frame is forwarded as it is. */
  lemma UnresolvableFramesPassThrough(codec: Codec, resolve: ResolveFn, frame: seq<byte>)
    requires NeverUploads(resolve)
    ensures RewriteFrame(codec, resolve, frame) == frame
  {
    if codec.parse(frame).Some? && DecodeEnvelope(codec.parse(frame).value).Some? {
      UnresolvableCommandsPassThrough(resolve, DecodeEnvelope(codec.parse(frame).value).value);
    }
  }

  /** A codec that reads back whatever it writes. */
  ghost predicate ReadsBack(codec: Codec) {
    forall j :: codec.parse(codec.serialize(j)) == Some(j)
  }

  /**
   A frame the relay replaces came from a command, and the bytes it forwards
   instead decode to exactly the replacement command: same echo, and an
   action the relay knows.
   */
  lemma ReplacedFrameDecodes(codec: Codec, resolve: ResolveFn, frame: seq<byte>)
    requires ReadsBack(codec)
    requires RewriteFrame(codec, resolve, frame) != frame
    ensures codec.parse(frame).Some? && DecodeEnvelope(codec.parse(frame).value).Some?
    ensures var cmd := DecodeEnvelope(codec.parse(frame).value).value;
      var out := codec.parse(RewriteFrame(codec, resolve, frame));
      && RewriteCommand(resolve, cmd).Some?
      && out.Some? && DecodeEnvelope(out.value) == RewriteCommand(resolve, cmd)
      && DecodeEnvelope(out.value).value.echo == cmd.echo
      && ParseAction(DecodeEnvelope(out.value).value.action).Some?
  {
    var cmd := DecodeEnvelope(codec.parse(frame).value).value;
    var e := RewriteCommand(resolve, cmd).value;
    assert codec.parse(codec.serialize(EnvelopeJson(e))) == Some(EnvelopeJson(e));
    EnvelopeRoundTrip(e);
    var a := ParseAction(cmd.action).value;
    match a
    case UploadPrivateFile =>
      assert ParseAction(e.action).Some? by {
        assert e.action == "upload_private_file" || e.action == "send_private_msg";
      }
    case UploadGroupFile =>
      assert ParseAction(e.action).Some? by {
        assert e.action == "upload_group_file" || e.action == "send_group_msg";
      }
    case _ =>
      assert e.action == cmd.action;
  }

  /**
   A rewritten upload keeps its recipient: the id reads back the same from
   the new parameters, and a re-emitted upload decodes to the local path and
   the resolved name. Ids are exact integers here; Go's float64 pass over the
   parameters is not modelled.
   */
  lemma UploadKeepsRecipient(resolve: ResolveFn, kind: UploadKind, cmd: Envelope)
    requires RewriteUpload(resolve, kind, cmd).Some?
    ensures DecodeUploadParams(IdKey(kind), cmd.params).Some?
    ensures var e := RewriteUpload(resolve, kind, cmd).value;
      var p := DecodeUploadParams(IdKey(kind), cmd.params).value;
      var up := resolve(p.file, p.name);
      && e.params.JObj?
      && AsInt64(Field(e.params.fields, IdKey(kind))) == Some(p.id)
      && (e.action == UploadActionFor(kind) ==>
            DecodeUploadParams(IdKey(kind), e.params) == Some(UploadParams(p.id, up.localPath, up.name)))
  {
    var p := DecodeUploadParams(IdKey(kind), cmd.params).value;
    var up := resolve(p.file, p.name);
    assert (p.id as real).Floor == p.id;
    UploadParamsRoundTrip(IdKey(kind), UploadParams(p.id, up.localPath, up.name));
  }

  /**
   The file tag an upload is converted into carries exactly `file` and `name`,
   when the escaped URL and the name are clean attribute values. The name is
   written unescaped, so this condition is needed: `NameWithCommaAddsKey`
   shows a name that adds a key of its own.
   */
  lemma FileTagAttributes(url: string, name: string)
    requires CleanValue(EscapeCommas(url)) && CleanValue(name)
    ensures var tag := FileTag(url, name);
      var args := ",file=" + EscapeCommas(url) + ",name=" + name;
      && tag == "[CQ:file" + args + "]"
      && ']' !in args
      && ParseArgs(args) == map["file" := EscapeCommas(url), "name" := name]
  {
    FileTagShape(url, name);
    FileTagRoundTrip(url, name);
    FileTagRender(url, name);
  }

  lemma FileTagShape(url: string, name: string)
    ensures FileTag(url, name) == "[CQ:file" + (",file=" + EscapeCommas(url) + ",name=" + name) + "]"
  {
    assert "[CQ:file" + ",file=" == "[CQ:file,file=";
  }

  lemma FileTagRoundTrip(url: string, name: string)
    requires CleanValue(EscapeCommas(url)) && CleanValue(name)
    ensures var attrs := map["file" := EscapeCommas(url), "name" := name];
      && ']' !in RenderAttrs(attrs, ["name"])
      && ParseArgs(RenderAttrs(attrs, ["name"])) == attrs
  {
    var attrs := map["file" := EscapeCommas(url), "name" := name];
    assert CleanKey("file") && CleanKey("name");
    assert CleanAttrs(attrs);
    assert forall k :: k in attrs && k != "file" ==> k in ["name"];
    RenderParseRoundTrip(attrs, ["name"]);
  }

  lemma FileTagRender(url: string, name: string)
    ensures RenderAttrs(map["file" := EscapeCommas(url), "name" := name], ["name"])
         == ",file=" + EscapeCommas(url) + ",name=" + name
  {
    var attrs := map["file" := EscapeCommas(url), "name" := name];
    var keys := ["file"] + ["name"];
    assert keys[1..] == ["name"] && keys[1..][1..] == [];
    assert "file" + "=" == "file=" && "name" + "=" == "name=";
    assert AttrPieces(attrs, keys[1..][1..]) == [];
    assert AttrPieces(attrs, keys[1..]) == ["name=" + name];
    var pieces := AttrPieces(attrs, keys);
    assert pieces == ["file=" + EscapeCommas(url)] + ["name=" + name];
    assert JoinWith(pieces, ',') == pieces[0] + [','] + JoinWith(pieces[1..], ',');
    assert pieces[1..] == ["name=" + name];
  }

  /**
   A name holding ',' is not escaped in the file tag, so it splits the tag:
   the name `a,k=v` leaves `name` as `a` and adds the attribute `k=v`.
   */
  lemma NameWithCommaAddsKey(url: string)
    requires CleanValue(EscapeCommas(url))
    ensures ParseArgs(",file=" + EscapeCommas(url) + ",name=" + "a,k=v")
         == map["file" := EscapeCommas(url), "name" := "a", "k" := "v"]
  {
    var attrs := map["file" := EscapeCommas(url), "name" := "a", "k" := "v"];
    assert CleanKey("file") && CleanKey("name") && CleanKey("k");
    assert CleanValue("a") && CleanValue("v");
    assert CleanAttrs(attrs);
    RenderParseRoundTrip(attrs, ["name", "k"]);
    CommaNameRender(url);
  }

  lemma CommaNameRender(url: string)
    ensures RenderAttrs(map["file" := EscapeCommas(url), "name" := "a", "k" := "v"], ["name", "k"])
         == ",file=" + EscapeCommas(url) + ",name=" + "a,k=v"
  {
    var attrs := map["file" := EscapeCommas(url), "name" := "a", "k" := "v"];
    var keys := ["file"] + ["name", "k"];
    assert keys[1..] == ["name", "k"] && keys[1..][1..] == ["k"] && keys[1..][1..][1..] == [];
    assert "file" + "=" == "file=" && "name" + "=" + "a" == "name=a" && "k" + "=" + "v" == "k=v";
    assert attrs["name"] == "a" && attrs["k"] == "v";
    assert AttrPieces(attrs, keys[1..][1..][1..]) == [];
    assert AttrPieces(attrs, keys[1..][1..]) == ["k=v"];
    assert AttrPieces(attrs, keys[1..]) == ["name=a", "k=v"];
    var pieces := AttrPieces(attrs, keys);
    assert pieces == ["file=" + EscapeCommas(url), "name=a", "k=v"];
    assert JoinWith(pieces[2..], ',') == "k=v";
    assert JoinWith(pieces[1..], ',') == "name=a" + [','] + "k=v";
    assert JoinWith(pieces, ',') == pieces[0] + [','] + JoinWith(pieces[1..], ',');
  }

  /**
   A media segment naming only a local path, resolved to `u`, ends up with
   `url` and `file` both `u` and no `path`.
   */
  lemma PathSegmentExample(resolve: ResolveFn, u: string)
    requires resolve("/tmp/a.jpg", "").url == u && u != ""
    ensures var el := JObj(map["type" := JStr("image"), "data" := JObj(map["path" := JStr("/tmp/a.jpg")])]);
      RewriteSegment(resolve, el)
        == (JObj(map["type" := JStr("image"), "data" := JObj(map["url" := JStr(u), "file" := JStr(u)])]), true)
  {
    var data := map["path" := JStr("/tmp/a.jpg")];
    var seg := map["type" := JStr("image"), "data" := JObj(data)];
    assert ObjField(seg, "data") == Some(data);
    assert StrField(seg, "type") == "image";
    assert StrField(data, "file") == "" && StrField(data, "url") == "";
    assert !IsHttp("");
    assert SegmentSource(data) == "/tmp/a.jpg";
    var resolved := map["url" := JStr(u), "file" := JStr(u)];
    assert ResolvedData(data, u) == resolved;
    assert WithData(seg, resolved) == map["type" := JStr("image"), "data" := JObj(resolved)];
  }

  /**
   `upload_private_file` for user 7 and file `a.png`, resolved only to a URL
   `u` named `a.png`, becomes `send_private_msg` to user 7 with the file tag.
   */
  lemma UploadToSendExample(resolve: ResolveFn, u: string, echo: Json)
    requires u != "" && ',' !in u
    requires resolve("a.png", "") == Resolution(u, "", "a.png")
    ensures RewriteCommand(resolve, Envelope("upload_private_file", JObj(map["user_id" := JNum(7.0), "file" := JStr("a.png")]), echo))
         == Some(Envelope("send_private_msg", SendParamsJson("user_id", 7, "[CQ:file,file=" + u + ",name=a.png]"), echo))
  {
    var params := JObj(map["user_id" := JNum(7.0), "file" := JStr("a.png")]);
    assert (7.0).Floor == 7;
    assert DecodeUploadParams("user_id", params) == Some(UploadParams(7, "a.png", ""));
    assert ParseAction("upload_private_file") == Some(UploadPrivateFile);
    assert EscapeCommas(u) == u;
    assert FileTag(u, "a.png") == "[CQ:file,file=" + u + ",name=a.png]";
    var cmd := Envelope("upload_private_file", params, echo);
    assert RewriteUpload(resolve, PrivateFile, cmd)
        == Some(Envelope("send_private_msg", SendParamsJson("user_id", 7, FileTag(u, "a.png")), echo));
  }

  // ---------------------------------------------------------------------------
  // The engine with the relay's own resolver

  /** The resolver the relay uses: `uploadViaB` against the given host. */
  function RelayResolver(host: Host): ResolveFn {
    (ref, name) => Resolve(host, ref, name)
  }

  /** The upload service is never reached, or never answers 2xx with a reply. */
  ghost predicate UploaderDown(host: Host) {
    forall payload, name :: !(host.upload(payload, name).Answered?
                              && Is2xx(host.upload(payload, name).status)
                              && host.upload(payload, name).reply.Some?)
  }

  /** With the upload service down, the relay resolver only ever returns remote URLs as they are. */
  lemma DownResolverOnlyPassesUrls(host: Host, ref: string, name: string)
    requires UploaderDown(host)
    ensures Resolve(host, ref, name).localPath == ""
    ensures Resolve(host, ref, name).url != "" ==> IsHttp(ref) && Resolve(host, ref, name).url == ref
  {
    var plan := Classify(host, ref, name);
    if plan.Submit? {
      var t := host.upload(plan.payload, plan.name);
      assert !(t.Answered? && Is2xx(t.status) && t.reply.Some?);
    }
  }

  /** With the upload service down, CQ media tags are forwarded unchanged. */
  lemma DownUploaderKeepsMediaTags(host: Host, kind: string, args: string)
    requires UploaderDown(host)
    ensures RewriteMediaTag(RelayResolver(host), kind, args) == Raw(Media(kind, args))
  {
    var attrs := ParseArgs(args);
    DownResolverOnlyPassesUrls(host, FileRef(attrs), NameAttr(attrs));
  }

  /**
   A picture tag whose trimmed source is a remote URL becomes an image tag of
   that URL without any upload, since picture tags skip the remote check.
   */
  lemma RemotePictureNeedsNoUpload(host: Host, src: string)
    requires IsHttp(TrimSpace(src))
    ensures RewritePictureTag(RelayResolver(host), src) == PictureReplacement(TrimSpace(src))
  {
    assert RelayResolver(host)(TrimSpace(src), "").url == TrimSpace(src);
  }
}
