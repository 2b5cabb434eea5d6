/**
 The media resolver of the relay (`uploadViaB`): it sorts a reference into a
 remote URL, an inline base64 payload, a `file://` URI or a bare path, picks
 the display name, and hands the bytes to the upload service. The I/O it does
 (URL parsing, base64 decoding, working-directory lookup, opening the file,
 the HTTP round trip) is supplied by a `Host`.
 */
module Resolver {
  import opened Wrappers
  import opened Text
  import Paths

  /** The answer of one resolution; all three fields empty means it failed. */
  datatype Resolution = Resolution(url: string, localPath: string, name: string)

  const Failed: Resolution := Resolution("", "", "")

  /** What the upload service is asked to store. */
  datatype Payload = Decoded(data: seq<byte>) | DiskFile(path: string)

  /** The upload service's JSON reply `{url, name, local_path}`. */
  datatype UploadReply = UploadReply(url: string, name: string, localPath: string)

  /**
   How one upload ended: no answer (building the request, sending it or
   copying the file failed), or a status with the reply body, if it decoded.
   */
  datatype Transfer = TransferError | Answered(status: int, reply: Option<UploadReply>)

  /**
   The environment of the resolver:
   - `urlPath`: `url.Parse(s)` followed by `.Path`, None when parsing fails;
   - `decodeBase64`: standard base64 decoding, None on malformed input;
   - `absPath`: `filepath.Abs`, None when the working directory is unknown;
   - `canOpen`: whether `os.Open` succeeds on the path;
   - `windows`: whether `runtime.GOOS` is "windows";
   - `upload`: the multipart POST of a payload under a file name.
   */
  datatype Host = Host(
    urlPath: string -> Option<string>,
    decodeBase64: string -> Option<seq<byte>>,
    absPath: string -> Option<string>,
    canOpen: string -> bool,
    windows: bool,
    upload: (Payload, string) -> Transfer)

  /** The decision the resolver takes for one reference before any upload. */
  datatype Plan =
    | Direct(url: string, name: string)      // already remote: used as is
    | Unusable                               // undecodable base64 or unopenable file
    | Submit(payload: Payload, name: string) // to be uploaded under `name`

  const HttpScheme: string := "http://"
  const HttpsScheme: string := "https://"
  const Base64Scheme: string := "base64://"
  const FileScheme: string := "file://"
  const DefaultBinaryName: string := "file.bin"

  predicate IsHttp(s: string) {
    HttpScheme <= s || HttpsScheme <= s
  }

  /**
   The default name of a remote URL: the last element of its path, unless the
   URL does not parse or its path is made of separators only.
   */
  function UrlDefaultName(host: Host, url: string): (r: string)
    ensures '/' !in r
    ensures host.urlPath(url).None? ==> r == ""
    ensures host.urlPath(url) == Some("") ==> r == "."
    ensures host.urlPath(url).Some? && host.urlPath(url).value != [] && TrimRightChar(host.urlPath(url).value, '/') == [] ==> r == ""
    ensures host.urlPath(url).Some? && TrimRightChar(host.urlPath(url).value, '/') != [] ==>
      Paths.IsLastElementOf(r, TrimRightChar(host.urlPath(url).value, '/'))
  {
    match host.urlPath(url)
    case Some(path) =>
      var base := Paths.Base(path);
      if base != "" && base != "/" then base else ""
    case None => ""
  }

  /**
   The base64 text of a `base64://` reference: the part after the scheme, with
   everything up to and including its first ',' (a data-URI header) dropped.
   */
  function Base64Body(ref: string): (r: string)
    requires Base64Scheme <= ref
    ensures var enc := ref[|Base64Scheme|..];
      && |r| <= |enc| && r == enc[|enc| - |r|..]
      && (',' !in enc ==> r == enc)
      && (',' in enc ==> |r| < |enc| && enc[|enc| - |r| - 1] == ',' && ',' !in enc[..|enc| - |r| - 1])
  {
    var enc := ref[|Base64Scheme|..];
    if ',' in enc then enc[IndexOf(enc, ',') + 1..] else enc
  }

  /**
   The path of a `file://` URI as Go's code adjusts it on Windows: a leading
   '/' is dropped whether or not a drive letter follows (both branches of the
   source remove exactly one character).
   */
  function WindowsPath(windows: bool, path: string): (r: string)
    ensures windows && path != [] && path[0] == '/' ==> r == path[1..]
    ensures !(windows && path != [] && path[0] == '/') ==> r == path
  {
    if windows && "/" <= path then
      if |path| >= 3 && path[2] == ':' then path[1..]
      else TrimPrefix(path, "/")
    else
      path
  }

  /** The file a non-remote, non-base64 reference names, made absolute when possible. */
  function DiskPath(host: Host, ref: string): (r: string)
    // a bare path: used as is when absolute, else made absolute when possible
    ensures !(FileScheme <= ref) && Paths.IsAbs(ref) ==> r == ref
    ensures !(FileScheme <= ref) && !Paths.IsAbs(ref) ==> r == host.absPath(ref).GetOr(ref)
    // a `file://` URI: the URL path, adjusted for Windows, then the same rule
    ensures FileScheme <= ref && host.urlPath(ref).Some? ==>
      var p := WindowsPath(host.windows, host.urlPath(ref).value);
      && (Paths.IsAbs(p) ==> r == p)
      && (!Paths.IsAbs(p) ==> r == host.absPath(p).GetOr(p))
    // a `file://` URI that does not parse is taken as a relative path
    ensures FileScheme <= ref && host.urlPath(ref).None? ==> r == host.absPath(ref).GetOr(ref)
  {
    var path :=
      if FileScheme <= ref then
        match host.urlPath(ref)
        case Some(p) => WindowsPath(host.windows, p)
        case None => ref
      else ref;
    if Paths.IsAbs(path) then path else host.absPath(path).GetOr(path)
  }

  /**
   The classification of a reference, first match wins: http(s) URLs are used
   directly; `base64://` payloads are decoded; everything else names a file.
   A non-empty given name is always kept; otherwise each form has its default.
   */
  function Classify(host: Host, ref: string, name: string): (p: Plan)
    ensures p.Direct? <==> IsHttp(ref)
    ensures p.Direct? ==> p.url == ref && p.name == (if name != "" then name else UrlDefaultName(host, ref))
    ensures !IsHttp(ref) && Base64Scheme <= ref ==>
      && (p.Unusable? <==> host.decodeBase64(Base64Body(ref)).None?)
      && (p.Submit? ==> p.payload == Decoded(host.decodeBase64(Base64Body(ref)).value)
                        && p.name == (if name != "" then name else DefaultBinaryName))
    ensures !IsHttp(ref) && !(Base64Scheme <= ref) ==>
      && (p.Unusable? <==> !host.canOpen(DiskPath(host, ref)))
      && (p.Submit? ==> p.payload == DiskFile(DiskPath(host, ref))
                        && p.name == (if name != "" then name else Paths.Base(DiskPath(host, ref))))
    ensures p.Submit? ==> p.name != ""
  {
    if IsHttp(ref) then
      Direct(ref, if name == "" then UrlDefaultName(host, ref) else name)
    else if Base64Scheme <= ref then
      match host.decodeBase64(Base64Body(ref))
      case None => Unusable
      case Some(data) => Submit(Decoded(data), if name == "" then DefaultBinaryName else name)
    else
      var path := DiskPath(host, ref);
      if !host.canOpen(path) then Unusable
      else Submit(DiskFile(path), if name == "" then Paths.Base(path) else name)
  }

  /**
   `resp.StatusCode/100 == 2` in Go's truncating division: exactly the codes
   200 to 299, for negative codes as well.
   */
  predicate Is2xx(status: int) {
    200 <= status <= 299
  }

  /**
   The outcome of an upload: the reply's URL and local path, and its name when
   non-empty (else the name submitted); nothing at all when the transfer
   failed, the status is not 2xx or the body does not decode.
   */
  function Finish(transfer: Transfer, name: string): (r: Resolution)
    ensures !(transfer.Answered? && Is2xx(transfer.status) && transfer.reply.Some?) ==> r == Failed
    ensures transfer.Answered? && Is2xx(transfer.status) && transfer.reply.Some? ==>
      var reply := transfer.reply.value;
      && r.url == reply.url && r.localPath == reply.localPath
      && r.name == (if reply.name != "" then reply.name else name)
  {
    match transfer
    case TransferError => Failed
    case Answered(status, reply) =>
      if !Is2xx(status) then Failed
      else
        match reply
        case None => Failed
        case Some(rep) => Resolution(rep.url, rep.localPath, if rep.name != "" then rep.name else name)
  }

  /** `uploadViaB`: classify the reference, then upload when the plan says so. */
  function Resolve(host: Host, ref: string, name: string): (r: Resolution)
    ensures IsHttp(ref) ==> r == Resolution(ref, "", if name != "" then name else UrlDefaultName(host, ref))
    ensures Classify(host, ref, name).Unusable? ==> r == Failed
    ensures Classify(host, ref, name).Submit? ==>
      r == Finish(host.upload(Classify(host, ref, name).payload, Classify(host, ref, name).name),
                  Classify(host, ref, name).name)
  {
    match Classify(host, ref, name)
    case Direct(url, n) => Resolution(url, "", n)
    case Unusable => Failed
    case Submit(payload, n) => Finish(host.upload(payload, n), n)
  }

  /** A remote URL is resolved without touching the upload service. */
  lemma HttpNeedsNoUpload(host: Host, ref: string, name: string, other: (Payload, string) -> Transfer)
    requires IsHttp(ref)
    ensures Resolve(host, ref, name) == Resolve(host.(upload := other), ref, name)
  {
  }

  /**
   A remote URL without a given name is named after the last element of its
   path; a URL whose path is empty (a bare host) gets the name ".", because
   `filepath.Base("")` is ".", and one whose path is "/" gets no name.
   */
  lemma HttpDefaultName(host: Host, ref: string, path: string)
    requires IsHttp(ref) && host.urlPath(ref) == Some(path)
    ensures path == "" ==> Resolve(host, ref, "").name == "."
    ensures path == "/" ==> Resolve(host, ref, "").name == ""
    ensures path != [] && '/' !in path ==> Resolve(host, ref, "").name == path
    ensures Resolve(host, ref, "").name == "" || '/' !in Resolve(host, ref, "").name
  {
  }

  /**
   A remote URL without a given name whose path is `dir/name` is named after
   `name`, whatever `dir` is: `http://host/img/a.png` is named `a.png`.
   */
  lemma HttpNamedAfterLastElement(host: Host, ref: string, dir: string, name: string)
    requires IsHttp(ref) && host.urlPath(ref) == Some(dir + "/" + name)
    requires name != [] && '/' !in name
    ensures Resolve(host, ref, "").name == name
  {
    Paths.BaseAfterSeparator(dir, name);
  }

  /** A base64 payload that does not decode fails the whole resolution. */
  lemma UndecodableBase64Fails(host: Host, ref: string, name: string)
    requires Base64Scheme <= ref
    requires host.decodeBase64(Base64Body(ref)).None?
    ensures Resolve(host, ref, name) == Failed
  {
    assert !IsHttp(ref) by {
      assert ref[0] == 'b';
    }
  }

  /** A non-empty name in the upload reply wins over the name submitted. */
  lemma ReplyNameWins(host: Host, ref: string, name: string, status: int, reply: UploadReply)
    requires Classify(host, ref, name).Submit?
    requires host.upload(Classify(host, ref, name).payload, Classify(host, ref, name).name)
             == Answered(status, Some(reply))
    requires Is2xx(status) && reply.name != ""
    ensures Resolve(host, ref, name) == Resolution(reply.url, reply.localPath, reply.name)
  {
  }
}
