# Media-rewriting relay for OneBot v11 — a Dafny model

The system is a pair of Go services between a bot framework and a OneBot v11
implementation. Middleware-a relays WebSocket frames from the bot client to
the OneBot implementation. On the way it rewrites outbound commands whose
media references (local paths, `file://` URIs, `base64://` payloads) the
implementation could not read. Each such reference is uploaded to
middleware-b, and the command is re-emitted with the URL or the local path
that came back. Middleware-b stores each upload under a dated directory and
answers with `{url, name, local_path}`.

This project models:

- the outbound rewrite engine of middleware-a (`rewriteIfUpload`,
  `rewriteCQMediaInText`, `rewritePictureTagInText`, `escapeCommaMaybe`);
- the decision logic of its resolver `uploadViaB`, with the upload itself as
  a parameter;
- the request checks, naming, storage layout and URL construction of the
  `/upload` handler of middleware-b;
- the small decisions of the WebSocket gateway around the engine.

Module layout, one file each:

- `wrappers.dfy` (`Wrappers`): `Option`.
- `text.dfy` (`Text`): the Go `strings` functions the code uses.
- `paths.dfy` (`Paths`): `filepath.Base`, `IsAbs` and `Join` on '/' paths.
- `cqargs.dfy` (`CQArgs`): the attribute splitter of a CQ tag, the attribute
  writer, and the comma escape.
- `tags.dfy` (`Tags`): the two tag patterns as a left-to-right scanner.
- `resolver.dfy` (`Resolver`): `uploadViaB`.
- `json.dfy` (`Json`): JSON values, the command envelope, and the typed
  upload parameters.
- `rewrite.dfy` (`Rewrite`): the text passes.
- `commands.dfy` (`Commands`): segments, send and upload actions, dispatch,
  and the frame function.
- `storage.dfy` (`Storage`): the middleware-b handler.
- `gateway.dfy` (`Gateway`): the admission check, the upstream token, and
  frame forwarding.

The engine is parametric in a resolver `(reference, suggested name) ->
(url, localPath, name)`. Every property of the engine holds for every
resolver. `Commands.RelayResolver` plugs in the model of `uploadViaB`.
JSON text is an abstract codec `(parse, serialize)` over a JSON value type.

Behaviour worth noting:

- On Windows, a `file://` path loses its leading '/' whether or not a drive
  letter follows (middleware-a/main.go:738-744). Both branches of the code
  remove exactly one character (`Resolver.WindowsPath`).
- An http(s) reference whose URL path is empty gets the display name "."
  (middleware-a/main.go:666-668). This happens because `filepath.Base("")`
  is "." (`Resolver.HttpDefaultName`).
- The bare picture tag is written `[图:src]`, with the CJK character.
- Commas in a resolved URL are escaped as `%2C` (middleware-a/main.go:654),
  not with the CQ-code escape `&#44;` of OneBot v11. The tag parser does no
  unescaping.
- `local_path` in the reply of middleware-b is absolute only when the stored
  path is absolute or `filepath.Abs` succeeds (middleware-b/main.go:202-207).
  Otherwise it is the path as joined.

## Model

| member | source | states |
|---|---|---|
| Text.TrimSpace | middleware-a/main.go:163 | The result has no leading or trailing white space. An already-trimmed string is returned unchanged. Every character of the result comes from the input. |
| Text.TrimSpaceOfPadded | middleware-a/main.go:163 | Trimming `a + m + b`, where `a` and `b` are white space only and `m` is trimmed, gives exactly `m`: the infix with the white space around it removed. |
| Text.Split | middleware-a/main.go:157 | There is at least one piece and no piece contains the separator. Joining the pieces with the separator gives the input back. |
| Text.SplitJoin | middleware-a/main.go:157 | Splitting the join of separator-free pieces gives exactly those pieces. |
| Text.IndexOfAfter | middleware-a/main.go:148 | The first `c` in `a + [c] + b` is at position `|a|` when `a` holds no `c`. |
| Text.ReplaceCharPointwise | middleware-b/main.go:186 | Replacing a character by a single character keeps the length and changes exactly the positions holding that character. |
| Paths.Base | middleware-b/main.go:185 | The base name is never empty. It is "/" or free of '/'. The empty path gives "." and a path of separators only gives "/". Otherwise the base name is the last element of the path with its trailing '/' removed: a suffix free of '/' that is the whole path or follows a '/'. A name without '/' is its own base name. |
| Paths.BaseAfterSeparator | middleware-b/main.go:185 | The base name of `prefix/name` is `name` when `name` is non-empty and has no '/', whatever the prefix. |
| Paths.BaseOfJoin | middleware-b/main.go:185-187 | The base name of `dir/name` is `name` when `dir` and `name` are non-empty and `name` has no '/'. |
| CQArgs.SplitPair | middleware-a/main.go:161-164 | A piece gives a pair exactly when it contains '='. A piece without ',' or ']' gives a trimmed pair that survives re-splitting. |
| CQArgs.SplitPairAt | middleware-a/main.go:161-164 | A piece `key=value` whose key holds no '=' is split at that first '=' into the trimmed key and the trimmed value; later '=' stay in the value. |
| CQArgs.ToMapLastWins | middleware-a/main.go:157-165 | When a key repeats, the map holds the value of its last occurrence. |
| CQArgs.ParseArgs | middleware-a/main.go:156-165 | The keys of the attribute map are exactly the keys of the pieces that contain '='. |
| CQArgs.ParseArgsClean | middleware-a/main.go:148-165 | For arguments without ']' (all the tag pattern can capture), every key and value is trimmed and free of ',' and ']', and every key is free of '='. |
| CQArgs.RenderParseRoundTrip | middleware-a/main.go:182-212 | Write the attributes as `,file=v` followed by `,k=v` for the other keys, in any order listing each once. Splitting that text again gives the same map, and the text holds no ']'. |
| CQArgs.EscapeCommas | middleware-a/main.go:654 | The escaped text holds no ','. Text without ',' is unchanged. |
| CQArgs.EscapeCommasRoundTrip | middleware-a/main.go:654 | Replacing `%2C` back with ',' restores any text that held no `%2C`. |
| Tags.MatchMediaIff | middleware-a/main.go:148 | The media pattern matches at the start of a text exactly when the text starts with `[CQ:` + a kind among image, record and video + arguments without ']' + `]`, and it matches that tag. |
| Tags.MatchPictureIff | middleware-a/main.go:217 | The picture pattern matches at the start exactly when the text starts with `[图:` + a non-empty source without ']' + `]`. |
| Tags.Scan | middleware-a/main.go:148-218 | The text splits into tokens that concatenate back to it. |
| Tags.ScanLeftmost | middleware-a/main.go:148-218 | Each tag token of a scan is well formed and is what the pattern finds at its position. Each character token sits where the pattern finds nothing (left-to-right, non-overlapping matching). |
| Tags.ScanTagFirst | middleware-a/main.go:148 | A text that starts with a well-formed tag of the scanned kind scans as that tag followed by the scan of the rest. Also line 217. |
| Tags.ScanPlainPrefix | middleware-a/main.go:148 | A prefix without '[' scans as its characters, followed by the scan of the rest. Also line 217. |
| Tags.ScanPlain | middleware-a/main.go:148-217 | Text without '[' contains no tag of either kind. |
| Resolver.UrlDefaultName | middleware-a/main.go:664-670 | The default name of a URL never holds '/'. It is "" when the URL does not parse or its path is separators only, "." when the path is empty, and otherwise the last element of the path with its trailing '/' removed. |
| Resolver.Base64Body | middleware-a/main.go:676-680 | The payload is the text after `base64://`. When that text has a ',', everything up to and including the first ',' is dropped. |
| Resolver.WindowsPath | middleware-a/main.go:738-744 | On Windows exactly one leading '/' is removed, with or without a drive letter. Otherwise the path is unchanged. |
| Resolver.DiskPath | middleware-a/main.go:734-752 | A bare absolute path is used as it is. A bare relative path is made absolute when `filepath.Abs` succeeds and kept otherwise. A `file://` URI that parses gives its URL path, with the Windows adjustment, under the same absolute/relative rule. One that does not parse is treated as a relative path. |
| Resolver.Classify | middleware-a/main.go:663-688 | http(s) references are used directly, exactly those. A `base64://` reference is unusable exactly when its payload does not decode, and otherwise defaults its name to `file.bin`. Other references are unusable exactly when the file cannot be opened, and otherwise default to the file's base name. A given name always wins. Also lines 734-761. |
| Resolver.Finish | middleware-a/main.go:709-732 | A transfer error, a status outside 200-299 or an undecodable reply gives the empty result. Otherwise the result is the reply's URL and local path, and its name when non-empty. Also lines 784-807. |
| Resolver.Resolve | middleware-a/main.go:661-808 | An http(s) reference resolves to itself with no local path, named by the given name when non-empty and by the URL's default name otherwise. An unusable one gives the empty result. Any other is uploaded once and finished as above. |
| Resolver.HttpNeedsNoUpload | middleware-a/main.go:663-673 | The result for an http(s) reference does not depend on the upload service. |
| Resolver.HttpDefaultName | middleware-a/main.go:664-670 | A URL path "" names the media ".", "/" names it nothing, and a single element names it that element. |
| Resolver.HttpNamedAfterLastElement | middleware-a/main.go:664-670 | A remote URL without a given name whose path is `dir/name`, with `name` non-empty and free of '/', is named `name`. |
| Resolver.UndecodableBase64Fails | middleware-a/main.go:681-685 | A `base64://` payload that does not decode gives the empty result. |
| Resolver.ReplyNameWins | middleware-a/main.go:729-732 | A non-empty name in a 2xx reply replaces the name submitted. Also lines 804-807. |
| Json.DecodeEnvelope | middleware-a/main.go:119-123 | An object decodes exactly when its `action` is a string, null or absent, and the command carries that action, `params` and `echo`. Null gives the zero command. Anything else does not decode. Also lines 393-396. |
| Json.EnvelopeRoundTrip | middleware-a/main.go:119-123 | Encoding a command and decoding it gives the same command. |
| Json.DecodeUploadParams | middleware-a/main.go:125-135 | Null parameters give the zero struct. Parameters that are not an object are an error. An object decodes when its id member is a whole number in the 64-bit range, null or absent, and `file` and `name` are strings, null or absent, and the struct holds those values; any other id, `file` or `name` kind is an error. Also lines 595-599. |
| Json.UploadParamsKindErrors | middleware-a/main.go:125-135 | A string or boolean id, a fractional id, an id past the 64-bit range, and a `file` or `name` that is neither a string nor null fail the decoding. An object without the three members gives the zero struct. Also lines 595-599. |
| Json.UploadParamsRoundTrip | middleware-a/main.go:125-135 | The typed upload struct reads back as written. Also lines 602-607. |
| Rewrite.UpdatedAttrs | middleware-a/main.go:182-185 | After a resolve, `file` is the escaped URL and `name` is the resolved name when that is non-empty. Every other attribute is kept as it was. |
| Rewrite.RebuildOrderEnumerates | middleware-a/main.go:190-209 | The order in which the tag is rewritten lists every attribute except `file` exactly once. |
| Rewrite.RewriteMediaTag | middleware-a/main.go:147-214 | The tag stays verbatim when its `url` is remote, its `file` is missing, empty or remote, or the resolver gives no URL. Otherwise it is `[CQ:<kind>` + `,file=<escaped URL>` + the other attributes in some order + `]`. Also line 654. |
| Rewrite.RewrittenMediaTagRescans | middleware-a/main.go:148-212 | A rewritten tag is matched again with the same kind. Splitting its arguments gives the original map with only `file`, and `name` when resolved, changed. This needs a clean escaped URL and name. |
| Rewrite.RewritePictureTag | middleware-a/main.go:216-229 | The trimmed source is always resolved. On success the tag becomes exactly `[CQ:image,file=<escaped URL>]`; on failure it stays verbatim. |
| Rewrite.PictureReplacementRescans | middleware-a/main.go:148 | When the escaped URL holds no ']' and has no surrounding white space, the image tag written for a picture is matched as an image tag whose only attribute is `file`. Also lines 156-165 and 228. |
| Rewrite.Render | middleware-a/main.go:149-218 | Replacing every tag by itself gives the original text back. |
| Rewrite.RenderAppend | middleware-a/main.go:149 | Rewriting a token sequence is rewriting its parts and concatenating: each match is replaced on its own. Also line 218. |
| Rewrite.RenderSingle | middleware-a/main.go:149 | A single token is replaced by its own rewrite. Also line 218. |
| Rewrite.PassOverTag | middleware-a/main.go:148-149 | In one pass, a prefix without '[' is kept, the tag after it is replaced by its rewrite, and the pass goes on after the tag. Also lines 217-218. |
| Rewrite.MediaTagInText | middleware-a/main.go:147-214 | The media pass keeps a prefix without '[', replaces the media tag after it by `RewriteMediaTag` of its kind and arguments, and continues on the rest. |
| Rewrite.PictureTagInText | middleware-a/main.go:216-229 | The picture pass keeps a prefix without '[', replaces the picture tag after it by `RewritePictureTag` of its source, and continues on the rest. |
| Rewrite.MediaPassSkipsPicture | middleware-a/main.go:148 | The media pass leaves a text whose only '[' opens a picture tag unchanged. |
| Rewrite.MessageWithOnePicture | middleware-a/main.go:403-404 | A message string whose only '[' opens one picture tag comes out with that tag replaced by the picture rewrite and the rest kept, after both passes. |
| Rewrite.UnresolvableTextUnchanged | middleware-a/main.go:176-178 | A resolver that never returns a URL leaves every text unchanged, in both passes. Also lines 224-226 and 403-404. |
| Rewrite.PlainTextUnchanged | middleware-a/main.go:148 | Text without '[' is never changed. Also lines 217 and 403-404. |
| Rewrite.SinglePictureTag | middleware-a/main.go:216-229 | A text that is one resolvable picture tag becomes the image tag of its URL. |
| Commands.ResolvedData | middleware-a/main.go:437-441 | After a resolve, `url` and `file` are both the unescaped URL and `path` is gone. Every other key is kept. |
| Commands.RewriteSegment | middleware-a/main.go:414-451 | Non-objects and segments of other types are untouched. A media segment changes exactly when its `url` is not remote, it has a `file` or `path`, and the resolver gives a URL. A text segment changes exactly when the picture pass changes its text. Only `data` ever changes. |
| Commands.RewriteSegments | middleware-a/main.go:411-458 | The segments are rewritten one by one in place. The change flag is set exactly when some segment changed, and nothing changes otherwise. |
| Commands.RewriteSendParams | middleware-a/main.go:398-461 | Only `message` changes. A string message is replaced exactly when the two passes change it. An array message is replaced exactly when some segment changed. Any other message gives no rewrite. |
| Commands.RewriteUpload | middleware-a/main.go:594-648 | Undecodable parameters give no rewrite. A local path re-emits the upload with that path and the resolved name. Failing that, a URL converts the command into the matching send action with `[CQ:file,file=<escaped URL>,name=<name>]`. Otherwise there is no rewrite. `echo` is kept. |
| Commands.ParseAction | middleware-a/main.go:397-398 | The five handled actions are recognised by their exact names; every other name is not. Also lines 462, 530, 594, 622 and 649. |
| Commands.RewriteCommand | middleware-a/main.go:397-651 | Unknown actions give no rewrite. Send actions keep their name and get the new parameters. Upload actions follow their own rule. `echo` is always kept. |
| Commands.RewriteFrame | middleware-a/main.go:392-397 | A frame that is not JSON, not a command, names another action or needs no change is forwarded byte for byte. Otherwise the replacement command is serialized. Also lines 649-651. |
| Commands.UnresolvableCommandsPassThrough | middleware-a/main.go:397-651 | A resolver that returns neither URL nor local path never causes a rewrite. |
| Commands.UnresolvableFramesPassThrough | middleware-a/main.go:392-652 | With such a resolver every frame is forwarded as it is. |
| Commands.ReplacedFrameDecodes | middleware-a/main.go:407-409 | With a codec that reads back what it writes, the bytes sent in place of a frame decode to the replacement command. That command has the same echo, in exact arithmetic, and a handled action. Also lines 455-457 and 602-619. |
| Commands.UploadKeepsRecipient | middleware-a/main.go:600-646 | The recipient id of a rewritten upload reads back unchanged, in exact arithmetic. A re-emitted upload decodes to the local path and the resolved name. |
| Commands.FileTagAttributes | middleware-a/main.go:612-639 | When the escaped URL and the name hold no ',' or ']' and have no surrounding white space, the file tag of a converted upload splits into exactly `file` (the escaped URL) and `name`. |
| Commands.NameWithCommaAddsKey | middleware-a/main.go:612 | The name is written unescaped, so the name `a,k=v` splits the file tag into `file`, `name` = `a` and an extra attribute `k` = `v`. Also line 639. |
| Commands.PathSegmentExample | middleware-a/main.go:420-441 | An image segment naming only `path`, resolved to `u`, becomes an image segment with `url` and `file` both `u` and no `path`. |
| Commands.UploadToSendExample | middleware-a/main.go:594-619 | `upload_private_file` to user 7 with `a.png`, resolved only to a URL, becomes `send_private_msg` to user 7 with `[CQ:file,file=<url>,name=a.png]`. |
| Commands.DownResolverOnlyPassesUrls | middleware-a/main.go:661-808 | With the upload service down, the resolver never gives a local path. The only URLs it returns are http(s) references themselves. |
| Commands.DownUploaderKeepsMediaTags | middleware-a/main.go:166-181 | With the upload service down, every CQ media tag is forwarded unchanged. |
| Commands.RemotePictureNeedsNoUpload | middleware-a/main.go:222-228 | A picture tag whose source is an http(s) URL becomes an image tag of that URL without any upload. Also lines 663-673. |
| Storage.NatDigitsRoundTrip | middleware-b/main.go:187 | The decimal digits of a number read back as that number. |
| Storage.DecimalRoundTrip | middleware-b/main.go:187 | The `%d` numeral of any integer, negative ones included, reads back as that integer. |
| Storage.PadRoundTrip | middleware-b/main.go:177 | Zero-padded numerals read back as the number. |
| Storage.DatePathRoundTrip | middleware-b/main.go:177 | `YYYY/MM/DD` splits into three numerals giving back year, month and day. |
| Storage.DisplayName | middleware-b/main.go:172-185 | The name is the `name` value when non-empty, else the part's file name, reduced to its last element: a chosen name of separators only gives "/", an empty choice gives ".", and otherwise the result is the last element of the choice with its trailing '/' removed. |
| Storage.DisplayNameDropsDirectory | middleware-b/main.go:172-185 | A chosen name `dir/name`, with `name` non-empty and free of '/', is reported as `name`. |
| Storage.SafeName | middleware-b/main.go:186 | Every space becomes '_' and nothing else changes. The result holds no space. |
| Storage.StoredFileNameRoundTrip | middleware-b/main.go:187 | `<nanos>_<safe name>` splits at its first '_' into the timestamp and the safe name. |
| Storage.RelPath | middleware-b/main.go:208-211 | The relative path is `filepath.Rel`'s answer, or the stored path with the storage directory cut off. |
| Storage.LocalPath | middleware-b/main.go:202-207 | An absolute path is kept. Otherwise `filepath.Abs` is used when it succeeds, and the path as it is when it fails. |
| Storage.HandleUpload | middleware-b/main.go:155-221 | Non-POST gives 405. An unparsable form or a missing `file` part gives 400. A disk failure gives 500, and a stored reply happens exactly when the disk steps succeed. A stored reply carries the display name, the stored path, the public URL and the local path. |
| Storage.StoredLayout | middleware-b/main.go:176-187 | The file is stored at `<storage>/YYYY/MM/DD/<nanos>_<safe name>`. Its base name holds no space and splits back into the timestamp and the safe name. |
| Storage.UrlLayout | middleware-b/main.go:208-214 | The URL is `<base without trailing '/'>/files/YYYY/MM/DD/<stored name>`, both when `filepath.Rel` answers lexically and when it fails. |
| Storage.PublicUrlIgnoresTrailingSlash | middleware-b/main.go:214 | A trailing '/' on the public base URL does not change the URL. |
| Storage.PublicUrlIgnoresLeadingSlash | middleware-b/main.go:213-214 | A leading '/' on the relative path does not change the URL. |
| Storage.LocalPathAbsolute | middleware-b/main.go:202-207 | `local_path` is absolute when the stored path is, or when `filepath.Abs` returns an absolute path. |
| Storage.ReplyNameKeepsSpaces | middleware-b/main.go:185-221 | The reply's name is the display name with its spaces. The file is stored under that name with spaces replaced. |
| Gateway.Admit | middleware-a/main.go:284-293 | A client is upgraded exactly when no server token is set or the header is `Bearer <token>`. |
| Gateway.UpstreamDial | middleware-a/main.go:302-315 | The upstream token goes in the header, or in the URL query in query mode, never both. Without a token neither is used. A URL that does not parse is dialled as it is. |
| Gateway.ForwardUpstream | middleware-a/main.go:333-343 | Client text frames go through the rewrite engine. Other frames are forwarded untouched. |
| Gateway.ForwardUnresolvable | middleware-a/main.go:333-343 | With nothing resolvable, every client frame is forwarded unchanged. |

## Left out

- The WebSocket relay loops, the WaitGroup join, close frames and socket errors (middleware-a/main.go:295-377) are concurrency and I/O. Only the per-frame decision is modelled.
- Upstream-to-client frames are relayed untouched by the code. The model has no member for that identity.
- The multipart request, the HTTP round trip, `os.Open`, `io.Copy`, `url.Parse`, base64 decoding and `filepath.Abs`/`Rel` are I/O or library calls. They are parameters: the `Host` of the resolver and of the storage handler, and the `withToken` function of the gateway.
- Byte-exact `json.Marshal`/`json.Unmarshal` is not modelled. JSON text is an abstract codec. Numbers are exact reals. Go decodes `params` and `echo` into `interface{}` (middleware-a/main.go:119-123), so every number in a rewritten frame passes through float64 and is re-marshalled: large ids in re-encoded send parameters (middleware-a/main.go:399-401), a numeric `echo` above 2^53, and any other numeric member come out rounded. The model keeps them exact, so "the same echo" holds only in exact arithmetic.
- Json.DecodeUploadParams: does not model the float64 round trip of the upload parameters (middleware-a/main.go:595-597 and 623-625). The command's `params` is decoded into `interface{}`, so every number becomes a float64 before the typed decode. Ids above 2^53 are rounded there, and the ids from 2^63-512 to 2^63-1 round to 2^63 and fail the `int64` decode, so Go forwards such a frame unchanged. The model decodes every whole id in the `int64` range exactly.
- Commands.UploadKeepsRecipient: the id reads back unchanged only in the model's exact arithmetic. For the same float64 round trip, Go sends an id above 2^53 on rounded to the nearest float64.
- Commands.FileTagAttributes: holds only for a clean escaped URL and name. The code writes the name into `[CQ:file,file=…,name=…]` unescaped (middleware-a/main.go:612 and 639), so a name with ',' adds attributes (`Commands.NameWithCommaAddsKey`) and a name with ']' closes the tag early; the model writes the same text and promises nothing about how it splits.
- Rewrite.PictureReplacementRescans: holds only for an escaped URL without ']' and without surrounding white space. A URL with an IPv6 literal host such as `http://[::1]:9000/…` holds ']', and the image tag written for it rescans truncated.
- Go's case-insensitive matching of struct field names is not modelled, neither for the command envelope (`action`, `params`, `echo`) nor for the upload parameters. Keys must match exactly.
- Go's map iteration order when a tag is rebuilt (middleware-a/main.go:197) is unspecified. The model writes the other attributes in order of first occurrence, with a new `name` last. The round trip is proved for every order that lists each key once.
- `Paths.Join` does not model the lexical `Clean` that `filepath.Join` applies. The layout lemmas hold for a storage directory that is already clean; names like "/" or ".." that `Clean` would fold are not modelled.
- Windows path semantics (drive letters in `IsAbs`, '\\' separators, `ToSlash`) are not modelled beyond the `file://` adjustment.
- The resolver is a pure function, so a reference that appears twice in one message resolves to the same answer both times. The real relay uploads it twice.
- `time.Now` is a parameter: the date and the nanosecond timestamp, read separately, as the code does. Dates are taken as valid with a year of at least 0.
- The `name` form value is taken as one parameter. The precedence of query string over body in `FormValue` is not modelled, nor is the 64 MiB form limit.
- Logging, the HTTP logging wrappers, configuration loading, the static file server of middleware-b, and the documentation site theme have no logic the model needs.
- Storage.LocalPathAbsolute: states absoluteness only when the path is absolute or `filepath.Abs` succeeds with an absolute path, because the code keeps the relative path when `Abs` fails.
