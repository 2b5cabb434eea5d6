/**
 The `/upload` handler of the storage service (middleware-b): where an
 uploaded file is written, under which name, and the reply `{url, name,
 local_path}` it sends back. Disk operations, `filepath.Rel`,
 `filepath.Abs` and the clock are parameters.
 */
module Storage {
  import opened Wrappers
  import opened Text
  import Paths

  // ---------------------------------------------------------------------------
  // Decimal digits

  predicate IsDigit(c: char) {
    '0' <= c <= '9'
  }

  predicate AllDigits(s: string) {
    forall i :: 0 <= i < |s| ==> IsDigit(s[i])
  }

  function DigitChar(d: nat): (c: char)
    requires d < 10
    ensures IsDigit(c)
  {
    ('0' as int + d) as char
  }

  function DigitValue(c: char): nat
    requires IsDigit(c)
  {
    c as int - '0' as int
  }

  /** The shortest decimal numeral of `n`. */
  function NatDigits(n: nat): (r: string)
    ensures r != [] && AllDigits(r)
    decreases n
  {
    if n < 10 then [DigitChar(n)] else NatDigits(n / 10) + [DigitChar(n % 10)]
  }

  /** The value of a decimal numeral, leading zeros allowed. */
  function DigitsValue(s: string): nat
    requires AllDigits(s)
    decreases |s|
  {
    if s == [] then 0 else DigitsValue(s[..|s| - 1]) * 10 + DigitValue(s[|s| - 1])
  }

  lemma {:induction false} NatDigitsRoundTrip(n: nat)
    ensures DigitsValue(NatDigits(n)) == n
    decreases n
  {
    if n >= 10 {
      var s := NatDigits(n);
      assert s[..|s| - 1] == NatDigits(n / 10);
      NatDigitsRoundTrip(n / 10);
    }
  }

  /** A leading zero does not change the value of a numeral. */
  lemma {:induction false} LeadingZero(s: string)
    requires AllDigits(s)
    ensures AllDigits("0" + s) && DigitsValue("0" + s) == DigitsValue(s)
    decreases |s|
  {
    var z := "0" + s;
    if s != [] {
      assert z[..|z| - 1] == "0" + s[..|s| - 1];
      LeadingZero(s[..|s| - 1]);
    }
  }

  function Zeros(k: nat): (r: string)
    ensures |r| == k && AllDigits(r)
    decreases k
  {
    if k == 0 then [] else "0" + Zeros(k - 1)
  }

  lemma {:induction false} LeadingZeros(k: nat, s: string)
    requires AllDigits(s)
    ensures AllDigits(Zeros(k) + s) && DigitsValue(Zeros(k) + s) == DigitsValue(s)
    decreases k
  {
    if k == 0 {
      assert Zeros(k) + s == s;
    } else {
      LeadingZeros(k - 1, s);
      assert Zeros(k) + s == "0" + (Zeros(k - 1) + s);
      LeadingZero(Zeros(k - 1) + s);
    }
  }

  /** `n` written with at least `width` digits, zero-filled on the left. */
  function Pad(n: nat, width: nat): (r: string)
    ensures |r| >= width && r != [] && AllDigits(r)
  {
    var digits := NatDigits(n);
    if |digits| >= width then digits else Zeros(width - |digits|) + digits
  }

  lemma PadRoundTrip(n: nat, width: nat)
    ensures DigitsValue(Pad(n, width)) == n
  {
    NatDigitsRoundTrip(n);
    var digits := NatDigits(n);
    if |digits| < width {
      var padded := Zeros(width - |digits|) + digits;
      assert Pad(n, width) == padded;
      LeadingZeros(width - |digits|, digits);
      assert DigitsValue(padded) == DigitsValue(digits);
    } else {
      assert Pad(n, width) == digits;
    }
  }

  /** Go's `%d`: a minus sign for negative numbers, then the digits. */
  function Decimal(n: int): (r: string)
    ensures r != [] && '_' !in r && '/' !in r && ' ' !in r
  {
    NoSlashInDigits(NatDigits(if n < 0 then -n else n));
    if n < 0 then "-" + NatDigits(-n) else NatDigits(n)
  }

  /** The number a `%d` numeral stands for, None for any other text. */
  function ParseDecimal(s: string): Option<int> {
    if s != [] && s[0] == '-' then
      if s[1..] != [] && AllDigits(s[1..]) then Some(0 - DigitsValue(s[1..])) else None
    else if s != [] && AllDigits(s) then Some(DigitsValue(s))
    else None
  }

  lemma DecimalRoundTrip(n: int)
    ensures ParseDecimal(Decimal(n)) == Some(n)
  {
    if n < 0 {
      NatDigitsRoundTrip(-n);
      assert Decimal(n)[1..] == NatDigits(-n);
    } else {
      NatDigitsRoundTrip(n);
    }
  }

  // ---------------------------------------------------------------------------
  // The dated directory

  /** A calendar date as the clock reports it. */
  datatype Date = Date(year: int, month: int, day: int)

  predicate ValidDate(d: Date) {
    0 <= d.year && 1 <= d.month <= 12 && 1 <= d.day <= 31
  }

  /** Go's `Format("2006/01/02")`: four-digit year, two-digit month and day. */
  function DatePath(d: Date): string
    requires ValidDate(d)
  {
    Pad(d.year, 4) + "/" + Pad(d.month, 2) + "/" + Pad(d.day, 2)
  }

  /** The date a `YYYY/MM/DD` directory names. */
  function ParseDatePath(s: string): Option<Date> {
    var parts := Split(s, '/');
    if |parts| == 3 && AllDigits(parts[0]) && AllDigits(parts[1]) && AllDigits(parts[2]) then
      Some(Date(DigitsValue(parts[0]), DigitsValue(parts[1]), DigitsValue(parts[2])))
    else None
  }

  lemma NoSlashInDigits(s: string)
    requires AllDigits(s)
    ensures '/' !in s
  {
    forall i | 0 <= i < |s|
      ensures s[i] != '/'
    {
      assert IsDigit(s[i]);
    }
  }

  lemma DatePathRoundTrip(d: Date)
    requires ValidDate(d)
    ensures ParseDatePath(DatePath(d)) == Some(d)
  {
    var y, m, dd := Pad(d.year, 4), Pad(d.month, 2), Pad(d.day, 2);
    NoSlashInDigits(y);
    NoSlashInDigits(m);
    NoSlashInDigits(dd);
    var parts := [y, m, dd];
    assert JoinWith(parts, '/') == y + "/" + m + "/" + dd by {
      assert parts[1..] == [m, dd] && parts[1..][1..] == [dd];
      assert JoinWith([dd], '/') == dd;
      assert JoinWith([m, dd], '/') == m + ['/'] + dd;
      assert JoinWith(parts, '/') == y + ['/'] + (m + ['/'] + dd);
    }
    SplitJoin(parts, '/');
    PadRoundTrip(d.year, 4);
    PadRoundTrip(d.month, 2);
    PadRoundTrip(d.day, 2);
  }

  // ---------------------------------------------------------------------------
  // File names

  /** The name the client asked for: the `name` form value when non-empty, else the part's file name. */
  function ChosenName(filename: string, nameValue: string): string {
    if nameValue != "" then nameValue else filename
  }

  /** The name reported back: the base name of the chosen name, spaces kept. */
  function DisplayName(filename: string, nameValue: string): (r: string)
    ensures r != [] && (r == "/" || '/' !in r)
    ensures nameValue != "" && '/' !in nameValue ==> r == nameValue
    ensures nameValue == "" && filename != "" && '/' !in filename ==> r == filename
    ensures filename == "" && nameValue == "" ==> r == "."
    ensures ChosenName(filename, nameValue) != [] && TrimRightChar(ChosenName(filename, nameValue), '/') == [] ==> r == "/"
    ensures TrimRightChar(ChosenName(filename, nameValue), '/') != [] ==>
      Paths.IsLastElementOf(r, TrimRightChar(ChosenName(filename, nameValue), '/'))
  {
    Paths.Base(ChosenName(filename, nameValue))
  }

  /** A chosen name `dir/name` is reported as `name`: directories never reach the reply. */
  lemma DisplayNameDropsDirectory(filename: string, nameValue: string, dir: string, name: string)
    requires ChosenName(filename, nameValue) == dir + "/" + name
    requires name != [] && '/' !in name
    ensures DisplayName(filename, nameValue) == name
  {
    Paths.BaseAfterSeparator(dir, name);
  }

  /** The name on disk: every space replaced by an underscore. */
  function SafeName(name: string): (r: string)
    ensures ' ' !in r
    ensures |r| == |name|
    ensures forall i :: 0 <= i < |name| ==> r[i] == (if name[i] == ' ' then '_' else name[i])
  {
    ReplaceCharPointwise(name, ' ', '_');
    ReplaceChar(name, ' ', "_")
  }

  /** `<nanos>_<safe name>`. */
  function StoredFileName(nanos: int, safe: string): string {
    Decimal(nanos) + "_" + safe
  }

  /** The timestamp and the safe name a stored file name was made of. */
  function SplitStoredName(s: string): Option<(int, string)> {
    if '_' in s then
      var i := IndexOf(s, '_');
      match ParseDecimal(s[..i])
      case None => None
      case Some(n) => Some((n, s[i + 1..]))
    else None
  }

  lemma StoredFileNameRoundTrip(nanos: int, safe: string)
    ensures SplitStoredName(StoredFileName(nanos, safe)) == Some((nanos, safe))
  {
    var s := StoredFileName(nanos, safe);
    IndexOfAfter(Decimal(nanos), '_', safe);
    assert s[..|Decimal(nanos)|] == Decimal(nanos);
    assert s[|Decimal(nanos)| + 1..] == safe;
    DecimalRoundTrip(nanos);
  }

  // ---------------------------------------------------------------------------
  // The public URL

  /** `<base without trailing '/'>/files/<rel without leading '/'>`. */
  function PublicUrl(base: string, rel: string): string {
    TrimRightChar(base, '/') + "/files/" + TrimLeftChar(rel, '/')
  }

  /** Trailing slashes on the configured base URL make no difference. */
  lemma PublicUrlIgnoresTrailingSlash(base: string, rel: string)
    ensures PublicUrl(base + "/", rel) == PublicUrl(base, rel)
  {
    var s := base + "/";
    assert s[..|s| - 1] == base;
    assert TrimRightChar(s, '/') == TrimRightChar(base, '/');
  }

  /** Leading slashes on the relative path make no difference. */
  lemma PublicUrlIgnoresLeadingSlash(base: string, rel: string)
    ensures PublicUrl(base, "/" + rel) == PublicUrl(base, rel)
  {
    assert ("/" + rel)[1..] == rel;
  }

  // ---------------------------------------------------------------------------
  // The handler

  datatype FilePart = FilePart(filename: string, content: seq<byte>)

  /** The multipart form: unparsable, or parsed with an optional `file` part and the `name` value. */
  datatype Form = Unparsable | Parsed(file: Option<FilePart>, nameValue: string)

  datatype Request = Request(httpMethod: string, form: Form)

  datatype Config = Config(storageDir: string, publicBaseUrl: string)

  /** The two readings of the clock: the date, and the Unix time in nanoseconds taken afterwards. */
  datatype Clock = Clock(date: Date, nanos: int)

  /**
   What the handler asks of the operating system: creating the dated
   directory, creating and writing the file, `filepath.Rel` and
   `filepath.Abs` (None on error).
   */
  datatype Host = Host(
    mkdirAll: string -> bool,
    create: string -> bool,
    write: (string, seq<byte>) -> bool,
    rel: (string, string) -> Option<string>,
    abs: string -> Option<string>)

  datatype Reply = Reply(url: string, name: string, localPath: string)

  /** A bare status, or the reply to a stored upload together with where its bytes went. */
  datatype Response = Status(code: int) | Stored(reply: Reply, path: string, content: seq<byte>)

  const MethodNotAllowed: int := 405
  const BadRequest: int := 400
  const InternalError: int := 500

  function DatedDir(cfg: Config, clock: Clock): string
    requires ValidDate(clock.date)
  {
    Paths.Join(cfg.storageDir, DatePath(clock.date))
  }

  /** Where the upload is written. */
  function OutPath(cfg: Config, clock: Clock, name: string): string
    requires ValidDate(clock.date)
  {
    Paths.Join(DatedDir(cfg, clock), StoredFileName(clock.nanos, SafeName(name)))
  }

  /** The path under the storage directory: `filepath.Rel`, or the path with the directory cut off. */
  function RelPath(host: Host, cfg: Config, outPath: string): (r: string)
    ensures host.rel(cfg.storageDir, outPath).Some? ==> r == host.rel(cfg.storageDir, outPath).value
    ensures host.rel(cfg.storageDir, outPath).None? && cfg.storageDir <= outPath ==> cfg.storageDir + r == outPath
  {
    match host.rel(cfg.storageDir, outPath)
    case Some(rel) => rel
    case None => TrimPrefix(outPath, cfg.storageDir)
  }

  /** `local_path`: the path itself when absolute, else `filepath.Abs` of it, else the path as it is. */
  function LocalPath(host: Host, outPath: string): (r: string)
    ensures Paths.IsAbs(outPath) ==> r == outPath
    ensures !Paths.IsAbs(outPath) && host.abs(outPath).Some? ==> r == host.abs(outPath).value
    ensures !Paths.IsAbs(outPath) && host.abs(outPath).None? ==> r == outPath
  {
    if Paths.IsAbs(outPath) then outPath
    else
      match host.abs(outPath)
      case Some(a) => a
      case None => outPath
  }

  /** One request to `/upload`. */
  function HandleUpload(cfg: Config, host: Host, clock: Clock, req: Request): (r: Response)
    requires ValidDate(clock.date)
    ensures req.httpMethod != "POST" ==> r == Status(MethodNotAllowed)
    ensures req.httpMethod == "POST" && (req.form.Unparsable? || req.form.file.None?) ==> r == Status(BadRequest)
    ensures r.Stored? ==>
      && req.httpMethod == "POST" && req.form.Parsed? && req.form.file.Some?
      && (var part := req.form.file.value;
         var name := DisplayName(part.filename, req.form.nameValue);
         && r.reply.name == name
         && r.path == OutPath(cfg, clock, name)
         && r.content == part.content
         && r.reply.url == PublicUrl(cfg.publicBaseUrl, RelPath(host, cfg, r.path))
         && r.reply.localPath == LocalPath(host, r.path))
    ensures req.httpMethod == "POST" && req.form.Parsed? && req.form.file.Some? ==>
      var part := req.form.file.value;
      var path := OutPath(cfg, clock, DisplayName(part.filename, req.form.nameValue));
      var diskOk := host.mkdirAll(DatedDir(cfg, clock)) && host.create(path) && host.write(path, part.content);
      && (r.Stored? <==> diskOk)
      && (!diskOk ==> r == Status(InternalError))
  {
    if req.httpMethod != "POST" then Status(MethodNotAllowed)
    else
      match req.form
      case Unparsable => Status(BadRequest)
      case Parsed(file, nameValue) =>
        match file
        case None => Status(BadRequest)
        case Some(part) =>
          var dir := DatedDir(cfg, clock);
          if !host.mkdirAll(dir) then Status(InternalError)
          else
            var name := DisplayName(part.filename, nameValue);
            var outPath := OutPath(cfg, clock, name);
            if !host.create(outPath) || !host.write(outPath, part.content) then Status(InternalError)
            else
              var url := PublicUrl(cfg.publicBaseUrl, RelPath(host, cfg, outPath));
              Stored(Reply(url, name, LocalPath(host, outPath)), outPath, part.content)
  }

  // ---------------------------------------------------------------------------
  // Properties of the handler

  /**
   A stored upload sits in `<storage>/<YYYY>/<MM>/<DD>/` under the name
   `<nanos>_<name with spaces as underscores>`, and that name holds no space.
   */
  lemma StoredLayout(cfg: Config, clock: Clock, name: string)
    requires ValidDate(clock.date) && cfg.storageDir != []
    requires '/' !in name
    ensures var file := StoredFileName(clock.nanos, SafeName(name));
      && OutPath(cfg, clock, name) == cfg.storageDir + "/" + DatePath(clock.date) + "/" + file
      && Paths.Base(OutPath(cfg, clock, name)) == file
      && ' ' !in Paths.Base(OutPath(cfg, clock, name))
      && SplitStoredName(Paths.Base(OutPath(cfg, clock, name))) == Some((clock.nanos, SafeName(name)))
  {
    var file := StoredFileName(clock.nanos, SafeName(name));
    var safe := SafeName(name);
    assert '/' !in safe by {
      forall i | 0 <= i < |safe|
        ensures safe[i] != '/'
      {
        assert name[i] != '/';
      }
    }
    assert '/' !in file;
    assert ' ' !in file;
    Paths.BaseOfJoin(DatedDir(cfg, clock), file);
    StoredFileNameRoundTrip(clock.nanos, SafeName(name));
  }

  /** The relative path the URL is built from when `filepath.Rel` succeeds lexically. */
  function LexicalRel(clock: Clock, name: string): string
    requires ValidDate(clock.date)
  {
    DatePath(clock.date) + "/" + StoredFileName(clock.nanos, SafeName(name))
  }

  /**
   The public URL is `<base>/files/<YYYY>/<MM>/<DD>/<stored name>`, and it is
   the same when `filepath.Rel` fails and the handler falls back to cutting
   the storage directory off the path.
   */
  lemma UrlLayout(cfg: Config, host: Host, clock: Clock, name: string)
    requires ValidDate(clock.date) && cfg.storageDir != []
    requires host.rel(cfg.storageDir, OutPath(cfg, clock, name)).None?
          || host.rel(cfg.storageDir, OutPath(cfg, clock, name)) == Some(LexicalRel(clock, name))
    ensures PublicUrl(cfg.publicBaseUrl, RelPath(host, cfg, OutPath(cfg, clock, name)))
         == TrimRightChar(cfg.publicBaseUrl, '/') + "/files/" + LexicalRel(clock, name)
  {
    var rel := LexicalRel(clock, name);
    var out := OutPath(cfg, clock, name);
    OutPathUnderStorage(cfg, clock, name);
    LexicalRelStartsWithDigit(clock, name);
    if host.rel(cfg.storageDir, out).None? {
      assert cfg.storageDir <= out;
      assert TrimPrefix(out, cfg.storageDir) == "/" + rel;
      PublicUrlIgnoresLeadingSlash(cfg.publicBaseUrl, rel);
    } else {
      assert TrimLeftChar(rel, '/') == rel;
    }
  }

  /** The output path is the storage directory, a '/', and the lexical relative path. */
  lemma OutPathUnderStorage(cfg: Config, clock: Clock, name: string)
    requires ValidDate(clock.date) && cfg.storageDir != []
    ensures OutPath(cfg, clock, name) == cfg.storageDir + ("/" + LexicalRel(clock, name))
  {
    var date := DatePath(clock.date);
    var file := StoredFileName(clock.nanos, SafeName(name));
    var dir := DatedDir(cfg, clock);
    assert date != [] && file != [];
    assert dir == cfg.storageDir + "/" + date;
    assert dir != [];
    assert OutPath(cfg, clock, name) == dir + "/" + file;
    assert LexicalRel(clock, name) == date + "/" + file;
    Concat5(cfg.storageDir, "/", date, "/", file);
  }

  lemma Concat5(a: string, b: string, c: string, d: string, e: string)
    ensures a + b + c + d + e == a + (b + (c + d + e))
  {
  }

  /** The lexical relative path starts with the first digit of the year. */
  lemma LexicalRelStartsWithDigit(clock: Clock, name: string)
    requires ValidDate(clock.date)
    ensures IsDigit(LexicalRel(clock, name)[0])
  {
    var year := Pad(clock.date.year, 4);
    assert LexicalRel(clock, name)[0] == year[0];
  }

  /** `local_path` is absolute whenever the path is, or `filepath.Abs` gives an absolute path. */
  lemma LocalPathAbsolute(host: Host, outPath: string)
    requires Paths.IsAbs(outPath) || (host.abs(outPath).Some? && Paths.IsAbs(host.abs(outPath).value))
    ensures Paths.IsAbs(LocalPath(host, outPath))
  {
  }

  /** The name in the reply keeps its spaces, while the stored name replaces them. */
  lemma ReplyNameKeepsSpaces(cfg: Config, host: Host, clock: Clock, req: Request)
    requires ValidDate(clock.date)
    requires HandleUpload(cfg, host, clock, req).Stored?
    ensures var r := HandleUpload(cfg, host, clock, req);
      var name := r.reply.name;
      && name == DisplayName(req.form.file.value.filename, req.form.nameValue)
      && Paths.Base(name) == name
      && r.path == OutPath(cfg, clock, name)
  {
    Paths.BaseIdempotent(DisplayName(req.form.file.value.filename, req.form.nameValue));
  }
}
