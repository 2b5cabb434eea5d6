/**
 The JSON side of the relay: a JSON value type, an abstract text codec, the
 OneBot command envelope `{action, params, echo}`, and the typed parameter
 records the upload actions decode. Members are looked up by their exact key:
 the case-insensitive key matching of Go's `encoding/json` is not part of this
 model.
 */
module Json {
  import opened Wrappers
  import opened Text

  /** A JSON value; objects are maps (key order and duplicate keys are not kept). */
  datatype Json =
    | JNull
    | JBool(b: bool)
    | JNum(n: real)
    | JStr(s: string)
    | JArr(items: seq<Json>)
    | JObj(fields: map<string, Json>)

  /** JSON text: `parse` fails on malformed text; `serialize` always succeeds. */
  datatype Codec = Codec(parse: seq<byte> -> Option<Json>, serialize: Json -> seq<byte>)

  /** A OneBot command. `echo` is carried along and never looked at. */
  datatype Envelope = Envelope(action: string, params: Json, echo: Json)

  /** A member of an object, `null` when it is absent. */
  function Field(fields: map<string, Json>, key: string): (r: Json)
    ensures key !in fields ==> r == JNull
    ensures key in fields ==> r == fields[key]
  {
    if key in fields then fields[key] else JNull
  }

  /** Go's `v, _ := m[key].(string)`: the string member, "" when absent or not a string. */
  function StrField(fields: map<string, Json>, key: string): string {
    match Field(fields, key)
    case JStr(s) => s
    case _ => ""
  }

  /** Go's `v, _ := m[key].(map[string]interface{})`: the object member, None when absent or not an object. */
  function ObjField(fields: map<string, Json>, key: string): Option<map<string, Json>> {
    match Field(fields, key)
    case JObj(m) => Some(m)
    case _ => None
  }

  /** Decoding a JSON string into a Go `string`: `null` leaves it empty; any other kind is an error. */
  function AsString(j: Json): Option<string> {
    match j
    case JNull => Some("")
    case JStr(s) => Some(s)
    case _ => None
  }

  const Int64Min: int := -0x8000_0000_0000_0000
  const Int64Max: int := 0x7FFF_FFFF_FFFF_FFFF

  predicate IsInt64(i: int) {
    Int64Min <= i <= Int64Max
  }

  /** Decoding a JSON number into a Go `int64`: `null` leaves it 0; fractions and overflow are errors. */
  function AsInt64(j: Json): (r: Option<int>)
    ensures r.Some? ==> IsInt64(r.value)
  {
    match j
    case JNull => Some(0)
    case JNum(n) => if n.Floor as real == n && IsInt64(n.Floor) then Some(n.Floor) else None
    case _ => None
  }

  /**
   `json.Unmarshal` into the command struct: the text must be an object (or
   `null`, giving the zero command); a non-string `action` is an error;
   absent members are `null`; other members are ignored.
   */
  function DecodeEnvelope(j: Json): (r: Option<Envelope>)
    ensures j.JObj? ==> (r.Some? <==> AsString(Field(j.fields, "action")).Some?)
    ensures j.JObj? && r.Some? ==>
      && r.value.action == AsString(Field(j.fields, "action")).value
      && r.value.params == Field(j.fields, "params") && r.value.echo == Field(j.fields, "echo")
    ensures j.JNull? ==> r == Some(Envelope("", JNull, JNull))
    ensures !j.JObj? && !j.JNull? ==> r.None?
  {
    match j
    case JNull => Some(Envelope("", JNull, JNull))
    case JObj(fields) =>
      (match AsString(Field(fields, "action"))
       case None => None
       case Some(action) => Some(Envelope(action, Field(fields, "params"), Field(fields, "echo"))))
    case _ => None
  }

  /** `json.Marshal` of the command struct: all three members are always written. */
  function EnvelopeJson(e: Envelope): (r: Json)
    ensures r.JObj? && r.fields.Keys == {"action", "params", "echo"}
  {
    JObj(map["action" := JStr(e.action), "params" := e.params, "echo" := e.echo])
  }

  /** Encoding a command and decoding it again gives the same command. */
  lemma EnvelopeRoundTrip(e: Envelope)
    ensures DecodeEnvelope(EnvelopeJson(e)) == Some(e)
  {
  }

  /**
   A command read from an object with a string action re-encodes to the three
   members it was read from; every other member of the object is dropped.
   */
  lemma EnvelopeReencode(fields: map<string, Json>, e: Envelope)
    requires Field(fields, "action").JStr?
    requires DecodeEnvelope(JObj(fields)) == Some(e)
    ensures EnvelopeJson(e) == JObj(map["action" := Field(fields, "action"),
                                        "params" := Field(fields, "params"),
                                        "echo" := Field(fields, "echo")])
  {
  }

  /** The parameters of `upload_private_file` / `upload_group_file`. */
  datatype UploadParams = UploadParams(id: int, file: string, name: string)

  /**
   `json.Unmarshal` of the parameters into the typed struct whose id member is
   `idKey`: `null` gives the zero struct; members of the wrong kind are errors;
   members outside the struct are ignored. Numbers are exact here: the float64
   pass Go's code makes over the parameters first is not modelled.
   */
  function DecodeUploadParams(idKey: string, params: Json): (r: Option<UploadParams>)
    ensures params.JNull? ==> r == Some(UploadParams(0, "", ""))
    ensures !params.JNull? && !params.JObj? ==> r.None?
    ensures params.JObj? ==>
      (r.Some? <==> && AsInt64(Field(params.fields, idKey)).Some?
                    && AsString(Field(params.fields, "file")).Some?
                    && AsString(Field(params.fields, "name")).Some?)
    ensures params.JObj? && r.Some? ==>
      && r.value.id == AsInt64(Field(params.fields, idKey)).value
      && r.value.file == AsString(Field(params.fields, "file")).value
      && r.value.name == AsString(Field(params.fields, "name")).value
    ensures r.Some? ==> IsInt64(r.value.id)
  {
    match params
    case JNull => Some(UploadParams(0, "", ""))
    case JObj(fields) =>
      (match (AsInt64(Field(fields, idKey)), AsString(Field(fields, "file")), AsString(Field(fields, "name")))
       case (Some(id), Some(file), Some(name)) => Some(UploadParams(id, file, name))
       case _ => None)
    case _ => None
  }

  /**
   Which members fail the decoding: an id that is not a whole number in the
   `int64` range (a string id, a fraction, an overflow) and a file or name that
   is neither a string nor `null`. An absent member is never an error.
   */
  lemma UploadParamsKindErrors(idKey: string, fields: map<string, Json>)
    ensures Field(fields, idKey).JStr? || Field(fields, idKey).JBool? ==> DecodeUploadParams(idKey, JObj(fields)).None?
    ensures Field(fields, idKey) == JNum(0.5) ==> DecodeUploadParams(idKey, JObj(fields)).None?
    ensures Field(fields, idKey) == JNum((Int64Max + 1) as real) ==> DecodeUploadParams(idKey, JObj(fields)).None?
    ensures !Field(fields, "file").JStr? && !Field(fields, "file").JNull? ==> DecodeUploadParams(idKey, JObj(fields)).None?
    ensures !Field(fields, "name").JStr? && !Field(fields, "name").JNull? ==> DecodeUploadParams(idKey, JObj(fields)).None?
    ensures idKey !in fields && "file" !in fields && "name" !in fields ==>
      DecodeUploadParams(idKey, JObj(fields)) == Some(UploadParams(0, "", ""))
  {
    assert (0.5).Floor == 0;
  }

  /** `json.Marshal` of the typed upload struct: exactly its three members. */
  function UploadParamsJson(idKey: string, p: UploadParams): Json {
    JObj(map[idKey := JNum(p.id as real), "file" := JStr(p.file), "name" := JStr(p.name)])
  }

  /** The typed upload struct survives being written and read again. */
  lemma UploadParamsRoundTrip(idKey: string, p: UploadParams)
    requires idKey != "file" && idKey != "name"
    requires IsInt64(p.id)
    ensures DecodeUploadParams(idKey, UploadParamsJson(idKey, p)) == Some(p)
  {
    assert (p.id as real).Floor == p.id;
  }
}
