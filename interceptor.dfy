/**
 * The response interceptor: when a data-encryption secret is configured and
 * encryption is switched on, it decrypts single-key `{data}` request bodies
 * and queries in place before the handler runs; afterwards it wraps every
 * handler result in the `{data, statusCode, message, error}` envelope,
 * encrypting the serialised result when encryption is on, unless the result
 * asks to be sent raw.
 */
module ResponseInterception {
  import opened Wrappers
  import opened Js
  import opened Exceptions
  import Crypto

  const INVALID_PAYLOAD: string := "Invalid request payload !"
  const SUCCESS: string := "Success"

  /**
   * What the interceptor takes from elsewhere: `encrypt(text, password)` and
   * `decrypt(text, password)` of the crypto helper (a failing decryption is
   * an `Err` with what it throws) and `JSON.stringify`.
   */
  datatype Codec = Codec(
    encrypt: (string, string) -> string,
    decrypt: (string, string) -> Result<string, Exception>,
    stringify: JsValue -> string)

  /**
   * Encrypting under the secret gives non-empty text, and decrypting that
   * with the secret gives the original text back, for every text.
   */
  ghost predicate RoundTrips(codec: Codec, secret: string) {
    forall text :: codec.encrypt(text, secret) != "" && codec.decrypt(codec.encrypt(text, secret), secret) == Ok(text)
  }

  /** `Buffer.from(text)` and `buffer.toString()`: UTF-8 encoding and decoding, taken as given. */
  datatype Utf8 = Utf8(encode: string -> seq<Crypto.byte>, decode: seq<Crypto.byte> -> string)

  /**
   * The codec the crypto helper provides, for one IV: encryption frames the
   * UTF-8 bytes of the text, and a decryption that fails throws a plain error.
   */
  function CryptoCodec(prim: Crypto.Primitives, iv: Crypto.Iv, utf8: Utf8, stringify: JsValue -> string): Codec {
    Codec(
      (text, password) => Crypto.Encrypt(utf8.encode(text), password, iv, prim),
      (text, password) =>
        match Crypto.Decrypt(text, password, prim)
        case Ok(bytes) => Ok(utf8.decode(bytes))
        case Err(_) => Err(PlainError),
      stringify)
  }

  /** The crypto helper's codec round-trips under every secret, given a UTF-8 round trip. */
  lemma CryptoCodecRoundTrips(prim: Crypto.Primitives, iv: Crypto.Iv, utf8: Utf8, stringify: JsValue -> string, secret: string)
    requires forall text :: utf8.decode(utf8.encode(text)) == text
    ensures RoundTrips(CryptoCodec(prim, iv, utf8, stringify), secret)
  {
    var codec := CryptoCodec(prim, iv, utf8, stringify);
    forall text
      ensures codec.encrypt(text, secret) != ""
      ensures codec.decrypt(codec.encrypt(text, secret), secret) == Ok(text)
    {
      Crypto.DecryptEncrypt(utf8.encode(text), secret, iv, prim);
    }
  }

  /** The request as the interceptor sees it: a body and a query it may overwrite. */
  class Request {
    var body: JsValue
    var query: JsValue

    constructor (body: JsValue, query: JsValue)
      ensures this.body == body && this.query == query
    {
      this.body := body;
      this.query := query;
    }
  }

  /** A one-key object `{data: envelope}`, the shape an encrypted request carries. */
  function DataObject(envelope: string): JsValue {
    Obj(map["data" := Str(envelope)])
  }

  class ResponseInterceptor {
    const secretKey: string
    const enableEncryption: bool
    const codec: Codec

    /**
     * The secret is `app.dataEncryptKey ?? ''` and the switch
     * `app.enableEncryption ?? false`; `None` is a setting that is not there.
     */
    constructor (dataEncryptKey: Option<string>, encryption: Option<bool>, codec: Codec)
      ensures secretKey == dataEncryptKey.GetOr("")
      ensures enableEncryption == encryption.GetOr(false)
      ensures this.codec == codec
    {
      secretKey := dataEncryptKey.GetOr("");
      enableEncryption := encryption.GetOr(false);
      this.codec := codec;
    }

    /** `this.secretKey && this.enableEncryption` */
    predicate Encrypting() {
      secretKey != "" && enableEncryption
    }

    /**
     * `handleData`: a falsy payload, or one with other than exactly one key,
     * comes back as it is. A one-key payload must hold a non-empty string
     * under `data`, which is decrypted to a string; anything else is a bad
     * request.
     */
    function HandleData(payload: JsValue): (r: Result<JsValue, Exception>)
      ensures r.Ok? && r.value != payload ==> r.value.Str?
      ensures r.Err? ==> Truthy(payload) && KeyCount(payload) == 1
    {
      if Truthy(payload) && KeyCount(payload) == 1 then
        var data := Prop(payload, "data");
        if Truthy(data) && data.Str? then
          match codec.decrypt(data.s, secretKey)
          case Ok(text) => Ok(Str(text))
          case Err(e) => Err(e)
        else
          Err(BadRequest(INVALID_PAYLOAD))
      else
        Ok(payload)
    }

    /**
     * `intercept` before the handler runs: with encryption on, the body and
     * then the query are replaced by what `HandleData` makes of them. A
     * failure on the body stops there, with nothing changed; a failure on the
     * query leaves the body already replaced.
     */
    method Inbound(request: Request) returns (r: Result<(), Exception>)
      modifies request
      ensures !Encrypting() ==> r.Ok? && request.body == old(request.body) && request.query == old(request.query)
      ensures Encrypting() && HandleData(old(request.body)).Err? ==>
        && r == Err(HandleData(old(request.body)).error)
        && request.body == old(request.body) && request.query == old(request.query)
      ensures Encrypting() && HandleData(old(request.body)).Ok? ==>
        && request.body == HandleData(old(request.body)).value
        && (HandleData(old(request.query)).Err? ==>
              r == Err(HandleData(old(request.query)).error) && request.query == old(request.query))
        && (HandleData(old(request.query)).Ok? ==>
              r.Ok? && request.query == HandleData(old(request.query)).value)
    {
      if Encrypting() {
        var body := HandleData(request.body);
        if body.Err? {
          return Err(body.error);
        }
        request.body := body.value;
        var query := HandleData(request.query);
        if query.Err? {
          return Err(query.error);
        }
        request.query := query.value;
      }
      return Ok(());
    }

    /**
     * `intercept` as a whole: the inbound step, then the handler on the
     * (possibly replaced) body and query, then the outbound step on its
     * result. A failed inbound step is what the request ends with. The
     * request keeps the replaced body and query for the rest of the
     * pipeline, as `Inbound` leaves them.
     */
    method Intercept(request: Request, handler: (JsValue, JsValue) -> JsValue, statusCode: JsValue)
      returns (r: Result<JsValue, Exception>)
      modifies request
      ensures var body, query := old(request.body), old(request.query);
        && (!Encrypting() ==> r == Ok(Outbound(handler(body, query), statusCode)))
        && (Encrypting() && HandleData(body).Ok? && HandleData(query).Ok? ==>
              r == Ok(Outbound(handler(HandleData(body).value, HandleData(query).value), statusCode)))
        && (Encrypting() && HandleData(body).Err? ==> r == Err(HandleData(body).error))
        && (Encrypting() && HandleData(body).Ok? && HandleData(query).Err? ==> r == Err(HandleData(query).error))
      ensures var body, query := old(request.body), old(request.query);
        && (!Encrypting() ==> request.body == body && request.query == query)
        && (Encrypting() && HandleData(body).Err? ==> request.body == body && request.query == query)
        && (Encrypting() && HandleData(body).Ok? ==> request.body == HandleData(body).value)
        && (Encrypting() && HandleData(body).Ok? && HandleData(query).Ok? ==> request.query == HandleData(query).value)
        && (Encrypting() && HandleData(body).Ok? && HandleData(query).Err? ==> request.query == query)
    {
      var inbound := Inbound(request);
      if inbound.Err? {
        return Err(inbound.error);
      }
      var result := handler(request.body, request.query);
      return Ok(Outbound(result, statusCode));
    }

    /**
     * The `map` after the handler: a truthy result with a truthy `sendRaw`
     * is replaced by its `data` (or `{}` when that is nullish); anything
     * else is wrapped in the success envelope. `statusCode` is the
     * response's own status code property.
     */
    function Outbound(result: JsValue, statusCode: JsValue): (r: JsValue)
      ensures !(Truthy(result) && Truthy(Prop(result, "sendRaw"))) ==> r.Obj?
    {
      if Truthy(result) && Truthy(Prop(result, "sendRaw")) then
        Coalesce(Prop(result, "data"), Obj(map[]))
      else
        Obj(map[
          "data" := EnvelopeData(result),
          "statusCode" := Coalesce(statusCode, Num(OK)),
          "message" := Str(SUCCESS),
          "error" := Bool(false)])
    }

    /** The envelope's `data`: `{}` for a falsy result, else the result, encrypted when encryption is on. */
    function EnvelopeData(result: JsValue): (data: JsValue)
      ensures !Truthy(result) ==> data == Obj(map[])
      ensures Truthy(result) && !Encrypting() ==> data == result
      ensures Truthy(result) && Encrypting() && RoundTrips(codec, secretKey) ==>
        data.Str? && codec.decrypt(data.s, secretKey) == Ok(codec.stringify(result))
    {
      if !Truthy(result) then Obj(map[])
      else if Encrypting() then Str(codec.encrypt(codec.stringify(result), secretKey))
      else result
    }

    /** Payloads that are falsy or do not have exactly one key pass through, whatever they hold. */
    lemma PassThrough(payload: JsValue)
      requires !Truthy(payload) || KeyCount(payload) != 1
      ensures HandleData(payload) == Ok(payload)
    {
    }

    /** An object with `data` and any further key is not decrypted but passed on as it is. */
    lemma MultiKeyPassesThrough(fields: map<string, JsValue>, other: string)
      requires "data" in fields && other in fields && other != "data"
      ensures HandleData(Obj(fields)) == Ok(Obj(fields))
    {
      var keys := fields.Keys;
      assert {"data", other} <= keys;
      assert |{"data", other}| == 2;
      SubsetCard({"data", other}, keys);
    }

    /** A one-key payload without a non-empty string under `data` is a bad request. */
    lemma OneKeyWithoutDataRejected(payload: JsValue)
      requires Truthy(payload) && KeyCount(payload) == 1
      requires !Prop(payload, "data").Str? || Prop(payload, "data").s == ""
      ensures HandleData(payload) == Err(BadRequest(INVALID_PAYLOAD))
    {
    }

    /** A one-key `{data: text}` with non-empty text becomes the decryption of the text. */
    lemma OneKeyDataDecrypted(text: string)
      requires text != ""
      ensures HandleData(DataObject(text)) ==
        match codec.decrypt(text, secretKey)
        case Ok(plain) => Ok(Str(plain))
        case Err(e) => Err(e)
    {
    }

    /** The envelope always reports success. */
    lemma EnvelopeFields(result: JsValue, statusCode: JsValue)
      requires !(Truthy(result) && Truthy(Prop(result, "sendRaw")))
      ensures var r := Outbound(result, statusCode);
        && r.Obj? && r.fields.Keys == {"data", "statusCode", "message", "error"}
        && r.fields["message"] == Str(SUCCESS) && r.fields["error"] == Bool(false)
        && r.fields["statusCode"] == (if Nullish(statusCode) then Num(OK) else statusCode)
        && r.fields["data"] == EnvelopeData(result)
    {
    }

    /** A truthy result asking to be sent raw bypasses the envelope and the encryption. */
    lemma RawBypass(result: JsValue, statusCode: JsValue)
      requires Truthy(result) && Truthy(Prop(result, "sendRaw"))
      ensures Outbound(result, statusCode) ==
        (if Nullish(Prop(result, "data")) then Obj(map[]) else Prop(result, "data"))
    {
    }

    /**
     * What a client does with an encrypted envelope, sending its `data` back
     * as `{data}`, comes out of `HandleData` as the serialised result, as
     * long as decryption undoes encryption under the secret.
     */
    lemma EnvelopeDecryptsBack(result: JsValue, statusCode: JsValue)
      requires Encrypting() && RoundTrips(codec, secretKey)
      requires Truthy(result) && !Truthy(Prop(result, "sendRaw"))
      ensures var sent := Outbound(result, statusCode).fields["data"];
        && sent.Str? && sent.s != ""
        && HandleData(DataObject(sent.s)) == Ok(Str(codec.stringify(result)))
    {
      var envelope := codec.encrypt(codec.stringify(result), secretKey);
      assert envelope != "" && codec.decrypt(envelope, secretKey) == Ok(codec.stringify(result));
    }
  }

  /** A subset has no more elements than its superset. */
  lemma SubsetCard<T>(a: set<T>, b: set<T>)
    requires a <= b
    ensures |a| <= |b|
  {
    if a != {} {
      var x :| x in a;
      SubsetCard(a - {x}, b - {x});
    }
  }
}
