/** The `/upload` handler (index.js:87-118): validate, decode, resolve the
    content type and extension, generate the key, write the object, resolve
    the URL and answer. The object store is a capability whose write and
    presign either succeed or fail; ghost logs record every request made to
    it, so that "no write is issued" can be stated. */
module Upload {
  import opened Wrappers
  import opened Text
  import opened Base64
  import opened Payload
  import opened ContentType
  import opened Keys
  import opened Uri

  /** The configuration read once at startup: the bucket and the public base
      URL, `""` when `R2_PUBLIC_BASE_URL` is unset or empty (falsy). */
  datatype Config = Config(bucket: string, publicBaseUrl: string)

  /** The JSON body of a request; an absent `folder` is `""`. */
  datatype UploadRequest = UploadRequest(imageBase64: Field, folder: string)

  datatype ResponseBody =
    | Uploaded(key: string, url: string, contentType: string, size: nat)
    | Rejected(error: string)

  /** The status code and the JSON body: `{ok: true, ...}` for Uploaded,
      `{ok: false, error}` for Rejected. */
  datatype Response = Response(status: int, body: ResponseBody)

  datatype ObjectId = ObjectId(bucket: string, key: string)
  datatype StoredObject = StoredObject(body: seq<byte>, contentType: string)

  /** A `PutObjectCommand`. */
  datatype PutRequest = PutRequest(id: ObjectId, body: seq<byte>, contentType: string)

  /** A `getSignedUrl` call for a `GetObjectCommand`. */
  datatype PresignRequest = PresignRequest(id: ObjectId, expiresIn: nat)

  /** Signed URLs expire after one hour. */
  const PresignSeconds: nat := 3600

  const MissingPayload: string := "Missing 'imageBase64'"

  /** `e.message || "Upload failed"`: the message of the caught error, or the
      generic one when it has none. */
  function ErrorMessage(message: string): (m: string)
    ensures m != ""
    ensures message != "" ==> m == message
  {
    if message != "" then message else "Upload failed"
  }

  /** The object store behind the S3 client. Whether a write or a presign
      fails is fixed when the store is made (`writeFault`, `signFault` hold
      the backend's error message), and the URL a successful presign returns
      is given by `signer`. */
  class ObjectStore {
    var objects: map<ObjectId, StoredObject>
    const writeFault: Option<string>
    const signFault: Option<string>
    const signer: PresignRequest -> string
    ghost var puts: seq<PutRequest>
    ghost var presigns: seq<PresignRequest>

    constructor (writeFault: Option<string>, signFault: Option<string>, signer: PresignRequest -> string)
      ensures this.writeFault == writeFault && this.signFault == signFault && this.signer == signer
      ensures objects == map[] && puts == [] && presigns == []
    {
      this.writeFault := writeFault;
      this.signFault := signFault;
      this.signer := signer;
      objects := map[];
      puts := [];
      presigns := [];
    }

    /** `s3.send(new PutObjectCommand(...))`: logged, and either stores the
        object under its id or fails and leaves the store as it was. */
    method Put(req: PutRequest) returns (r: Outcome<string>)
      modifies this`objects, this`puts
      ensures puts == old(puts) + [req]
      ensures r == if writeFault.Some? then Fail(writeFault.value) else Pass
      ensures objects == if r.Pass? then old(objects)[req.id := StoredObject(req.body, req.contentType)]
                         else old(objects)
    {
      puts := puts + [req];
      if writeFault.Some? {
        r := Fail(writeFault.value);
      } else {
        objects := objects[req.id := StoredObject(req.body, req.contentType)];
        r := Pass;
      }
    }

    /** `getSignedUrl(...)`: logged, and either a URL or the backend's error;
        the objects are not touched. */
    method Presign(req: PresignRequest) returns (r: Result<string, string>)
      modifies this`presigns
      ensures presigns == old(presigns) + [req]
      ensures r == if signFault.Some? then Failure(signFault.value) else Success(signer(req))
    {
      presigns := presigns + [req];
      if signFault.Some? {
        r := Failure(signFault.value);
      } else {
        r := Success(signer(req));
      }
    }
  }

  /** What the handler has ready to write once the payload is accepted. */
  datatype Prepared = Prepared(key: string, buffer: seq<byte>, contentType: string)

  /** Lines 89-98: the payload check, the decoder, the resolver and the key
      template, or the message of the first failure. */
  function Prepare(req: UploadRequest, rand8: seq<byte>, rand6: seq<byte>, lookup: string -> Option<string>)
    : (r: Result<Prepared, string>)
    requires |rand8| == 8 && |rand6| == 6
    ensures r.Success? <==> req.imageBase64.Truthy() && ParseBase64(req.imageBase64).Success?
    ensures r.Failure? ==> r.error in {MissingPayload, "Empty base64 string", "Invalid base64 data"}
    ensures r.Success? ==> r.value.contentType != "" && r.value.buffer == ParseBase64(req.imageBase64).value.buffer
  {
    if !req.imageBase64.Truthy() then Failure(MissingPayload)
    else match ParseBase64(req.imageBase64)
      case Failure(e) => Failure(ErrorMessage(e.Message()))
      case Success(d) =>
        var resolved := Resolve(d.mimeType, lookup);
        Success(Prepared(GenerateKey(req.folder, rand8, rand6, resolved.ext), d.buffer, resolved.contentType))
  }

  /** The response the handler sends, as a function of the request, the
      random bytes, the extension table and the store's behaviour. */
  function Handle(cfg: Config, req: UploadRequest, rand8: seq<byte>, rand6: seq<byte>,
                  lookup: string -> Option<string>,
                  writeFault: Option<string>, signFault: Option<string>, signer: PresignRequest -> string)
    : (resp: Response)
    requires |rand8| == 8 && |rand6| == 6
    ensures resp.status == 200 <==> resp.body.Uploaded?
    ensures resp.status != 200 ==> resp.status == 400 && resp.body.error != ""
    ensures resp.body.Uploaded? ==> Prepare(req, rand8, rand6, lookup).Success? && writeFault.None?
  {
    match Prepare(req, rand8, rand6, lookup)
    case Failure(m) => Response(400, Rejected(m))
    case Success(p) =>
      if writeFault.Some? then Response(400, Rejected(ErrorMessage(writeFault.value)))
      else if cfg.publicBaseUrl != "" then
        Response(200, Uploaded(p.key, JoinUrl(cfg.publicBaseUrl, p.key), p.contentType, |p.buffer|))
      else if signFault.Some? then Response(400, Rejected(ErrorMessage(signFault.value)))
      else
        Response(200, Uploaded(p.key, signer(PresignRequest(ObjectId(cfg.bucket, p.key), PresignSeconds)),
                               p.contentType, |p.buffer|))
  }

  /** The `/upload` handler. It answers as Handle says; it writes exactly
      once when the payload is accepted and never otherwise; it presigns
      only after a successful write and only when no public base URL is
      configured; an object written before a failed presign stays. */
  method HandleUpload(cfg: Config, req: UploadRequest, rand8: seq<byte>, rand6: seq<byte>,
                      lookup: string -> Option<string>, store: ObjectStore)
    returns (resp: Response)
    requires |rand8| == 8 && |rand6| == 6
    modifies store
    ensures resp == Handle(cfg, req, rand8, rand6, lookup, store.writeFault, store.signFault, store.signer)
    ensures store.puts == old(store.puts) + match Prepare(req, rand8, rand6, lookup)
      case Success(p) => [PutRequest(ObjectId(cfg.bucket, p.key), p.buffer, p.contentType)]
      case Failure(_) => []
    ensures store.presigns == old(store.presigns) + match Prepare(req, rand8, rand6, lookup)
      case Success(p) =>
        if store.writeFault.None? && cfg.publicBaseUrl == ""
        then [PresignRequest(ObjectId(cfg.bucket, p.key), PresignSeconds)] else []
      case Failure(_) => []
    ensures store.objects == match Prepare(req, rand8, rand6, lookup)
      case Success(p) =>
        if store.writeFault.None?
        then old(store.objects)[ObjectId(cfg.bucket, p.key) := StoredObject(p.buffer, p.contentType)]
        else old(store.objects)
      case Failure(_) => old(store.objects)
  {
    if !req.imageBase64.Truthy() {
      return Response(400, Rejected(MissingPayload));
    }
    var parsed := ParseBase64(req.imageBase64);
    if parsed.Failure? {
      return Response(400, Rejected(ErrorMessage(parsed.error.Message())));
    }
    var buffer, mimeType := parsed.value.buffer, parsed.value.mimeType;
    var resolved := Resolve(mimeType, lookup);
    var key := GenerateKey(req.folder, rand8, rand6, resolved.ext);

    var written := store.Put(PutRequest(ObjectId(cfg.bucket, key), buffer, resolved.contentType));
    if written.Fail? {
      return Response(400, Rejected(ErrorMessage(written.error)));
    }

    var url;
    if cfg.publicBaseUrl != "" {
      url := JoinUrl(cfg.publicBaseUrl, key);
    } else {
      var signed := store.Presign(PresignRequest(ObjectId(cfg.bucket, key), PresignSeconds));
      if signed.Failure? {
        return Response(400, Rejected(ErrorMessage(signed.error)));
      }
      url := signed.value;
    }
    resp := Response(200, Uploaded(key, url, resolved.contentType, |buffer|));
  }

  // ---------------------------------------------------------------------
  // Outcomes of the handler

  /** A missing, empty or falsy `imageBase64` is answered 400 with
      "Missing 'imageBase64'", and nothing is prepared for writing. */
  lemma HandleMissingPayload(cfg: Config, req: UploadRequest, rand8: seq<byte>, rand6: seq<byte>,
                             lookup: string -> Option<string>,
                             writeFault: Option<string>, signFault: Option<string>, signer: PresignRequest -> string)
    requires |rand8| == 8 && |rand6| == 6
    requires !req.imageBase64.Truthy()
    ensures Prepare(req, rand8, rand6, lookup).Failure?
    ensures Handle(cfg, req, rand8, rand6, lookup, writeFault, signFault, signer)
      == Response(400, Rejected("Missing 'imageBase64'"))
  {
  }

  /** A payload the decoder refuses is answered 400 with the decoder's
      message, and nothing is prepared for writing. */
  lemma HandleInvalidPayload(cfg: Config, req: UploadRequest, rand8: seq<byte>, rand6: seq<byte>,
                             lookup: string -> Option<string>,
                             writeFault: Option<string>, signFault: Option<string>, signer: PresignRequest -> string)
    requires |rand8| == 8 && |rand6| == 6
    requires req.imageBase64.Truthy() && ParseBase64(req.imageBase64).Failure?
    ensures Prepare(req, rand8, rand6, lookup).Failure?
    ensures Handle(cfg, req, rand8, rand6, lookup, writeFault, signFault, signer)
      == Response(400, Rejected(ParseBase64(req.imageBase64).error.Message()))
  {
  }

  /** A failed write is answered 400 with the backend's message (or
      "Upload failed"), and the answer carries no key and no URL. */
  lemma HandleWriteFailure(cfg: Config, req: UploadRequest, rand8: seq<byte>, rand6: seq<byte>,
                           lookup: string -> Option<string>,
                           writeFault: Option<string>, signFault: Option<string>, signer: PresignRequest -> string)
    requires |rand8| == 8 && |rand6| == 6 && writeFault.Some?
    ensures var resp := Handle(cfg, req, rand8, rand6, lookup, writeFault, signFault, signer);
      resp.status == 400 && resp.body.Rejected?
      && (Prepare(req, rand8, rand6, lookup).Success? ==> resp.body.error == ErrorMessage(writeFault.value))
  {
  }

  /** A failed presign, which happens only when no public base URL is
      configured and the write succeeded, is answered 400 with the backend's
      message (or "Upload failed"). */
  lemma HandlePresignFailure(cfg: Config, req: UploadRequest, rand8: seq<byte>, rand6: seq<byte>,
                             lookup: string -> Option<string>,
                             signFault: Option<string>, signer: PresignRequest -> string)
    requires |rand8| == 8 && |rand6| == 6
    requires Prepare(req, rand8, rand6, lookup).Success? && cfg.publicBaseUrl == "" && signFault.Some?
    ensures Handle(cfg, req, rand8, rand6, lookup, None, signFault, signer)
      == Response(400, Rejected(ErrorMessage(signFault.value)))
  {
  }

  /** The handler succeeds exactly when the payload is accepted, the write
      succeeds, and either a public base URL is configured or presigning
      succeeds. A success is answered 200 with the generated key, the
      resolved content type, the decoded size, and the URL: joined from the
      public base when one is configured, presigned for one hour otherwise. */
  lemma HandleSuccess(cfg: Config, req: UploadRequest, rand8: seq<byte>, rand6: seq<byte>,
                      lookup: string -> Option<string>,
                      writeFault: Option<string>, signFault: Option<string>, signer: PresignRequest -> string)
    requires |rand8| == 8 && |rand6| == 6
    ensures var resp := Handle(cfg, req, rand8, rand6, lookup, writeFault, signFault, signer);
      var parsed := ParseBase64(req.imageBase64);
      resp.body.Uploaded? <==>
        (req.imageBase64.Truthy() && parsed.Success? && writeFault.None?
         && (cfg.publicBaseUrl != "" || signFault.None?))
    ensures var resp := Handle(cfg, req, rand8, rand6, lookup, writeFault, signFault, signer);
      var parsed := ParseBase64(req.imageBase64);
      resp.body.Uploaded? ==>
        var resolved := Resolve(parsed.value.mimeType, lookup);
        var key := GenerateKey(req.folder, rand8, rand6, resolved.ext);
        resp.status == 200
        && resp.body.key == key
        && resp.body.contentType == resolved.contentType
        && resp.body.size == |parsed.value.buffer|
        && resp.body.url == (if cfg.publicBaseUrl != "" then JoinUrl(cfg.publicBaseUrl, key)
                             else signer(PresignRequest(ObjectId(cfg.bucket, key), 3600)))
    ensures var resp := Handle(cfg, req, rand8, rand6, lookup, writeFault, signFault, signer);
      resp.body.Rejected? ==> resp.status == 400 && resp.body.error != ""
  {
  }

  /** Every key the handler answers with has the generated layout: the
      folder's segments, then `[A-Z0-9]{8}-[A-Z0-9]{6}.<ext>` with an
      extension from the safe set. */
  lemma HandleKeyLayout(cfg: Config, req: UploadRequest, rand8: seq<byte>, rand6: seq<byte>,
                        lookup: string -> Option<string>,
                        writeFault: Option<string>, signFault: Option<string>, signer: PresignRequest -> string)
    requires |rand8| == 8 && |rand6| == 6
    requires Handle(cfg, req, rand8, rand6, lookup, writeFault, signFault, signer).body.Uploaded?
    ensures var key := Handle(cfg, req, rand8, rand6, lookup, writeFault, signFault, signer).body.key;
      var parts := Split(key, '/');
      exists ext :: ext in SafeExtensions && IsObjectName(parts[|parts| - 1], ext)
  {
    var parsed := ParseBase64(req.imageBase64);
    var resolved := Resolve(parsed.value.mimeType, lookup);
    var ext := resolved.ext;
    var key := GenerateKey(req.folder, rand8, rand6, ext);
    assert Handle(cfg, req, rand8, rand6, lookup, writeFault, signFault, signer).body.key == key;
    SafeExtensionsUnslashed(ext);
    GeneratedKeyLayout(req.folder, rand8, rand6, ext);
    var parts := Split(key, '/');
    assert ext in SafeExtensions && IsObjectName(parts[|parts| - 1], ext);
  }

  /** An accepted payload without a folder, with a public base URL and a
      store that accepts the write, is answered with `<token8>-<token6>.<ext>`
      joined onto the base. */
  lemma HandlePublicUnfoldered(cfg: Config, req: UploadRequest, rand8: seq<byte>, rand6: seq<byte>,
                               lookup: string -> Option<string>, d: Decoded,
                               signFault: Option<string>, signer: PresignRequest -> string)
    requires |rand8| == 8 && |rand6| == 6
    requires req.imageBase64.Truthy() && ParseBase64(req.imageBase64) == Success(d)
    requires req.folder == "" && cfg.publicBaseUrl != ""
    ensures var resolved := Resolve(d.mimeType, lookup);
      var key := ObjectName(RandToken(rand8), RandToken(rand6), resolved.ext);
      Handle(cfg, req, rand8, rand6, lookup, None, signFault, signer)
      == Response(200, Uploaded(key, JoinUrl(cfg.publicBaseUrl, key), resolved.contentType, |d.buffer|))
  {
    var resolved := Resolve(d.mimeType, lookup);
    var key := ObjectName(RandToken(rand8), RandToken(rand6), resolved.ext);
    assert GenerateKey("", rand8, rand6, resolved.ext) == key;
    assert Prepare(req, rand8, rand6, lookup) == Success(Prepared(key, d.buffer, resolved.contentType));
  }

  // ---------------------------------------------------------------------
  // Scenarios

  /** An empty `imageBase64` is answered 400 with "Missing 'imageBase64'". */
  lemma ScenarioEmptyPayload(cfg: Config, rand8: seq<byte>, rand6: seq<byte>,
                             lookup: string -> Option<string>,
                             writeFault: Option<string>, signFault: Option<string>, signer: PresignRequest -> string)
    requires |rand8| == 8 && |rand6| == 6
    ensures Prepare(UploadRequest(Str(""), ""), rand8, rand6, lookup) == Failure("Missing 'imageBase64'")
    ensures Handle(cfg, UploadRequest(Str(""), ""), rand8, rand6, lookup, writeFault, signFault, signer)
      == Response(400, Rejected("Missing 'imageBase64'"))
  {
  }

  /** "not-base64-@@@" is answered 400 with "Invalid base64 data" and no
      write is prepared. */
  lemma ScenarioNotBase64(cfg: Config, rand8: seq<byte>, rand6: seq<byte>,
                          lookup: string -> Option<string>,
                          writeFault: Option<string>, signFault: Option<string>, signer: PresignRequest -> string)
    requires |rand8| == 8 && |rand6| == 6
    ensures Prepare(UploadRequest(Str("not-base64-@@@"), ""), rand8, rand6, lookup) == Failure("Invalid base64 data")
    ensures Handle(cfg, UploadRequest(Str("not-base64-@@@"), ""), rand8, rand6, lookup, writeFault, signFault, signer)
      == Response(400, Rejected("Invalid base64 data"))
  {
    var req := UploadRequest(Str("not-base64-@@@"), "");
    ParseNotBase64();
    HandleInvalidPayload(cfg, req, rand8, rand6, lookup, writeFault, signFault, signer);
  }
}
