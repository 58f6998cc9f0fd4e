/**
 * The S3 file service: resolving a stored key to a client-usable URL
 * (`transformPthKeyToUrl`) and recording an uploaded file (`create`).
 */
module FilesService {
  import opened Wrappers
  import opened Js
  import opened Strings
  import opened Exceptions
  import opened FileConfigType
  import opened AwsConfigType
  import opened S3ClientSettings

  /** Lifetime of a signed URL, in seconds. */
  const SIGNED_URL_EXPIRY: nat := 3600

  const SCHEME_SEPARATOR: string := "://"

  /** A signed `GetObject` request: the client settings, bucket, key and expiry. */
  datatype SignRequest = SignRequest(client: S3ClientConfig, bucket: string, key: string, expiresIn: nat)

  /** `url.split('://')[0]`: the text before the first `://`, or all of it. */
  function Scheme(url: string): (scheme: string)
    ensures FindFirst(url, SCHEME_SEPARATOR).None? ==> scheme == url
    ensures FindFirst(url, SCHEME_SEPARATOR).Some? ==>
      OccursAt(url, SCHEME_SEPARATOR, |scheme|) && scheme == url[..|scheme|]
  {
    match FindFirst(url, SCHEME_SEPARATOR)
    case None => url
    case Some(i) => url[..i]
  }

  /** An optional value inside a template literal: unset reads as `undefined`. */
  function TemplateText(o: Option<string>): string {
    match o
    case Some(s) => s
    case None => "undefined"
  }

  /** The path-style host prefix `<scheme>://s3.<region>.amazonaws.com/<bucket>`. */
  function PathStyleHost(scheme: string, region: string, bucket: string): string {
    scheme + "://s3." + region + ".amazonaws.com/" + bucket
  }

  /** The virtual-hosted prefix `<scheme>://<bucket>.s3.<region>.amazonaws.com`. */
  function VirtualHostedHost(scheme: string, region: string, bucket: string): string {
    scheme + "://" + bucket + ".s3." + region + ".amazonaws.com"
  }

  /**
   * The host rewrite applied to a signed URL when a public URL is
   * configured: first the path-style prefix, then the virtual-hosted prefix,
   * each replaced at its first occurrence only, with the scheme taken once
   * from the signed URL.
   */
  function RewriteToPublicHost(url: string, bucket: string, region: string, publicUrl: string): (r: string)
    ensures (FindFirst(url, PathStyleHost(Scheme(url), region, bucket)).None?
             && FindFirst(url, VirtualHostedHost(Scheme(url), region, bucket)).None?) ==> r == url
  {
    var scheme := Scheme(url);
    var u := ReplaceFirst(url, PathStyleHost(scheme, region, bucket), publicUrl);
    ReplaceFirst(u, VirtualHostedHost(scheme, region, bucket), publicUrl)
  }

  /**
   * Resolves a stored key. `sign` stands for the S3 presigner: it answers a
   * signing request with a URL, or fails (`None`), and the failure
   * propagates as a plain error. `signed` reports the request handed to it,
   * if any.
   */
  method TransformPathKeyToUrl(
    value: string, files: FileConfig, backendDomain: string, aws: AwsConfig,
    sign: SignRequest -> Option<string>)
    returns (r: Result<string, Exception>, signed: Option<SignRequest>)
    requires files.driver.WellFormed()
    ensures files.driver.Local? ==> r == Ok(backendDomain + value) && signed == None
    ensures files.driver.UnknownDriver? ==> r == Ok(value) && signed == None
    ensures files.driver.S3? || files.driver.S3Presigned? ==>
      && signed == Some(SignRequest(ClientConfigFor(files, aws), files.awsDefaultS3Bucket.GetOr(""),
                                    value, SIGNED_URL_EXPIRY))
      && (sign(signed.value).None? ==> r == Err(PlainError))
      && (sign(signed.value).Some? && !Present(files.awsDefaultS3Url) ==>
            r == Ok(sign(signed.value).value))
      && (sign(signed.value).Some? && Present(files.awsDefaultS3Url) ==>
            r == Ok(RewriteToPublicHost(sign(signed.value).value, files.awsDefaultS3Bucket.GetOr(""),
                                        TemplateText(files.awsS3Region), files.awsDefaultS3Url.value)))
  {
    if files.driver.Local? {
      return Ok(backendDomain + value), None;
    } else if files.driver.S3Presigned? || files.driver.S3? {
      var client := FileDriverS3ClientConfig(files, aws);
      var bucketName := files.awsDefaultS3Bucket.GetOr("");
      var command := SignRequest(client, bucketName, value, SIGNED_URL_EXPIRY);
      signed := Some(command);
      var answer := sign(command);
      if answer.None? {
        return Err(PlainError), signed;
      }
      var url := answer.value;
      if Present(files.awsDefaultS3Url) {
        var protocol := Scheme(url);
        var region := TemplateText(files.awsS3Region);
        url := ReplaceFirst(url, PathStyleHost(protocol, region, bucketName), files.awsDefaultS3Url.value);
        url := ReplaceFirst(url, VirtualHostedHost(protocol, region, bucketName), files.awsDefaultS3Url.value);
      }
      return Ok(url), signed;
    }
    return Ok(value), None;
  }

  /** A URL without `://` contains neither host form and is returned as it is. */
  lemma {:induction false} NoSchemeSeparatorUnchanged(url: string, bucket: string, region: string, publicUrl: string)
    requires FindFirst(url, SCHEME_SEPARATOR).None?
    ensures RewriteToPublicHost(url, bucket, region, publicUrl) == url
  {
    assert Scheme(url) == url;
    ReplaceFirstAbsent(url, PathStyleHost(url, region, bucket), publicUrl);
    ReplaceFirstAbsent(url, VirtualHostedHost(url, region, bucket), publicUrl);
  }

  /** No `://` starts inside a scheme that has no `:`. */
  lemma SchemeOfPrefixed(scheme: string, tail: string)
    requires ':' !in scheme
    ensures Scheme(scheme + SCHEME_SEPARATOR + tail) == scheme
  {
    var url := scheme + SCHEME_SEPARATOR + tail;
    assert OccursAt(url, SCHEME_SEPARATOR, |scheme|);
    forall j: nat | j < |scheme|
      ensures !OccursAt(url, SCHEME_SEPARATOR, j)
    {
      assert url[j] == scheme[j];
    }
    assert url[..|scheme|] == scheme;
  }

  /** Both host forms start with the scheme and `://`. */
  lemma HostShapes(scheme: string, region: string, bucket: string)
    ensures VirtualHostedHost(scheme, region, bucket)
      == scheme + SCHEME_SEPARATOR + (bucket + ".s3." + region + ".amazonaws.com")
    ensures PathStyleHost(scheme, region, bucket)
      == scheme + SCHEME_SEPARATOR + ("s3." + region + ".amazonaws.com/" + bucket)
  {
  }

  /** The scheme of a URL that starts with a scheme and `://`. */
  lemma SchemeOfHost(scheme: string, tail: string, rest: string)
    requires ':' !in scheme
    ensures Scheme(scheme + SCHEME_SEPARATOR + tail + rest) == scheme
  {
    assert scheme + SCHEME_SEPARATOR + tail + rest == scheme + SCHEME_SEPARATOR + (tail + rest);
    SchemeOfPrefixed(scheme, tail + rest);
  }

  /** Replacing a pattern that leads the string swaps just that prefix. */
  lemma ReplaceLeading(pat: string, rest: string, rep: string)
    ensures ReplaceFirst(pat + rest, pat, rep) == rep + rest
  {
    var s := pat + rest;
    assert s[..|pat|] == pat && s[|pat|..] == rest;
    assert OccursAt(s, pat, 0);
    assert s[..0] + rep + s[|pat|..] == rep + rest;
  }

  /** A string without the pattern is left alone. */
  lemma ReplaceNowhere(s: string, pat: string, rep: string)
    requires forall j: nat :: !OccursAt(s, pat, j)
    ensures ReplaceFirst(s, pat, rep) == s
  {
  }

  /**
   * A virtual-hosted signed URL `<scheme>://<bucket>.s3.<region>.amazonaws.com<rest>`
   * comes back with its origin replaced by exactly the public URL, provided
   * the path-style prefix does not start inside that origin. The path-style
   * replacement, which runs first, still acts on `rest`; when the prefix is
   * not there either, path, query and signature come back as they were.
   */
  lemma {:induction false} VirtualHostedRewritten(
    scheme: string, bucket: string, region: string, rest: string, publicUrl: string)
    requires ':' !in scheme
    requires forall j: nat :: j < |VirtualHostedHost(scheme, region, bucket)| ==>
      !OccursAt(VirtualHostedHost(scheme, region, bucket) + rest, PathStyleHost(scheme, region, bucket), j)
    ensures RewriteToPublicHost(VirtualHostedHost(scheme, region, bucket) + rest, bucket, region, publicUrl)
      == publicUrl + ReplaceFirst(rest, PathStyleHost(scheme, region, bucket), publicUrl)
    ensures (forall j: nat :: !OccursAt(rest, PathStyleHost(scheme, region, bucket), j)) ==>
      RewriteToPublicHost(VirtualHostedHost(scheme, region, bucket) + rest, bucket, region, publicUrl)
        == publicUrl + rest
  {
    var host := VirtualHostedHost(scheme, region, bucket);
    var url := host + rest;
    var pathStyle := PathStyleHost(scheme, region, bucket);
    HostShapes(scheme, region, bucket);
    SchemeOfHost(scheme, bucket + ".s3." + region + ".amazonaws.com", rest);
    assert Scheme(url) == scheme;
    ReplaceFirstAfterPrefix(host, rest, pathStyle, publicUrl);
    ReplaceLeading(host, ReplaceFirst(rest, pathStyle, publicUrl), publicUrl);
  }

  /**
   * A path-style signed URL `<scheme>://s3.<region>.amazonaws.com/<bucket><rest>`
   * comes back as `<publicUrl><rest>`, provided the result of the first
   * replacement does not contain the virtual-hosted prefix.
   */
  lemma {:induction false} PathStyleRewritten(
    scheme: string, bucket: string, region: string, rest: string, publicUrl: string)
    requires ':' !in scheme
    requires forall j: nat :: !OccursAt(publicUrl + rest, VirtualHostedHost(scheme, region, bucket), j)
    ensures RewriteToPublicHost(PathStyleHost(scheme, region, bucket) + rest, bucket, region, publicUrl)
      == publicUrl + rest
  {
    var host := PathStyleHost(scheme, region, bucket);
    var url := host + rest;
    HostShapes(scheme, region, bucket);
    SchemeOfHost(scheme, "s3." + region + ".amazonaws.com/" + bucket, rest);
    assert Scheme(url) == scheme;
    ReplaceLeading(host, rest, publicUrl);
    ReplaceNowhere(publicUrl + rest, VirtualHostedHost(scheme, region, bucket), publicUrl);
  }

  /** A stored file: its identifier and its storage key. */
  datatype FileRecord = FileRecord(id: nat, path: string)

  /** The part of an uploaded file the service reads: its storage key. */
  datatype UploadedFile = UploadedFile(key: string)

  /** The file repository as a record store; identifiers are handed out in order. */
  class FileRepository {
    var records: seq<FileRecord>

    constructor ()
      ensures records == []
    {
      records := [];
    }

    method Create(path: string) returns (record: FileRecord)
      modifies this
      ensures record == FileRecord(|old(records)|, path)
      ensures records == old(records) + [record]
    {
      record := FileRecord(|records|, path);
      records := records + [record];
    }
  }

  /** The error `create` raises when no file was uploaded. */
  const MissingFileError: Exception :=
    UnprocessableEntity(map["status" := Num(UNPROCESSABLE_ENTITY), "errors" := Obj(map["file" := Str("selectFile")])])

  class FilesS3Service {
    const fileRepository: FileRepository

    constructor (fileRepository: FileRepository)
      ensures this.fileRepository == fileRepository
    {
      this.fileRepository := fileRepository;
    }

    /**
     * Records an uploaded file under its storage key. Without a file nothing
     * is stored and the unprocessable-entity error is raised.
     */
    method Create(file: Option<UploadedFile>) returns (r: Result<FileRecord, Exception>)
      modifies fileRepository
      ensures file.None? ==> r == Err(MissingFileError) && fileRepository.records == old(fileRepository.records)
      ensures file.Some? ==>
        && r.Ok? && r.value.path == file.value.key
        && fileRepository.records == old(fileRepository.records) + [r.value]
    {
      if file.None? {
        return Err(MissingFileError);
      }
      var record := fileRepository.Create(file.value.key);
      return Ok(record);
    }
  }
}
