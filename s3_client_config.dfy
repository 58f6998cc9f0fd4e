/**
 * The S3 client settings assembled from the file and AWS configuration
 * (`fileDriverS3ClientConfig`).
 */
module S3ClientSettings {
  import opened Wrappers
  import opened Js
  import opened FileConfigType
  import opened AwsConfigType
  import AwsEnvConfig

  const API_VERSION: string := "2012-11-05"

  datatype Credentials = Credentials(accessKeyId: string, secretAccessKey: string)

  datatype S3ClientConfig = S3ClientConfig(
    region: string,
    forcePathStyle: bool,
    apiVersion: string,
    credentials: Option<Credentials>,
    endpoint: Option<string>)

  /**
   * The settings the client is built with. Static credentials need both
   * keys; a development endpoint overrides them with the development keys,
   * each `''` when unset.
   */
  function ClientConfigFor(files: FileConfig, aws: AwsConfig): (c: S3ClientConfig)
    ensures c.region == files.awsS3Region.GetOr("")
    ensures c.forcePathStyle && c.apiVersion == API_VERSION
    ensures c.endpoint.Some? <==> Present(aws.devEndpoint)
    ensures c.endpoint.Some? ==> c.endpoint == aws.devEndpoint
    ensures c.credentials.Some? <==>
      Present(aws.devEndpoint) || (Present(aws.accessKey) && Present(aws.secretKey))
    ensures Present(aws.devEndpoint) ==>
      c.credentials == Some(Credentials(aws.devAccessKey.GetOr(""), aws.devSecretKey.GetOr("")))
    ensures !Present(aws.devEndpoint) && c.credentials.Some? ==>
      c.credentials.value == Credentials(aws.accessKey.value, aws.secretKey.value)
  {
    S3ClientConfig(
      region := files.awsS3Region.GetOr(""),
      forcePathStyle := true,
      apiVersion := API_VERSION,
      credentials :=
        if Present(aws.devEndpoint) then
          Some(Credentials(aws.devAccessKey.GetOr(""), aws.devSecretKey.GetOr("")))
        else if Present(aws.accessKey) && Present(aws.secretKey) then
          Some(Credentials(aws.accessKey.value, aws.secretKey.value))
        else None,
      endpoint := if Present(aws.devEndpoint) then aws.devEndpoint else None)
  }

  /** The step-by-step construction of the settings object. */
  method FileDriverS3ClientConfig(files: FileConfig, aws: AwsConfig) returns (config: S3ClientConfig)
    ensures config == ClientConfigFor(files, aws)
  {
    config := S3ClientConfig(files.awsS3Region.GetOr(""), true, API_VERSION, None, None);

    var accessKey := if Present(aws.accessKey) then aws.accessKey else None;
    var secretKey := if Present(aws.secretKey) then aws.secretKey else None;

    if Present(accessKey) && Present(secretKey) {
      config := config.(credentials := Some(Credentials(accessKey.value, secretKey.value)));
    }

    if Present(aws.devEndpoint) {
      config := config.(endpoint := aws.devEndpoint);
      config := config.(credentials :=
        Some(Credentials(aws.devAccessKey.GetOr(""), aws.devSecretKey.GetOr(""))));
    }
  }

  /**
   * Through the swapped environment mapping, a development setup signs with
   * the value of `AWS_DEV_SECRET_KEY` as its access key id and the value of
   * `AWS_DEV_ACCESS_KEY` as its secret.
   */
  lemma DevCredentialsAreSwapped(env: AwsEnvConfig.Env, files: FileConfig)
    requires AwsEnvConfig.EnvValid(env)
    requires AwsEnvConfig.NotEmpty(env, "AWS_DEV_ENDPOINT")
    ensures var aws := AwsEnvConfig.LoadAwsConfig(env).value;
      ClientConfigFor(files, aws).credentials
        == Some(Credentials(env["AWS_DEV_SECRET_KEY"], env["AWS_DEV_ACCESS_KEY"]))
  {
  }

  /**
   * With a valid environment and no development endpoint, the client gets
   * static credentials exactly when both `AWS_ACCESS_KEY` and
   * `AWS_SECRET_KEY` are non-empty, and no endpoint.
   */
  lemma StaticCredentialsFromEnv(env: AwsEnvConfig.Env, files: FileConfig)
    requires AwsEnvConfig.EnvValid(env)
    requires !AwsEnvConfig.NotEmpty(env, "AWS_DEV_ENDPOINT")
    ensures var c := ClientConfigFor(files, AwsEnvConfig.LoadAwsConfig(env).value);
      && c.endpoint == None
      && (c.credentials.Some? <==>
            AwsEnvConfig.NotEmpty(env, "AWS_ACCESS_KEY") && AwsEnvConfig.NotEmpty(env, "AWS_SECRET_KEY"))
      && (c.credentials.Some? ==>
            c.credentials.value == Credentials(env["AWS_ACCESS_KEY"], env["AWS_SECRET_KEY"]))
  {
  }
}
