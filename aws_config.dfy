/**
 * Loading `AwsConfig` from the process environment: the startup validation
 * of the variables and the mapping from variable names to fields.
 */
module AwsEnvConfig {
  import opened Wrappers
  import opened AwsConfigType

  /** The process environment: every variable that is set has a string value. */
  type Env = map<string, string>

  datatype ConfigError = InvalidEnvironment

  /** `process.env[name]`, absent when unset. */
  function Lookup(env: Env, name: string): Option<string> {
    if name in env then Some(env[name]) else None
  }

  /** `process.env[name] || ''` */
  function OrEmpty(env: Env, name: string): string {
    if name in env && env[name] != "" then env[name] else ""
  }

  /** The variable is set and is not the empty string (`@IsNotEmpty`). */
  predicate NotEmpty(env: Env, name: string) {
    name in env && env[name] != ""
  }

  /**
   * The validator class: `AWS_REGION` must be set and non-empty, and when
   * `AWS_DEV_ENDPOINT` is truthy both development keys must be too. The
   * other variables are optional strings, which every set variable is.
   */
  predicate EnvValid(env: Env)
    ensures EnvValid(env) ==> OrEmpty(env, "AWS_REGION") != ""
    ensures !NotEmpty(env, "AWS_DEV_ENDPOINT") ==> (EnvValid(env) <==> NotEmpty(env, "AWS_REGION"))
    ensures NotEmpty(env, "AWS_DEV_ENDPOINT") && (!NotEmpty(env, "AWS_DEV_SECRET_KEY") || !NotEmpty(env, "AWS_DEV_ACCESS_KEY"))
      ==> !EnvValid(env)
  {
    && NotEmpty(env, "AWS_REGION")
    && (NotEmpty(env, "AWS_DEV_ENDPOINT") ==>
          NotEmpty(env, "AWS_DEV_SECRET_KEY") && NotEmpty(env, "AWS_DEV_ACCESS_KEY"))
  }

  /**
   * The object literal built from the environment. The development access
   * key is read from `AWS_DEV_SECRET_KEY` and the development secret key
   * from `AWS_DEV_ACCESS_KEY`.
   */
  function AwsConfigFromEnv(env: Env): (c: AwsConfig)
    ensures c.region == (if "AWS_REGION" in env then env["AWS_REGION"] else "")
    ensures c.accessKey == Some(if "AWS_ACCESS_KEY" in env then env["AWS_ACCESS_KEY"] else "")
    ensures c.secretKey == Some(if "AWS_SECRET_KEY" in env then env["AWS_SECRET_KEY"] else "")
    ensures c.devEndpoint.Some? <==> "AWS_DEV_ENDPOINT" in env
    ensures c.devEndpoint.Some? ==> c.devEndpoint.value == env["AWS_DEV_ENDPOINT"]
    ensures c.devAccessKey.Some? <==> "AWS_DEV_SECRET_KEY" in env
    ensures c.devAccessKey.Some? ==> c.devAccessKey.value == env["AWS_DEV_SECRET_KEY"]
    ensures c.devSecretKey.Some? <==> "AWS_DEV_ACCESS_KEY" in env
    ensures c.devSecretKey.Some? ==> c.devSecretKey.value == env["AWS_DEV_ACCESS_KEY"]
  {
    AwsConfig(
      region := OrEmpty(env, "AWS_REGION"),
      accessKey := Some(OrEmpty(env, "AWS_ACCESS_KEY")),
      secretKey := Some(OrEmpty(env, "AWS_SECRET_KEY")),
      devEndpoint := Lookup(env, "AWS_DEV_ENDPOINT"),
      devAccessKey := Lookup(env, "AWS_DEV_SECRET_KEY"),
      devSecretKey := Lookup(env, "AWS_DEV_ACCESS_KEY"))
  }

  /** The `aws` configuration factory: validate first, then map. */
  function LoadAwsConfig(env: Env): (r: Result<AwsConfig, ConfigError>)
    ensures r.Ok? <==> EnvValid(env)
    ensures r.Ok? ==> r.value == AwsConfigFromEnv(env) && r.value.region != ""
  {
    if EnvValid(env) then Ok(AwsConfigFromEnv(env)) else Err(InvalidEnvironment)
  }
}
