/** The AWS settings as the configuration layer hands them to the S3 client. */
module AwsConfigType {
  import opened Wrappers

  datatype AwsConfig = AwsConfig(
    region: string,
    devEndpoint: Option<string>,
    devAccessKey: Option<string>,
    devSecretKey: Option<string>,
    accessKey: Option<string>,
    secretKey: Option<string>)
}
