/** The storage configuration read by the file service and the S3 client. */
module FileConfigType {
  import opened Wrappers

  /**
   * The storage driver. The configuration may name a driver the code does
   * not know; such a value falls through every comparison. `UnknownDriver`
   * stands only for names outside the enum: `WellFormed` rules out
   * `UnknownDriver("local")`, `UnknownDriver("s3")` and
   * `UnknownDriver("s3-presigned")`, which are `Local`, `S3` and
   * `S3Presigned`.
   */
  datatype FileDriver = Local | S3 | S3Presigned | UnknownDriver(name: string)
  {
    predicate WellFormed() {
      UnknownDriver? ==> name != "local" && name != "s3" && name != "s3-presigned"
    }
  }

  datatype FileConfig = FileConfig(
    driver: FileDriver,
    awsDefaultS3Bucket: Option<string>,
    awsS3Region: Option<string>,
    maxFileSize: int,
    awsDefaultS3Url: Option<string>,
    accessKeyId: Option<string>,
    secretAccessKey: Option<string>)
}
