# BaseNestJsBoilerPlate core, modelled in Dafny

This project models the parts of the NestJS boilerplate that make decisions and proves what they do:

- **Storage key resolution.** `FilesS3Service.transformPthKeyToUrl` dispatches on the storage driver. It prefixes the backend domain, or signs a `GetObject` request and rewrites the signed URL's host to a public URL, or returns the key as it is. `create` records an uploaded file under its key.
- **The response interceptor.** When a secret is set and encryption is on, one-key `{data}` request bodies and queries are decrypted in place. Every handler result is wrapped in the `{data, statusCode, message, error}` envelope, and its data is encrypted when encryption is on. A `sendRaw` result bypasses the envelope.
- **The crypto envelope.** `encrypt` builds `hex(iv):hex(ciphertext)` under AES-256-CTR (NIST SP 800-38A, section 6.5), with the key taken as the hex MD5 digest (RFC 1321) of the password. `decrypt` parses it back by splitting on `:`. The hex alphabet is the base16 alphabet of RFC 4648, section 8.
- **The upload filter.** The files module's multer `fileFilter` checks the extension allow-list and builds the rejection message.
- **The configuration chain.** This covers the AWS environment mapping and its validation, and the S3 client settings built from it.
- **CORS.** The origin list is built by split, trim and order-preserving de-duplication. The option object is fixed otherwise.
- **The catch-all exception filter.** It chooses the HTTP status and the error body.
- **The validation decorators.** This covers the custom `validate` predicates: Ethereum address, name, description, address, file name, offering id, not-blank, postal code of a country, and date of birth.

Each source file maps to one module:

| module | file |
|---|---|
| `FilesService` (`files_service.dfy`) | `src/files/infrastructure/uploader/s3/files.service.ts` |
| `ResponseInterception` (`interceptor.dfy`) | `src/utils/interceptors/response.interceptor.ts` |
| `Crypto` (`crypto.dfy`) | `src/utils/crypto.ts` |
| `FilesModule` (`files_module.dfy`) | `src/files/infrastructure/uploader/s3/files.module.ts` |
| `S3ClientSettings` (`s3_client_config.dfy`) | `src/files/infrastructure/uploader/s3/config/index.ts` |
| `AwsEnvConfig` (`aws_config.dfy`) | `src/config/aws.config.ts` |
| `CorsOption` (`cors.dfy`) | `src/utils/cors-option.ts` |
| `HttpExceptionFilter` (`exception_filter.dfy`) | `src/utils/filters/http-exception.filter.ts` |
| `Validators` (`decorators.dfy`) | `src/utils/decorators/index.ts` |

Shared modules:

- `Wrappers` holds `Option` and `Result`.
- `Js` holds JavaScript values: truthiness, `?.` property reads, `Object.keys(..).length`, `??` and `||`.
- `Exceptions` holds what can be thrown: HTTP exceptions with status and response, a plain `Error`, and `null`/`undefined`.
- `Strings` holds the JavaScript string operations used, each specified by what it returns: first-occurrence `replace`, `split` on a character (with `join` as its inverse), `trim`, `endsWith` and ASCII case mapping.
- `FileConfigType` and `AwsConfigType` are the configuration records.

The form follows the source:

- **Imperative code becomes methods proved against specification functions.** This covers `transformPthKeyToUrl`, which reassigns `url`; the step-by-step S3 settings object; and the CORS origin array grown by `push` and de-duplicated through a `Set`.
- **Mutable objects become classes.** These are the interceptor, the request whose `body` and `query` it overwrites, and the file repository `create` appends to.
- **Everything else is functions and lemmas.**

Foreign calls become explicit inputs:

- The S3 presigner is a function from signing request to URL (or failure).
- AES-CTR and MD5 are fields of a `Primitives` value. CTR is XOR with an arbitrary keystream, so every property holds for any keystream.
- The random IV is a parameter.
- In the interceptor, `encrypt`, `decrypt` and `JSON.stringify` form a `Codec`. `CryptoCodecRoundTrips` proves that the crypto module's own codec meets the round-trip assumption.
- `isISO31661Alpha2` and `isPostalCode` are fields of `PostalChecks`.
- "Today" is a parameter of the date-of-birth rule.

A quirk of the configuration is proved rather than corrected. `aws.config.ts` reads the development access key from `AWS_DEV_SECRET_KEY` and the development secret from `AWS_DEV_ACCESS_KEY`. So a local-stack client signs with the secret variable as its access key id (`S3ClientSettings.DevCredentialsAreSwapped`).

## Model

| member | source | states |
|---|---|---|
| `Strings.FindFirst` | src/files/infrastructure/uploader/s3/files.service.ts:40 | the index found is an occurrence of the pattern with none before it, and `None` means the pattern occurs nowhere |
| `Strings.ReplaceFirst` | src/files/infrastructure/uploader/s3/files.service.ts:42-50 | `replace` with a string pattern swaps only the first occurrence, keeping the text before and after it, and leaves a string without the pattern unchanged |
| `Strings.ReplaceFirstKeepsContext` | src/files/infrastructure/uploader/s3/files.service.ts:42-50 | replacing in `pre + pat + post`, where `pat` does not start inside `pre`, yields `pre + rep + post` byte for byte |
| `Strings.SplitPiecesLackSeparator` | src/utils/cors-option.ts:20 | no piece of `split` contains the separator |
| `Strings.JoinSplit` | src/utils/cors-option.ts:20 | joining the pieces of `split` with the separator gives the original string back, so nothing is lost or reordered |
| `Strings.Split` | src/utils/cors-option.ts:20 | `split` always gives at least one piece; `JoinSplit` and `SplitPiecesLackSeparator` pin the pieces down |
| `Strings.Join` | src/utils/cors-option.ts:20 | the joined text starts with the first piece, has a separator right after it when there are more, and has at least one character per separator |
| `Strings.SplitAtFirst` | src/utils/crypto.ts:15 | splitting `a + sep + b`, where `a` has no separator, gives `a` followed by the pieces of `b` |
| `Strings.SplitWithoutSeparator` | src/utils/crypto.ts:15 | a string without the separator splits into itself alone |
| `Strings.AfterLast` | src/files/infrastructure/uploader/s3/files.module.ts:28 | the text after the last occurrence of a character: a suffix without it, the whole string when the character is absent, and otherwise preceded by the character |
| `Strings.SplitLast` | src/files/infrastructure/uploader/s3/files.module.ts:28 | `split(c).pop()` is the text after the last `c` |
| `Strings.Trim` | src/utils/cors-option.ts:20 | `trim` removes only leading and trailing whitespace, and what it keeps neither starts nor ends with whitespace |
| `Strings.TrimEmptyIffAllWhitespace` | src/utils/decorators/index.ts:112 | a string trims to nothing exactly when every character is whitespace |
| `Strings.Lower` | src/files/infrastructure/uploader/s3/files.module.ts:28 | ASCII lower-casing maps every character on its own and keeps the length |
| `Strings.Upper` | src/utils/decorators/index.ts:154 | ASCII upper-casing, as used for the `AX` comparison, maps every character on its own and keeps the length |
| `Js.KeyCount` | src/utils/interceptors/response.interceptor.ts:54 | `Object.keys(v).length`: a string counts its characters, and a plain object has exactly one key when some key is its only key |
| `Js.Prop` | src/utils/interceptors/response.interceptor.ts:55 | `v?.key` reads a plain object's own key, and is `undefined` for a plain object without the key and for every value that is not a plain object |
| `FilesService.Scheme` | src/files/infrastructure/uploader/s3/files.service.ts:40 | the scheme is the text before the first `://`, or the whole URL when there is none |
| `FilesService.RewriteToPublicHost` | src/files/infrastructure/uploader/s3/files.service.ts:40-50 | a signed URL that contains neither the path-style nor the virtual-hosted prefix for its own scheme comes back unchanged |
| `FilesService.TransformPathKeyToUrl` | src/files/infrastructure/uploader/s3/files.service.ts:20-57 | the local driver gives `backendDomain + key` and signs nothing; an unknown driver (a name outside the enum) gives the key; the S3 drivers sign exactly `(client settings, bucket ?? '', key, 3600)`, return the signed URL unchanged without a public URL, and otherwise return it with both host forms rewritten at their first occurrence; a signing failure propagates |
| `FilesService.NoSchemeSeparatorUnchanged` | src/files/infrastructure/uploader/s3/files.service.ts:40-50 | a signed URL without `://` comes back unchanged, since neither host pattern can occur in it |
| `FilesService.VirtualHostedRewritten` | src/files/infrastructure/uploader/s3/files.service.ts:40-50 | a virtual-hosted URL `<scheme>://<bucket>.s3.<region>.amazonaws.com<rest>`, where the path-style prefix does not start inside the origin, has its origin replaced by exactly the public URL, while the path-style replacement that runs first still acts on `<rest>`; with no path-style prefix in `<rest>` the result is `<publicUrl><rest>` |
| `FilesService.PathStyleRewritten` | src/files/infrastructure/uploader/s3/files.service.ts:42-45 | a path-style URL `<scheme>://s3.<region>.amazonaws.com/<bucket><rest>` becomes `<publicUrl><rest>` |
| `FilesService.FileRepository.Create` | src/files/infrastructure/uploader/s3/files.service.ts:70-72 | the repository appends exactly one record with the given path |
| `FilesService.FilesS3Service.Create` | src/files/infrastructure/uploader/s3/files.service.ts:59-74 | without a file, the unprocessable-entity error `{status: 422, errors: {file: 'selectFile'}}` is raised and nothing is stored; with one, exactly one record with `path = file.key` is appended and returned |
| `ResponseInterception.CryptoCodecRoundTrips` | src/utils/interceptors/response.interceptor.ts:12 | the crypto module's `encrypt`/`decrypt`, given a UTF-8 round trip, form a codec whose decryption undoes its encryption under every secret |
| `ResponseInterception.ResponseInterceptor.constructor` | src/utils/interceptors/response.interceptor.ts:41-51 | the secret defaults to `''` and encryption to `false` |
| `ResponseInterception.ResponseInterceptor.HandleData` | src/utils/interceptors/response.interceptor.ts:53-63 | anything other than pass-through is a decrypted string, and only a truthy one-key payload can be refused |
| `ResponseInterception.ResponseInterceptor.PassThrough` | src/utils/interceptors/response.interceptor.ts:53-63 | a falsy payload, or one without exactly one key, comes back unchanged |
| `ResponseInterception.ResponseInterceptor.MultiKeyPassesThrough` | src/utils/interceptors/response.interceptor.ts:53-63 | an object with `data` and any other key is passed on undecrypted |
| `ResponseInterception.ResponseInterceptor.OneKeyWithoutDataRejected` | src/utils/interceptors/response.interceptor.ts:57-58 | a one-key payload without a non-empty string under `data` is a bad request 'Invalid request payload !' |
| `ResponseInterception.ResponseInterceptor.OneKeyDataDecrypted` | src/utils/interceptors/response.interceptor.ts:55-56 | `{data: text}` with non-empty text becomes the decryption of the text as a string, and a failed decryption propagates |
| `ResponseInterception.ResponseInterceptor.Inbound` | src/utils/interceptors/response.interceptor.ts:69-75 | without encryption the request is untouched; otherwise the body is replaced first and then the query, a body failure changes nothing, and a query failure leaves the body replaced |
| `ResponseInterception.ResponseInterceptor.Intercept` | src/utils/interceptors/response.interceptor.ts:65-97 | the handler sees the decrypted body and query and its result goes through the outbound step; a failed inbound step is the outcome; the request keeps the new body and query afterwards: untouched without encryption, both replaced on success, nothing replaced when the body fails, and only the body replaced when the query fails |
| `ResponseInterception.ResponseInterceptor.Outbound` | src/utils/interceptors/response.interceptor.ts:78-94 | a result that is not sent raw is wrapped in an object |
| `ResponseInterception.ResponseInterceptor.EnvelopeData` | src/utils/interceptors/response.interceptor.ts:83-87 | a falsy result becomes `{}`; without encryption a truthy result is kept; with encryption it becomes a string that decrypts under the secret back to the serialised result |
| `ResponseInterception.ResponseInterceptor.EnvelopeFields` | src/utils/interceptors/response.interceptor.ts:82-93 | the envelope has exactly the keys `data`, `statusCode`, `message`, `error`, with `message = 'Success'`, `error = false`, `statusCode` the response's or 200 when nullish, and `data` as `EnvelopeData` |
| `ResponseInterception.ResponseInterceptor.RawBypass` | src/utils/interceptors/response.interceptor.ts:79-81 | a truthy result with truthy `sendRaw` yields its `data`, or `{}` when that is nullish |
| `ResponseInterception.ResponseInterceptor.EnvelopeDecryptsBack` | src/utils/interceptors/response.interceptor.ts:83-87 | with encryption on, the envelope's `data` is a non-empty string that the inbound step, sent back as `{data}`, turns into the serialised result |
| `ResponseInterception.SubsetCard` | src/utils/interceptors/response.interceptor.ts:54 | a subset of the keys has at most as many elements, so two distinct keys mean a key count other than 1 |
| `Crypto.HexValue` | src/utils/crypto.ts:20-23 | a character has a hex value exactly when it is a hex digit of either case |
| `Crypto.HexDecode` | src/utils/crypto.ts:20-23 | a decoded text has two characters per byte; with `HexDecodeDefined` and `HexDecodeOnlyDigits`, decoding succeeds exactly on even-length hex-digit text |
| `Crypto.HexEncode` | src/utils/crypto.ts:11 | hex text has two lowercase hex digits per byte |
| `Crypto.HexRoundTrip` | src/utils/crypto.ts:11-23 | decoding the hex text of any byte string gives that byte string back |
| `Crypto.HexDecodeDefined` | src/utils/crypto.ts:20-23 | every even-length text of hex digits decodes |
| `Crypto.HexDecodeOnlyDigits` | src/utils/crypto.ts:20-23 | only text made of hex digits decodes |
| `Crypto.HexEncodeInjective` | src/utils/crypto.ts:11 | different byte strings have different hex texts |
| `Crypto.DeriveKey` | src/utils/crypto.ts:7-16 | the key is 32 lowercase hex characters, a function of the password alone, and the same in both directions |
| `Crypto.Ctr` | src/utils/crypto.ts:9-25 | CTR keeps the length and XORs each byte with the keystream byte at its position |
| `Crypto.CtrSelfInverse` | src/utils/crypto.ts:9-25 | CTR under the same key and IV undoes itself |
| `Crypto.Encrypt` | src/utils/crypto.ts:6-12 | the envelope is 32 lowercase hex digits of IV, one `:`, and two hex digits per plaintext byte |
| `Crypto.Decrypt` | src/utils/crypto.ts:14-27 | decryption succeeds exactly when the text before the first `:` decodes to 16 bytes and a second piece exists and is hex; the plaintext then has half as many bytes as that piece has characters and is the CTR keystream XOR of its bytes under the key derived from the password and that IV; a missing second piece after a good IV is `MissingCiphertext` |
| `Crypto.DecryptEncrypt` | src/utils/crypto.ts:6-27 | decrypting an envelope with its password gives the plaintext back, for every IV and keystream |
| `Crypto.NoSeparatorInHex` | src/utils/crypto.ts:11-15 | hex text never contains `:` |
| `Crypto.WrongPasswordUndetected` | src/utils/crypto.ts:14-27 | decrypting with another password still succeeds with as many bytes, since nothing authenticates the envelope |
| `Crypto.DecryptIgnoresTrailingSegments` | src/utils/crypto.ts:15 | everything after a second `:` is ignored |
| `Crypto.DecryptNeedsSeparator` | src/utils/crypto.ts:15-23 | text without `:` never decrypts |
| `Crypto.DistinctIvsDistinctEnvelopes` | src/utils/crypto.ts:8-11 | different IVs give envelopes whose first 32 characters differ |
| `FilesModule.FileFilter` | src/files/infrastructure/uploader/s3/files.module.ts:20-35 | the single callback accepts exactly the names with an allowed suffix, as `(null, true)`; otherwise it rejects with a bad request carrying the rejection message, as `(error, false)` |
| `FilesModule.HasAllowedSuffix` | src/files/infrastructure/uploader/s3/files.module.ts:21-24 | a name with an allowed suffix contains a dot; `AcceptedIffFinalExtensionAllowed` states the whole condition |
| `FilesModule.FinalExtension` | src/files/infrastructure/uploader/s3/files.module.ts:28 | the extension named in the message never contains a dot; `FinalExtensionIsAfterLastDot` states it is the lower-cased text after the last dot |
| `FilesModule.RejectionMessage` | src/files/infrastructure/uploader/s3/files.module.ts:26-30 | the message is `File type (`, the final extension and `) not supported !`, so the extension can be read back from it at a fixed position |
| `FilesModule.AcceptedIffFinalExtensionAllowed` | src/files/infrastructure/uploader/s3/files.module.ts:22-24 | the case-insensitive suffix pattern accepts a name exactly when it has a dot and the lower-cased text after its last dot is an allowed extension |
| `FilesModule.RejectionNamesExtension` | src/files/infrastructure/uploader/s3/files.module.ts:26-31 | a rejected name has no dot or a final extension that is not allowed, and the message names that extension |
| `FilesModule.FinalExtensionIsAfterLastDot` | src/files/infrastructure/uploader/s3/files.module.ts:28 | the extension in the message is the lower-cased text after the last dot, or the whole name when there is none |
| `FilesModule.VirusExeRejected` | src/files/infrastructure/uploader/s3/files.module.ts:26-31 | `virus.exe` is refused with 'File type (exe) not supported !' |
| `FilesModule.FinalSuffixAccepted` | src/files/infrastructure/uploader/s3/files.module.ts:22-34 | `a.exe.png` is accepted |
| `FilesModule.InnerSuffixRejected` | src/files/infrastructure/uploader/s3/files.module.ts:22-24 | `a.png.exe` is refused |
| `S3ClientSettings.ClientConfigFor` | src/files/infrastructure/uploader/s3/config/index.ts:7-43 | the region is the file configuration's or `''`; path style and API version are fixed; static credentials need both keys non-empty; a development endpoint sets the endpoint and replaces the credentials with the development keys, each `''` when unset; without it there is no endpoint |
| `S3ClientSettings.FileDriverS3ClientConfig` | src/files/infrastructure/uploader/s3/config/index.ts:7-43 | the step-by-step construction yields exactly those settings |
| `S3ClientSettings.DevCredentialsAreSwapped` | src/config/aws.config.ts:42-43 | in a development setup the client's access key id is the value of `AWS_DEV_SECRET_KEY` and its secret the value of `AWS_DEV_ACCESS_KEY` |
| `S3ClientSettings.StaticCredentialsFromEnv` | src/files/infrastructure/uploader/s3/config/index.ts:17-31 | without a development endpoint there is no endpoint, and there are credentials exactly when both `AWS_ACCESS_KEY` and `AWS_SECRET_KEY` are non-empty, taken from them |
| `AwsEnvConfig.AwsConfigFromEnv` | src/config/aws.config.ts:34-45 | region and static keys are the variables or `''`; the development endpoint passes through, absent when unset; the development keys come from the opposite variables |
| `AwsEnvConfig.EnvValid` | src/config/aws.config.ts:6-35 | a valid environment has a non-empty region; without a development endpoint only the region is required; with one, a missing or empty development key fails |
| `AwsEnvConfig.LoadAwsConfig` | src/config/aws.config.ts:6-35 | loading succeeds exactly when `AWS_REGION` is non-empty and, with a development endpoint, both development keys are non-empty; the region is then non-empty |
| `CorsOption.TrimAll` | src/utils/cors-option.ts:20 | every piece is trimmed, in order |
| `CorsOption.Collected` | src/utils/cors-option.ts:16-22 | the pushed origins are one for a set frontend domain, first, plus one per comma-separated piece, and none when neither setting is there |
| `CorsOption.Dedup` | src/utils/cors-option.ts:24 | `[...new Set(xs)]` has the same elements as `xs` and no repeats |
| `CorsOption.FirstIndex` | src/utils/cors-option.ts:24 | the first index at which an element occurs |
| `CorsOption.DedupKeepsFirstOccurrenceOrder` | src/utils/cors-option.ts:24 | the de-duplicated list is ordered by first occurrence in the input |
| `CorsOption.DedupOfDistinct` | src/utils/cors-option.ts:24 | a list without repeats is kept as it is |
| `CorsOption.DedupIdempotent` | src/utils/cors-option.ts:24 | de-duplicating twice is de-duplicating once |
| `CorsOption.PushTrimmed` | src/utils/cors-option.ts:19-21 | pushing the trimmed pieces appends exactly them, in order |
| `CorsOption.SpreadSet` | src/utils/cors-option.ts:24 | the loop that keeps each element the first time the set has not seen it computes the de-duplication |
| `CorsOption.AllowedCorsOrigins` | src/utils/cors-option.ts:4-25 | the origins are the de-duplication of the frontend domain, when set, followed by the trimmed comma-separated extra origins |
| `CorsOption.CorsOptionsFor` | src/utils/cors-option.ts:27-35 | the options carry those origins, the fixed methods `GET,HEAD,PUT,PATCH,POST,DELETE,OPTIONS` and `credentials: true` |
| `CorsOption.FrontendDomainFirst` | src/utils/cors-option.ts:16-17 | a set frontend domain is the first origin |
| `CorsOption.OriginsAreCollected` | src/utils/cors-option.ts:16-24 | an origin is in the list exactly when it is the set frontend domain or a trimmed piece of the extra origins |
| `CorsOption.EmptyPieceKept` | src/utils/cors-option.ts:18-22 | an empty piece, as in `a,,b`, stays in the list as `''` |
| `HttpExceptionFilter.StatusOf` | src/utils/filters/http-exception.filter.ts:25-28 | the status is the exception's own when it has one, else 500 |
| `HttpExceptionFilter.ResponseOf` | src/utils/filters/http-exception.filter.ts:20-23 | the response is the exception's own when it has one, else `undefined` |
| `HttpExceptionFilter.FallbackMessage` | src/utils/filters/http-exception.filter.ts:55-59 | the message is `response.error`, else `response.message`, else the response when truthy, and 'Invalid request !' for a falsy response |
| `HttpExceptionFilter.Catch` | src/utils/filters/http-exception.filter.ts:16-66 | as written, the filter throws exactly for a nullish exception or a `null` response under a validation status; otherwise it writes one body `{error: true, statusCode, message}` with the chosen status, and the message is the response's `message` for 400/404/422/429 object responses that have one, and the fallback message for everything else |
| `HttpExceptionFilter.CatchGuarded` | src/utils/filters/http-exception.filter.ts:16-66 | with the two throws guarded, every exception gets exactly one body with the same status and message choice |
| `HttpExceptionFilter.GuardedAgrees` | src/utils/filters/http-exception.filter.ts:40-65 | wherever the filter as written responds, the guarded filter gives the same response |
| `HttpExceptionFilter.NullishThrowCrashes` | src/utils/filters/http-exception.filter.ts:32 | `throw undefined` makes the filter throw instead of responding, while the guarded filter answers 500 'Invalid request !' |
| `HttpExceptionFilter.NullResponseCrashes` | src/utils/filters/http-exception.filter.ts:40-43 | a 400 exception with a `null` response makes the filter throw, while the guarded filter answers 400 'Invalid request !' |
| `HttpExceptionFilter.StatusDefaultsTo500` | src/utils/filters/http-exception.filter.ts:25-28 | an exception without a status is answered with 500 |
| `HttpExceptionFilter.PlainErrorAnswer` | src/utils/filters/http-exception.filter.ts:55-65 | a plain `Error` is answered with 500 and 'Invalid request !' |
| `HttpExceptionFilter.BadRequestAnswer` | src/utils/filters/http-exception.filter.ts:40-53 | a bad request is answered with 400 and its message as given |
| `HttpExceptionFilter.UnprocessableWithoutMessage` | src/utils/filters/http-exception.filter.ts:55-65 | a 422 whose body has neither `message` nor `error` is answered with the whole body as the message |
| `HttpExceptionFilter.OtherStatusUsesError` | src/utils/filters/http-exception.filter.ts:55-59 | outside the four validation statuses the response's `error` text is preferred to its `message` |
| `HttpExceptionFilter.InvalidPayloadAnswer` | src/utils/interceptors/response.interceptor.ts:58 | the interceptor's rejection reaches the client as 400 with message 'Invalid request payload !' |
| `HttpExceptionFilter.MissingFileAnswer` | src/files/infrastructure/uploader/s3/files.service.ts:60-67 | a missing upload reaches the client as 422 with the error object `{status: 422, errors: {file: 'selectFile'}}` as its message |
| `Validators.ScanClass` | src/utils/decorators/index.ts:46 | the scan stops at the first character outside the class, all before it inside |
| `Validators.AllInClassIff` | src/utils/decorators/index.ts:46-281 | a one-class pattern matches exactly when every character is in the class |
| `Validators.NonStringsFailPatterns` | src/utils/decorators/index.ts:45-282 | `matches` refuses every non-string, so every pattern validator does |
| `Validators.IsEthAddress` | src/utils/decorators/index.ts:45-46 | exactly the strings of `0x` followed by 40 hex digits of either case |
| `Validators.NamePattern` | src/utils/decorators/index.ts:70-71 | exactly the non-empty strings of letters, digits, space and `#^&*_+-=` |
| `Validators.IsName` | src/utils/decorators/index.ts:68-71 | `isFullName` makes no difference: both branches are the name pattern |
| `Validators.IsDescription` | src/utils/decorators/index.ts:90-91 | exactly the strings, the empty one included, without `$ { } < >` |
| `Validators.IsAddress` | src/utils/decorators/index.ts:219-221 | accepts exactly what the description validator accepts |
| `Validators.IsFileName` | src/utils/decorators/index.ts:240-241 | exactly the non-empty strings of name characters and `.` |
| `Validators.IsOfferingId` | src/utils/decorators/index.ts:280-281 | exactly the strings of 36 characters from hex digits and `-`, with no layout imposed |
| `Validators.IsNotBlank` | src/utils/decorators/index.ts:110-116 | every non-string passes, and a string passes exactly when it has a non-whitespace character |
| `Validators.EthAddressIffHexOf20Bytes` | src/utils/decorators/index.ts:46 | an Ethereum address is exactly `0x` followed by text that the hex decoder turns into 20 bytes, either case allowed |
| `Validators.EthAddressOfBytes` | src/utils/decorators/index.ts:46 | `0x` and the hex text of any 20 bytes is accepted |
| `Validators.NameIffFileNameWithoutDot` | src/utils/decorators/index.ts:70-241 | a string is a valid name exactly when it is a valid file name without a dot |
| `Validators.FileNameIsDescription` | src/utils/decorators/index.ts:91-241 | every valid file name, and so every valid name, is a valid description and address |
| `Validators.AllDashesOfferingId` | src/utils/decorators/index.ts:281 | 36 hyphens pass as an offering id |
| `Validators.PostalLocale` | src/utils/decorators/index.ts:146-156 | `AX` is checked as `FI`, another code that upper-cases to `AX` as `any`, and every other code as itself |
| `Validators.IsPostalCodeOf` | src/utils/decorators/index.ts:138-157 | acceptance needs a string country code that is ISO 3166-1 alpha-2; for a code other than `AX` in any case, acceptance is exactly that check and the postal check under the code itself |
| `Validators.InvalidCountryFails` | src/utils/decorators/index.ts:141-144 | an invalid or non-string country code fails whatever the value |
| `Validators.UnsupportedNeverPassedOn` | src/utils/decorators/index.ts:146-156 | no locale handed to the postal-code check is `AX` in any case |
| `Validators.AlandMapping` | src/utils/decorators/index.ts:127-157 | `AX` postal codes are checked as Finnish ones and `ax` ones against any locale |
| `Validators.IsDateOfBirth` | src/utils/decorators/index.ts:169-201 | anything that is not a Date is refused; a Date after today is refused; any other Date is accepted exactly when its age on today is at least the minimum age, 18 when not given |
| `Validators.AgeOn` | src/utils/decorators/index.ts:194-198 | the age is the difference of the years or one less, and equals the difference exactly when this year's birthday is not after today |
| `Validators.AgeAtLeastIffBirthdayReached` | src/utils/decorators/index.ts:194-200 | the age is at least `n` exactly when the `n`-th birthday is not after today, the birthday itself counting |
| `Validators.DateOfBirthIffAnniversaryReached` | src/utils/decorators/index.ts:169-200 | with a non-negative minimum age, default 18, a value is accepted exactly when it is a Date whose anniversary at that age is not after today |
| `Validators.EighteenthBirthday` | src/utils/decorators/index.ts:170-200 | under the default, the eighteenth birthday is accepted and the day before it is not |
| `Validators.FutureDateRefused` | src/utils/decorators/index.ts:189-191 | a date after today is refused |
| `Validators.NonDateRefused` | src/utils/decorators/index.ts:181-183 | a non-Date is refused |

## Left out

- Node's `crypto`: AES, MD5 and `randomBytes` are abstract (`Primitives`, the IV parameter). Only the CTR structure (XOR with a keystream) is modelled, so nothing is claimed about the cipher's strength.
- UTF-8: the crypto functions work on the UTF-8 bytes of the text. The conversion between strings and bytes is an abstract pair of functions (`Utf8`), assumed to round-trip. Strings are sequences of Unicode scalar values, not UTF-16 code units.
- `Crypto.HexDecode`: `Buffer.from(s, 'hex')` silently truncates malformed input; here malformed hex is an error. A wrong-length IV is an error in both.
- AES-CTR's IV checks inside Node, and `decipher.final()`, are covered only as "the IV must decode to 16 bytes".
- The AWS SDK: `S3Client` and `getSignedUrl` are network I/O. The signer is a function argument, and the model states which request it receives.
- `String.prototype.replace` special `$` patterns in the replacement are not modelled. A public URL containing `$` is outside the model.
- `FileRepository`'s persistence layer is a record store with identifiers handed out in order.
- `ConfigService`, `registerAs` and `validateConfig` are left out, as are class-validator's `matches`, `isISO31661Alpha2`, `isPostalCode` and `buildMessage` internals. `matches` is modelled as its one-class regular expressions on strings; the country and postal checks are abstract predicates.
- `Validators.IsDateOfBirth`: `new Date()` and date parsing are left out. Dates are calendar days `(year, month, day)`, with today as a parameter; the time of day, time zones and invalid Dates are not modelled.
- `IsFutureDate` is not modelled: after refusing a falsy value, it parses the value with `new Date(value)` and compares it with the current clock (index.ts:258-262). Both belong with the clock and date parsing, which the date model leaves out, as for `IsDateOfBirth`.
- `ApiCommonResponse` (Swagger metadata), `throttle-config.ts` (constant data), the `fileSize` limit and `memoryStorage` of multer are left out: they are foreign middleware.
- The RxJS pipeline, the Express request and response objects, and `response.status().json()` are left out. The interceptor's result and the filter's written body are returned values.
- Logging is left out: it has no effect on the responses.
- `ResponseInterception.ResponseInterceptor.Intercept`: the route handler is a total function of body and query. A throwing handler, and asynchronous completion, are not modelled.
- `ResponseInterception.ResponseInterceptor.HandleData`: its own contract states only the shape of the result. The exact result for each kind of payload is stated by `PassThrough`, `MultiKeyPassesThrough`, `OneKeyWithoutDataRejected` and `OneKeyDataDecrypted`.
- `ResponseInterception.ResponseInterceptor.Outbound`: its own contract states only that the envelope is an object. The envelope's contents and the raw bypass are stated by `EnvelopeFields`, `RawBypass` and `EnvelopeDecryptsBack`.
- `JSON.stringify` is an abstract total function. Results it cannot serialise are outside the model.
- Object key order is not modelled: objects are maps, so the filter's two body layouts are the same value.
- JavaScript numbers are integers here. Status codes and the age arithmetic do not involve fractions.
- Property reads are limited to plain objects' own keys. The keys read (`data`, `sendRaw`, `message`, `error`) are not defined on any built-in prototype.
- `Strings.Lower`: only ASCII letters are lower-cased. `toLocaleLowerCase` at files.module.ts:28 also lowers other letters and can change the length (`İ` becomes two code points), so for a name such as `virus.ÉXE` the source's message says `(éxe)` and the model's says `(Éxe)`. Whether a file is accepted is not affected: the allowed extensions are ASCII, and a case-insensitive JavaScript regular expression without the `u` flag never matches a non-ASCII character against an ASCII one.
- `Strings.Upper`: only ASCII letters are upper-cased. It is used only to compare a country code with `AX`, and no other character upper-cases to `A` or `X`.

## Findings

| source | as written | input that shows it | evidently intended | confidence | as-written member | corrected member |
|---|---|---|---|---|---|---|
| src/utils/filters/http-exception.filter.ts:32 | the debug log reads `exception.stack` without `?.`, although lines 21-27 guard every other access with `?.`; a nullish exception makes the filter itself throw a `TypeError` and write no response | `throw undefined` (or `throw null`) in a handler | respond 500 with 'Invalid request !', as for any exception without status or response | medium, not executed | `HttpExceptionFilter.NullishThrowCrashes` | `HttpExceptionFilter.CatchGuarded` |
| src/utils/filters/http-exception.filter.ts:40-43 | `typeof exceptionResponse === 'object'` also holds of `null`, and `'message' in null` throws a `TypeError` | an `HttpException` with status 400 whose response is `null` | fall through to the general branch and respond 400 with 'Invalid request !' | low, not executed | `HttpExceptionFilter.NullResponseCrashes` | `HttpExceptionFilter.CatchGuarded` |
