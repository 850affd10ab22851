# django-s3file, modelled in Dafny

django-s3file lets a Django form upload files straight from the browser to an
S3 bucket. The server then treats the uploaded objects as if they had been
posted with the form. This project models the server side of that round trip
as pure functions and proves properties of it.

- **Signing view** (`Views`). `S3FileView.post` checks for `name` and `type`. It then builds the five-condition S3 POST policy for a per-request upload folder `upload_path/<uuid hex>`, encodes it in base64 (section 4 of RFC 4648), signs it with HMAC-SHA1 and returns the form fields the browser posts to S3.
- **Mock storage** (`Storages`). `S3MockStorage` is a file-system storage that stands in for S3 during local development. The model covers its `location`, its `path` (`safe_join` under the media root) and its fake `generate_presigned_post`. It also covers the module-level choice of `storage`.
- **Handback middleware** (`Middleware`). `S3FileMiddleware` reads the JSON manifest `s3file`. For every field it lists, it reads a JSON list of keys and strips the first occurrence of `dirname(location) + '/'` from each key. It opens each key, renames the file to the key's basename, drops keys that raise `OSError`, and replaces `FILES[field]` with the result. It hands `/__s3_mock__/` to the mock view in local development.
- **Widget** (`Forms`). This covers `S3FileInput.value_from_datadict` (`None`, `False` or an opened file), the hidden-value and file-name decision of `render`, and `AutoFileInput`.

Supporting modules:

- `Basics`: option, result, bytes and digest types.
- `Strings`: `str.find` and `str.replace(old, new, 1)`.
- `PosixPath`: `posixpath.basename`, `dirname`, `join`, `normpath` and `abspath`, plus Django's `safe_join`.
- `Base64`: an encoder and a strict decoder (it refuses non-zero pad bits), proved inverse in both directions.
- `Timestamps`: the two `strftime` layouts, each with a parser, proved inverse both ways.

These external pieces are function parameters:

- `json.dumps` and `json.loads`
- HMAC-SHA1 and HMAC-SHA256 (RFC 2104), which are known only by digest length
- `uuid4().hex`, which is any 32-digit lower-case hex string
- the clock
- `default_storage.open` and `default_storage.url`

The file system and the bucket are a map from resolved key to bytes.

What the code checks, and what it generates:

- `s3file/middleware.py` checks no signature and no containment.
- Its only containment check is `safe_join` inside the mock storage's `path`.
- The folder token is `uuid4().hex`.
- The `Content-Type` condition is always an exact match.

Several behaviours of the code are proved as written:

- **The key rewrite is not a prefix strip.** `RewriteInTheMiddle` shows a match in the middle of a key being removed. `RewriteOfBareLocation` shows that a location without a slash has an empty dirname, so the first `/` of the key is dropped.
- **An absolute client file name replaces the upload folder.** `os.path.join` discards the folder (`AbsoluteNameLeavesFolder`), so S3 would refuse the upload under the `starts-with` condition.

## Model

| member | source | states |
|---|---|---|
| Storages.SelectStorage | s3file/storages.py:57-59 | `storage` is the S3 mock exactly when `default_storage` is a file-system storage (`local_dev`); otherwise it is the default storage itself |
| Storages.MockLocation | s3file/storages.py:13-15 | the mock's location is `AWS_LOCATION` when that setting exists and "" when it does not |
| Storages.MockPath | s3file/storages.py:17-18 | `path(name)` either raises (`None`) or returns `abspath(join(abspath(base_location), location, name))`, an absolute path without ".." that lies under `abspath(base_location)`; it raises exactly when that normalised join leaves the base |
| Storages.MockPathKeepsName | s3file/storages.py:17-18 | under a media root other than "/" and a location without "..", a plain file name is accepted and is the last component of the path |
| Storages.MockPathDistinct | s3file/storages.py:17-18 | under the same conditions, two different plain names resolve to two different paths |
| Storages.MockPathAcceptsRelative | s3file/storages.py:17-18 | a relative location and name with no ".." component always resolve, for any media root |
| Storages.MockPathRefusesParent | s3file/storages.py:17-18 | with no AWS_LOCATION, the name ".." is refused rather than clamped, under any media root other than "/" |
| Storages.Open | s3file/storages.py:17-18 | opening raises `SuspiciousFileOperation` exactly when the path cannot be resolved; it raises `OSError` exactly when the resolved file is absent; otherwise it reads the stored bytes |
| Storages.Save | s3file/storages.py:17-18 | saving fails exactly when the name cannot be resolved; otherwise it writes one key and leaves every other stored object unchanged |
| Storages.OpenAfterSave | s3file/storages.py:17-18 | bytes saved under a name are what opening that name reads back |
| Storages.SaveLeavesOtherNames | s3file/storages.py:17-18 | in the mock storage, saving under one plain name leaves what another plain name opens unchanged |
| Storages.Credential | s3file/storages.py:28-31 | `x-amz-credential` is `AWS_ACCESS_KEY_ID` when that setting exists and otherwise the literal `'AWS_ACCESS_KEY_ID'` |
| Storages.MockFields | s3file/storages.py:32-50 | the fields map has exactly six distinct keys, with the signature merged beside the five others |
| Storages.GeneratePresignedPost | s3file/storages.py:24-51 | url `/__s3_mock__/`; exactly six fields; `key` unchanged; algorithm `AWS4-HMAC-SHA256`; the policy decodes to the JSON bytes; the date is 16 characters and parses back to the clock reading; the signature has 44 characters |
| Storages.PresignedPostVerifies | s3file/storages.py:39-44 | recomputing HMAC-SHA256 with the secret over the decoded `policy` followed by `x-amz-date` yields the returned signature |
| Views.ExpirationDate | s3file/views.py:31-33 | the expiration is 24 characters ending in `.000Z`; the zero-padded year, month, day, hour, minute and second sit at positions 0-3, 5-6, 8-9, 11-12, 14-15 and 17-18; it parses back to the instant it formats |
| Views.ExpirationDateInjective | s3file/views.py:31-33 | two different instants never give the same expiration string |
| Views.UploadFolder | s3file/views.py:56-61 | the folder's last component is the 32-digit token; the folder is `upload_path + "/" + token` when the path does not end in '/', `upload_path + token` when it does, and just the token when the path is empty; it is absolute exactly when the upload path is |
| Views.Key | s3file/views.py:63-67 | the key is the name itself when the name is absolute; otherwise it is the folder, one "/" and the name, with no "/" added when the folder is empty or already ends in one |
| Views.KeyUnderFolder | s3file/views.py:56-67 | with a relative upload path, the key starts with the upload folder exactly when the client's name is relative |
| Views.AbsoluteNameLeavesFolder | s3file/views.py:63-67 | an absolute name such as `/etc/passwd` becomes the whole key, with no folder |
| Views.Conditions | s3file/views.py:47-54 | the policy has exactly five conditions, in order: the bucket name, `acl` = `public-read`, `Content-Type` = the MIME type, `starts-with $key` on the upload folder, and `success_action_status` = `201` |
| Views.ConditionsMeaning | s3file/views.py:47-54 | under S3's policy rules, an upload meets the five conditions exactly when it goes to the configured bucket with `acl` `public-read`, the given `Content-Type`, a key starting with the folder and `success_action_status` `201` |
| Views.ConditionsMetByEcho | s3file/views.py:47-54 | under S3's policy rules, a form that echoes `acl`, `Content-Type` and `success_action_status` and is sent to the configured bucket meets the five conditions exactly when its key starts with the folder |
| Views.StripNewlines | s3file/views.py:44 | the result has no `\n` or `\r` bytes, is never longer than the input, and is the input itself when that has no line breaks |
| Views.StripNewlinesAppend | s3file/views.py:44 | removing line breaks distributes over concatenation, so every other byte is kept in order |
| Views.StripNewlinesDropsBreaks | s3file/views.py:44 | a lone `\n` and a lone `\r` are removed entirely |
| Views.Policy | s3file/views.py:38-45 | the policy is ASCII, has length 4·⌈n/3⌉ for the n-byte JSON without line breaks, and decodes back to exactly that JSON |
| Views.Signature | s3file/views.py:73-79 | the signature is exactly 28 characters and decodes to the 20-byte HMAC-SHA1 of the policy text |
| Views.SignedFields | s3file/views.py:81-90 | `sign` returns exactly eight fields: the echoed `success_action_status` "201", `acl` "public-read" and `Content-Type`, the key, the access key and the form action |
| Views.SignAsWritten | s3file/views.py:72-90 | as written, the eight fields: the key, `AWSAccessKeyId` set to the access key, `form_action`, `acl` "public-read", `success_action_status` "201" and `Content-Type`; but the signature covers the policy of the first clock reading while the returned `policy` comes from a second reading |
| Views.SignAsWrittenSignsAnotherPolicy | s3file/views.py:72-82 | for an injective JSON encoder without line breaks, two different readings make the returned policy differ from the signed one |
| Views.SignAsWrittenStraddlingASecond | s3file/views.py:72-82 | readings of 10:10:00 and 10:10:01 on 1988-11-19 return a policy other than the signed one |
| Views.Sign | s3file/views.py:72-90 | with a single policy computation, the response has the eight fields, with the key, the access key, `form_action`, `acl`, `success_action_status` and `Content-Type` values of `sign`, a 28-character signature, and a policy decoding to the JSON of this document |
| Views.SignCoversReturnedPolicy | s3file/views.py:72-90 | the returned signature decodes to the HMAC-SHA1 of exactly the returned policy |
| Views.SignedFieldsPermitted | s3file/views.py:72-90 | S3 accepts the signed fields under the signed conditions exactly when the key starts with the upload folder |
| Views.Post | s3file/views.py:100-116 | a 400 exactly when `name` or `type` is missing from POST; otherwise exactly the eight `sign` fields: the key is the upload folder joined with `name`, `Content-Type` is `type`, `acl` is "public-read", `success_action_status` is "201", `AWSAccessKeyId` is the access key and `form_action` is the storage URL given as a parameter; the signature is over the policy of the first clock reading and the returned policy is that of the second |
| Views.PostSignsAnotherPolicy | s3file/views.py:72-116 | when the clock reading changes between the two `get_policy()` calls, the endpoint returns a policy other than the one its signature covers |
| Views.PostSingleReading | s3file/views.py:100-116 | the corrected endpoint: the same 400 and the same eight field values as `Post`, and the returned signature decodes to the HMAC-SHA1 of exactly the returned policy |
| Views.PostKeyMatchesCondition | s3file/views.py:100-116 | for a relative file name, the signed response meets every one of its own policy's conditions, `starts-with $key` included |
| Middleware.Rewrite | s3file/middleware.py:32-33 | with an empty location, the key is unchanged; otherwise only the first occurrence of `dirname(location) + '/'` is removed, wherever it is, and a key without one is unchanged |
| Middleware.RewriteStripsSlashTerminatedLocation | s3file/middleware.py:32-33 | for a location ending in a single slash, a key that starts with the location loses exactly that prefix |
| Middleware.RewriteInTheMiddle | s3file/middleware.py:33 | the marker is removed in the middle of a key too: `a/media/b` becomes `a/b` for location `media/` |
| Middleware.RewriteOfBareLocation | s3file/middleware.py:33 | for location `media`, the marker is `/`, so `media/a.txt` becomes `mediaa.txt` |
| Middleware.FetchOne | s3file/middleware.py:32-39 | a key that opens yields exactly one file, named by the rewritten key's basename and holding its bytes; a key whose `open` raises `OSError` yields nothing; the exception escapes exactly when opening the rewritten key is suspicious |
| Middleware.GetFilesFromStorage | s3file/middleware.py:28-39 | no more files than keys; every file name is slash-free; an exception escapes exactly when some rewritten key is suspicious |
| Middleware.GetFilesSingle | s3file/middleware.py:31-39 | a one-key list yields exactly that key's contribution |
| Middleware.GetFilesAppend | s3file/middleware.py:31-39 | keys are processed in order and independently: the files of `a + b` are the files of `a` followed by those of `b`, and the first exception wins |
| Middleware.GetFilesSkipsMissing | s3file/middleware.py:31-39 | a key raising `OSError` between two keys that open is skipped: exactly the other two files come out, in order |
| Middleware.GetFilesMissingFirst | s3file/middleware.py:34-39 | a first key whose `open` raises `OSError` contributes nothing: the outcome is that of the remaining keys |
| Middleware.GetFilesAllFound | s3file/middleware.py:30-37 | when every key opens, there is one file per key, in key order, named by the basename of the rewritten key and holding its bytes |
| Middleware.GetFilesAfterSave | tests/test_middleware.py:10-15 | bytes saved under `Rewrite(Location(s), key)`, the storage path the middleware derives from the key, come back from `get_files_from_storage([key])` as one file named by the basename of that rewritten key |
| Middleware.SetLists | s3file/middleware.py:19-21 | each listed field gets the files of its own keys; the keys of FILES grow by the listed fields; unlisted entries are unchanged; the loop succeeds exactly when every field does |
| Middleware.SetListsUnposted | s3file/middleware.py:20-21 | a listed field with no POST value ends with an empty file list |
| Middleware.Rehydrate | s3file/middleware.py:18-21 | with no `s3file` parameter, FILES is returned untouched; unlisted entries keep their files; no new entries besides listed fields; listed fields without a POST value become empty; a malformed manifest raises |
| Middleware.RehydrateListedField | s3file/middleware.py:19-21 | the rebuild succeeds exactly when every manifest field's keys resolve, and each listed field then holds exactly its resolved files |
| Middleware.Call | s3file/middleware.py:17-26 | the mock view answers exactly when `local_dev` holds and the path is `/__s3_mock__/`; otherwise `get_response` does; FILES is the rebuilt map, and an exception aborts before dispatch |
| Forms.ValueFromDatadict | s3file/forms.py:65-76 | `None` for an absent or empty value; `False` for `'initial'`; otherwise the opened file, or `False` when opening raises `IOError`; any other exception of `default_storage.open` (such as `FileSystemStorage`'s `SuspiciousFileOperation` from its own `safe_join`) propagates |
| Forms.ValueWithoutStorage | s3file/forms.py:66-70 | an empty value or `'initial'` gives the same answer whatever the storage holds, and never a file |
| Forms.Render | s3file/forms.py:41-51 | the hidden value is `'initial'` exactly when the value is a `File` with a non-empty storage URL, and "" otherwise; the shown name is the slash-free basename of `value.name`, or "" for a non-file |
| Forms.RenderThenSubmit | s3file/forms.py:41-70 | submitting the rendered hidden value back gives `False` for a file with a URL and `None` otherwise |
| Forms.AutoFileInput | s3file/forms.py:92-97 | the S3 widget exactly when `AWS_SECRET_ACCESS_KEY` exists and is non-empty; otherwise `ClearableFileInput` |
| PosixPath.SafeJoin | s3file/storages.py:18 | `safe_join` returns `abspath(join(base, *paths))`, an absolute, ".."-free path under the base, and raises exactly when that normalised join is not contained in the base |
| PosixPath.SafeJoinAcceptsRelative | s3file/storages.py:18 | relative location and name without ".." are never refused |
| PosixPath.SafeJoinRefusesParent | s3file/storages.py:18 | climbing out of any base other than the root with ".." is refused |
| PosixPath.SafeJoinKeepsName | s3file/storages.py:18 | joining a location without ".." and a plain name onto a base other than the root is accepted, and the name is the last component of the result |
| PosixPath.Basename | s3file/middleware.py:36 | the basename is the longest slash-free suffix of the path |
| PosixPath.Dirname | s3file/middleware.py:33 | the dirname is a prefix of the path, followed only by slashes before the basename, and ends in a slash only when it is all slashes, in which case it is exactly the path up to its last slash |
| PosixPath.Join | s3file/views.py:58-61 | an absolute second argument replaces the first; otherwise the result is the first, one "/" and the second, with no "/" added when the first is empty or already ends in one |
| PosixPath.BasenameOfJoin | s3file/views.py:58-61 | joining a slash-free component makes it the basename |
| Strings.ReplaceFirst | s3file/middleware.py:33 | `replace(old, '', 1)` removes exactly the first occurrence and leaves a string with no occurrence unchanged |
| Base64.Encode | s3file/views.py:44 | the encoding has 4·⌈n/3⌉ characters, a multiple of four |
| Base64.EncodeShortExamples | s3file/views.py:44 | the encodings of "", "f", "fo" and "foo" are "", "Zg==", "Zm8=" and "Zm9v", the vectors of section 10 of RFC 4648 |
| Base64.EncodeLongExamples | s3file/views.py:44 | the encodings of "foob", "fooba" and "foobar" are "Zm9vYg==", "Zm9vYmE=" and "Zm9vYmFy" |
| Base64.EncodeAlphabet | s3file/views.py:44 | every character of the encoding is from the alphabet or is padding |
| Base64.DecodeEncode | s3file/views.py:44 | decoding an encoding gives back the bytes |
| Base64.EncodeInjective | s3file/views.py:44 | different byte strings never share an encoding |
| Base64.EncodeDecode | s3file/views.py:44 | every string the decoder accepts is the encoding of what it decodes to, so it accepts only canonical encodings |
| Base64.DecodeInjective | s3file/views.py:44 | two accepted strings that decode to the same bytes are the same string |
| Timestamps.ParseIsoMillisOfFormat | s3file/views.py:33 | parsing `%Y-%m-%dT%H:%M:%S.000Z` output gives the instant back |
| Timestamps.FormatOfParseIsoMillis | s3file/views.py:33 | every string the parser accepts is exactly the formatting of what it parses to |
| Timestamps.ParseCompactDateOfFormat | s3file/storages.py:27 | parsing `%Y%m%dT%H%M%SZ` output gives the instant back |
| Timestamps.FormatOfParseCompactDate | s3file/storages.py:27 | every string the compact parser accepts is exactly the formatting of what it parses to |
| Timestamps.IsoMillisParts | s3file/views.py:33 | `%Y-%m-%dT%H:%M:%S.000Z` puts the zero-padded year, month, day, hour, minute and second at positions 0-3, 5-6, 8-9, 11-12, 14-15 and 17-18 |
| Timestamps.IsoMillisExample | tests/test_views.py:30-31 | 1988-11-19 10:10:00 formats as "1988-11-19T10:10:00.000Z" |
| Timestamps.IsoMillisPadsExample | s3file/views.py:33 | single-digit fields are zero-padded: 2024-02-03 04:05:06 formats as "2024-02-03T04:05:06.000Z" |
| Timestamps.CompactDateParts | s3file/storages.py:27 | `%Y%m%dT%H%M%SZ` puts the zero-padded year, month, day, hour, minute and second at positions 0-3, 4-5, 6-7, 9-10, 11-12 and 13-14 |
| Timestamps.CompactDateExample | s3file/storages.py:27 | 1988-11-19 10:10:00 formats as "19881119T101000Z" |

## Left out

- The browser client (`s3file/static/s3file/js/s3file.js`) is not part of this model: it is DOM, XHR and promise plumbing.
- `s3file/storages_optimized.py` is not part of this model: it overrides internals of django-storages and boto3.
- `s3file/apps.py`, `checks.py`, `conf.py`, `urls.py`, packaging and test fixtures are not part of this model: they are configuration and wiring.
- The HTML template, `element_id`, `signing_url` and `Media` of `S3FileInput.render` are left out. Only the value and file-name decision is modelled.
- `views.S3MockView`, referenced at `s3file/middleware.py:24`, is not part of this model. Only the decision to dispatch to it is modelled.
- Cryptography, JSON, `uuid4` and the clock are parameters. HMAC is known only by the length of its digest; `json.dumps` is any function to bytes.
- The one-hour `timedelta` addition of `get_expiration_date` is not modelled. The view receives the instant `utcnow() + expires` directly, once for each of the two `get_policy()` calls.
- `Timestamps.UtcTime` holds only years 1000 to 9999. `strftime('%Y')` pads smaller years differently on different platforms.
- `Middleware.Rehydrate`: `json.loads` is modelled only on documents that are lists of strings, and everything else counts as malformed. Python would instead iterate over a dict's keys or a string's characters.
- POST is modelled as the last value posted under each name, which is what `QueryDict.get` returns. Multi-valued POST keys are not modelled.
- `Storages.Open` and `Storages.Save`: when `default_storage` is not a file-system storage, it is keyed directly by name. The key normalisation of that backend (django-storages) is outside the shown code.
- `Storages.Save` writes under exactly the given name. `get_available_name` would rename on a collision, and that renaming is not modelled.
- `Views.Post` serialises the returned fields with `json.dumps`; that serialisation and the response's content type are not modelled.
- Logging (`logger.warning`, `logger.debug`, `logger.exception`) is left out.
- `Forms.AutoFileInput` models `AWS_SECRET_ACCESS_KEY` as an optional string. Truthiness of other setting types is not modelled.
- `s3file/views.py` is Python 2 code: `b64encode` is applied to a `str` of bytes. It is modelled on bytes, with the JSON as ASCII bytes.
- A Django `File` is modelled as its name and its full content. Streaming, modes and closing are not modelled.

## Findings

| source | as written | input that shows it | evidently intended | confidence | as-written member | corrected member |
|---|---|---|---|---|---|---|
| s3file/views.py:72-82 | `sign()` calls `get_policy()` twice: once to compute the HMAC and once for the returned `policy`. Each call reads `utcnow()` for the expiration. | The clock reads 10:10:00 and then 10:10:01 (1988-11-19): the returned policy is not the one the signature covers, so S3 rejects the upload | Compute the policy once and return the same string that was signed | not executed | Views.SignAsWritten, Views.SignAsWrittenStraddlingASecond, Views.PostSignsAnotherPolicy | Views.Sign, Views.SignCoversReturnedPolicy, Views.PostSingleReading |
