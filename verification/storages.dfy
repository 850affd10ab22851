/**
 * The storage the upload round trip talks to: the local S3 stand-in
 * `S3MockStorage` (a file-system storage rooted at the media root), its fake
 * presigner, and the module-level choice between it and `default_storage`.
 *
 * The file system and the remote bucket are one map `store` from the key the
 * backend resolves a name to (an absolute path for the mock, the object name
 * otherwise) to the stored bytes.
 */
module Storages {
  import opened Basics
  import opened Strings
  import opened PosixPath
  import Base64
  import Timestamps

  /** A Django `File`: its `name` and the bytes `read()` returns. */
  datatype File = File(name: string, content: Bytes)

  /**
   * The outcome of `storage.open(name)`: a file, an `OSError` for a missing
   * one, or the `SuspiciousFileOperation` that `safe_join` raises (which is not
   * an `OSError`).
   */
  datatype Opened = Found(file: File) | Missing | Suspicious

  /** The configured `default_storage`, by class. */
  datatype DefaultStorage = FileSystemStorage(location: string) | OtherStorage(location: string)

  /** The module-level `storage`. */
  datatype Storage = S3Mock(mediaRoot: string, awsLocation: Option<string>) | Default(location: string)

  /** `local_dev`: the default storage is a file-system storage. */
  predicate LocalDev(d: DefaultStorage) {
    d.FileSystemStorage?
  }

  /** `storage = default_storage if not local_dev else S3MockStorage()`. */
  function SelectStorage(d: DefaultStorage, mediaRoot: string, awsLocation: Option<string>): (s: Storage)
    ensures s.S3Mock? <==> LocalDev(d)
    ensures s.S3Mock? ==> s.mediaRoot == mediaRoot && s.awsLocation == awsLocation
    ensures s.Default? ==> s.location == d.location
  {
    if LocalDev(d) then S3Mock(mediaRoot, awsLocation) else Default(d.location)
  }

  /** `S3MockStorage.location`: the `AWS_LOCATION` setting, or "" when it is not set. */
  function MockLocation(awsLocation: Option<string>): (r: string)
    ensures awsLocation.Some? ==> r == awsLocation.value
    ensures awsLocation.None? ==> r == ""
  {
    match awsLocation
    case Some(l) => l
    case None => ""
  }

  /** `storage.location` of either kind of storage. */
  function Location(s: Storage): string
  {
    match s
    case S3Mock(_, awsLocation) => MockLocation(awsLocation)
    case Default(location) => location
  }

  /**
   * `S3MockStorage.path(name)`: `safe_join(abspath(base_location), location, name)`;
   * `None` where `safe_join` raises.
   */
  function MockPath(cwd: string, mediaRoot: string, awsLocation: Option<string>, name: string): (r: Option<string>)
    requires IsAbsolute(cwd)
    ensures r.Some? ==> r.value == AbsPath(cwd, Join(Join(AbsPath(cwd, mediaRoot), MockLocation(awsLocation)), name))
    ensures r.Some? ==> Contained(r.value, AbsPath(cwd, mediaRoot))
    ensures r.Some? ==> IsAbsolute(r.value)
    ensures r.Some? ==> forall k :: 0 <= k < |Split(r.value)| ==> Split(r.value)[k] != ".."
    ensures r.None? <==>
      !Contained(AbsPath(cwd, Join(Join(AbsPath(cwd, mediaRoot), MockLocation(awsLocation)), name)), AbsPath(cwd, mediaRoot))
  {
    var base := AbsPath(cwd, mediaRoot);
    AbsPathIdempotent(cwd, mediaRoot);
    JoinAllTwo(base, MockLocation(awsLocation), name);
    SafeJoin(cwd, base, [MockLocation(awsLocation), name])
  }

  /** A relative location and name without ".." always resolve under the media root. */
  lemma MockPathAcceptsRelative(cwd: string, mediaRoot: string, awsLocation: Option<string>, name: string)
    requires IsAbsolute(cwd)
    requires NoTraversal(MockLocation(awsLocation)) && NoTraversal(name)
    ensures MockPath(cwd, mediaRoot, awsLocation, name).Some?
  {
    SafeJoinAcceptsRelative(cwd, mediaRoot, MockLocation(awsLocation), name);
  }

  /** Without a location, the name ".." climbs out of any media root but "/" and is refused. */
  lemma MockPathRefusesParent(cwd: string, mediaRoot: string)
    requires IsAbsolute(cwd)
    requires Dirname(AbsPath(cwd, mediaRoot)) != AbsPath(cwd, mediaRoot)
    ensures MockPath(cwd, mediaRoot, None, "..").None?
  {
    SafeJoinRefusesParent(cwd, mediaRoot);
  }

  /**
   * Under a media root other than "/", a plain name resolves to a path ending
   * in that name, so two different plain names never share a stored file.
   */
  lemma MockPathKeepsName(cwd: string, mediaRoot: string, awsLocation: Option<string>, name: string)
    requires IsAbsolute(cwd)
    requires Dirname(AbsPath(cwd, mediaRoot)) != AbsPath(cwd, mediaRoot)
    requires NoTraversal(MockLocation(awsLocation)) && Plain(name)
    ensures MockPath(cwd, mediaRoot, awsLocation, name).Some?
    ensures Basename(MockPath(cwd, mediaRoot, awsLocation, name).value) == name
  {
    SafeJoinKeepsName(cwd, mediaRoot, MockLocation(awsLocation), name);
  }

  lemma MockPathDistinct(cwd: string, mediaRoot: string, awsLocation: Option<string>, a: string, b: string)
    requires IsAbsolute(cwd)
    requires Dirname(AbsPath(cwd, mediaRoot)) != AbsPath(cwd, mediaRoot)
    requires NoTraversal(MockLocation(awsLocation)) && Plain(a) && Plain(b) && a != b
    ensures MockPath(cwd, mediaRoot, awsLocation, a).Some? && MockPath(cwd, mediaRoot, awsLocation, b).Some?
    ensures MockPath(cwd, mediaRoot, awsLocation, a).value != MockPath(cwd, mediaRoot, awsLocation, b).value
  {
    MockPathKeepsName(cwd, mediaRoot, awsLocation, a);
    MockPathKeepsName(cwd, mediaRoot, awsLocation, b);
  }

  /** The key of `store` a name resolves to; `None` where resolving raises. */
  function Resolve(cwd: string, s: Storage, name: string): Option<string>
    requires IsAbsolute(cwd)
  {
    match s
    case S3Mock(mediaRoot, awsLocation) => MockPath(cwd, mediaRoot, awsLocation, name)
    case Default(_) => Some(name)
  }

  /** `storage.open(name)`. */
  function Open(cwd: string, s: Storage, store: map<string, Bytes>, name: string): (r: Opened)
    requires IsAbsolute(cwd)
    ensures r.Suspicious? <==> Resolve(cwd, s, name).None?
    ensures r.Missing? <==> Resolve(cwd, s, name).Some? && Resolve(cwd, s, name).value !in store
    ensures r.Found? ==> Resolve(cwd, s, name).Some? && r.file == File(Resolve(cwd, s, name).value, store[Resolve(cwd, s, name).value])
  {
    match Resolve(cwd, s, name)
    case None => Suspicious
    case Some(key) => if key in store then Found(File(key, store[key])) else Missing
  }

  /**
   * `storage.save(name, content)` writing under exactly `name`; `None` where
   * resolving the name raises.
   */
  function Save(cwd: string, s: Storage, store: map<string, Bytes>, name: string, content: Bytes): (r: Option<map<string, Bytes>>)
    requires IsAbsolute(cwd)
    ensures r.None? <==> Resolve(cwd, s, name).None?
    ensures r.Some? ==> r.value.Keys == store.Keys + {Resolve(cwd, s, name).value}
    ensures r.Some? ==> forall k :: k in store && k != Resolve(cwd, s, name).value ==> r.value[k] == store[k]
  {
    match Resolve(cwd, s, name)
    case None => None
    case Some(key) => Some(store[key := content])
  }

  /** What was saved under a name is what opening that name reads back. */
  lemma OpenAfterSave(cwd: string, s: Storage, store: map<string, Bytes>, name: string, content: Bytes)
    requires IsAbsolute(cwd)
    requires Resolve(cwd, s, name).Some?
    ensures Save(cwd, s, store, name, content).Some?
    ensures Open(cwd, s, Save(cwd, s, store, name, content).value, name).Found?
    ensures Open(cwd, s, Save(cwd, s, store, name, content).value, name).file.content == content
  {
  }

  /** In the mock, saving one plain name leaves what another plain name opens unchanged. */
  lemma SaveLeavesOtherNames(cwd: string, mediaRoot: string, awsLocation: Option<string>,
                             store: map<string, Bytes>, a: string, b: string, content: Bytes)
    requires IsAbsolute(cwd)
    requires Dirname(AbsPath(cwd, mediaRoot)) != AbsPath(cwd, mediaRoot)
    requires NoTraversal(MockLocation(awsLocation)) && Plain(a) && Plain(b) && a != b
    ensures Save(cwd, S3Mock(mediaRoot, awsLocation), store, a, content).Some?
    ensures Open(cwd, S3Mock(mediaRoot, awsLocation), Save(cwd, S3Mock(mediaRoot, awsLocation), store, a, content).value, b)
      == Open(cwd, S3Mock(mediaRoot, awsLocation), store, b)
  {
    MockPathDistinct(cwd, mediaRoot, awsLocation, a, b);
  }

  /** The six form fields of a presigned post. */
  const MockFieldNames: set<string> :=
    {"x-amz-signature", "x-amz-algorithm", "x-amz-date", "x-amz-credential", "policy", "key"}

  lemma MockFieldNamesDistinct()
    ensures "x-amz-signature" != "x-amz-algorithm" && "x-amz-signature" != "x-amz-date"
    ensures "x-amz-signature" != "x-amz-credential" && "x-amz-signature" != "policy" && "x-amz-signature" != "key"
    ensures "x-amz-algorithm" != "x-amz-date" && "x-amz-algorithm" != "x-amz-credential"
    ensures "x-amz-algorithm" != "policy" && "x-amz-algorithm" != "key"
    ensures "x-amz-date" != "x-amz-credential" && "x-amz-date" != "policy" && "x-amz-date" != "key"
    ensures "x-amz-credential" != "policy" && "x-amz-credential" != "key" && "policy" != "key"
    ensures |MockFieldNames| == 6
  {
    assert |"x-amz-signature"| == 15 && |"x-amz-algorithm"| == 15 && |"x-amz-date"| == 10;
    assert |"x-amz-credential"| == 16 && |"policy"| == 6 && |"key"| == 3;
    assert "x-amz-signature"[6] != "x-amz-algorithm"[6];
  }

  /** What `generate_presigned_post` returns. */
  datatype PresignedPost = PresignedPost(url: string, fields: map<string, string>)

  const MockUrl: string := "/__s3_mock__/"
  const Algorithm: string := "AWS4-HMAC-SHA256"

  /** `getattr(settings, 'AWS_ACCESS_KEY_ID', 'AWS_ACCESS_KEY_ID')`. */
  function Credential(accessKeyId: Option<string>): (r: string)
    ensures accessKeyId.Some? ==> r == accessKeyId.value
    ensures accessKeyId.None? ==> r == "AWS_ACCESS_KEY_ID"
  {
    match accessKeyId
    case Some(id) => id
    case None => "AWS_ACCESS_KEY_ID"
  }

  /** The bytes the mock signs: the JSON policy followed by the compact date. */
  function SignedBytes(policyJson: Bytes, date: string): Bytes
    requires IsAscii(date)
  {
    policyJson + AsciiBytes(date)
  }

  /** The `fields` dictionary with the signature merged in front of the other five. */
  function MockFields(signature: string, date: string, credential: string, policy: string, key: string): (f: map<string, string>)
    ensures f.Keys == MockFieldNames && |f| == 6
    ensures f["x-amz-signature"] == signature && f["x-amz-algorithm"] == Algorithm
    ensures f["x-amz-date"] == date && f["x-amz-credential"] == credential
    ensures f["policy"] == policy && f["key"] == key
  {
    MockFieldNamesDistinct();
    map[
      "x-amz-signature" := signature,
      "x-amz-algorithm" := Algorithm,
      "x-amz-date" := date,
      "x-amz-credential" := credential,
      "policy" := policy,
      "key" := key]
  }

  /**
   * `S3MockStorage.connection.meta.client.generate_presigned_post`. `dumps` is
   * `json.dumps(...).encode()`, `secretKey` is `SECRET_KEY.encode()`, `now` the
   * `utcnow()` reading and `hmacSha256(key, message)` the HMAC digest.
   */
  function GeneratePresignedPost<P>(
    secretKey: Bytes, accessKeyId: Option<string>, key: string, policy: P,
    dumps: P -> Bytes, now: Timestamps.UtcTime, hmacSha256: (Bytes, Bytes) -> Digest32): (r: PresignedPost)
    ensures r.url == MockUrl
    ensures r.fields.Keys == MockFieldNames && |r.fields| == 6
    ensures r.fields["key"] == key
    ensures r.fields["x-amz-algorithm"] == Algorithm
    ensures r.fields["x-amz-credential"] == Credential(accessKeyId)
    ensures Base64.Decode(r.fields["policy"]) == Some(dumps(policy))
    ensures |r.fields["x-amz-date"]| == 16
    ensures Timestamps.ParseCompactDate(r.fields["x-amz-date"]) == Some(now)
    ensures |r.fields["x-amz-signature"]| == 44
  {
    var policyJson := dumps(policy);
    var date := Timestamps.CompactDate(now);
    Timestamps.CompactDateIsAscii(now);
    Timestamps.ParseCompactDateOfFormat(now);
    Base64.DecodeEncode(policyJson);
    var digest := hmacSha256(secretKey, SignedBytes(policyJson, date));
    var signature := Base64.Encode(digest);
    assert |signature| == 44 by {
      assert |digest| == 32;
      assert (32 + 2) / 3 == 11;
    }
    PresignedPost(MockUrl, MockFields(signature, date, Credential(accessKeyId), Base64.Encode(policyJson), key))
  }

  /**
   * The returned fields verify: recomputing the HMAC over the decoded policy and
   * the returned date, with the same secret, gives the returned signature.
   */
  lemma PresignedPostVerifies<P>(
    secretKey: Bytes, accessKeyId: Option<string>, key: string, policy: P,
    dumps: P -> Bytes, now: Timestamps.UtcTime, hmacSha256: (Bytes, Bytes) -> Digest32)
    ensures var f := GeneratePresignedPost(secretKey, accessKeyId, key, policy, dumps, now, hmacSha256).fields;
      && Base64.Decode(f["policy"]).Some?
      && IsAscii(f["x-amz-date"])
      && f["x-amz-signature"] == Base64.Encode(hmacSha256(secretKey, SignedBytes(Base64.Decode(f["policy"]).value, f["x-amz-date"])))
  {
    Timestamps.CompactDateIsAscii(now);
    Base64.DecodeEncode(dumps(policy));
  }
}
