/**
 * The signing view: it validates the request, builds the S3 POST policy
 * for one upload folder, and returns the fields the browser posts to S3.
 *
 * The clock reading plus the one-hour `expires` delta, `uuid4().hex`,
 * `json.dumps`, HMAC-SHA1 and `default_storage.url('')` are parameters.
 */
module Views {
  import opened Basics
  import opened Strings
  import opened PosixPath
  import Base64
  import Timestamps

  /** The class attributes `S3FileViewMixin` reads from settings. */
  datatype ViewSettings = ViewSettings(accessKey: string, secretAccessKey: Bytes, bucketName: string, uploadPath: string)

  /** One entry of an S3 POST policy's `conditions` list. */
  datatype Condition = Exact(field: string, value: string) | StartsWith(variable: string, prefix: string)

  /** The policy object before `json.dumps`. */
  datatype PolicyDocument = PolicyDocument(expiration: string, conditions: seq<Condition>)

  /** The answer of `S3FileView.post`. */
  datatype Response = BadRequest | Signed(fields: map<string, string>)

  predicate IsLowerHex(c: char) {
    '0' <= c <= '9' || 'a' <= c <= 'f'
  }

  /** `uuid.uuid4().hex`: 32 lower-case hexadecimal digits. */
  type HexToken = s: string | |s| == 32 && forall i :: 0 <= i < |s| ==> IsLowerHex(s[i])
    witness "00000000000000000000000000000000"

  /** `get_expiration_date`, given the instant `utcnow() + expires`. */
  function ExpirationDate(expiresAt: Timestamps.UtcTime): (r: string)
    ensures |r| == 24 && r[19..] == ".000Z"
    ensures Timestamps.ParseIsoMillis(r) == Some(expiresAt)
    ensures r[0..4] == Timestamps.Pad4(expiresAt.year) && r[5..7] == Timestamps.Pad2(expiresAt.month)
    ensures r[8..10] == Timestamps.Pad2(expiresAt.day) && r[11..13] == Timestamps.Pad2(expiresAt.hour)
    ensures r[14..16] == Timestamps.Pad2(expiresAt.minute) && r[17..19] == Timestamps.Pad2(expiresAt.second)
  {
    Timestamps.ParseIsoMillisOfFormat(expiresAt);
    Timestamps.IsoMillisParts(expiresAt);
    Timestamps.IsoMillis(expiresAt)
  }

  /** `upload_folder`: the upload path joined with a fresh token. */
  function UploadFolder(uploadPath: string, token: HexToken): (r: string)
    ensures Basename(r) == token
    ensures uploadPath == "" ==> r == token
    ensures uploadPath != "" && uploadPath[|uploadPath| - 1] != '/' ==> r == uploadPath + "/" + token
    ensures uploadPath != "" && uploadPath[|uploadPath| - 1] == '/' ==> r == uploadPath + token
    ensures IsAbsolute(r) <==> IsAbsolute(uploadPath)
  {
    assert NoSlash(token) by {
      forall i | 0 <= i < |token|
        ensures token[i] != '/'
      {
        assert IsLowerHex(token[i]);
      }
    }
    BasenameOfJoin(uploadPath, token);
    assert token[0] != '/' by { assert IsLowerHex(token[0]); }
    Join(uploadPath, token)
  }

  /** `get_key`: the client's file name joined onto the upload folder. */
  function Key(folder: string, name: string): (r: string)
    ensures IsSuffix(name, r)
    ensures !IsAbsolute(name) ==> IsPrefix(folder, r)
    ensures IsAbsolute(name) ==> r == name
    ensures !IsAbsolute(name) && (folder == "" || folder[|folder| - 1] == '/') ==> r == folder + name
    ensures !IsAbsolute(name) && folder != "" && folder[|folder| - 1] != '/' ==> r == folder + "/" + name
  {
    Join(folder, name)
  }

  /** `get_conditions`. */
  function Conditions(bucketName: string, mimeType: string, folder: string): (r: seq<Condition>)
    ensures |r| == 5
    ensures r[0] == Exact("bucket", bucketName)
    ensures r[1] == Exact("acl", "public-read")
    ensures r[2] == Exact("Content-Type", mimeType)
    ensures r[3] == StartsWith("$key", folder)
    ensures r[4] == Exact("success_action_status", "201")
  {
    [ Exact("bucket", bucketName),
      Exact("acl", "public-read"),
      Exact("Content-Type", mimeType),
      StartsWith("$key", folder),
      Exact("success_action_status", "201") ]
  }

  /**
   * Whether a POST form addressed to `bucket` meets one condition, as S3
   * evaluates policies: `bucket` is matched against the addressed bucket, any
   * other exact match against the form field of that name, and `starts-with`
   * against the field named by the variable after its `$`.
   */
  predicate Meets(c: Condition, bucket: string, form: map<string, string>) {
    match c
    case Exact(field, value) =>
      if field == "bucket" then bucket == value else field in form && form[field] == value
    case StartsWith(variable, prefix) =>
      |variable| >= 1 && variable[0] == '$' && variable[1..] in form && IsPrefix(prefix, form[variable[1..]])
  }

  predicate Permits(conditions: seq<Condition>, bucket: string, form: map<string, string>) {
    forall i :: 0 <= i < |conditions| ==> Meets(conditions[i], bucket, form)
  }

  /** `policy_json.replace('\n', '').replace('\r', '')`. */
  function StripNewlines(b: Bytes): (r: Bytes)
    ensures |r| <= |b|
    ensures forall i :: 0 <= i < |r| ==> r[i] != 10 && r[i] != 13
    ensures (forall i :: 0 <= i < |b| ==> b[i] != 10 && b[i] != 13) ==> r == b
  {
    if |b| == 0 then []
    else if b[0] == 10 || b[0] == 13 then StripNewlines(b[1..])
    else [b[0]] + StripNewlines(b[1..])
  }

  /** Removing newlines distributes over concatenation, so it keeps every other byte in order. */
  lemma {:induction false} StripNewlinesAppend(a: Bytes, b: Bytes)
    ensures StripNewlines(a + b) == StripNewlines(a) + StripNewlines(b)
  {
    if |a| == 0 {
      assert a + b == b;
    } else {
      var ab := a + b;
      assert ab[0] == a[0];
      assert ab[1..] == a[1..] + b;
      StripNewlinesAppend(a[1..], b);
      if a[0] == 10 || a[0] == 13 {
        assert StripNewlines(ab) == StripNewlines(a[1..] + b);
      } else {
        assert StripNewlines(ab) == [a[0]] + StripNewlines(a[1..] + b);
        assert StripNewlines(a) == [a[0]] + StripNewlines(a[1..]);
      }
    }
  }

  /** A line break is removed, not replaced: with `StripNewlinesAppend` this fixes every output. */
  lemma StripNewlinesDropsBreaks()
    ensures StripNewlines([10]) == [] && StripNewlines([13]) == []
  {
  }

  /** `get_policy`: the base64 of the policy JSON with line breaks removed. */
  function Policy(doc: PolicyDocument, dumps: PolicyDocument -> Bytes): (r: string)
    ensures |r| == 4 * ((|StripNewlines(dumps(doc))| + 2) / 3)
    ensures Base64.Decode(r) == Some(StripNewlines(dumps(doc)))
    ensures IsAscii(r)
  {
    Base64.DecodeEncode(StripNewlines(dumps(doc)));
    Base64.EncodeIsAscii(StripNewlines(dumps(doc)));
    Base64.Encode(StripNewlines(dumps(doc)))
  }

  /** `b64encode(hmac.new(secret, policy, sha1).digest())`. */
  function Signature(secret: Bytes, policy: string, hmacSha1: (Bytes, Bytes) -> Digest20): (r: string)
    requires IsAscii(policy)
    ensures |r| == 28
    ensures Base64.Decode(r) == Some(hmacSha1(secret, AsciiBytes(policy)))
  {
    var digest := hmacSha1(secret, AsciiBytes(policy));
    Base64.DecodeEncode(digest);
    var r := Base64.Encode(digest);
    assert |r| == 28 by {
      assert |digest| == 20;
      assert (20 + 2) / 3 == 7;
    }
    r
  }

  /** The policy document for one clock reading. */
  function Document(s: ViewSettings, mimeType: string, folder: string, expiresAt: Timestamps.UtcTime): PolicyDocument
  {
    PolicyDocument(ExpirationDate(expiresAt), Conditions(s.bucketName, mimeType, folder))
  }

  /** The eight keys of the dictionary `sign` returns. */
  const SignFieldNames: set<string> :=
    {"policy", "signature", "key", "AWSAccessKeyId", "form_action", "success_action_status", "acl", "Content-Type"}

  lemma SignFieldNamesDistinct()
    ensures "policy" != "signature" && "policy" != "key" && "policy" != "AWSAccessKeyId" && "policy" != "form_action"
    ensures "policy" != "success_action_status" && "policy" != "acl" && "policy" != "Content-Type"
    ensures "signature" != "key" && "signature" != "AWSAccessKeyId" && "signature" != "form_action"
    ensures "signature" != "success_action_status" && "signature" != "acl" && "signature" != "Content-Type"
    ensures "key" != "AWSAccessKeyId" && "key" != "form_action" && "key" != "success_action_status"
    ensures "key" != "acl" && "key" != "Content-Type"
    ensures "AWSAccessKeyId" != "form_action" && "AWSAccessKeyId" != "success_action_status"
    ensures "AWSAccessKeyId" != "acl" && "AWSAccessKeyId" != "Content-Type"
    ensures "form_action" != "success_action_status" && "form_action" != "acl" && "form_action" != "Content-Type"
    ensures "success_action_status" != "acl" && "success_action_status" != "Content-Type" && "acl" != "Content-Type"
    ensures |SignFieldNames| == 8
  {
    assert |"policy"| == 6 && |"signature"| == 9 && |"key"| == 3 && |"AWSAccessKeyId"| == 14;
    assert |"form_action"| == 11 && |"success_action_status"| == 21 && |"acl"| == 3 && |"Content-Type"| == 12;
    assert "key"[0] != "acl"[0];
  }

  /** The dictionary `sign` returns, from the policy and signature it computed. */
  function SignedFields(s: ViewSettings, folder: string, name: string, mimeType: string,
                        policy: string, signature: string, formAction: string): (r: map<string, string>)
    ensures r.Keys == SignFieldNames && |r| == 8
    ensures r["policy"] == policy && r["signature"] == signature
    ensures r["key"] == Key(folder, name) && r["AWSAccessKeyId"] == s.accessKey && r["form_action"] == formAction
    ensures r["success_action_status"] == "201" && r["acl"] == "public-read" && r["Content-Type"] == mimeType
  {
    SignFieldNamesDistinct();
    map[
      "policy" := policy,
      "signature" := signature,
      "key" := Key(folder, name),
      "AWSAccessKeyId" := s.accessKey,
      "form_action" := formAction,
      "success_action_status" := "201",
      "acl" := "public-read",
      "Content-Type" := mimeType]
  }

  /**
   * `sign` as written: it calls `get_policy()` twice, so the signature covers
   * the policy of the first clock reading `t1` while the returned `policy`
   * comes from the second reading `t2`.
   */
  function SignAsWritten(s: ViewSettings, folder: string, name: string, mimeType: string,
                         t1: Timestamps.UtcTime, t2: Timestamps.UtcTime,
                         dumps: PolicyDocument -> Bytes, hmacSha1: (Bytes, Bytes) -> Digest20,
                         formAction: string): (r: map<string, string>)
    ensures r.Keys == SignFieldNames && |r| == 8
    ensures r["key"] == Key(folder, name)
    ensures r["success_action_status"] == "201" && r["acl"] == "public-read" && r["Content-Type"] == mimeType
    ensures r["signature"] == Signature(s.secretAccessKey, Policy(Document(s, mimeType, folder, t1), dumps), hmacSha1)
    ensures r["policy"] == Policy(Document(s, mimeType, folder, t2), dumps)
    ensures r["AWSAccessKeyId"] == s.accessKey && r["form_action"] == formAction
  {
    var signed := Policy(Document(s, mimeType, folder, t1), dumps);
    var signature := Signature(s.secretAccessKey, signed, hmacSha1);
    SignedFields(s, folder, name, mimeType, Policy(Document(s, mimeType, folder, t2), dumps), signature, formAction)
  }

  /**
   * `sign` with one `get_policy()` call: the returned policy is the one the
   * returned signature covers.
   */
  function Sign(s: ViewSettings, folder: string, name: string, mimeType: string,
                expiresAt: Timestamps.UtcTime, dumps: PolicyDocument -> Bytes,
                hmacSha1: (Bytes, Bytes) -> Digest20, formAction: string): (r: map<string, string>)
    ensures r.Keys == SignFieldNames && |r| == 8
    ensures r["key"] == Key(folder, name)
    ensures r["success_action_status"] == "201" && r["acl"] == "public-read" && r["Content-Type"] == mimeType
    ensures |r["signature"]| == 28
    ensures Base64.Decode(r["policy"]) == Some(StripNewlines(dumps(Document(s, mimeType, folder, expiresAt))))
    ensures r["AWSAccessKeyId"] == s.accessKey && r["form_action"] == formAction
  {
    var policy := Policy(Document(s, mimeType, folder, expiresAt), dumps);
    SignedFields(s, folder, name, mimeType, policy, Signature(s.secretAccessKey, policy, hmacSha1), formAction)
  }

  /** The signature `Sign` returns is the HMAC of exactly the policy it returns. */
  lemma SignCoversReturnedPolicy(s: ViewSettings, folder: string, name: string, mimeType: string,
                                 expiresAt: Timestamps.UtcTime, dumps: PolicyDocument -> Bytes,
                                 hmacSha1: (Bytes, Bytes) -> Digest20, formAction: string)
    ensures var r := Sign(s, folder, name, mimeType, expiresAt, dumps, hmacSha1, formAction);
      && IsAscii(r["policy"])
      && Base64.Decode(r["signature"]) == Some(hmacSha1(s.secretAccessKey, AsciiBytes(r["policy"])))
  {
  }

  /** Distinct readings give distinct expiration strings. */
  lemma ExpirationDateInjective(t1: Timestamps.UtcTime, t2: Timestamps.UtcTime)
    requires t1 != t2
    ensures ExpirationDate(t1) != ExpirationDate(t2)
  {
  }

  /**
   * For a JSON encoder that, like `json.dumps`, is injective and emits no raw
   * line breaks, two different clock readings make `SignAsWritten` return a
   * policy other than the one its signature covers.
   */
  lemma SignAsWrittenSignsAnotherPolicy(s: ViewSettings, folder: string, name: string, mimeType: string,
                                        t1: Timestamps.UtcTime, t2: Timestamps.UtcTime,
                                        dumps: PolicyDocument -> Bytes, hmacSha1: (Bytes, Bytes) -> Digest20,
                                        formAction: string)
    requires t1 != t2
    requires forall d :: forall i :: 0 <= i < |dumps(d)| ==> dumps(d)[i] != 10 && dumps(d)[i] != 13
    requires forall a, b :: dumps(a) == dumps(b) ==> a == b
    ensures var r := SignAsWritten(s, folder, name, mimeType, t1, t2, dumps, hmacSha1, formAction);
      r["policy"] != Policy(Document(s, mimeType, folder, t1), dumps)
  {
    var d1, d2 := Document(s, mimeType, folder, t1), Document(s, mimeType, folder, t2);
    assert Policy(d1, dumps) != Policy(d2, dumps) by {
      ExpirationDateInjective(t1, t2);
      assert d1 != d2;
      assert dumps(d1) != dumps(d2);
      if Policy(d1, dumps) == Policy(d2, dumps) {
        Base64.EncodeInjective(StripNewlines(dumps(d1)), StripNewlines(dumps(d2)));
        assert false;
      }
    }
  }

  /** Two readings a second apart, as when the clock ticks between the two calls. */
  lemma SignAsWrittenStraddlingASecond(s: ViewSettings, folder: string, name: string, mimeType: string,
                                       dumps: PolicyDocument -> Bytes, hmacSha1: (Bytes, Bytes) -> Digest20,
                                       formAction: string)
    requires forall d :: forall i :: 0 <= i < |dumps(d)| ==> dumps(d)[i] != 10 && dumps(d)[i] != 13
    requires forall a, b :: dumps(a) == dumps(b) ==> a == b
    ensures var t1 := Timestamps.DateTime(1988, 11, 19, 10, 10, 0);
      var t2 := Timestamps.DateTime(1988, 11, 19, 10, 10, 1);
      var r := SignAsWritten(s, folder, name, mimeType, t1, t2, dumps, hmacSha1, formAction);
      r["policy"] != Policy(Document(s, mimeType, folder, t1), dumps)
  {
    var t1 := Timestamps.DateTime(1988, 11, 19, 10, 10, 0);
    var t2 := Timestamps.DateTime(1988, 11, 19, 10, 10, 1);
    SignAsWrittenSignsAnotherPolicy(s, folder, name, mimeType, t1, t2, dumps, hmacSha1, formAction);
  }

  /**
   * Under S3's rules a form meets the five conditions exactly when it is sent to
   * the configured bucket, carries `acl` "public-read", the signed
   * `Content-Type` and `success_action_status` "201", and a key under the folder.
   */
  lemma ConditionsMeaning(bucketName: string, mimeType: string, folder: string, bucket: string, form: map<string, string>)
    ensures Permits(Conditions(bucketName, mimeType, folder), bucket, form) <==>
      && bucket == bucketName
      && "acl" in form && form["acl"] == "public-read"
      && "Content-Type" in form && form["Content-Type"] == mimeType
      && "key" in form && IsPrefix(folder, form["key"])
      && "success_action_status" in form && form["success_action_status"] == "201"
  {
    var c := Conditions(bucketName, mimeType, folder);
    assert "$key"[1..] == "key";
    assert |"acl"| == 3 && |"Content-Type"| == 12 && |"success_action_status"| == 21 && |"bucket"| == 6;
    assert Meets(c[0], bucket, form) <==> bucket == bucketName;
    assert Meets(c[1], bucket, form) <==> "acl" in form && form["acl"] == "public-read";
    assert Meets(c[2], bucket, form) <==> "Content-Type" in form && form["Content-Type"] == mimeType;
    assert Meets(c[3], bucket, form) <==> "key" in form && IsPrefix(folder, form["key"]);
    assert Meets(c[4], bucket, form) <==> "success_action_status" in form && form["success_action_status"] == "201";
    assert Permits(c, bucket, form) <==>
      Meets(c[0], bucket, form) && Meets(c[1], bucket, form) && Meets(c[2], bucket, form)
      && Meets(c[3], bucket, form) && Meets(c[4], bucket, form);
  }

  /**
   * A form echoing `acl`, `Content-Type` and `success_action_status` and sent
   * to the configured bucket meets the conditions exactly when its key starts
   * with the folder.
   */
  lemma ConditionsMetByEcho(bucket: string, mimeType: string, folder: string, form: map<string, string>)
    requires "acl" in form && form["acl"] == "public-read"
    requires "Content-Type" in form && form["Content-Type"] == mimeType
    requires "success_action_status" in form && form["success_action_status"] == "201"
    requires "key" in form
    ensures Permits(Conditions(bucket, mimeType, folder), bucket, form) <==> IsPrefix(folder, form["key"])
  {
    var c := Conditions(bucket, mimeType, folder);
    assert "$key"[1..] == "key";
    assert |"acl"| == 3 && |"Content-Type"| == 12 && |"success_action_status"| == 21 && |"bucket"| == 6;
    assert Meets(c[0], bucket, form);
    assert Meets(c[3], bucket, form) <==> IsPrefix(folder, form["key"]);
  }

  /**
   * S3 accepts the returned fields exactly when the key lies under the upload
   * folder: the echoed `acl`, `Content-Type` and `success_action_status` always
   * meet their conditions and the bucket is the configured one.
   */
  lemma SignedFieldsPermitted(s: ViewSettings, folder: string, name: string, mimeType: string,
                              expiresAt: Timestamps.UtcTime, dumps: PolicyDocument -> Bytes,
                              hmacSha1: (Bytes, Bytes) -> Digest20, formAction: string)
    ensures var r := Sign(s, folder, name, mimeType, expiresAt, dumps, hmacSha1, formAction);
      Permits(Conditions(s.bucketName, mimeType, folder), s.bucketName, r) <==> IsPrefix(folder, Key(folder, name))
  {
    var r := Sign(s, folder, name, mimeType, expiresAt, dumps, hmacSha1, formAction);
    ConditionsMetByEcho(s.bucketName, mimeType, folder, r);
  }

  /** A key built from a relative upload path lies under its folder exactly when the name is relative. */
  lemma KeyUnderFolder(uploadPath: string, token: HexToken, name: string)
    requires !IsAbsolute(uploadPath)
    ensures IsPrefix(UploadFolder(uploadPath, token), Key(UploadFolder(uploadPath, token), name)) <==> !IsAbsolute(name)
  {
    var folder := UploadFolder(uploadPath, token);
    if IsAbsolute(name) {
      assert |folder| > 0 by { assert Basename(folder) == token; }
      assert folder[0] != '/';
    }
  }

  /** An absolute client file name replaces the folder altogether. */
  lemma AbsoluteNameLeavesFolder()
    ensures Key("tmp/s3file/0123", "/etc/passwd") == "/etc/passwd"
  {
    assert IsAbsolute("/etc/passwd");
  }

  /**
   * `S3FileView.post`: 400 unless both `name` and `type` are posted, else the
   * fields of `sign` as written, whose two `get_policy()` calls read the clock
   * at `t1` and `t2`.
   */
  function Post(post: map<string, string>, s: ViewSettings, token: HexToken,
                t1: Timestamps.UtcTime, t2: Timestamps.UtcTime,
                dumps: PolicyDocument -> Bytes, hmacSha1: (Bytes, Bytes) -> Digest20, formAction: string): (r: Response)
    ensures r.BadRequest? <==> "name" !in post || "type" !in post
    ensures r.Signed? ==> r.fields.Keys == SignFieldNames
    ensures r.Signed? ==> r.fields["key"] == Key(UploadFolder(s.uploadPath, token), post["name"])
    ensures r.Signed? ==> r.fields["Content-Type"] == post["type"]
    ensures r.Signed? ==>
      r.fields["signature"] == Signature(s.secretAccessKey, Policy(Document(s, post["type"], UploadFolder(s.uploadPath, token), t1), dumps), hmacSha1)
    ensures r.Signed? ==> r.fields["policy"] == Policy(Document(s, post["type"], UploadFolder(s.uploadPath, token), t2), dumps)
    ensures r.Signed? ==> r.fields["acl"] == "public-read" && r.fields["success_action_status"] == "201"
    ensures r.Signed? ==> r.fields["AWSAccessKeyId"] == s.accessKey && r.fields["form_action"] == formAction
  {
    if "name" !in post || "type" !in post then BadRequest
    else Signed(SignAsWritten(s, UploadFolder(s.uploadPath, token), post["name"], post["type"], t1, t2, dumps, hmacSha1, formAction))
  }

  /**
   * When the clock ticks between the two `get_policy()` calls, the endpoint
   * returns a policy other than the one its signature covers.
   */
  lemma PostSignsAnotherPolicy(post: map<string, string>, s: ViewSettings, token: HexToken,
                               t1: Timestamps.UtcTime, t2: Timestamps.UtcTime,
                               dumps: PolicyDocument -> Bytes, hmacSha1: (Bytes, Bytes) -> Digest20, formAction: string)
    requires "name" in post && "type" in post && t1 != t2
    requires forall d :: forall i :: 0 <= i < |dumps(d)| ==> dumps(d)[i] != 10 && dumps(d)[i] != 13
    requires forall a, b :: dumps(a) == dumps(b) ==> a == b
    ensures var r := Post(post, s, token, t1, t2, dumps, hmacSha1, formAction);
      r.Signed? && r.fields["policy"] != Policy(Document(s, post["type"], UploadFolder(s.uploadPath, token), t1), dumps)
  {
    var folder := UploadFolder(s.uploadPath, token);
    var w := SignAsWritten(s, folder, post["name"], post["type"], t1, t2, dumps, hmacSha1, formAction);
    SignAsWrittenSignsAnotherPolicy(s, folder, post["name"], post["type"], t1, t2, dumps, hmacSha1, formAction);
    assert Post(post, s, token, t1, t2, dumps, hmacSha1, formAction) == Signed(w);
  }

  /** The endpoint over the corrected `Sign`: one clock reading, so the signature covers the returned policy. */
  function PostSingleReading(post: map<string, string>, s: ViewSettings, token: HexToken, expiresAt: Timestamps.UtcTime,
                             dumps: PolicyDocument -> Bytes, hmacSha1: (Bytes, Bytes) -> Digest20, formAction: string): (r: Response)
    ensures r.BadRequest? <==> "name" !in post || "type" !in post
    ensures r.Signed? ==> r.fields.Keys == SignFieldNames
    ensures r.Signed? ==> r.fields["key"] == Key(UploadFolder(s.uploadPath, token), post["name"])
    ensures r.Signed? ==> r.fields["Content-Type"] == post["type"]
    ensures r.Signed? ==>
      IsAscii(r.fields["policy"]) && Base64.Decode(r.fields["signature"]) == Some(hmacSha1(s.secretAccessKey, AsciiBytes(r.fields["policy"])))
    ensures r.Signed? ==> r.fields["acl"] == "public-read" && r.fields["success_action_status"] == "201"
    ensures r.Signed? ==> r.fields["AWSAccessKeyId"] == s.accessKey && r.fields["form_action"] == formAction
  {
    if "name" !in post || "type" !in post then BadRequest
    else
      SignCoversReturnedPolicy(s, UploadFolder(s.uploadPath, token), post["name"], post["type"], expiresAt, dumps, hmacSha1, formAction);
      Signed(Sign(s, UploadFolder(s.uploadPath, token), post["name"], post["type"], expiresAt, dumps, hmacSha1, formAction))
  }

  /**
   * The folder of a signed response is shared: its key starts with the prefix
   * the `starts-with` condition names whenever the file name is relative, so
   * the echoed fields meet every condition of the policy the response carries.
   */
  lemma PostKeyMatchesCondition(post: map<string, string>, s: ViewSettings, token: HexToken,
                                t1: Timestamps.UtcTime, t2: Timestamps.UtcTime,
                                dumps: PolicyDocument -> Bytes, hmacSha1: (Bytes, Bytes) -> Digest20, formAction: string)
    requires "name" in post && "type" in post && !IsAbsolute(post["name"])
    ensures var r := Post(post, s, token, t1, t2, dumps, hmacSha1, formAction);
      var folder := UploadFolder(s.uploadPath, token);
      && r.Signed?
      && Permits(Conditions(s.bucketName, post["type"], folder), s.bucketName, r.fields)
  {
    var folder := UploadFolder(s.uploadPath, token);
    var r := Post(post, s, token, t1, t2, dumps, hmacSha1, formAction);
    SignFieldNamesDistinct();
    ConditionsMetByEcho(s.bucketName, post["type"], folder, r.fields);
  }
}
