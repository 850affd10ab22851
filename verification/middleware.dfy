/**
 * `S3FileMiddleware`: it turns the storage keys a form submitted in place of
 * files back into request files, then hands the request on.
 *
 * `loads` is `json.loads` on documents that are lists of strings (`None` where
 * it raises); POST is the last value posted under each name, which is what
 * `QueryDict.get` returns.
 */
module Middleware {
  import opened Basics
  import opened Strings
  import opened PosixPath
  import opened Storages

  /** The exceptions that escape `__call__`. */
  datatype Failure = MalformedJson(document: string) | SuspiciousPath(path: string)

  /** Who answers the request. */
  datatype Dispatch = MockView | Downstream

  type Files = map<string, seq<File>>

  /** `request.POST.get(key, default)`. */
  function PostGet(post: map<string, string>, key: string, default: string): string
  {
    if key in post then post[key] else default
  }

  /** The marker `dirname(location) + '/'` whose first occurrence a key loses. */
  function Marker(location: string): string
  {
    Dirname(location) + "/"
  }

  /** The key rewrite of `get_files_from_storage`. */
  function Rewrite(location: string, path: string): (r: string)
    ensures location == "" ==> r == path
    ensures location != "" && Find(path, Marker(location)).None? ==> r == path
    ensures location != "" && Find(path, Marker(location)).Some? ==>
      var i := Find(path, Marker(location)).value;
      r == path[..i] + path[i + |Marker(location)|..]
  {
    if location != "" then ReplaceFirst(path, Marker(location), "") else path
  }

  /** A location ending in one slash is stripped from the front of a key that starts with it. */
  lemma RewriteStripsSlashTerminatedLocation(dir: string, rest: string)
    requires dir != "" && dir[|dir| - 1] != '/'
    ensures Rewrite(dir + "/", dir + "/" + rest) == rest
  {
    DirnameOfSlashTerminated(dir);
    assert IsPrefix(dir + "/", dir + "/" + rest);
    ReplaceFirstOfPrefix(dir + "/" + rest, dir + "/");
    assert (dir + "/" + rest)[|dir + "/"|..] == rest;
  }

  /** The replacement is not anchored: the marker is removed where it first occurs. */
  lemma RewriteInTheMiddle()
    ensures Rewrite("media/", "a/media/b") == "a/b"
  {
    DirnameOfSlashTerminated("media");
    assert "media" + "/" == "media/";
    assert Marker("media/") == "media/";
    ReplaceFirstInTheMiddle();
  }

  /** A location without a slash has an empty dirname, so the marker is a lone "/". */
  lemma RewriteOfBareLocation()
    ensures Rewrite("media", "media/a.txt") == "mediaa.txt"
  {
    assert Dirname("media") == "" by {
      assert Basename("media") == "media";
    }
    assert Marker("media") == "/";
    FirstSlashOfKey();
  }

  lemma FirstSlashOfKey()
    ensures ReplaceFirst("media/a.txt", "/", "") == "mediaa.txt"
  {
    var s := "media/a.txt";
    assert OccursAt(s, "/", 5);
    forall j | 0 <= j < 5
      ensures !OccursAt(s, "/", j)
    {
      assert s[j..j + 1] == [s[j]];
    }
    assert s[..5] + s[6..] == "mediaa.txt";
  }

  /** `storage.open` of one storage, as a function of the name. */
  function OpenIn(cwd: string, s: Storage, store: map<string, Bytes>): string -> Opened
    requires IsAbsolute(cwd)
  {
    name => Open(cwd, s, store, name)
  }

  /** What one key contributes: its file, nothing when it is missing, or the exception. */
  function FetchOne(location: string, open: string -> Opened, path: string): (r: Result<seq<File>, Failure>)
    ensures r.Ok? ==> |r.value| <= 1
    ensures r.Ok? ==> forall i :: 0 <= i < |r.value| ==> NoSlash(r.value[i].name)
    ensures r.Err? <==> open(Rewrite(location, path)).Suspicious?
    ensures open(Rewrite(location, path)).Missing? ==> r == Ok([])
    ensures open(Rewrite(location, path)).Found? ==>
      r == Ok([File(Basename(Rewrite(location, path)), open(Rewrite(location, path)).file.content)])
  {
    var p := Rewrite(location, path);
    match open(p)
    case Found(f) => Ok([File(Basename(p), f.content)])
    case Missing => Ok([])
    case Suspicious => Err(SuspiciousPath(p))
  }

  /** The first exception wins; otherwise the files of both parts, in order. */
  function Then(a: Result<seq<File>, Failure>, b: Result<seq<File>, Failure>): (r: Result<seq<File>, Failure>)
    ensures r.Err? <==> a.Err? || b.Err?
    ensures a.Err? ==> r == a
    ensures r.Ok? ==> r.value == a.value + b.value
  {
    match a
    case Err(e) => Err(e)
    case Ok(fs) =>
      match b
      case Err(e) => Err(e)
      case Ok(gs) => Ok(fs + gs)
  }

  /**
   * `list(get_files_from_storage(paths))` for a storage whose `location` is
   * `location` and whose `open` is `open`. The generator stops at the first
   * exception, which `list` lets through.
   */
  function GetFilesFromStorage(location: string, open: string -> Opened, paths: seq<string>): (r: Result<seq<File>, Failure>)
    ensures r.Ok? ==> |r.value| <= |paths|
    ensures r.Ok? ==> forall i :: 0 <= i < |r.value| ==> NoSlash(r.value[i].name)
    ensures r.Err? <==> exists i :: 0 <= i < |paths| && open(Rewrite(location, paths[i])).Suspicious?
  {
    if |paths| == 0 then Ok([])
    else
      var first, rest := FetchOne(location, open, paths[0]), GetFilesFromStorage(location, open, paths[1..]);
      assert forall i :: 1 <= i < |paths| ==> paths[i] == paths[1..][i - 1];
      var r := Then(first, rest);
      assert r.Ok? ==> forall i :: 0 <= i < |r.value| ==> NoSlash(r.value[i].name) by {
        if r.Ok? {
          forall i | 0 <= i < |r.value|
            ensures NoSlash(r.value[i].name)
          {
            if i >= |first.value| {
              assert r.value[i] == rest.value[i - |first.value|];
            }
          }
        }
      }
      r
  }

  /** A single key yields exactly its own contribution. */
  lemma GetFilesSingle(location: string, open: string -> Opened, path: string)
    ensures GetFilesFromStorage(location, open, [path]) == FetchOne(location, open, path)
  {
    assert [path][1..] == [];
    var x := FetchOne(location, open, path);
    if x.Ok? {
      assert x.value + [] == x.value;
    }
  }

  lemma ThenAssociative(x: Result<seq<File>, Failure>, y: Result<seq<File>, Failure>, z: Result<seq<File>, Failure>)
    ensures Then(x, Then(y, z)) == Then(Then(x, y), z)
  {
    if x.Ok? && y.Ok? && z.Ok? {
      assert x.value + (y.value + z.value) == (x.value + y.value) + z.value;
    }
  }

  /** Keys are handled one at a time, in order: the result of a list is that of its parts. */
  lemma {:induction false} GetFilesAppend(location: string, open: string -> Opened, a: seq<string>, b: seq<string>)
    ensures GetFilesFromStorage(location, open, a + b) ==
      Then(GetFilesFromStorage(location, open, a), GetFilesFromStorage(location, open, b))
  {
    if |a| == 0 {
      assert a + b == b;
      var y := GetFilesFromStorage(location, open, b);
      if y.Ok? {
        assert [] + y.value == y.value;
      }
    } else {
      assert (a + b)[0] == a[0];
      assert (a + b)[1..] == a[1..] + b;
      GetFilesAppend(location, open, a[1..], b);
      ThenAssociative(FetchOne(location, open, a[0]), GetFilesFromStorage(location, open, a[1..]),
                      GetFilesFromStorage(location, open, b));
    }
  }

  /** When every key opens, there is one file per key, in order, named by the key's basename. */
  lemma {:induction false} GetFilesAllFound(location: string, open: string -> Opened, paths: seq<string>)
    requires forall i :: 0 <= i < |paths| ==> open(Rewrite(location, paths[i])).Found?
    ensures GetFilesFromStorage(location, open, paths).Ok?
    ensures |GetFilesFromStorage(location, open, paths).value| == |paths|
    ensures forall i :: 0 <= i < |paths| ==>
      GetFilesFromStorage(location, open, paths).value[i] ==
        File(Basename(Rewrite(location, paths[i])), open(Rewrite(location, paths[i])).file.content)
  {
    if |paths| > 0 {
      assert forall i :: 1 <= i < |paths| ==> paths[i] == paths[1..][i - 1];
      GetFilesAllFound(location, open, paths[1..]);
    }
  }

  /**
   * A key whose `open` raises `OSError` is skipped: between two keys that open,
   * it leaves exactly their two files, in order.
   */
  lemma GetFilesSkipsMissing(location: string, open: string -> Opened, a: string, m: string, b: string)
    requires open(Rewrite(location, a)).Found? && open(Rewrite(location, m)).Missing?
    requires open(Rewrite(location, b)).Found?
    ensures GetFilesFromStorage(location, open, [a, m, b]) ==
      Ok([File(Basename(Rewrite(location, a)), open(Rewrite(location, a)).file.content),
          File(Basename(Rewrite(location, b)), open(Rewrite(location, b)).file.content)])
  {
    var fa := File(Basename(Rewrite(location, a)), open(Rewrite(location, a)).file.content);
    var fb := File(Basename(Rewrite(location, b)), open(Rewrite(location, b)).file.content);
    GetFilesThree(location, open, a, m, b);
    assert [fa] + ([] + ([fb] + [])) == [fa, fb];
  }

  /** Three keys: the outcome of each, in order. */
  lemma GetFilesThree(location: string, open: string -> Opened, a: string, m: string, b: string)
    ensures GetFilesFromStorage(location, open, [a, m, b]) ==
      Then(FetchOne(location, open, a), Then(FetchOne(location, open, m), Then(FetchOne(location, open, b), Ok([]))))
  {
    assert GetFilesFromStorage(location, open, [b]) == Then(FetchOne(location, open, b), Ok([])) by {
      GetFilesCons(location, open, b, []);
      assert [b] + [] == [b];
    }
    assert [m] + [b] == [m, b];
    GetFilesCons(location, open, m, [b]);
    assert [a] + [m, b] == [a, m, b];
    GetFilesCons(location, open, a, [m, b]);
  }

  /** A path whose `open` raises `OSError` in front contributes nothing. */
  lemma GetFilesMissingFirst(location: string, open: string -> Opened, path: string, paths: seq<string>)
    requires open(Rewrite(location, path)).Missing?
    ensures GetFilesFromStorage(location, open, [path] + paths) == GetFilesFromStorage(location, open, paths)
  {
    GetFilesCons(location, open, path, paths);
    var y := GetFilesFromStorage(location, open, paths);
    if y.Ok? {
      assert [] + y.value == y.value;
    }
  }

  /** One path in front: its outcome, then the outcome of the rest. */
  lemma GetFilesCons(location: string, open: string -> Opened, path: string, paths: seq<string>)
    ensures GetFilesFromStorage(location, open, [path] + paths) ==
      Then(FetchOne(location, open, path), GetFilesFromStorage(location, open, paths))
  {
    var ps := [path] + paths;
    assert ps[0] == path && ps[1..] == paths;
  }

  /** Bytes saved under the rewritten key are what the handed-back file reads. */
  lemma GetFilesAfterSave(cwd: string, s: Storage, store: map<string, Bytes>, key: string, content: Bytes)
    requires IsAbsolute(cwd)
    requires Resolve(cwd, s, Rewrite(Location(s), key)).Some?
    ensures Save(cwd, s, store, Rewrite(Location(s), key), content).Some?
    ensures GetFilesFromStorage(Location(s), OpenIn(cwd, s, Save(cwd, s, store, Rewrite(Location(s), key), content).value), [key]) ==
      Ok([File(Basename(Rewrite(Location(s), key)), content)])
  {
    var st := Save(cwd, s, store, Rewrite(Location(s), key), content).value;
    OpenAfterSave(cwd, s, store, Rewrite(Location(s), key), content);
    GetFilesSingle(Location(s), OpenIn(cwd, s, st), key);
  }

  /** The new list for one manifest field. */
  function FieldFiles(post: map<string, string>, field: string, loads: string -> Option<seq<string>>,
                      location: string, open: string -> Opened): Result<seq<File>, Failure>
  {
    var document := PostGet(post, field, "[]");
    match loads(document)
    case None => Err(MalformedJson(document))
    case Some(paths) => GetFilesFromStorage(location, open, paths)
  }

  /** The loop over the manifest: `FILES.setlist(field, ...)` for each listed field in turn. */
  function SetLists(post: map<string, string>, files: Files, fields: seq<string>, loads: string -> Option<seq<string>>,
                    location: string, open: string -> Opened): (r: Result<Files, Failure>)
    ensures r.Ok? <==> forall i :: 0 <= i < |fields| ==> FieldFiles(post, fields[i], loads, location, open).Ok?
    ensures r.Ok? ==> r.value.Keys == files.Keys + set i | 0 <= i < |fields| :: fields[i]
    ensures r.Ok? ==> forall i :: 0 <= i < |fields| ==> r.value[fields[i]] == FieldFiles(post, fields[i], loads, location, open).value
    ensures r.Ok? ==> forall k :: k in files && k !in fields ==> r.value[k] == files[k]
    decreases |fields|
  {
    if |fields| == 0 then Ok(files)
    else
      match FieldFiles(post, fields[0], loads, location, open)
      case Err(e) => Err(e)
      case Ok(fs) =>
        var rest := SetLists(post, files[fields[0] := fs], fields[1..], loads, location, open);
        SetListsStep(post, files, fields, loads, location, open, fs, rest);
        rest
  }

  /** The four promises of `SetLists`, about a candidate result `r`. */
  ghost predicate SetListsMeets(post: map<string, string>, files: Files, fields: seq<string>, loads: string -> Option<seq<string>>,
                                location: string, open: string -> Opened, r: Result<Files, Failure>)
  {
    && (r.Ok? <==> forall i :: 0 <= i < |fields| ==> FieldFiles(post, fields[i], loads, location, open).Ok?)
    && (r.Ok? ==> r.value.Keys == files.Keys + set i | 0 <= i < |fields| :: fields[i])
    && (r.Ok? ==> forall i :: 0 <= i < |fields| ==> r.value[fields[i]] == FieldFiles(post, fields[i], loads, location, open).value)
    && (r.Ok? ==> forall k :: k in files && k !in fields ==> r.value[k] == files[k])
  }

  /** One turn of the loop: what the rest of the fields promise, after the first is set, carries over to all of them. */
  lemma SetListsStep(post: map<string, string>, files: Files, fields: seq<string>, loads: string -> Option<seq<string>>,
                     location: string, open: string -> Opened, fs: seq<File>, rest: Result<Files, Failure>)
    requires |fields| > 0 && FieldFiles(post, fields[0], loads, location, open) == Ok(fs)
    requires SetListsMeets(post, files[fields[0] := fs], fields[1..], loads, location, open, rest)
    ensures SetListsMeets(post, files, fields, loads, location, open, rest)
  {
    assert forall i :: 1 <= i < |fields| ==> fields[i] == fields[1..][i - 1];
    assert (set i | 0 <= i < |fields| :: fields[i]) == {fields[0]} + set i | 0 <= i < |fields[1..]| :: fields[1..][i];
  }

  /** The files of every field named in the `s3file` manifest, rebuilt from storage. */
  function Rehydrate(post: map<string, string>, files: Files, loads: string -> Option<seq<string>>,
                     location: string, open: string -> Opened): (r: Result<Files, Failure>)
    requires loads("[]") == Some([])
    ensures "s3file" !in post ==> r == Ok(files)
    ensures loads(PostGet(post, "s3file", "[]")).None? ==> r.Err?
    ensures r.Ok? ==> var manifest := loads(PostGet(post, "s3file", "[]")).value;
      && (forall k :: k in files && k !in manifest ==> k in r.value && r.value[k] == files[k])
      && (forall k :: k in r.value ==> k in files || k in manifest)
      && (forall f :: f in manifest && f !in post ==> f in r.value && r.value[f] == [])
  {
    var document := PostGet(post, "s3file", "[]");
    match loads(document)
    case None => Err(MalformedJson(document))
    case Some(fields) =>
      SetListsUnposted(post, files, fields, loads, location, open);
      SetLists(post, files, fields, loads, location, open)
  }

  /** A listed field with nothing posted reads as "[]" and so ends up with no files. */
  lemma SetListsUnposted(post: map<string, string>, files: Files, fields: seq<string>, loads: string -> Option<seq<string>>,
                         location: string, open: string -> Opened)
    requires loads("[]") == Some([])
    ensures var r := SetLists(post, files, fields, loads, location, open);
      r.Ok? ==> forall f :: f in fields && f !in post ==> f in r.value && r.value[f] == []
  {
    var r := SetLists(post, files, fields, loads, location, open);
    if r.Ok? {
      forall f | f in fields && f !in post
        ensures f in r.value && r.value[f] == []
      {
        var i :| 0 <= i < |fields| && fields[i] == f;
        assert FieldFiles(post, fields[i], loads, location, open) == Ok([]);
      }
    }
  }

  /** A manifest field gets the files of its own keys, and the call fails exactly when one field's keys fail. */
  lemma RehydrateListedField(post: map<string, string>, files: Files, loads: string -> Option<seq<string>>,
                             location: string, open: string -> Opened)
    requires loads("[]") == Some([])
    requires loads(PostGet(post, "s3file", "[]")).Some?
    ensures var manifest := loads(PostGet(post, "s3file", "[]")).value;
      var r := Rehydrate(post, files, loads, location, open);
      && (r.Ok? <==> forall i :: 0 <= i < |manifest| ==> FieldFiles(post, manifest[i], loads, location, open).Ok?)
      && (r.Ok? ==> forall i :: 0 <= i < |manifest| ==> r.value[manifest[i]] == FieldFiles(post, manifest[i], loads, location, open).value)
  {
  }

  /** The request path the mock upload endpoint answers. */
  const MockPath: string := "/__s3_mock__/"

  function Route(localDev: bool, requestPath: string): (r: Dispatch)
  {
    if localDev && requestPath == MockPath then MockView else Downstream
  }

  /** `S3FileMiddleware.__call__`: rebuild the files, then dispatch. */
  function Call(post: map<string, string>, files: Files, requestPath: string, loads: string -> Option<seq<string>>,
                cwd: string, d: DefaultStorage, mediaRoot: string, awsLocation: Option<string>, store: map<string, Bytes>)
    : (r: Result<(Files, Dispatch), Failure>)
    requires IsAbsolute(cwd)
    requires loads("[]") == Some([])
    ensures r.Ok? <==> Rehydrate(post, files, loads, Location(SelectStorage(d, mediaRoot, awsLocation)), OpenIn(cwd, SelectStorage(d, mediaRoot, awsLocation), store)).Ok?
    ensures r.Ok? ==> r.value.0 == Rehydrate(post, files, loads, Location(SelectStorage(d, mediaRoot, awsLocation)), OpenIn(cwd, SelectStorage(d, mediaRoot, awsLocation), store)).value
    ensures r.Ok? ==> (r.value.1 == MockView <==> LocalDev(d) && requestPath == "/__s3_mock__/")
  {
    match Rehydrate(post, files, loads, Location(SelectStorage(d, mediaRoot, awsLocation)), OpenIn(cwd, SelectStorage(d, mediaRoot, awsLocation), store))
    case Err(e) => Err(e)
    case Ok(fs) => Ok((fs, Route(LocalDev(d), requestPath)))
  }
}
