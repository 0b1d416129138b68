/** ObjectStorageService: stores markdown documents and images in an Oracle Cloud object
    storage bucket and hands out public URLs for them. The URL of an object is
    `https://objectstorage.<region>.oraclecloud.com/n/<namespace>/b/<bucket>/o/<name>` with
    the name form-encoded; the service reads the name back out of such a URL to update or
    delete the object. */
module ObjectStorage {
  import opened Errors
  import Utf8
  import FormUrlEncoding
  import JavaStrings

  /** CloudConfigurationProperties: read once at start-up and never changed by the service. */
  datatype CloudConfiguration = CloudConfiguration(region: string, namespace: string, bucketName: string)

  /** The path marker that precedes the object name in an object URL. */
  const ObjectMarker: string := "/o/"

  /** The part of every object URL in front of "/o/". */
  function UrlPrefix(cfg: CloudConfiguration): string {
    "https://objectstorage." + cfg.region + ".oraclecloud.com/n/" + cfg.namespace + "/b/" + cfg.bucketName
  }

  /** createObjectUrl: the public URL of the object `objectName` in the configured bucket. */
  function CreateObjectUrl(cfg: CloudConfiguration, objectName: string): string {
    UrlPrefix(cfg) + ObjectMarker + FormUrlEncoding.Encode(objectName)
  }

  /** stripObjectName: split the URL on "/o/" (Java's String.split, trailing empty parts
      dropped); exactly two parts are accepted and the second one is form-decoded. */
  function StripObjectName(objectUrl: string): (r: Result<string>)
    ensures !JavaStrings.Contains(objectUrl, ObjectMarker) ==> r == Err(InvalidUrlFormat)
    ensures r.Err? ==> r.error in {InvalidUrlFormat, IllegalEscape}
  {
    var section := JavaStrings.Split(objectUrl, ObjectMarker);
    if |section| == 2 then FormUrlEncoding.Decode(section[1]) else Err(InvalidUrlFormat)
  }

  /** The configuration puts no "/o/" in front of the one createObjectUrl writes, so
      that splitting an object URL on "/o/" finds that one first. */
  predicate Unambiguous(cfg: CloudConfiguration) {
    !JavaStrings.Contains(UrlPrefix(cfg) + "/o", ObjectMarker)
  }

  // ---------------------------------------------------------------------------
  // Object names

  predicate IsLowerHexDigit(c: char) {
    '0' <= c <= '9' || 'a' <= c <= 'f'
  }

  /** The text of UUID.toString(): 8-4-4-4-12 lower-case hexadecimal digits. */
  predicate IsUuidText(u: string) {
    && |u| == 36
    && (forall i :: 0 <= i < 36 && i in {8, 13, 18, 23} ==> u[i] == '-')
    && (forall i :: 0 <= i < 36 && i !in {8, 13, 18, 23} ==> IsLowerHexDigit(u[i]))
  }

  /** A value of UUID.randomUUID(), which the model takes as a parameter. */
  type UuidText = u: string | IsUuidText(u) witness "00000000-0000-0000-0000-000000000000"

  /** Java's string concatenation writes a null reference as "null". */
  function NullableText(s: Option<string>): string {
    match s
    case Some(t) => t
    case None => "null"
  }

  /** The name uploadMarkdownContent gives a document. */
  function MarkdownObjectName(uuid: UuidText): string {
    uuid + ".md"
  }

  /** The file as uploadImage reads it: its bytes, getOriginalFilename() (null when the
      client sent none), getContentType() and getSize(). */
  datatype MultipartFile = MultipartFile(bytes: seq<Utf8.Byte>, originalFilename: Option<string>, contentType: string, size: int)

  /** The name uploadImage gives an image. */
  function ImageObjectName(uuid: UuidText, file: MultipartFile): string {
    uuid + "_" + NullableText(file.originalFilename)
  }

  // ---------------------------------------------------------------------------
  // The remote store

  /** What the bucket holds under one name: the body, and the content type and length
      the put request declared. */
  datatype StoredObject = StoredObject(body: seq<Utf8.Byte>, contentType: string, contentLength: int)

  /** Where an object lives: the namespace, bucket and name a request names. */
  datatype ObjectKey = ObjectKey(namespaceName: string, bucketName: string, objectName: string)

  /** A request sent to the object storage service. */
  datatype Request = PutObject(key: ObjectKey, stored: StoredObject) | DeleteObject(key: ObjectKey)

  function KeyOf(cfg: CloudConfiguration, objectName: string): ObjectKey {
    ObjectKey(cfg.namespace, cfg.bucketName, objectName)
  }

  /** The object uploadFile stores for a markdown text: its UTF-8 bytes, declared as
      text/markdown with their byte length. */
  function MarkdownObject(content: string): StoredObject {
    var bytes := Utf8.Encode(content);
    StoredObject(bytes, "text/markdown", |bytes|)
  }

  /** The object uploadImage stores: the file's bytes with the content type and size the
      client declared, taken on trust. */
  function ImageObject(file: MultipartFile): StoredObject {
    StoredObject(file.bytes, file.contentType, file.size)
  }

  /** The object storage client of OracleClientConfiguration, seen from this service: the
      objects stored and every request sent so far. Whether a request succeeds is decided
      remotely; the model takes it as a parameter. */
  class ObjectStorageClient {
    var objects: map<ObjectKey, StoredObject>
    var sent: seq<Request>

    constructor (objects: map<ObjectKey, StoredObject>)
      ensures this.objects == objects && sent == []
    {
      this.objects := objects;
      sent := [];
    }

    method PutObject(key: ObjectKey, stored: StoredObject, succeeds: bool) returns (ok: bool)
      modifies this
      ensures ok == succeeds
      ensures sent == old(sent) + [Request.PutObject(key, stored)]
      ensures objects == if succeeds then old(objects)[key := stored] else old(objects)
    {
      sent := sent + [Request.PutObject(key, stored)];
      if succeeds {
        objects := objects[key := stored];
      }
      ok := succeeds;
    }

    method DeleteObject(key: ObjectKey, succeeds: bool) returns (ok: bool)
      modifies this
      ensures ok == succeeds
      ensures sent == old(sent) + [Request.DeleteObject(key)]
      ensures objects == if succeeds then old(objects) - {key} else old(objects)
    {
      sent := sent + [Request.DeleteObject(key)];
      if succeeds {
        objects := objects - {key};
      }
      ok := succeeds;
    }
  }

  class ObjectStorageService {
    const cloudConfiguration: CloudConfiguration
    const client: ObjectStorageClient

    constructor (cloudConfiguration: CloudConfiguration, client: ObjectStorageClient)
      ensures this.cloudConfiguration == cloudConfiguration && this.client == client
    {
      this.cloudConfiguration := cloudConfiguration;
      this.client := client;
    }

    /** uploadMarkdownContent: store the text under a fresh `<uuid>.md` and return its URL. */
    method UploadMarkdownContent(content: string, uuid: UuidText, putSucceeds: bool) returns (r: Result<string>)
      modifies client
      ensures var key := KeyOf(cloudConfiguration, MarkdownObjectName(uuid));
        && client.sent == old(client.sent) + [PutObject(key, MarkdownObject(content))]
        && client.objects == (if putSucceeds then old(client.objects)[key := MarkdownObject(content)] else old(client.objects))
      ensures r == if putSucceeds then Ok(CreateObjectUrl(cloudConfiguration, MarkdownObjectName(uuid))) else Err(UploadFailed)
    {
      var objectName := MarkdownObjectName(uuid);
      r := UploadFile(content, objectName, putSucceeds);
    }

    /** updateMarkdownContent: store the text under the name read back from the URL. */
    method UpdateMarkdownContent(objectUrl: string, content: string, putSucceeds: bool) returns (r: Result<()>)
      modifies client
      ensures StripObjectName(objectUrl).Err? ==>
        && r == Err(StripObjectName(objectUrl).error)
        && client.sent == old(client.sent) && client.objects == old(client.objects)
      ensures StripObjectName(objectUrl).Ok? ==>
        var key := KeyOf(cloudConfiguration, StripObjectName(objectUrl).value);
        && client.sent == old(client.sent) + [PutObject(key, MarkdownObject(content))]
        && client.objects == (if putSucceeds then old(client.objects)[key := MarkdownObject(content)] else old(client.objects))
        && r == if putSucceeds then Ok(()) else Err(UploadFailed)
    {
      var stripped := StripObjectName(objectUrl);
      if stripped.Err? {
        return Err(stripped.error);
      }
      var uploaded := UploadFile(content, stripped.value, putSucceeds);
      r := if uploaded.Ok? then Ok(()) else Err(uploaded.error);
    }

    /** uploadFile: put the UTF-8 bytes of the text under `objectName`, declared as
        text/markdown with their byte length, and return the object's URL. */
    method UploadFile(content: string, objectName: string, putSucceeds: bool) returns (r: Result<string>)
      modifies client
      ensures var key := KeyOf(cloudConfiguration, objectName);
        && client.sent == old(client.sent) + [PutObject(key, MarkdownObject(content))]
        && client.objects == (if putSucceeds then old(client.objects)[key := MarkdownObject(content)] else old(client.objects))
      ensures r == if putSucceeds then Ok(CreateObjectUrl(cloudConfiguration, objectName)) else Err(UploadFailed)
    {
      var bytes := Utf8.Encode(content);
      var stored := StoredObject(bytes, "text/markdown", |bytes|);
      var ok := client.PutObject(KeyOf(cloudConfiguration, objectName), stored, putSucceeds);
      if !ok {
        return Err(UploadFailed);
      }
      r := Ok(CreateObjectUrl(cloudConfiguration, objectName));
    }

    /** uploadImage: store the file under a fresh `<uuid>_<original filename>` and return its URL. */
    method UploadImage(file: MultipartFile, uuid: UuidText, putSucceeds: bool) returns (r: Result<string>)
      modifies client
      ensures var key := KeyOf(cloudConfiguration, ImageObjectName(uuid, file));
        && client.sent == old(client.sent) + [PutObject(key, ImageObject(file))]
        && client.objects == (if putSucceeds then old(client.objects)[key := ImageObject(file)] else old(client.objects))
      ensures r == if putSucceeds then Ok(CreateObjectUrl(cloudConfiguration, ImageObjectName(uuid, file))) else Err(UploadFailed)
    {
      var objectName := ImageObjectName(uuid, file);
      var stored := StoredObject(file.bytes, file.contentType, file.size);
      var ok := client.PutObject(KeyOf(cloudConfiguration, objectName), stored, putSucceeds);
      if !ok {
        return Err(UploadFailed);
      }
      r := Ok(CreateObjectUrl(cloudConfiguration, objectName));
    }

    /** deleteFileObject: read the name out of the URL first, then delete that object. */
    method DeleteFileObject(objectUrl: string, deleteSucceeds: bool) returns (r: Result<()>)
      modifies client
      ensures StripObjectName(objectUrl).Err? ==>
        && r == Err(StripObjectName(objectUrl).error)
        && client.sent == old(client.sent) && client.objects == old(client.objects)
      ensures StripObjectName(objectUrl).Ok? ==>
        var key := KeyOf(cloudConfiguration, StripObjectName(objectUrl).value);
        && client.sent == old(client.sent) + [DeleteObject(key)]
        && client.objects == (if deleteSucceeds then old(client.objects) - {key} else old(client.objects))
        && r == if deleteSucceeds then Ok(()) else Err(DeleteFailed)
    {
      var stripped := StripObjectName(objectUrl);
      if stripped.Err? {
        return Err(stripped.error);
      }
      var ok := client.DeleteObject(KeyOf(cloudConfiguration, stripped.value), deleteSucceeds);
      r := if ok then Ok(()) else Err(DeleteFailed);
    }
  }

  // ---------------------------------------------------------------------------
  // Properties of object URLs

  /** The object name fills the last part of its URL: the text after the "/o/" that
      follows the bucket holds no '/' and form-decodes to the name. */
  lemma ObjectUrlLastSegment(cfg: CloudConfiguration, objectName: string)
    ensures var url := CreateObjectUrl(cfg, objectName);
      && url[..|UrlPrefix(cfg)| + 3] == UrlPrefix(cfg) + ObjectMarker
      && '/' !in url[|UrlPrefix(cfg)| + 3..]
      && FormUrlEncoding.Decode(url[|UrlPrefix(cfg)| + 3..]) == Ok(objectName)
  {
    var e := FormUrlEncoding.Encode(objectName);
    var url := CreateObjectUrl(cfg, objectName);
    assert url[|UrlPrefix(cfg)| + 3..] == e;
    FormUrlEncoding.EncodeAlphabet(objectName);
    FormUrlEncoding.DecodeEncode(objectName);
  }

  /** No occurrence of "/o/" in the URL starts before the one createObjectUrl wrote. */
  lemma {:induction false} NoMarkerBeforeName(cfg: CloudConfiguration, objectName: string)
    requires Unambiguous(cfg)
    ensures forall j :: 0 <= j < |UrlPrefix(cfg)| ==> !JavaStrings.OccursAt(CreateObjectUrl(cfg, objectName), ObjectMarker, j)
  {
    var p := UrlPrefix(cfg);
    var url := CreateObjectUrl(cfg, objectName);
    var head := p + "/o";
    forall j | 0 <= j < |p| && JavaStrings.OccursAt(url, ObjectMarker, j)
      ensures false
    {
      assert url[j..j + 3] == head[j..j + 3];
      assert JavaStrings.OccursAt(head, ObjectMarker, j);
    }
  }

  /** Round trip: stripObjectName gives back the name createObjectUrl was given, for every
      non-empty name. */
  lemma StripCreateRoundTrip(cfg: CloudConfiguration, objectName: string)
    requires Unambiguous(cfg) && objectName != []
    ensures StripObjectName(CreateObjectUrl(cfg, objectName)) == Ok(objectName)
  {
    var p := UrlPrefix(cfg);
    var e := FormUrlEncoding.Encode(objectName);
    var url := CreateObjectUrl(cfg, objectName);
    FormUrlEncoding.EncodeLength(objectName);
    ObjectUrlLastSegment(cfg, objectName);
    NoMarkerBeforeName(cfg, objectName);
    assert url[|p| + 3..] == e;
    assert JavaStrings.OccursAt(url, ObjectMarker, |p|);
    JavaStrings.WithoutFirstCharNoOccurrence(e, ObjectMarker);
    JavaStrings.SplitOnce(url, ObjectMarker, |p|);
  }

  /** The URL of the empty name ends in "/o/"; split drops the empty part after it and
      stripObjectName rejects the URL. */
  lemma StripEmptyNameFails(cfg: CloudConfiguration)
    requires Unambiguous(cfg)
    ensures StripObjectName(CreateObjectUrl(cfg, [])) == Err(InvalidUrlFormat)
  {
    var p := UrlPrefix(cfg);
    NoMarkerBeforeName(cfg, []);
    assert CreateObjectUrl(cfg, []) == p + ObjectMarker;
    JavaStrings.SplitEndingInDelimiter(p, ObjectMarker);
  }

  /** A URL whose only "/o/" is followed by text without one yields that text, decoded. */
  lemma StripSingleMarker(objectUrl: string, i: nat)
    requires JavaStrings.OccursAt(objectUrl, ObjectMarker, i)
    requires forall j :: 0 <= j < i ==> !JavaStrings.OccursAt(objectUrl, ObjectMarker, j)
    requires i + 3 < |objectUrl| && !JavaStrings.Contains(objectUrl[i + 3..], ObjectMarker)
    ensures StripObjectName(objectUrl) == FormUrlEncoding.Decode(objectUrl[i + 3..])
  {
    JavaStrings.SplitOnce(objectUrl, ObjectMarker, i);
  }

  /** A malformed escape in the name part is an error too. */
  lemma StripRejectsTrailingPercent(objectUrl: string, i: nat)
    requires JavaStrings.OccursAt(objectUrl, ObjectMarker, i)
    requires forall j :: 0 <= j < i ==> !JavaStrings.OccursAt(objectUrl, ObjectMarker, j)
    requires i + 3 < |objectUrl| && !JavaStrings.Contains(objectUrl[i + 3..], ObjectMarker)
    requires objectUrl[|objectUrl| - 1] == '%'
    ensures StripObjectName(objectUrl) == Err(IllegalEscape)
  {
    var name := objectUrl[i + 3..];
    assert name[|name| - 1] == '%';
    StripSingleMarker(objectUrl, i);
    FormUrlEncoding.DecodeRejectsTrailingPercent(name);
  }

  /** Names made only of letters, digits and `.-*_` appear in the URL as they are. */
  lemma PlainNameUrl(cfg: CloudConfiguration, objectName: string)
    requires forall i :: 0 <= i < |objectName| ==> FormUrlEncoding.IsUnreserved(objectName[i])
    ensures CreateObjectUrl(cfg, objectName) == UrlPrefix(cfg) + ObjectMarker + objectName
  {
    FormUrlEncoding.EncodeIdentityIff(objectName);
  }

  /** Two different names never get the same URL. */
  lemma CreateObjectUrlInjective(cfg: CloudConfiguration, a: string, b: string)
    requires CreateObjectUrl(cfg, a) == CreateObjectUrl(cfg, b)
    ensures a == b
  {
    var n := |UrlPrefix(cfg)| + 3;
    assert FormUrlEncoding.Encode(a) == CreateObjectUrl(cfg, a)[n..];
    assert FormUrlEncoding.Encode(b) == CreateObjectUrl(cfg, b)[n..];
    FormUrlEncoding.EncodeInjective(a, b);
  }

  // ---------------------------------------------------------------------------
  // Properties of generated names and stored objects

  /** The text of a UUID needs no escaping. */
  lemma UuidIsUnreserved(uuid: UuidText)
    ensures forall i :: 0 <= i < |uuid| ==> FormUrlEncoding.IsUnreserved(uuid[i])
  {
    forall i | 0 <= i < |uuid|
      ensures FormUrlEncoding.IsUnreserved(uuid[i])
    {
      if i in {8, 13, 18, 23} {
        assert uuid[i] == '-';
      } else {
        assert IsLowerHexDigit(uuid[i]);
      }
    }
  }

  /** The URL of a markdown document ends in "/o/<uuid>.md", with the name unescaped. */
  lemma MarkdownUrl(cfg: CloudConfiguration, uuid: UuidText)
    ensures CreateObjectUrl(cfg, MarkdownObjectName(uuid)) == UrlPrefix(cfg) + ObjectMarker + uuid + ".md"
  {
    var name := MarkdownObjectName(uuid);
    UuidIsUnreserved(uuid);
    assert forall i :: 0 <= i < |name| ==> FormUrlEncoding.IsUnreserved(name[i]) by {
      forall i | 0 <= i < |name|
        ensures FormUrlEncoding.IsUnreserved(name[i])
      {
        if i < 36 {
          assert name[i] == uuid[i];
        }
      }
    }
    PlainNameUrl(cfg, name);
  }

  /** The URL of an image is "/o/", the uuid, "_" and the encoded original filename. */
  lemma ImageUrl(cfg: CloudConfiguration, uuid: UuidText, file: MultipartFile)
    ensures CreateObjectUrl(cfg, ImageObjectName(uuid, file))
         == UrlPrefix(cfg) + ObjectMarker + uuid + "_" + FormUrlEncoding.Encode(NullableText(file.originalFilename))
  {
    var f := NullableText(file.originalFilename);
    UuidIsUnreserved(uuid);
    FormUrlEncoding.EncodeUnreserved(uuid + "_");
    FormUrlEncoding.EncodeAppend(uuid + "_", f);
    assert uuid + "_" + f == (uuid + "_") + f;
  }

  /** The URL of a markdown document leads back to its name, so an update through that
      URL overwrites the document rather than creating another. */
  lemma MarkdownUrlRoundTrip(cfg: CloudConfiguration, uuid: UuidText)
    requires Unambiguous(cfg)
    ensures StripObjectName(CreateObjectUrl(cfg, MarkdownObjectName(uuid))) == Ok(MarkdownObjectName(uuid))
  {
    StripCreateRoundTrip(cfg, MarkdownObjectName(uuid));
  }

  /** The URL of an image leads back to its name, whatever the original filename. */
  lemma ImageUrlRoundTrip(cfg: CloudConfiguration, uuid: UuidText, file: MultipartFile)
    requires Unambiguous(cfg)
    ensures StripObjectName(CreateObjectUrl(cfg, ImageObjectName(uuid, file))) == Ok(ImageObjectName(uuid, file))
  {
    StripCreateRoundTrip(cfg, ImageObjectName(uuid, file));
  }

  /** Fresh uuids give fresh names: documents and images from different uuids never share
      a name, and a document never shares a name with an image. */
  lemma GeneratedNamesDistinct(u: UuidText, v: UuidText, f: MultipartFile, g: MultipartFile)
    ensures u != v ==> MarkdownObjectName(u) != MarkdownObjectName(v)
    ensures u != v ==> ImageObjectName(u, f) != ImageObjectName(v, g)
    ensures MarkdownObjectName(u) != ImageObjectName(v, g)
  {
    if u != v {
      var k :| 0 <= k < 36 && u[k] != v[k];
      assert MarkdownObjectName(u)[k] == u[k] && MarkdownObjectName(v)[k] == v[k];
      assert ImageObjectName(u, f)[k] == u[k] && ImageObjectName(v, g)[k] == v[k];
    }
    assert MarkdownObjectName(u)[36] == '.' && ImageObjectName(v, g)[36] == '_';
  }

  /** The object stored for a markdown text declares its true byte length, and its bytes
      decode to the text, so a later fetch returns what was written. */
  lemma MarkdownObjectHoldsText(content: string)
    ensures MarkdownObject(content).contentLength == |MarkdownObject(content).body|
    ensures Utf8.Decode(MarkdownObject(content).body) == content
    ensures MarkdownObject(content).contentType == "text/markdown"
  {
    Utf8.DecodeEncode(content);
  }

  // ---------------------------------------------------------------------------
  // When the round trip holds, and a configuration where it does not

  /** "/o/" is three characters. */
  lemma MarkerChars(t: string, j: int)
    requires JavaStrings.OccursAt(t, ObjectMarker, j)
    ensures 0 <= j && j + 2 < |t| && t[j] == '/' && t[j + 1] == 'o' && t[j + 2] == '/'
  {
    assert t[j..j + 3] == ObjectMarker;
    assert t[j] == t[j..j + 3][0] && t[j + 1] == t[j..j + 3][1] && t[j + 2] == t[j..j + 3][2];
  }

  /** The URL up to the "/b" in front of the bucket name. */
  function NamespacePath(cfg: CloudConfiguration): string {
    "https://objectstorage." + cfg.region + ".oraclecloud.com/n/" + cfg.namespace + "/b"
  }

  /** No "/o/" starts inside "https://objectstorage.<region>.oraclecloud.com/n". */
  lemma {:induction false} NoMarkerInHost(region: string, rest: string)
    requires '/' !in region
    ensures var h := "https://objectstorage." + region + ".oraclecloud.com/n";
      forall j :: 0 <= j < |h| ==> !JavaStrings.OccursAt(h + rest, ObjectMarker, j)
  {
    var h := "https://objectstorage." + region + ".oraclecloud.com/n";
    var t := h + rest;
    assert t == "https://objectstorage." + region + ".oraclecloud.com/n" + rest;
    forall j | 0 <= j < |h| && JavaStrings.OccursAt(t, ObjectMarker, j)
      ensures false
    {
      MarkerChars(t, j);
    }
  }

  /** With a region and namespace that hold no '/' and a namespace other than "o", no
      "/o/" starts inside the URL's part up to "/b", whatever follows. */
  lemma {:induction false} NoMarkerInNamespacePath(cfg: CloudConfiguration, rest: string)
    requires '/' !in cfg.region && '/' !in cfg.namespace && cfg.namespace != "o"
    ensures forall j :: 0 <= j < |NamespacePath(cfg)| ==> !JavaStrings.OccursAt(NamespacePath(cfg) + rest, ObjectMarker, j)
  {
    var h := "https://objectstorage." + cfg.region + ".oraclecloud.com/n";
    var tail := "/" + cfg.namespace + "/b" + rest;
    var t := NamespacePath(cfg) + rest;
    assert t == h + tail;
    NoMarkerInHost(cfg.region, tail);
    forall j | |h| <= j < |NamespacePath(cfg)| && JavaStrings.OccursAt(t, ObjectMarker, j)
      ensures false
    {
      MarkerChars(t, j);
    }
  }

  /** A configuration whose region, namespace and bucket hold no '/', and whose namespace
      and bucket are not "o", is unambiguous. */
  lemma {:induction false} PlainConfigurationUnambiguous(cfg: CloudConfiguration)
    requires '/' !in cfg.region && '/' !in cfg.namespace && '/' !in cfg.bucketName
    requires cfg.namespace != "o" && cfg.bucketName != "o"
    ensures Unambiguous(cfg)
  {
    var h, b := NamespacePath(cfg), cfg.bucketName;
    var t := UrlPrefix(cfg) + "/o";
    assert t == h + ("/" + b + "/o");
    NoMarkerInNamespacePath(cfg, "/" + b + "/o");
    forall j | 0 <= j <= |t| && JavaStrings.OccursAt(t, ObjectMarker, j)
      ensures false
    {
      MarkerChars(t, j);
    }
  }

  /** After the marker that a bucket named "o" adds, the rest of the URL holds no "/o/". */
  lemma NoMarkerAfterBucketO(e: string)
    requires '/' !in e
    ensures !JavaStrings.Contains("o/" + e, ObjectMarker)
  {
    var tail := "o/" + e;
    forall j | 0 <= j <= |tail| && JavaStrings.OccursAt(tail, ObjectMarker, j)
      ensures false
    {
      MarkerChars(tail, j);
    }
  }

  /** Decoding "o/" followed by an encoded name gives "o/" followed by the name. */
  lemma DecodeSlashedName(objectName: string)
    ensures FormUrlEncoding.Decode("o/" + FormUrlEncoding.Encode(objectName)) == Ok("o/" + objectName)
  {
    var e := FormUrlEncoding.Encode(objectName);
    FormUrlEncoding.DecodeEncode(objectName);
    assert ("/" + e)[1..] == e;
    assert FormUrlEncoding.Decode("/" + e) == Ok("/" + objectName);
    assert ("o/" + e)[1..] == "/" + e;
    assert ["o"[0]] + ("/" + objectName) == "o/" + objectName;
  }

  /** A bucket named "o" (a legal bucket name) puts an earlier "/o/" in every object URL:
      stripObjectName then reads "o/<name>" instead of the name, so updateMarkdownContent
      and deleteFileObject address an object other than the one the URL was made for. */
  lemma {:induction false} BucketNamedOMisroutes(cfg: CloudConfiguration, objectName: string)
    requires '/' !in cfg.region && '/' !in cfg.namespace && cfg.namespace != "o"
    requires cfg.bucketName == "o" && objectName != []
    ensures StripObjectName(CreateObjectUrl(cfg, objectName)) == Ok("o/" + objectName)
  {
    var h := NamespacePath(cfg);
    var e := FormUrlEncoding.Encode(objectName);
    var tail := "o/" + e;
    var url := CreateObjectUrl(cfg, objectName);
    assert url == h + ("/o/" + tail);
    NoMarkerInNamespacePath(cfg, "/o/" + tail);
    assert JavaStrings.OccursAt(url, ObjectMarker, |h|);
    assert url[|h| + 3..] == tail;
    assert url[..|h|] == h;
    FormUrlEncoding.EncodeAlphabet(objectName);
    NoMarkerAfterBucketO(e);
    JavaStrings.SplitOnce(url, ObjectMarker, |h|);
    DecodeSlashedName(objectName);
  }

  /** No "/o/" starts inside "b/<bucket>" when the bucket holds no '/' and is not "o". */
  lemma {:induction false} NoMarkerInBucketPath(bucketName: string, rest: string)
    requires '/' !in bucketName && bucketName != "o"
    ensures var m := "b/" + bucketName;
      forall j :: 0 <= j < |m| ==> !JavaStrings.OccursAt(m + "/o/" + rest, ObjectMarker, j)
  {
    var m := "b/" + bucketName;
    var t := m + "/o/" + rest;
    forall j | 0 <= j < |m| && JavaStrings.OccursAt(t, ObjectMarker, j)
      ensures false
    {
      MarkerChars(t, j);
    }
  }

  /** A namespace named "o" puts a second "/o/" in every object URL: split gives three
      parts and stripObjectName rejects the URL of every non-empty name. */
  lemma {:induction false} NamespaceNamedORejected(cfg: CloudConfiguration, objectName: string)
    requires '/' !in cfg.region && '/' !in cfg.bucketName && cfg.bucketName != "o"
    requires cfg.namespace == "o" && objectName != []
    ensures StripObjectName(CreateObjectUrl(cfg, objectName)) == Err(InvalidUrlFormat)
  {
    var h := "https://objectstorage." + cfg.region + ".oraclecloud.com/n";
    var m := "b/" + cfg.bucketName;
    var e := FormUrlEncoding.Encode(objectName);
    assert CreateObjectUrl(cfg, objectName) == h + ("/o/" + (m + "/o/" + e));
    NoMarkerInHost(cfg.region, "/o/" + (m + "/o/" + e));
    NoMarkerInBucketPath(cfg.bucketName, e);
    EncodedNameHasNoMarker(objectName);
    SplitThreeParts(h, m, e);
  }

  /** The encoding of a non-empty name is non-empty and holds no "/o/". */
  lemma EncodedNameHasNoMarker(objectName: string)
    requires objectName != []
    ensures FormUrlEncoding.Encode(objectName) != []
    ensures !JavaStrings.Contains(FormUrlEncoding.Encode(objectName), ObjectMarker)
  {
    FormUrlEncoding.EncodeLength(objectName);
    FormUrlEncoding.EncodeAlphabet(objectName);
    JavaStrings.WithoutFirstCharNoOccurrence(FormUrlEncoding.Encode(objectName), ObjectMarker);
  }

  /** The split of host, "/o/", bucket path, "/o/" and name when no other "/o/" occurs. */
  lemma {:induction false} SplitThreeParts(h: string, m: string, e: string)
    requires forall j :: 0 <= j < |h| ==> !JavaStrings.OccursAt(h + ("/o/" + (m + "/o/" + e)), ObjectMarker, j)
    requires forall j :: 0 <= j < |m| ==> !JavaStrings.OccursAt(m + "/o/" + e, ObjectMarker, j)
    requires e != [] && !JavaStrings.Contains(e, ObjectMarker)
    ensures StripObjectName(h + ("/o/" + (m + "/o/" + e))) == Err(InvalidUrlFormat)
  {
    var after := m + "/o/" + e;
    var url := h + ("/o/" + after);
    var i, k := |h|, |h| + 3 + |m|;
    assert url[i + 3..] == after;
    forall j | i + 3 <= j < k
      ensures !JavaStrings.OccursAt(url, ObjectMarker, j)
    {
      JavaStrings.OccursInSuffix(url, ObjectMarker, i + 3, j - i - 3);
    }
    assert url[i..i + 3] == ObjectMarker;
    assert url[k..k + 3] == ObjectMarker;
    assert url[k + 3..] == e;
    JavaStrings.SplitTwice(url, ObjectMarker, i, k);
  }

  /** Split drops the empty part after a final "/o/": a URL whose second and last "/o/"
      ends it still gives two parts, and stripObjectName decodes the text between them. */
  lemma StripWithTrailingMarker(objectUrl: string, i: nat, k: nat)
    requires JavaStrings.OccursAt(objectUrl, ObjectMarker, i) && JavaStrings.OccursAt(objectUrl, ObjectMarker, k)
    requires i + 3 < k && k + 3 == |objectUrl|
    requires forall j :: 0 <= j < i ==> !JavaStrings.OccursAt(objectUrl, ObjectMarker, j)
    requires forall j :: i + 3 <= j < k ==> !JavaStrings.OccursAt(objectUrl, ObjectMarker, j)
    ensures StripObjectName(objectUrl) == FormUrlEncoding.Decode(objectUrl[i + 3..k])
  {
    JavaStrings.SplitTwiceEndingInDelimiter(objectUrl, ObjectMarker, i, k);
  }

  /** For instance "x/o/y/o/" gives "y". */
  lemma TrailingMarkerExample(url: string)
    requires url == "x/o/y/o/"
    ensures StripObjectName(url) == Ok("y")
  {
    assert url[1..4] == ObjectMarker && url[5..8] == ObjectMarker;
    assert url[0] == 'x' && url[4] == 'y';
    forall j | JavaStrings.OccursAt(url, ObjectMarker, j) && j in {0, 4}
      ensures false
    {
      MarkerChars(url, j);
    }
    StripWithTrailingMarker(url, 1, 5);
    DecodeLetter('y');
    assert url[4..5] == ['y'];
  }

  /** A letter decodes to itself. */
  lemma DecodeLetter(c: char)
    requires 'a' <= c <= 'z'
    ensures FormUrlEncoding.Decode([c]) == Ok([c])
  {
    FormUrlEncoding.EncodeUnreserved([c]);
    FormUrlEncoding.DecodeEncode([c]);
  }

  /** A markdown object in bucket "blog" of namespace "ns1" in region us-ashburn-1. */
  lemma ExampleUrlRoundTrip()
    ensures var cfg := CloudConfiguration("us-ashburn-1", "ns1", "blog");
      && CreateObjectUrl(cfg, "abc.md") == "https://objectstorage.us-ashburn-1.oraclecloud.com/n/ns1/b/blog/o/abc.md"
      && StripObjectName(CreateObjectUrl(cfg, "abc.md")) == Ok("abc.md")
  {
    var cfg := CloudConfiguration("us-ashburn-1", "ns1", "blog");
    ExampleUrl(cfg);
    ExampleUnambiguous(cfg);
    StripCreateRoundTrip(cfg, "abc.md");
  }

  /** The URL written for "abc.md" in that bucket. */
  lemma ExampleUrl(cfg: CloudConfiguration)
    requires cfg == CloudConfiguration("us-ashburn-1", "ns1", "blog")
    ensures CreateObjectUrl(cfg, "abc.md") == "https://objectstorage.us-ashburn-1.oraclecloud.com/n/ns1/b/blog/o/abc.md"
  {
    var name := "abc.md";
    assert forall i :: 0 <= i < |name| ==> FormUrlEncoding.IsUnreserved(name[i]);
    PlainNameUrl(cfg, name);
    ExamplePrefix(cfg);
    var p := "https://objectstorage.us-ashburn-1.oraclecloud.com/n/ns1/b/blog";
    assert p + "/o/" == "https://objectstorage.us-ashburn-1.oraclecloud.com/n/ns1/b/blog/o/";
    assert p + "/o/" + name == "https://objectstorage.us-ashburn-1.oraclecloud.com/n/ns1/b/blog/o/abc.md";
  }

  /** The part in front of "/o/" for that bucket. */
  lemma ExamplePrefix(cfg: CloudConfiguration)
    requires cfg == CloudConfiguration("us-ashburn-1", "ns1", "blog")
    ensures UrlPrefix(cfg) == "https://objectstorage.us-ashburn-1.oraclecloud.com/n/ns1/b/blog"
  {
    assert UrlPrefix(cfg) == "https://objectstorage." + "us-ashburn-1" + ".oraclecloud.com/n/" + "ns1" + "/b/" + "blog";
    assert "https://objectstorage." + "us-ashburn-1" == "https://objectstorage.us-ashburn-1";
    assert "https://objectstorage.us-ashburn-1" + ".oraclecloud.com/n/" == "https://objectstorage.us-ashburn-1.oraclecloud.com/n/";
    assert "https://objectstorage.us-ashburn-1.oraclecloud.com/n/" + "ns1" == "https://objectstorage.us-ashburn-1.oraclecloud.com/n/ns1";
    assert "https://objectstorage.us-ashburn-1.oraclecloud.com/n/ns1" + "/b/" == "https://objectstorage.us-ashburn-1.oraclecloud.com/n/ns1/b/";
    assert "https://objectstorage.us-ashburn-1.oraclecloud.com/n/ns1/b/" + "blog" == "https://objectstorage.us-ashburn-1.oraclecloud.com/n/ns1/b/blog";
  }

  /** That configuration is unambiguous. */
  lemma ExampleUnambiguous(cfg: CloudConfiguration)
    requires cfg == CloudConfiguration("us-ashburn-1", "ns1", "blog")
    ensures Unambiguous(cfg)
  {
    assert '/' !in cfg.region;
    assert '/' !in cfg.namespace;
    assert '/' !in cfg.bucketName;
    PlainConfigurationUnambiguous(cfg);
  }
}
