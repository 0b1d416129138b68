# Object storage service of the personal blog API

`ObjectStorageService` keeps the blog's markdown documents and images in an Oracle Cloud
Infrastructure object storage bucket. It hands out public URLs of the form

    https://objectstorage.<region>.oraclecloud.com/n/<namespace>/b/<bucket>/o/<name>

where the name is form-encoded by `URLEncoder`. Later it reads the name back out of such a
URL to overwrite a document or delete an object.

The model is split into five modules:

- `Errors`: the service's failures, as values of `Result`.
- `Utf8`: `String.getBytes(UTF_8)` and `new String(bytes, UTF_8)`. Ill-formed input decodes
  to U+FFFD, one per maximal subpart (section 3.9 of the Unicode Standard, table 3-7).
- `FormUrlEncoding`: `URLEncoder.encode` and `URLDecoder.decode` with UTF-8, written out
  character by character. This includes the decoder's rules for escapes:
  - `Integer.parseInt` accepts a sign, so `%+A` is read as 10.
  - A negative value such as `%-1` is rejected.
  - A `'%'` with fewer than two characters after it is an incomplete trailing escape.
- `JavaStrings`: `String.split` with the literal delimiter `"/o/"` and limit 0. It splits
  around the leftmost non-overlapping occurrences, keeps a leading empty part, drops the
  trailing empty parts, and returns the whole string when the delimiter does not occur.
- `ObjectStorage`:
  - `createObjectUrl`, `stripObjectName`, and the names generated for documents
    (`<uuid>.md`) and images (`<uuid>_<original filename>`);
  - the service as a class `ObjectStorageService`;
  - the OCI client as a class `ObjectStorageClient`, holding the bucket's objects and the
    requests sent to it.

The service's methods state the whole new state of the client: which request was sent,
which key of the bucket changed, and what the method returns. They do this both when the
remote call succeeds and when it fails, and also when `stripObjectName` rejects the URL.
In that last case nothing is sent and the bucket is unchanged.

The round trip `stripObjectName(createObjectUrl(n)) == n` holds for every non-empty name
when the configuration puts no `"/o/"` in front of the one `createObjectUrl` writes
(`Unambiguous`). This covers every configuration whose region, namespace and bucket hold
no `'/'`, and whose namespace and bucket are not `"o"` (`PlainConfigurationUnambiguous`).
Fields that are merely free of `"/o/"` are not enough:

- A bucket named `"o"` makes `stripObjectName` return `"o/<name>"`
  (`BucketNamedOMisroutes`). An update or delete through such a URL addresses another
  object.
- A namespace named `"o"` makes the URL of every non-empty name split into three parts,
  so it is rejected (`NamespaceNamedORejected`). The service only hands out URLs of
  non-empty names, since every name it makes starts with a UUID.

## Model

All source paths are relative to the repository root.

The functions that compute carry little contract of their own; the lemmas below state what
they promise. `ObjectStorage.CreateObjectUrl` models `ObjectStorageService.java:81-87`,
`ObjectStorage.StripObjectName` lines 107-118, `FormUrlEncoding.Encode` the `URLEncoder`
call at line 86, `FormUrlEncoding.Decode` the `URLDecoder` call at line 111,
`JavaStrings.Split` the `split` at line 109, `Utf8.Encode` the `getBytes` calls at lines 37
and 46, `Utf8.Decode` the decoding of escaped bytes at line 111,
`ObjectStorage.MarkdownObjectName` line 27, `ObjectStorage.ImageObjectName` line 58, and
`ObjectStorage.MarkdownObject` the request built at lines 40-47.

| member | source | states |
|---|---|---|
| Utf8.EncodeChar | src/main/java/com/seaumsiddiqui/personalblog/service/ObjectStorageService.java:37 | one character takes one to four bytes |
| Utf8.DecodeOne | src/main/java/com/seaumsiddiqui/personalblog/service/ObjectStorageService.java:111 | the decoder consumes at least one and at most the available bytes per character |
| Utf8.EncodeLength | src/main/java/com/seaumsiddiqui/personalblog/service/ObjectStorageService.java:46 | the declared content length is between one and four times the number of characters |
| Utf8.DecodeOneEncodeChar | src/main/java/com/seaumsiddiqui/personalblog/service/ObjectStorageService.java:37 | the decoder reads back exactly the bytes written for one character, whatever follows |
| Utf8.DecodeOneTwoBytes | src/main/java/com/seaumsiddiqui/personalblog/service/ObjectStorageService.java:37 | the same for two-byte characters |
| Utf8.DecodeOneThreeBytes | src/main/java/com/seaumsiddiqui/personalblog/service/ObjectStorageService.java:37 | the same for three-byte characters |
| Utf8.DecodeOneFourBytes | src/main/java/com/seaumsiddiqui/personalblog/service/ObjectStorageService.java:37 | the same for four-byte characters |
| Utf8.DecodeEncode | src/main/java/com/seaumsiddiqui/personalblog/service/ObjectStorageService.java:37 | decoding the stored bytes gives the text back |
| Utf8.EncodeInjective | src/main/java/com/seaumsiddiqui/personalblog/service/ObjectStorageService.java:37 | two different texts never share their bytes |
| FormUrlEncoding.HexDigit | src/main/java/com/seaumsiddiqui/personalblog/service/ObjectStorageService.java:86 | an escape digit is an upper-case hexadecimal digit, which the encoder would keep as it is |
| FormUrlEncoding.EncodeAppend | src/main/java/com/seaumsiddiqui/personalblog/service/ObjectStorageService.java:86 | encoding distributes over concatenation |
| FormUrlEncoding.EscapeBytesAppend | src/main/java/com/seaumsiddiqui/personalblog/service/ObjectStorageService.java:86 | escaping bytes distributes over concatenation |
| FormUrlEncoding.EscapeBytesAlphabet | src/main/java/com/seaumsiddiqui/personalblog/service/ObjectStorageService.java:86 | the escapes of n bytes are 3n characters: a '%' at every third position from the first, upper-case hexadecimal digits elsewhere |
| FormUrlEncoding.EncodeAlphabet | src/main/java/com/seaumsiddiqui/personalblog/service/ObjectStorageService.java:86 | an encoded name holds only letters, digits, `.-*_`, '+' and '%'; in particular no '/' |
| FormUrlEncoding.EncodeLength | src/main/java/com/seaumsiddiqui/personalblog/service/ObjectStorageService.java:86 | encoding never shrinks a name; it keeps the length only when every character is kept or a space |
| FormUrlEncoding.EncodeIdentityIff | src/main/java/com/seaumsiddiqui/personalblog/service/ObjectStorageService.java:86 | a name is its own encoding exactly when all its characters are letters, digits or `.-*_` |
| FormUrlEncoding.EncodeUnreserved | src/main/java/com/seaumsiddiqui/personalblog/service/ObjectStorageService.java:86 | one direction of that: such a name is left unchanged |
| FormUrlEncoding.EncodeFixedPointUnreserved | src/main/java/com/seaumsiddiqui/personalblog/service/ObjectStorageService.java:86 | the other direction: a name left unchanged has only such characters |
| FormUrlEncoding.EncodeEscapedRun | src/main/java/com/seaumsiddiqui/personalblog/service/ObjectStorageService.java:86 | a run of characters that all need escaping becomes the escapes of its UTF-8 bytes |
| FormUrlEncoding.EscapedPrefixLength | src/main/java/com/seaumsiddiqui/personalblog/service/ObjectStorageService.java:86 | the run of characters needing escape at the head of a text is maximal |
| FormUrlEncoding.HexValue | src/main/java/com/seaumsiddiqui/personalblog/service/ObjectStorageService.java:111 | a hexadecimal digit's value is below 16, and -1 stands for "not a digit" |
| FormUrlEncoding.ParseHexPair | src/main/java/com/seaumsiddiqui/personalblog/service/ObjectStorageService.java:111 | a parsed escape lies strictly between -16 and 256 |
| FormUrlEncoding.ParseHexDigits | src/main/java/com/seaumsiddiqui/personalblog/service/ObjectStorageService.java:111 | parsing the two digits written for a byte gives the byte |
| FormUrlEncoding.EscapeRun | src/main/java/com/seaumsiddiqui/personalblog/service/ObjectStorageService.java:111 | a run of escapes takes three characters per byte, leaves a suffix that does not start with '%', and fails only with an illegal escape |
| FormUrlEncoding.EscapeRunOfEscapes | src/main/java/com/seaumsiddiqui/personalblog/service/ObjectStorageService.java:111 | the escape loop reads back the bytes of escapes written by the encoder and stops at the next character |
| FormUrlEncoding.EscapeRunKeepsTrailingPercent | src/main/java/com/seaumsiddiqui/personalblog/service/ObjectStorageService.java:111 | a run over a text ending in '%' leaves a shorter text that still ends in '%' |
| FormUrlEncoding.Decode | src/main/java/com/seaumsiddiqui/personalblog/service/ObjectStorageService.java:111 | decoding fails only with an illegal escape |
| FormUrlEncoding.DecodeRejectsTrailingPercent | src/main/java/com/seaumsiddiqui/personalblog/service/ObjectStorageService.java:111 | every text ending in '%' is rejected as an illegal escape |
| FormUrlEncoding.DecodeFailsAfterEscapeRun | src/main/java/com/seaumsiddiqui/personalblog/service/ObjectStorageService.java:111 | a failing escape run, or a failure after it, fails the whole decode |
| FormUrlEncoding.DecodeFailsAfterChar | src/main/java/com/seaumsiddiqui/personalblog/service/ObjectStorageService.java:111 | a failure after a plain first character fails the whole decode |
| FormUrlEncoding.DecodeEncode | src/main/java/com/seaumsiddiqui/personalblog/service/ObjectStorageService.java:86 | decoding an encoded name gives the name back |
| FormUrlEncoding.EncodeInjective | src/main/java/com/seaumsiddiqui/personalblog/service/ObjectStorageService.java:86 | two different names never share an encoding |
| JavaStrings.IndexOf | src/main/java/com/seaumsiddiqui/personalblog/service/ObjectStorageService.java:109 | the first occurrence of the delimiter, or -1 exactly when there is none |
| JavaStrings.ShiftOccurrence | src/main/java/com/seaumsiddiqui/personalblog/service/ObjectStorageService.java:109 | an occurrence after the first character is an occurrence in the rest, shifted by one |
| JavaStrings.Segments | src/main/java/com/seaumsiddiqui/personalblog/service/ObjectStorageService.java:109 | the parts joined with the delimiter give the text back, and no part holds the delimiter |
| JavaStrings.PrefixBeforeFirstOccurrence | src/main/java/com/seaumsiddiqui/personalblog/service/ObjectStorageService.java:109 | the text before the first occurrence holds no occurrence |
| JavaStrings.DropTrailingEmpty | src/main/java/com/seaumsiddiqui/personalblog/service/ObjectStorageService.java:109 | a prefix of the parts ending in a non-empty part, and every part dropped is empty |
| JavaStrings.SplitOnce | src/main/java/com/seaumsiddiqui/personalblog/service/ObjectStorageService.java:109 | one occurrence with text after it gives the two sides |
| JavaStrings.SplitEndingInDelimiter | src/main/java/com/seaumsiddiqui/personalblog/service/ObjectStorageService.java:109 | a single occurrence at the very end gives one part |
| JavaStrings.OccursInSuffix | src/main/java/com/seaumsiddiqui/personalblog/service/ObjectStorageService.java:109 | an occurrence in a suffix is an occurrence in the whole text, shifted, and back |
| JavaStrings.IndexOfFirst | src/main/java/com/seaumsiddiqui/personalblog/service/ObjectStorageService.java:109 | an occurrence with none before it is the one found first |
| JavaStrings.SegmentsAt | src/main/java/com/seaumsiddiqui/personalblog/service/ObjectStorageService.java:109 | splitting cuts at the first occurrence and continues after it |
| JavaStrings.NoOccurrenceInSuffix | src/main/java/com/seaumsiddiqui/personalblog/service/ObjectStorageService.java:109 | a stretch without occurrences stays one in a suffix |
| JavaStrings.SegmentsOnce | src/main/java/com/seaumsiddiqui/personalblog/service/ObjectStorageService.java:109 | a single occurrence cuts the text into the parts before and after it |
| JavaStrings.SegmentsTwice | src/main/java/com/seaumsiddiqui/personalblog/service/ObjectStorageService.java:109 | exactly two occurrences cut the text into three parts |
| JavaStrings.SplitTwice | src/main/java/com/seaumsiddiqui/personalblog/service/ObjectStorageService.java:109 | two occurrences with text after the second give three parts |
| JavaStrings.SplitTwiceEndingInDelimiter | src/main/java/com/seaumsiddiqui/personalblog/service/ObjectStorageService.java:109 | two occurrences, the second ending the text, give two parts |
| JavaStrings.WithoutFirstCharNoOccurrence | src/main/java/com/seaumsiddiqui/personalblog/service/ObjectStorageService.java:109 | a text without the delimiter's first character does not contain it |
| ObjectStorage.StripObjectName | src/main/java/com/seaumsiddiqui/personalblog/service/ObjectStorageService.java:107-118 | a URL without "/o/" is rejected as an invalid format; the only failures are an invalid format and an illegal escape |
| ObjectStorage.ObjectStorageClient.constructor | src/main/java/com/seaumsiddiqui/personalblog/service/ObjectStorageService.java:23 | the client starts from the given bucket contents with no request sent |
| ObjectStorage.ObjectStorageClient.PutObject | src/main/java/com/seaumsiddiqui/personalblog/service/ObjectStorageService.java:50 | the request is recorded; on success only that key is set, on failure the bucket is unchanged |
| ObjectStorage.ObjectStorageClient.DeleteObject | src/main/java/com/seaumsiddiqui/personalblog/service/ObjectStorageService.java:101 | the request is recorded; on success only that key is removed, on failure the bucket is unchanged |
| ObjectStorage.ObjectStorageService.constructor | src/main/java/com/seaumsiddiqui/personalblog/service/ObjectStorageService.java:19-23 | the service keeps the configuration and the client it is given |
| ObjectStorage.ObjectStorageService.UploadMarkdownContent | src/main/java/com/seaumsiddiqui/personalblog/service/ObjectStorageService.java:26-29 | one put of the text's object under `<uuid>.md`; returns that name's URL, or the upload failure |
| ObjectStorage.ObjectStorageService.UpdateMarkdownContent | src/main/java/com/seaumsiddiqui/personalblog/service/ObjectStorageService.java:31-34 | a rejected URL sends nothing and changes nothing; otherwise one put under the name read from the URL, and no other key changes |
| ObjectStorage.ObjectStorageService.UploadFile | src/main/java/com/seaumsiddiqui/personalblog/service/ObjectStorageService.java:36-55 | one put of the UTF-8 bytes as text/markdown with their byte length under the name; only that key changes; returns the name's URL |
| ObjectStorage.ObjectStorageService.UploadImage | src/main/java/com/seaumsiddiqui/personalblog/service/ObjectStorageService.java:57-78 | one put of the file's bytes, content type and size under `<uuid>_<original filename>`; returns that name's URL |
| ObjectStorage.ObjectStorageService.DeleteFileObject | src/main/java/com/seaumsiddiqui/personalblog/service/ObjectStorageService.java:89-105 | the name is read from the URL before any request; a rejected URL sends nothing and changes nothing; otherwise only that key is removed |
| ObjectStorage.ObjectUrlLastSegment | src/main/java/com/seaumsiddiqui/personalblog/service/ObjectStorageService.java:81-87 | the URL is the prefix, "/o/" and a last part without '/' that decodes to the name |
| ObjectStorage.NoMarkerBeforeName | src/main/java/com/seaumsiddiqui/personalblog/service/ObjectStorageService.java:81-87 | in an unambiguous configuration no "/o/" starts before the one written in front of the name |
| ObjectStorage.StripCreateRoundTrip | src/main/java/com/seaumsiddiqui/personalblog/service/ObjectStorageService.java:81-111 | stripObjectName gives back every non-empty name createObjectUrl was given |
| ObjectStorage.StripEmptyNameFails | src/main/java/com/seaumsiddiqui/personalblog/service/ObjectStorageService.java:109-113 | the URL of the empty name ends in "/o/", splits into one part and is rejected |
| ObjectStorage.StripSingleMarker | src/main/java/com/seaumsiddiqui/personalblog/service/ObjectStorageService.java:109-111 | a URL with one "/o/" followed by text gives that text, decoded |
| ObjectStorage.StripRejectsTrailingPercent | src/main/java/com/seaumsiddiqui/personalblog/service/ObjectStorageService.java:111-116 | a name part ending in '%' makes stripObjectName fail with an illegal escape |
| ObjectStorage.StripWithTrailingMarker | src/main/java/com/seaumsiddiqui/personalblog/service/ObjectStorageService.java:109-111 | a second "/o/" at the very end is dropped with its empty part, and the text between is decoded |
| ObjectStorage.TrailingMarkerExample | src/main/java/com/seaumsiddiqui/personalblog/service/ObjectStorageService.java:109-111 | "x/o/y/o/" gives "y" |
| ObjectStorage.DecodeLetter | src/main/java/com/seaumsiddiqui/personalblog/service/ObjectStorageService.java:111 | a lower-case letter decodes to itself |
| ObjectStorage.PlainNameUrl | src/main/java/com/seaumsiddiqui/personalblog/service/ObjectStorageService.java:81-87 | a name of letters, digits and `.-*_` appears in its URL as it is |
| ObjectStorage.CreateObjectUrlInjective | src/main/java/com/seaumsiddiqui/personalblog/service/ObjectStorageService.java:81-87 | two different names never get the same URL |
| ObjectStorage.UuidIsUnreserved | src/main/java/com/seaumsiddiqui/personalblog/service/ObjectStorageService.java:27 | the text of a UUID needs no escaping |
| ObjectStorage.MarkdownUrl | src/main/java/com/seaumsiddiqui/personalblog/service/ObjectStorageService.java:27 | a document's URL ends in "/o/<uuid>.md", unescaped |
| ObjectStorage.ImageUrl | src/main/java/com/seaumsiddiqui/personalblog/service/ObjectStorageService.java:58 | an image's URL ends in "/o/<uuid>_" and the encoded original filename, or "null" when there is none |
| ObjectStorage.MarkdownUrlRoundTrip | src/main/java/com/seaumsiddiqui/personalblog/service/ObjectStorageService.java:26-34 | the URL of a document leads back to its name, so an update through it overwrites the same object |
| ObjectStorage.ImageUrlRoundTrip | src/main/java/com/seaumsiddiqui/personalblog/service/ObjectStorageService.java:57-58 | the URL of an image leads back to its name, whatever the original filename |
| ObjectStorage.GeneratedNamesDistinct | src/main/java/com/seaumsiddiqui/personalblog/service/ObjectStorageService.java:26-58 | different UUIDs give different names, and a document name never equals an image name |
| ObjectStorage.MarkdownObjectHoldsText | src/main/java/com/seaumsiddiqui/personalblog/service/ObjectStorageService.java:37-46 | the stored document declares its true byte length and type text/markdown, and its bytes decode to the text |
| ObjectStorage.MarkerChars | src/main/java/com/seaumsiddiqui/personalblog/service/ObjectStorageService.java:109 | an occurrence of "/o/" is the three characters '/', 'o', '/' |
| ObjectStorage.NoMarkerInNamespacePath | src/main/java/com/seaumsiddiqui/personalblog/service/ObjectStorageService.java:82-84 | with a plain region and namespace, no "/o/" starts in the URL before the bucket |
| ObjectStorage.PlainConfigurationUnambiguous | src/main/java/com/seaumsiddiqui/personalblog/service/ObjectStorageService.java:82-85 | a region, namespace and bucket without '/' and other than "o" make the configuration unambiguous |
| ObjectStorage.NoMarkerAfterBucketO | src/main/java/com/seaumsiddiqui/personalblog/service/ObjectStorageService.java:109 | "o/" followed by an encoded name holds no "/o/" |
| ObjectStorage.DecodeSlashedName | src/main/java/com/seaumsiddiqui/personalblog/service/ObjectStorageService.java:111 | "o/" followed by an encoded name decodes to "o/" and the name |
| ObjectStorage.BucketNamedOMisroutes | src/main/java/com/seaumsiddiqui/personalblog/service/ObjectStorageService.java:81-111 | with a bucket named "o", stripObjectName reads "o/<name>" out of every object URL |
| ObjectStorage.NoMarkerInHost | src/main/java/com/seaumsiddiqui/personalblog/service/ObjectStorageService.java:82-83 | no "/o/" starts in the host part of the URL |
| ObjectStorage.NoMarkerInBucketPath | src/main/java/com/seaumsiddiqui/personalblog/service/ObjectStorageService.java:82-85 | no "/o/" starts in "b/<bucket>" for a plain bucket other than "o" |
| ObjectStorage.EncodedNameHasNoMarker | src/main/java/com/seaumsiddiqui/personalblog/service/ObjectStorageService.java:86 | the encoding of a non-empty name is non-empty and holds no "/o/" |
| ObjectStorage.SplitThreeParts | src/main/java/com/seaumsiddiqui/personalblog/service/ObjectStorageService.java:109-113 | a URL with exactly two "/o/" and text after the second is rejected |
| ObjectStorage.NamespaceNamedORejected | src/main/java/com/seaumsiddiqui/personalblog/service/ObjectStorageService.java:81-113 | with a namespace named "o", the URL of every non-empty name is rejected |
| ObjectStorage.ExampleUrl | src/main/java/com/seaumsiddiqui/personalblog/service/ObjectStorageService.java:81-87 | the URL of "abc.md" in bucket "blog" of namespace "ns1" in us-ashburn-1, written out |
| ObjectStorage.ExamplePrefix | src/main/java/com/seaumsiddiqui/personalblog/service/ObjectStorageService.java:82-85 | the part in front of "/o/" for that configuration, written out |
| ObjectStorage.ExampleUnambiguous | src/main/java/com/seaumsiddiqui/personalblog/service/ObjectStorageService.java:82-85 | that configuration is unambiguous |
| ObjectStorage.ExampleUrlRoundTrip | src/main/java/com/seaumsiddiqui/personalblog/service/ObjectStorageService.java:81-111 | that URL, and stripObjectName reads "abc.md" back out of it |

## Left out

- The OCI SDK (`OracleClientConfiguration`, `putObject`, `deleteObject`) is foreign network
  I/O. The model replaces it with the `ObjectStorageClient` class: a map from
  namespace, bucket and name to the stored object, plus the list of requests sent. Whether
  a request succeeds is a `bool` parameter of each service method.
- `UUID.randomUUID()` is random. Each method takes the UUID as a parameter of type
  `UuidText`: 36 characters, lower-case hexadecimal digits with '-' at positions 8, 13, 18
  and 23.
- `MultipartFile` streams and the try-with-resources closing are I/O. The file is a value
  holding its bytes, original filename, content type and size. An `IOException` from
  `getInputStream` is not modelled.
- The body is not read from a stream; the model stores the bytes themselves.
- Spring and Lombok wiring, and the loading of `CloudConfigurationProperties`, are not
  modelled. The configuration is an immutable `const` of the service.
- Exception classes and message texts are not modelled. Each failure is one `Error` value.
  The `RuntimeException` wrapping in `stripObjectName` keeps the kind of the underlying
  failure: invalid format or illegal escape.
- Concurrent callers are not modelled, and neither is the remote service's last-writer-wins
  ordering.
- A `null` content type of an uploaded file is not modelled; the content type is a string.
  A `null` original filename is modelled, and the name then ends in "null", as Java's
  string concatenation gives.
- Java strings are UTF-16 and may hold unpaired surrogates. Dafny characters are Unicode
  scalar values, so such names are not modelled.
- FormUrlEncoding.HexValue: only ASCII hexadecimal digits are modelled. `Character.digit`
  also accepts other Unicode digits and full-width letters in an escape.
- Utf8.Decode: ill-formed byte sequences become one U+FFFD per maximal subpart, as the
  Unicode Standard recommends. The JDK's decoder can produce a different number of U+FFFD
  for some malformed input. Names written by `URLEncoder` are always well-formed, so the
  round trip is not affected.
- JavaStrings.Split: only a delimiter without regular-expression metacharacters is modelled,
  which `"/o/"` is. The general regular-expression split is not.
- ObjectStorage.StripCreateRoundTrip: proved only for configurations where `Unambiguous`
  holds. `BucketNamedOMisroutes` and `NamespaceNamedORejected` show that it fails
  otherwise.
