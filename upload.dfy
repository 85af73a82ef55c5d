/**
 * The image-upload handler: it normalises the declared MIME type, checks the
 * request field by field (content present, type allowed, strict base64, size
 * limit, leading signature bytes), picks the extension and the object path,
 * and stores the decoded bytes through the storage adapter.
 */
module Upload {

  import opened Common
  import Strings
  import Base64
  import Paths
  import Hex
  import Storage

  const JpegType: string := "image/jpeg"
  const PngType: string := "image/png"
  const WebpType: string := "image/webp"

  /** The decoded-size limit, ten mebibytes; a payload of exactly this size is accepted. */
  const MaxImageSize: nat := 10 * 1024 * 1024

  const JpegMagic: seq<Byte> := [0xFF, 0xD8, 0xFF]
  const PngMagic: seq<Byte> := [0x89, 0x50, 0x4E, 0x47]
  const RiffTag: seq<Byte> := [0x52, 0x49, 0x46, 0x46]
  const WebpTag: seq<Byte> := [0x57, 0x45, 0x42, 0x50]

  // ---- process-wide configuration ----

  /** The bucket name and credentials file the handlers use, set once at start-up. */
  class Config {
    var storageBucket: string
    var credentialsFile: string

    constructor ()
      ensures storageBucket == "" && credentialsFile == ""
    {
      storageBucket := "";
      credentialsFile := "";
    }

    /** InitUploadHandler: records the bucket and the credentials file. */
    method InitUploadHandler(bucket: string, credsFile: string)
      modifies this
      ensures storageBucket == bucket && credentialsFile == credsFile
    {
      storageBucket := bucket;
      credentialsFile := credsFile;
    }
  }

  // ---- content signature ----

  /** bytes.HasPrefix. */
  predicate HasPrefix(data: seq<Byte>, prefix: seq<Byte>) {
    |prefix| <= |data| && data[..|prefix|] == prefix
  }

  /**
   * isValidImage: fewer than twelve bytes are never an image; JPEG, PNG and
   * WebP must open with their magic bytes (WebP: "RIFF", four size bytes,
   * "WEBP"); any other type passes unchecked.
   */
  function IsValidImage(data: seq<Byte>, mimeType: string): (valid: bool)
    ensures valid <==>
      && |data| >= 12
      && (mimeType == JpegType ==> data[..3] == JpegMagic)
      && (mimeType == PngType ==> data[..4] == PngMagic)
      && (mimeType == WebpType ==> data[..4] == RiffTag && data[8..12] == WebpTag)
  {
    assert |data| >= 12 ==> data[8..][..4] == data[8..12];
    if |data| < 12 then false
    else if mimeType == JpegType then HasPrefix(data, JpegMagic)
    else if mimeType == PngType then HasPrefix(data, PngMagic)
    else if mimeType == WebpType then HasPrefix(data, RiffTag) && HasPrefix(data[8..], WebpTag)
    else true
  }

  lemma ShortDataIsNoImage(data: seq<Byte>, mimeType: string)
    requires |data| < 12
    ensures !IsValidImage(data, mimeType)
  {
  }

  /** A JPEG is recognised exactly by its first three bytes FF D8 FF. */
  lemma JpegSignature(data: seq<Byte>)
    requires |data| >= 12
    ensures IsValidImage(data, JpegType) <==> data[0] == 0xFF && data[1] == 0xD8 && data[2] == 0xFF
  {
    if data[0] == 0xFF && data[1] == 0xD8 && data[2] == 0xFF {
      assert data[..3] == JpegMagic;
    }
  }

  /** A PNG is recognised exactly by its first four bytes 89 'P' 'N' 'G'. */
  lemma PngSignature(data: seq<Byte>)
    requires |data| >= 12
    ensures IsValidImage(data, PngType) <==>
      data[0] == 0x89 && data[1] == 0x50 && data[2] == 0x4E && data[3] == 0x47
  {
    if data[0] == 0x89 && data[1] == 0x50 && data[2] == 0x4E && data[3] == 0x47 {
      assert data[..4] == PngMagic;
    }
  }

  /** A WebP is recognised exactly by "RIFF" in bytes 0-3 and "WEBP" in bytes 8-11. */
  lemma WebpSignature(data: seq<Byte>)
    requires |data| >= 12
    ensures IsValidImage(data, WebpType) <==>
      && data[0] == 0x52 && data[1] == 0x49 && data[2] == 0x46 && data[3] == 0x46
      && data[8] == 0x57 && data[9] == 0x45 && data[10] == 0x42 && data[11] == 0x50
  {
    if data[0] == 0x52 && data[1] == 0x49 && data[2] == 0x46 && data[3] == 0x46 {
      assert data[..4] == RiffTag;
    }
    if data[8] == 0x57 && data[9] == 0x45 && data[10] == 0x42 && data[11] == 0x50 {
      assert data[8..][..4] == WebpTag;
    }
    if IsValidImage(data, WebpType) {
      assert data[8..][..4] == WebpTag;
      assert data[8..][0] == data[8] && data[8..][3] == data[11];
    }
  }

  /** The RIFF size field (bytes 4-7) and everything after byte 11 play no part in the check. */
  lemma WebpIgnoresSizeAndBody(a: seq<Byte>, b: seq<Byte>)
    requires |a| >= 12 && |b| >= 12
    requires a[..4] == b[..4] && a[8..12] == b[8..12]
    ensures IsValidImage(a, WebpType) == IsValidImage(b, WebpType)
  {
    WebpSignature(a);
    WebpSignature(b);
    assert a[0] == a[..4][0] && a[1] == a[..4][1] && a[2] == a[..4][2] && a[3] == a[..4][3];
    assert b[0] == b[..4][0] && b[1] == b[..4][1] && b[2] == b[..4][2] && b[3] == b[..4][3];
    assert a[8] == a[8..12][0] && a[9] == a[8..12][1] && a[10] == a[8..12][2] && a[11] == a[8..12][3];
    assert b[8] == b[8..12][0] && b[9] == b[8..12][1] && b[10] == b[8..12][2] && b[11] == b[8..12][3];
  }

  /** A type other than the three known ones is accepted for any content of twelve bytes or more. */
  lemma OtherTypesUnchecked(data: seq<Byte>, mimeType: string)
    requires |data| >= 12
    requires mimeType != JpegType && mimeType != PngType && mimeType != WebpType
    ensures IsValidImage(data, mimeType)
  {
  }

  // ---- type, extension and path ----

  /**
   * strings.ToLower(strings.TrimSpace(t)): already lower case, no longer than
   * `t`, not starting or ending with a space, and empty exactly when `t` is
   * all spaces.
   */
  function NormalizeType(t: string): (n: string)
    ensures |n| <= |t|
    ensures forall k :: 0 <= k < |n| ==> Strings.LowerRune(n[k]) == n[k]
    ensures n == [] || (!Strings.IsSpace(n[0]) && !Strings.IsSpace(n[|n| - 1]))
    ensures n == [] <==> Strings.AllSpace(t)
  {
    var m := Strings.TrimSpace(t);
    var n := Strings.ToLower(m);
    assert forall k :: 0 <= k < |n| ==> Strings.LowerRune(n[k]) == n[k] by {
      forall k | 0 <= k < |n| ensures Strings.LowerRune(n[k]) == n[k] {
        Strings.LowerRuneIdempotent(m[k]);
      }
    }
    if n == [] then n
    else
      Strings.LowerRuneKeepsSpace(m[0]);
      Strings.LowerRuneKeepsSpace(m[|m| - 1]);
      n
  }

  predicate IsAllowedType(t: string) {
    t == JpegType || t == PngType || t == WebpType
  }

  /** A string whose every character lower-cases to itself is its own ToLower. */
  lemma {:induction false} ToLowerOfLower(s: string)
    requires forall k :: 0 <= k < |s| ==> Strings.LowerRune(s[k]) == s[k]
    ensures Strings.ToLower(s) == s
  {
    var r := Strings.ToLower(s);
    assert forall k :: 0 <= k < |s| ==> r[k] == s[k];
  }

  /** A text of lower-case ASCII letters and slashes is left alone by TrimSpace and ToLower. */
  lemma {:induction false} LowerTextIsNormal(t: string)
    requires t != []
    requires forall k :: 0 <= k < |t| ==> 'a' <= t[k] <= 'z' || t[k] == '/'
    ensures NormalizeType(t) == t
  {
    TrimSpaceOfPlain(t);
    ToLowerOfLower(t);
  }

  lemma TrimSpaceOfPlain(t: string)
    requires t != [] && !Strings.IsSpace(t[0]) && !Strings.IsSpace(t[|t| - 1])
    ensures Strings.TrimSpace(t) == t
  {
    Strings.TrimSpaceOfPadded("", t, "");
    assert "" + t + "" == t;
  }

  /** The three allowed types are already normal: each normalises to itself. */
  lemma AllowedTypesAreNormal(t: string)
    requires IsAllowedType(t)
    ensures NormalizeType(t) == t
  {
    assert t[..5] == "image" && t[5] == '/';
    assert forall k :: 6 <= k < |t| ==> 'a' <= t[k] <= 'z';
    LowerTextIsNormal(t);
  }

  /** Surrounding blanks and upper case do not matter: " IMAGE/PNG\t" is read as "image/png". */
  lemma PaddedUpperCaseType(t: string)
    requires t == " IMAGE/PNG\t"
    ensures NormalizeType(t) == PngType
  {
    var lead, text, trail := " ", "IMAGE/PNG", "\t";
    assert t == lead + text + trail;
    assert Strings.AllSpace(lead) && Strings.AllSpace(trail);
    assert !Strings.IsSpace(text[0]) && !Strings.IsSpace(text[|text| - 1]);
    PaddedType(lead, text, trail);
    UpperPngType(text);
  }

  /** "IMAGE/PNG" lower-cases to "image/png". */
  lemma UpperPngType(text: string)
    requires text == "IMAGE/PNG"
    ensures Strings.ToLower(text) == PngType
  {
    forall k | 0 <= k < |text| ensures
      ('A' <= text[k] <= 'Z' && PngType[k] as int == text[k] as int + 32) || (text[k] == '/' && PngType[k] == '/')
    {
      if k == 0 {} else if k == 1 {} else if k == 2 {} else if k == 3 {} else if k == 4 {}
      else if k == 5 {} else if k == 6 {} else if k == 7 {} else {}
    }
    UpperAsciiLowers(text, PngType);
  }

  /** Blanks around a type are dropped and the text between them is lower-cased, whatever it holds. */
  lemma PaddedType(lead: string, text: string, trail: string)
    requires Strings.AllSpace(lead) && Strings.AllSpace(trail)
    requires text != [] && !Strings.IsSpace(text[0]) && !Strings.IsSpace(text[|text| - 1])
    ensures NormalizeType(lead + text + trail) == Strings.ToLower(text)
  {
    Strings.TrimSpaceOfPadded(lead, text, trail);
  }

  /** Upper-case ASCII letters lower by 32; everything else in `lower` is kept. */
  lemma {:induction false} UpperAsciiLowers(upper: string, lower: string)
    requires |upper| == |lower|
    requires forall k :: 0 <= k < |upper| ==>
      ('A' <= upper[k] <= 'Z' && lower[k] as int == upper[k] as int + 32) || (upper[k] == '/' && lower[k] == '/')
    ensures Strings.ToLower(upper) == lower
  {
    var r := Strings.ToLower(upper);
    forall k | 0 <= k < |upper| ensures r[k] == lower[k] {
      assert r[k] == Strings.LowerRune(upper[k]);
    }
  }

  /** The extension chosen from the normalised type: ".png", ".webp", otherwise ".jpg". */
  function Extension(t: string): (e: string)
    ensures e == ".png" <==> t == PngType
    ensures e == ".webp" <==> t == WebpType
    ensures e == ".jpg" <==> t != PngType && t != WebpType
  {
    if t == PngType then ".png" else if t == WebpType then ".webp" else ".jpg"
  }

  /** Every extension is a well-formed one: a dot, then at least three characters with no dot or slash. */
  lemma ExtensionIsWellFormed(t: string)
    ensures var e := Extension(t); |e| >= 4 && e[0] == '.' && '.' !in e[1..] && '/' !in e
  {
    assert ".png"[1..] == "png" && ".webp"[1..] == "webp" && ".jpg"[1..] == "jpg";
  }

  /** Distinct allowed types never share an extension. */
  lemma ExtensionsDistinct(t1: string, t2: string)
    requires IsAllowedType(t1) && IsAllowedType(t2) && t1 != t2
    ensures Extension(t1) != Extension(t2)
  {
    assert ".png"[1] != ".webp"[1] && ".png"[1] != ".jpg"[1] && ".webp"[1] != ".jpg"[1];
  }

  /**
   * generateFilePath: the caller's file name under "images", or a fresh
   * random name with the type's extension. `uuidRandom` and `nanos` are what
   * the random source and the clock supply. A plain file name lands at
   * "images/" + name; without one the path is "images/" followed by the
   * random name and the extension.
   */
  function GenerateFilePath(filename: string, ext: string, uuidRandom: Option<seq<Byte>>, nanos: int): (path: string)
    requires uuidRandom.Some? ==> |uuidRandom.value| == 16
    ensures Paths.IsName(filename) ==> path == "images/" + filename
    ensures filename == "" && '/' !in ext ==> path == "images/" + Storage.GenerateUuid(uuidRandom, nanos) + ext
  {
    if filename != "" then
      if Paths.IsName(filename) then UnderImages(filename); Paths.Join(["images", filename])
      else Paths.Join(["images", filename])
    else
      var id := Storage.GenerateUuid(uuidRandom, nanos);
      if '/' !in ext then
        NameWithExtension(id, ext);
        UnderImages(id + ext);
        assert "images/" + (id + ext) == "images/" + id + ext;
        Paths.Join(["images", id + ext])
      else Paths.Join(["images", id + ext])
  }

  /** A single name joined under "images" is the plain concatenation. */
  lemma UnderImages(name: string)
    requires Paths.IsName(name)
    ensures Paths.Join(["images", name]) == "images/" + name
  {
    Paths.JoinUnder("images", [name]);
    assert Paths.JoinSegs([name]) == name;
  }

  /** A file name, when given, decides the path alone: the extension, random bytes and clock are ignored. */
  lemma FilenameDecidesPath(filename: string, ext1: string, ext2: string,
                            r1: Option<seq<Byte>>, r2: Option<seq<Byte>>, n1: int, n2: int)
    requires filename != ""
    requires r1.Some? ==> |r1.value| == 16
    requires r2.Some? ==> |r2.value| == 16
    ensures GenerateFilePath(filename, ext1, r1, n1) == GenerateFilePath(filename, ext2, r2, n2)
    ensures Paths.IsName(filename) ==> GenerateFilePath(filename, ext1, r1, n1) == "images/" + filename
  {
    if Paths.IsName(filename) {
      Paths.JoinUnder("images", [filename]);
    }
  }

  /** A file name that climbs out with ".." escapes the "images" prefix: "../x" is stored at "x". */
  lemma FilenameClimbsOut(name: string, ext: string, r: Option<seq<Byte>>, nanos: int)
    requires Paths.IsName(name)
    requires r.Some? ==> |r.value| == 16
    ensures GenerateFilePath("../" + name, ext, r, nanos) == name
  {
    Paths.JoinClimbsOut("images", name);
  }

  lemma NameWithExtension(id: string, ext: string)
    requires id != [] && '/' !in id && id[0] != '.' && '/' !in ext
    ensures Paths.IsName(id + ext)
  {
    var name := id + ext;
    assert name[0] == id[0];
    forall k | 0 <= k < |name| ensures name[k] != '/' {
      if k < |id| { assert name[k] == id[k]; } else { assert name[k] == ext[k - |id|]; }
    }
    assert name != "." && name != "..";
  }

  // ---- the validation chain ----

  /** The outcome of checking a request: the first failed check's message, or the decoded image and its type. */
  datatype Validation = Rejected(message: string) | Accepted(data: seq<Byte>, mimeType: string)

  /** The five messages a request can be refused with. */
  const RejectionMessages: seq<string> :=
    ["Base64 content required", "Unsupported image type", "Invalid base64", "Image too large", "Invalid image content"]

  /**
   * The checks of ImageUploadHTTP in their order; every rejection is answered
   * with 400. Empty content is refused first, then a type off the allow-list,
   * then malformed base64, then an oversized payload, then a wrong signature;
   * an accepted request has passed every check on its normalised type.
   */
  function ValidateUpload(content: string, declaredType: string): (v: Validation)
    ensures content == "" ==> v == Rejected("Base64 content required")
    ensures content != "" && !IsAllowedType(NormalizeType(declaredType)) ==> v == Rejected("Unsupported image type")
    ensures content != "" && IsAllowedType(NormalizeType(declaredType)) && Base64.Decode(content).None? ==>
      v == Rejected("Invalid base64")
    ensures content != "" && IsAllowedType(NormalizeType(declaredType)) && Base64.Decode(content).Some? ==>
      var data := Base64.Decode(content).value;
      && (|data| > MaxImageSize ==> v == Rejected("Image too large"))
      && (|data| <= MaxImageSize && !IsValidImage(data, NormalizeType(declaredType)) ==>
            v == Rejected("Invalid image content"))
    ensures v.Rejected? ==> v.message in RejectionMessages
    ensures v.Accepted? ==>
      && content != "" && v.mimeType == NormalizeType(declaredType) && IsAllowedType(v.mimeType)
      && Base64.Decode(content) == Some(v.data)
      && |v.data| <= MaxImageSize && IsValidImage(v.data, v.mimeType)
  {
    var t := NormalizeType(declaredType);
    if content == "" then Rejected("Base64 content required")
    else if !IsAllowedType(t) then Rejected("Unsupported image type")
    else CheckDecoded(Base64.Decode(content), t)
  }

  /** The checks that follow decoding: well-formed base64, the size limit, the signature. */
  function CheckDecoded(decoded: Option<seq<Byte>>, t: string): (v: Validation)
    ensures decoded.None? ==> v == Rejected("Invalid base64")
    ensures decoded.Some? && |decoded.value| > MaxImageSize ==> v == Rejected("Image too large")
    ensures decoded.Some? && |decoded.value| <= MaxImageSize && !IsValidImage(decoded.value, t) ==>
      v == Rejected("Invalid image content")
    ensures v.Rejected? ==> v.message in RejectionMessages[2..]
    ensures v.Accepted? ==> decoded == Some(v.data) && v.mimeType == t && |v.data| <= MaxImageSize && IsValidImage(v.data, t)
  {
    match decoded
    case None => Rejected("Invalid base64")
    case Some(data) =>
      if |data| > MaxImageSize then Rejected("Image too large")
      else if !IsValidImage(data, t) then Rejected("Invalid image content")
      else Accepted(data, t)
  }

  /**
   * What an accepted request carries: a known type, a payload that is the
   * strict encoding of the decoded bytes, at most 10 MiB and at least twelve
   * bytes, whose leading bytes match that type's signature.
   */
  lemma AcceptedMeans(content: string, declaredType: string)
    requires ValidateUpload(content, declaredType).Accepted?
    ensures var v := ValidateUpload(content, declaredType);
      && IsAllowedType(v.mimeType) && v.mimeType == NormalizeType(declaredType)
      && Base64.Encode(v.data) == Base64.StripNewlines(content)
      && 12 <= |v.data| <= MaxImageSize
      && (v.mimeType == JpegType ==> v.data[..3] == JpegMagic)
      && (v.mimeType == PngType ==> v.data[..4] == PngMagic)
      && (v.mimeType == WebpType ==> v.data[..4] == RiffTag && v.data[8..12] == WebpTag)
  {
  }

  /** Conversely, a request meeting every check is accepted with exactly the decoded bytes. */
  lemma AcceptedWhenAllChecksPass(content: string, declaredType: string, data: seq<Byte>)
    requires content != "" && IsAllowedType(NormalizeType(declaredType))
    requires Base64.Decode(content) == Some(data)
    requires |data| <= MaxImageSize && IsValidImage(data, NormalizeType(declaredType))
    ensures ValidateUpload(content, declaredType) == Accepted(data, NormalizeType(declaredType))
  {
  }

  /** An empty payload is refused first, whatever the type says. */
  lemma EmptyContentFirst(declaredType: string)
    ensures ValidateUpload("", declaredType) == Rejected("Base64 content required")
  {
  }

  /** A payload of exactly 10 MiB passes the size check; one byte more does not. */
  lemma SizeLimitIsInclusive(content: string, declaredType: string, data: seq<Byte>)
    requires content != "" && IsAllowedType(NormalizeType(declaredType))
    requires Base64.Decode(content) == Some(data)
    ensures ValidateUpload(content, declaredType) == Rejected("Image too large") <==> |data| > MaxImageSize
  {
  }

  /** Ten bytes that start like a PNG are well-formed base64 of an allowed type, and still refused as content. */
  lemma TenBytePngRefused(data: seq<Byte>)
    requires |data| == 10 && HasPrefix(data, PngMagic)
    ensures ValidateUpload(Base64.Encode(data), "image/png") == Rejected("Invalid image content")
  {
    Base64.DecodeEncode(data);
    AllowedTypesAreNormal(PngType);
    assert Base64.Encode(data) != "";
  }

  // ---- the handler ----

  datatype UploadRequest = UploadRequest(content: string, mimeType: string, filename: string)

  datatype UploadResponse = UploadResponse(path: string, publicUrl: string, success: bool)

  /**
   * What a request draws from outside the process: whether the storage
   * client can be built, the random bytes for the name (None when the random
   * source fails) and for the token, the clock, the transport's verdict on
   * Write and Close, and url.PathEscape.
   */
  datatype UploadEnv = UploadEnv(clientOk: bool, uuidRandom: Option<seq<Byte>>, nanos: int,
                                 tokenRandom: seq<Byte>, writeOk: bool, closeOk: bool,
                                 pathEscape: string -> string)

  predicate WellFormedEnv(env: UploadEnv) {
    |env.tokenRandom| == 16 && (env.uuidRandom.Some? ==> |env.uuidRandom.value| == 16)
  }

  /**
   * ImageUploadHTTP after the JSON body has been read. A rejected request
   * gets its message with 400 and touches nothing; an accepted one is stored
   * at its path with its type and a fresh token, and the reply carries the
   * path and the public URL. A storage client that cannot be built or an
   * upload that fails gives 500 and leaves the bucket as it was.
   */
  method ImageUploadHTTP(cfg: Config, store: Storage.Bucket, req: UploadRequest, env: UploadEnv)
    returns (resp: Reply<UploadResponse>)
    requires WellFormedEnv(env)
    modifies store
    ensures match ValidateUpload(req.content, req.mimeType)
      case Rejected(msg) =>
        resp == ErrorReply(msg, StatusBadRequest) && store.objects == old(store.objects)
      case Accepted(data, t) =>
        var path := GenerateFilePath(req.filename, Extension(t), env.uuidRandom, env.nanos);
        var token := Storage.GenerateToken(env.tokenRandom);
        if !env.clientOk then
          resp == ErrorReply("Storage error", StatusInternalServerError) && store.objects == old(store.objects)
        else if !(env.writeOk && env.closeOk) then
          resp == ErrorReply("Upload failed", StatusInternalServerError) && store.objects == old(store.objects)
        else
          && store.objects == old(store.objects)[path := Storage.StoredObject(data, t, map[Storage.TokenMetadataKey := token])]
          && resp == OkReply(UploadResponse(path, Storage.PublicUrl(cfg.storageBucket, env.pathEscape(path), token), true))
  {
    var v, ext := CheckRequest(req);
    if v.Rejected? {
      return ErrorReply(v.message, StatusBadRequest);
    }
    var data, t := v.data, v.mimeType;
    var filePath := GenerateFilePath(req.filename, ext, env.uuidRandom, env.nanos);
    if !env.clientOk {
      return ErrorReply("Storage error", StatusInternalServerError);
    }
    var service := new Storage.StorageService(store, cfg.storageBucket, env.pathEscape);
    var r := service.UploadImage(data, filePath, t, env.tokenRandom, env.writeOk, env.closeOk);
    if r.Failure? {
      return ErrorReply("Upload failed", StatusInternalServerError);
    }
    return OkReply(UploadResponse(filePath, r.value, true));
  }

  /**
   * The first half of ImageUploadHTTP: the type normalised, then each check
   * in turn with an early return, then the extension switch.
   */
  method CheckRequest(req: UploadRequest) returns (v: Validation, ext: string)
    ensures v == ValidateUpload(req.content, req.mimeType)
    ensures v.Accepted? ==> ext == Extension(v.mimeType)
  {
    ext := "";
    var t := Strings.ToLower(Strings.TrimSpace(req.mimeType));
    if req.content == "" {
      return Rejected("Base64 content required"), ext;
    }
    if !(t == JpegType || t == PngType || t == WebpType) {
      return Rejected("Unsupported image type"), ext;
    }
    var decoded := Base64.Decode(req.content);
    if decoded.None? {
      return Rejected("Invalid base64"), ext;
    }
    var data := decoded.value;
    if |data| > MaxImageSize {
      return Rejected("Image too large"), ext;
    }
    if !IsValidImage(data, t) {
      return Rejected("Invalid image content"), ext;
    }
    ext := ".jpg";
    if t == PngType {
      ext := ".png";
    } else if t == WebpType {
      ext := ".webp";
    }
    return Accepted(data, t), ext;
  }
}
