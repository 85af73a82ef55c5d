/**
 * The object-store adapter: a handle on one bucket of the remote store,
 * uploads that attach a fresh download token and return the public URL
 * carrying it, downloads, and the generators of random names and upload
 * paths. Random bytes, clock readings, url.PathEscape and the outcome of the
 * writer's Write and Close are parameters.
 */
module Storage {

  import opened Common
  import opened Hex
  import opened Decimal
  import Paths

  /** The metadata key under which the download token is stored. */
  const TokenMetadataKey: string := "firebaseStorageDownloadTokens"

  const PublicUrlHost: string := "https://firebasestorage.googleapis.com/v0/b/"

  datatype StoredObject = StoredObject(data: seq<Byte>, contentType: string, metadata: map<string, string>)

  /** The three wrapped errors the adapter returns. */
  datatype StorageError = WriteFailed | CloseFailed | DownloadFailed {
    function Prefix(): string {
      match this
      case WriteFailed => "upload failed"
      case CloseFailed => "failed to finalize upload"
      case DownloadFailed => "download failed"
    }
  }

  /** The objects of one bucket of the remote store, by path. */
  class Bucket {
    var objects: map<string, StoredObject>

    constructor (objects: map<string, StoredObject>)
      ensures this.objects == objects
    {
      this.objects := objects;
    }
  }

  /** What a download of `path` yields from the objects of a bucket. */
  function Fetch(objects: map<string, StoredObject>, path: string): Result<seq<Byte>, StorageError> {
    if path in objects then Success(objects[path].data) else Failure(DownloadFailed)
  }

  /** An object writer: its attributes are set before the data is written; Close commits the object. */
  class Writer {
    const store: Bucket
    const path: string
    var contentType: string
    var metadata: map<string, string>
    var written: seq<Byte>

    constructor (store: Bucket, path: string)
      ensures this.store == store && this.path == path
      ensures contentType == "" && metadata == map[] && written == []
    {
      this.store := store;
      this.path := path;
      contentType := "";
      metadata := map[];
      written := [];
    }

    /** Appends to the pending object; `ok` is whether the transport accepted the bytes. */
    method Write(data: seq<Byte>, ok: bool) returns (err: Option<StorageError>)
      modifies this`written
      ensures err == (if ok then None else Some(WriteFailed))
      ensures written == if ok then old(written) + data else old(written)
    {
      if ok {
        written := written + data;
        err := None;
      } else {
        err := Some(WriteFailed);
      }
    }

    /** Commits the object under `path`; when the commit fails, the bucket keeps what it had. */
    method Close(ok: bool) returns (err: Option<StorageError>)
      modifies store
      ensures err == (if ok then None else Some(CloseFailed))
      ensures store.objects ==
        if ok then old(store.objects)[path := StoredObject(written, contentType, metadata)]
        else old(store.objects)
    {
      if ok {
        store.objects := store.objects[path := StoredObject(written, contentType, metadata)];
        err := None;
      } else {
        err := Some(CloseFailed);
      }
    }
  }

  /** generateToken: sixteen random bytes as thirty-two lower-case hex characters, high nibble first. */
  function GenerateToken(random: seq<Byte>): (token: string)
    requires |random| == 16
    ensures |token| == 32 && AllLowerHex(token)
    ensures HexDecode(token) == Some(random)
  {
    HexRoundTrip(random);
    HexEncode(random)
  }

  /**
   * The public download URL of an object whose escaped path is `escapedPath`:
   * it starts with the store's host, and a token without '=' reads back from
   * its last query parameter.
   */
  function PublicUrl(bucket: string, escapedPath: string, token: string): (url: string)
    ensures url == PublicUrlHost + bucket + "/o/" + escapedPath + "?alt=media&token=" + token
    ensures |url| >= |PublicUrlHost| && url[..|PublicUrlHost|] == PublicUrlHost
    ensures '=' !in token ==> UrlToken(url) == token
  {
    var head := PublicUrlHost + bucket + "/o/" + escapedPath + "?alt=media&token";
    var url := PublicUrlHost + bucket + "/o/" + escapedPath + "?alt=media&token=" + token;
    assert url == head + "=" + token;
    assert url[..|PublicUrlHost|] == PublicUrlHost;
    if '=' !in token then UrlTokenAfterEquals(head, token); url else url
  }

  /** The value of the last query parameter: everything after the last '='. */
  function UrlToken(url: string): (t: string)
    ensures '=' !in t
    decreases |url|
  {
    if url == [] || url[|url| - 1] == '=' then ""
    else UrlToken(url[..|url| - 1]) + [url[|url| - 1]]
  }

  lemma {:induction false} UrlTokenAfterEquals(head: string, token: string)
    requires '=' !in token
    ensures UrlToken(head + "=" + token) == token
    decreases |token|
  {
    var url := head + "=" + token;
    if token != [] {
      assert url[..|url| - 1] == head + "=" + token[..|token| - 1];
      assert token[|token| - 1] in token;
      UrlTokenAfterEquals(head, token[..|token| - 1]);
    }
  }

  /** The token of a public URL reads back from its end, whatever the bucket and path. */
  lemma PublicUrlCarriesToken(bucket: string, escapedPath: string, random: seq<Byte>)
    requires |random| == 16
    ensures UrlToken(PublicUrl(bucket, escapedPath, GenerateToken(random))) == GenerateToken(random)
  {
    var token := GenerateToken(random);
    assert '=' !in token by {
      forall k | 0 <= k < |token| ensures token[k] != '=' {
        assert IsLowerHex(token[k]);
      }
    }
  }

  /** GenerateUUID: the hex of sixteen random bytes, or, when the random source fails, the clock's nanoseconds in decimal. */
  function GenerateUuid(random: Option<seq<Byte>>, nanos: int): (id: string)
    requires random.Some? ==> |random.value| == 16
    ensures random.Some? ==> |id| == 32 && AllLowerHex(id) && HexDecode(id) == random
    ensures random.None? ==> DecimalValue(id) == Some(nanos)
    ensures id != [] && '/' !in id && id[0] != '.'
  {
    match random
    case Some(bytes) =>
      HexRoundTrip(bytes);
      HexEncode(bytes)
    case None =>
      DecimalRoundTrip(nanos);
      DecimalString(nanos)
  }

  /** A calendar date as time.Format("2006/01/02") writes it: three path elements. */
  function DateElements(year: nat, month: nat, day: nat): (e: seq<string>)
    ensures |e| == 3 && Paths.AllNames(e)
    ensures forall k :: 0 <= k < 3 ==> AllDigits(e[k])
    ensures DigitsValue(e[0]) == year && DigitsValue(e[1]) == month && DigitsValue(e[2]) == day
    ensures |e[0]| == PaddedLength(|Digits(year)|, 4) && |e[1]| == PaddedLength(|Digits(month)|, 2) && |e[2]| == PaddedLength(|Digits(day)|, 2)
  {
    var y, m, d := PaddedNumber(year, 4), PaddedNumber(month, 2), PaddedNumber(day, 2);
    ThreeDigitNames(y, m, d);
    [y, m, d]
  }

  /** Three non-empty digit strings make three path elements, all digits. */
  lemma ThreeDigitNames(y: string, m: string, d: string)
    requires y != [] && AllDigits(y) && m != [] && AllDigits(m) && d != [] && AllDigits(d)
    ensures Paths.AllNames([y, m, d])
    ensures forall k :: 0 <= k < 3 ==> AllDigits([y, m, d][k])
  {
    DigitsAreName(y);
    DigitsAreName(m);
    DigitsAreName(d);
    var e := [y, m, d];
    forall k | 0 <= k < 3 ensures Paths.IsName(e[k]) && AllDigits(e[k]) {
      if k == 0 {} else if k == 1 {} else {}
    }
  }

  /** One zero-padded date field: `n` in decimal, left-padded with zeros to `width` digits, reading back as `n`. */
  function PaddedNumber(n: nat, width: nat): (s: string)
    ensures s != [] && AllDigits(s) && |s| == PaddedLength(|Digits(n)|, width)
    ensures DigitsValue(s) == n
  {
    DigitsRoundTrip(n);
    ZeroPadValue(Digits(n), width);
    ZeroPad(Digits(n), width)
  }

  lemma DigitsAreName(s: string)
    requires s != [] && AllDigits(s)
    ensures Paths.IsName(s)
  {
    assert IsDigit(s[0]);
    forall k | 0 <= k < |s| ensures s[k] != '/' {
      assert IsDigit(s[k]);
    }
  }

  /** A decimal number followed by an extension is a single path element. */
  lemma NumberWithExtIsName(n: int, ext: string)
    requires '/' !in ext
    ensures Paths.IsName(DecimalString(n) + ext)
  {
    var name := DecimalString(n) + ext;
    assert name[0] == DecimalString(n)[0];
    forall k | 0 <= k < |name| ensures name[k] != '/' {
      if k < |DecimalString(n)| {
        assert name[k] == DecimalString(n)[k];
      } else {
        assert name[k] == ext[k - |DecimalString(n)|];
      }
    }
  }

  /** The handle on one bucket that the storage client is built for. */
  class StorageService {
    const store: Bucket
    const bucket: string
    const pathEscape: string -> string

    constructor (store: Bucket, bucket: string, pathEscape: string -> string)
      ensures this.store == store && this.bucket == bucket && this.pathEscape == pathEscape
    {
      this.store := store;
      this.bucket := bucket;
      this.pathEscape := pathEscape;
    }

    /**
     * Stores `data` under `path` with the caller's content type and a fresh
     * token as its only metadata, then returns the public URL that carries the
     * same token. A failed Write or Close leaves the bucket as it was and
     * produces no URL.
     */
    method UploadImage(data: seq<Byte>, path: string, contentType: string, random: seq<Byte>,
                       writeOk: bool, closeOk: bool)
      returns (r: Result<string, StorageError>)
      requires |random| == 16
      modifies store
      ensures r.Success? <==> writeOk && closeOk
      ensures !writeOk ==> r == Failure(WriteFailed)
      ensures writeOk && !closeOk ==> r == Failure(CloseFailed)
      ensures r.Failure? ==> store.objects == old(store.objects)
      ensures r.Success? ==>
        var token := GenerateToken(random);
        && store.objects == old(store.objects)[path := StoredObject(data, contentType, map[TokenMetadataKey := token])]
        && r.value == PublicUrl(bucket, pathEscape(path), token)
        && UrlToken(r.value) == store.objects[path].metadata[TokenMetadataKey]
    {
      var token := GenerateToken(random);
      var wc := new Writer(store, path);
      wc.contentType := contentType;
      wc.metadata := map[TokenMetadataKey := token];
      var err := wc.Write(data, writeOk);
      if err.Some? {
        return Failure(err.value);
      }
      err := wc.Close(closeOk);
      if err.Some? {
        return Failure(err.value);
      }
      assert wc.written == data;
      var url := PublicUrl(bucket, pathEscape(path), token);
      PublicUrlCarriesToken(bucket, pathEscape(path), random);
      return Success(url);
    }

    /** Reads the whole object at `path`, or fails with a wrapped "download failed". */
    method DownloadImage(path: string) returns (r: Result<seq<Byte>, StorageError>)
      ensures r.Success? <==> path in store.objects
      ensures r.Success? ==> r.value == store.objects[path].data
      ensures r.Failure? ==> r.error == DownloadFailed
      ensures r == Fetch(store.objects, path)
    {
      if path in store.objects {
        r := Success(store.objects[path].data);
      } else {
        r := Failure(DownloadFailed);
      }
    }

    /**
     * images/<yyyy>/<mm>/<dd>/<nanos><ext>, where <ext> is the original
     * name's extension or ".jpg". The date and the nanoseconds are two
     * separate clock readings. The receiver plays no part.
     */
    static function GenerateUploadPath(originalName: string, year: nat, month: nat, day: nat, nanos: int): (p: string)
      ensures var ext := if Paths.Ext(originalName) == "" then ".jpg" else Paths.Ext(originalName);
        && p == Paths.JoinSegs(["images"] + DateElements(year, month, day) + [DecimalString(nanos) + ext])
        && Paths.Ext(p) == ext
    {
      var ext := if Paths.Ext(originalName) == "" then ".jpg" else Paths.Ext(originalName);
      var date := DateElements(year, month, day);
      ChosenExtension(originalName);
      NumberWithExtIsName(nanos, ext);
      UploadPathIsPlain(date, DecimalString(nanos) + ext);
      ExtOfJoined(["images"] + date, DecimalString(nanos), ext);
      Paths.Join(["images", Paths.JoinSegs(date), DecimalString(nanos) + ext])
    }
  }

  lemma ChosenExtension(originalName: string)
    ensures var ext := if Paths.Ext(originalName) == "" then ".jpg" else Paths.Ext(originalName);
      ext != [] && ext[0] == '.' && '.' !in ext[1..] && '/' !in ext
  {
    if Paths.Ext(originalName) == "" {
      assert ".jpg"[1..] == "jpg";
    }
  }

  lemma ExtOfJoined(dir: seq<string>, stem: string, ext: string)
    requires dir != []
    requires ext != [] && ext[0] == '.' && '.' !in ext[1..] && '/' !in ext
    ensures Paths.Ext(Paths.JoinSegs(dir + [stem + ext])) == ext
  {
    Paths.JoinSegsAppend(dir, [stem + ext]);
    assert Paths.JoinSegs([stem + ext]) == stem + ext;
    assert Paths.JoinSegs(dir) + "/" + (stem + ext) == (Paths.JoinSegs(dir) + "/" + stem) + ext;
    ExtOfSuffix(Paths.JoinSegs(dir) + "/" + stem, ext);
  }

  /** Joining "images", the date and a name cleans to the plain concatenation. */
  lemma UploadPathIsPlain(date: seq<string>, name: string)
    requires |date| == 3 && Paths.AllNames(date) && Paths.IsName(name)
    ensures Paths.Join(["images", Paths.JoinSegs(date), name]) == Paths.JoinSegs(["images"] + date + [name])
  {
    var all := ["images"] + date + [name];
    assert Paths.AllNames(all) by {
      forall k | 0 <= k < |all| ensures Paths.IsName(all[k]) {
        if 0 < k < 4 { assert all[k] == date[k - 1]; }
      }
    }
    Paths.CleanNames(all);
    Paths.JoinSegsAppend(["images"], date + [name]);
    Paths.JoinSegsAppend(date, [name]);
    assert ["images"] + date + [name] == ["images"] + (date + [name]);
    assert Paths.JoinSegs(["images", Paths.JoinSegs(date), name]) ==
      "images" + "/" + (Paths.JoinSegs(date) + "/" + name);
  }

  /** A suffix that starts with the only '.' after the last '/' is what Ext returns. */
  lemma {:induction false} ExtOfSuffix(head: string, ext: string)
    requires ext != [] && ext[0] == '.' && '.' !in ext[1..] && '/' !in ext
    ensures Paths.Ext(head + ext) == ext
    decreases |ext|
  {
    var p := head + ext;
    if |ext| > 1 {
      var shorter := ext[..|ext| - 1];
      assert p[..|p| - 1] == head + shorter;
      assert shorter[1..] == ext[1..|ext| - 1];
      assert ext[|ext| - 1] in ext[1..];
      ExtOfSuffix(head, shorter);
      assert shorter + [ext[|ext| - 1]] == ext;
    }
  }

  /** The object a download reads after an upload to the same path is the uploaded data; other paths are untouched. */
  lemma FetchAfterStore(objects: map<string, StoredObject>, path: string, obj: StoredObject, other: string)
    ensures Fetch(objects[path := obj], path) == Success(obj.data)
    ensures other != path ==> Fetch(objects[path := obj], other) == Fetch(objects, other)
  {
  }
}
