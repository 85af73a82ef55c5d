/**
 * The watermark handler: it downloads a picture and a watermark from the
 * bucket, tiles the scaled watermark over the picture, encodes the result
 * in the picture's own format (PNG, or JPEG at quality 90 for anything
 * else) and uploads it next to the original, in a "watermarked"
 * sub-directory. Decoding, resizing, overlaying and encoding pixels are
 * functions passed in as a codec.
 */
module Watermark {

  import opened Common
  import Paths
  import Storage
  import Tiling
  import Upload

  type Pos = n: nat | n > 0 witness 1

  datatype WatermarkRequest = WatermarkRequest(imagePath: string, watermarkPath: string)

  datatype WatermarkResponse = WatermarkResponse(watermarkedPath: string, success: bool)

  /** The two encoders the handler can choose between. */
  datatype Encoder = Png | Jpeg(quality: nat)

  /** A decoded image: its pixels, its size and the name of the format it was read from. */
  datatype Decoded<Img> = Decoded(image: Img, width: Pos, height: Pos, format: string)

  /**
   * The pixel work: image.Decode (None when no registered decoder accepts
   * the bytes), imaging.Resize to a given size, imaging.Overlay at half
   * opacity, and the PNG and JPEG encoders (None when encoding fails).
   */
  datatype Codec<!Img> = Codec(decode: seq<Byte> -> Option<Decoded<Img>>,
                              resize: (Img, nat, nat) -> Img,
                              overlay: (Img, Img, int, int) -> Img,
                              encode: (Img, Encoder) -> Option<seq<Byte>>)

  /** What a request draws from outside: whether the storage client can be built, the token's random bytes, the transport's verdicts, url.PathEscape. */
  datatype WatermarkEnv = WatermarkEnv(clientOk: bool, tokenRandom: seq<Byte>, writeOk: bool, closeOk: bool,
                                       pathEscape: string -> string)

  // ---- encoder and content type ----

  /** The format switch: PNG stays PNG, every other format is written as JPEG at quality 90. */
  function SelectEncoder(format: string): (e: Encoder)
    ensures e == Png <==> format == "png"
    ensures e != Png ==> e == Jpeg(90)
  {
    if format == "png" then Png else Jpeg(90)
  }

  /** The content type as the handler writes it: "image/" followed by the decoded format's name. */
  function ContentTypeAsWritten(format: string): (t: string)
    ensures |t| == 6 + |format| && t[..6] == "image/" && t[6..] == format
  {
    "image/" + format
  }

  /**
   * A picture read as GIF is written back as JPEG bytes, but the stored
   * object is labelled "image/gif".
   */
  lemma GifLabelledWrongly()
    ensures SelectEncoder("gif") == Jpeg(90)
    ensures ContentTypeAsWritten("gif") == "image/gif"
    ensures ContentTypeAsWritten("gif") != EncodedContentType(SelectEncoder("gif"))
  {
    assert ContentTypeAsWritten("gif")[6] == 'g' && EncodedContentType(Jpeg(90))[6] == 'j';
  }

  /** The content type of the bytes actually produced: "image/png" or "image/jpeg". */
  function EncodedContentType(e: Encoder): (t: string)
    ensures t == Upload.PngType <==> e == Png
    ensures t == Upload.JpegType <==> e.Jpeg?
  {
    if e == Png then Upload.PngType else Upload.JpegType
  }

  /**
   * The corrected label names the encoder's output and is one the upload
   * handler accepts; for PNG and JPEG pictures it is the label the handler
   * writes.
   */
  lemma EncodedContentTypeAgrees(format: string)
    ensures Upload.IsAllowedType(EncodedContentType(SelectEncoder(format)))
    ensures format == "png" || format == "jpeg" ==>
      EncodedContentType(SelectEncoder(format)) == ContentTypeAsWritten(format)
  {
  }

  // ---- the output path ----

  /**
   * filepath.Join(filepath.Dir(p), "watermarked", filepath.Base(p)): a
   * non-empty, clean path that depends on `p` alone.
   */
  function OutputPath(p: string): (out: string)
    ensures out != "" && Paths.Clean(out) == out
  {
    var elems := [Paths.Dir(p), "watermarked", Paths.Base(p)];
    assert elems[1] != "";
    Paths.Join(elems)
  }

  /**
   * A path made of names gets "watermarked" inserted before its last
   * element, so the output never replaces the original.
   */
  lemma OutputPathOfNested(dirs: seq<string>, name: string)
    requires dirs != [] && Paths.AllNames(dirs) && Paths.IsName(name)
    ensures OutputPath(Paths.JoinSegs(dirs + [name])) == Paths.JoinSegs(dirs + ["watermarked", name])
    ensures OutputPath(Paths.JoinSegs(dirs + [name])) != Paths.JoinSegs(dirs + [name])
  {
    var d := Paths.JoinSegs(dirs);
    Paths.DirBaseOfJoined(dirs, name);
    var all := dirs + ["watermarked", name];
    assert Paths.AllNames(all) by {
      forall k | 0 <= k < |all| ensures Paths.IsName(all[k]) {
        if k < |dirs| { assert all[k] == dirs[k]; }
      }
    }
    Paths.CleanNames(all);
    Paths.JoinSegsAppend(dirs, ["watermarked", name]);
    Paths.JoinSegsAppend(dirs, [name]);
    assert Paths.JoinSegs(["watermarked", name]) == "watermarked" + "/" + name;
    assert Paths.JoinSegs([d, "watermarked", name]) == d + "/" + ("watermarked" + "/" + name);
    Paths.JoinSegsStartsWithFirst(dirs);
    assert |Paths.JoinSegs(all)| != |Paths.JoinSegs(dirs + [name])|;
  }

  /** A bare file name gets the "watermarked" directory in front of it. */
  lemma OutputPathOfName(name: string)
    requires Paths.IsName(name)
    ensures OutputPath(name) == "watermarked/" + name
  {
    Paths.DirBaseOfName(name);
    assert OutputPath(name) == Paths.Join([".", "watermarked", name]);
    DotJoinCleans(name);
  }

  lemma DotJoinCleans(name: string)
    requires Paths.IsName(name)
    ensures Paths.Join([".", "watermarked", name]) == "watermarked/" + name
  {
    var segs := [".", "watermarked", name];
    var p := Paths.JoinSegs(segs);
    assert Paths.Join(segs) == Paths.Clean(p);
    UnderWatermarked(name);
    assert segs[1..] == ["watermarked", name];
    assert p == "." + "/" + Paths.JoinSegs(["watermarked", name]);
    assert p[0] == '.';
    DotPrefixFolds(name);
  }

  lemma UnderWatermarked(name: string)
    ensures Paths.JoinSegs(["watermarked", name]) == "watermarked/" + name
  {
    assert ["watermarked", name][1..] == [name];
    assert Paths.JoinSegs([name]) == name;
  }

  lemma DotPrefixFolds(name: string)
    requires Paths.IsName(name)
    ensures Paths.Fold([], Paths.Split(Paths.JoinSegs([".", "watermarked", name])), false) == ["watermarked", name]
  {
    var segs := [".", "watermarked", name];
    Paths.SplitJoinSegs(segs);
    assert Paths.Step([], ".", false) == [];
    assert segs[1..] == ["watermarked", name];
    Paths.FoldNormal([], ["watermarked", name], false);
    assert [] + ["watermarked", name] == ["watermarked", name];
  }

  /** "images/a.png" is watermarked into "images/watermarked/a.png". */
  lemma OutputPathExample(p: string)
    requires p == "images/a.png"
    ensures OutputPath(p) == "images/watermarked/a.png"
  {
    ExampleSegments(p);
    OutputPathOfNested(["images"], "a.png");
  }

  lemma ExampleSegments(p: string)
    requires p == "images/a.png"
    ensures Paths.JoinSegs(["images"] + ["a.png"]) == p
    ensures Paths.JoinSegs(["images"] + ["watermarked", "a.png"]) == "images/watermarked/a.png"
    ensures Paths.AllNames(["images"]) && Paths.IsName("a.png")
  {
    assert ["images"] + ["a.png"] == ["images", "a.png"];
    assert ["images"] + ["watermarked", "a.png"] == ["images", "watermarked", "a.png"];
  }

  // ---- rendering ----

  /** The outcome of the pixel stage: a failure's message and status, or the encoded bytes and their label. */
  datatype Rendering = RenderFailed(message: string, status: nat) | Rendered(bytes: seq<Byte>, contentType: string)

  /**
   * The scaled watermark's size: a quarter of the picture's width, and the
   * height that keeps the watermark's aspect ratio. The width is clamped to
   * one pixel, so pictures narrower than four pixels get a one-pixel-wide mark.
   */
  function MarkDims(baseWidth: nat, markWidth: Pos, markHeight: Pos): (d: (nat, nat))
    ensures d.0 + d.1 / 2 > 0 && d.1 + d.1 / 2 > 0
    ensures baseWidth >= 4 ==> d == Tiling.ResizedDims(Tiling.ScaledWidth(baseWidth), markWidth, markHeight)
    ensures baseWidth < 4 ==> d == Tiling.ResizedDims(1, markWidth, markHeight)
  {
    Tiling.CorrectedStepsArePositive(baseWidth, markWidth, markHeight);
    Tiling.ResizedDims(Tiling.CorrectedScaledWidth(baseWidth), markWidth, markHeight)
  }

  /**
   * Decode both images (the picture first), scale the watermark, tile it
   * over the picture and encode the result in the picture's format.
   */
  function Render<Img>(imgData: seq<Byte>, markData: seq<Byte>, codec: Codec<Img>): (r: Rendering)
    ensures codec.decode(imgData).None? ==> r == RenderFailed("Invalid image", StatusBadRequest)
    ensures codec.decode(imgData).Some? && codec.decode(markData).None? ==> r == RenderFailed("Invalid watermark", StatusBadRequest)
    ensures codec.decode(imgData).Some? && codec.decode(markData).Some? ==>
      var base, mark := codec.decode(imgData).value, codec.decode(markData).value;
      var d := MarkDims(base.width, mark.width, mark.height);
      var plan := Tiling.Plan(base.width, base.height, d.0 + d.1 / 2, d.1 + d.1 / 2);
      var e := SelectEncoder(base.format);
      match codec.encode(Tiling.ApplyAll(base.image, codec.resize(mark.image, d.0, d.1), codec.overlay, plan), e)
      case Some(bytes) => r == Rendered(bytes, EncodedContentType(e))
      case None => r == RenderFailed("Encoding failed", StatusInternalServerError)
    ensures r.RenderFailed? ==>
      (r.status == StatusBadRequest <==> codec.decode(imgData).None? || codec.decode(markData).None?)
    ensures r.RenderFailed? && r.status != StatusBadRequest ==> r == RenderFailed("Encoding failed", StatusInternalServerError)
    ensures r.Rendered? ==> Upload.IsAllowedType(r.contentType)
  {
    match codec.decode(imgData)
    case None => RenderFailed("Invalid image", StatusBadRequest)
    case Some(base) =>
      match codec.decode(markData)
      case None => RenderFailed("Invalid watermark", StatusBadRequest)
      case Some(mark) =>
        var d := MarkDims(base.width, mark.width, mark.height);
        var small := codec.resize(mark.image, d.0, d.1);
        var plan := Tiling.Plan(base.width, base.height, d.0 + d.1 / 2, d.1 + d.1 / 2);
        var e := SelectEncoder(base.format);
        match codec.encode(Tiling.ApplyAll(base.image, small, codec.overlay, plan), e)
        case None => RenderFailed("Encoding failed", StatusInternalServerError)
        case Some(bytes) => Rendered(bytes, EncodedContentType(e))
  }

  /**
   * A rendered picture is the encoder's output for the picture with the
   * watermark laid at exactly the grid points on it, and it is labelled with
   * the type of that encoder.
   */
  lemma RenderedMeans<Img>(imgData: seq<Byte>, markData: seq<Byte>, codec: Codec<Img>)
    requires Render(imgData, markData, codec).Rendered?
    ensures codec.decode(imgData).Some? && codec.decode(markData).Some?
    ensures var base, mark := codec.decode(imgData).value, codec.decode(markData).value;
      var d := MarkDims(base.width, mark.width, mark.height);
      var plan := Tiling.Plan(base.width, base.height, d.0 + d.1 / 2, d.1 + d.1 / 2);
      && (forall p :: p in plan <==>
            0 <= p.x < base.width && 0 <= p.y < base.height &&
            p.x % (d.0 + d.1 / 2) == 0 && p.y % (d.1 + d.1 / 2) == 0)
      && Tiling.Ascending(plan)
      && codec.encode(Tiling.ApplyAll(base.image, codec.resize(mark.image, d.0, d.1), codec.overlay, plan),
                      SelectEncoder(base.format)) == Some(Render(imgData, markData, codec).bytes)
      && (Render(imgData, markData, codec).contentType == Upload.PngType <==> base.format == "png")
  {
    var base, mark := codec.decode(imgData).value, codec.decode(markData).value;
    var d := MarkDims(base.width, mark.width, mark.height);
    var sx, sy := d.0 + d.1 / 2, d.1 + d.1 / 2;
    var e := SelectEncoder(base.format);
    var encoded := codec.encode(Tiling.ApplyAll(base.image, codec.resize(mark.image, d.0, d.1), codec.overlay,
                                                Tiling.Plan(base.width, base.height, sx, sy)), e);
    assert encoded.Some? && Render(imgData, markData, codec) == Rendered(encoded.value, EncodedContentType(e));
    forall p | true
      ensures p in Tiling.Plan(base.width, base.height, sx, sy) <==>
        0 <= p.x < base.width && 0 <= p.y < base.height && p.x % sx == 0 && p.y % sy == 0
    {
      Tiling.PlanMembers(base.width, base.height, sx, sy, p);
    }
    Tiling.PlanOrdered(base.width, base.height, sx, sy);
  }

  // ---- the handler ----

  /**
   * WatermarkHTTP after the JSON body has been read. Missing paths give 400;
   * a storage client that cannot be built, a missing object, a failed
   * encoding or a failed upload give 500; an undecodable picture or
   * watermark gives 400. Only a full success writes to the bucket: the
   * rendered bytes go to the output path with a fresh token, and the reply
   * carries the public URL.
   */
  method WatermarkHTTP<Img>(cfg: Upload.Config, store: Storage.Bucket, req: WatermarkRequest,
                            env: WatermarkEnv, codec: Codec<Img>)
    returns (resp: Reply<WatermarkResponse>)
    requires |env.tokenRandom| == 16
    modifies store
    ensures req.imagePath == "" || req.watermarkPath == "" ==>
      resp == ErrorReply("Both paths required", StatusBadRequest) && store.objects == old(store.objects)
    ensures req.imagePath != "" && req.watermarkPath != "" && !env.clientOk ==>
      resp == ErrorReply("Storage error", StatusInternalServerError) && store.objects == old(store.objects)
    ensures req.imagePath != "" && req.watermarkPath != "" && env.clientOk &&
            (req.imagePath !in old(store.objects) || req.watermarkPath !in old(store.objects)) ==>
      resp == ErrorReply("Download failed", StatusInternalServerError) && store.objects == old(store.objects)
    ensures req.imagePath != "" && req.watermarkPath != "" && env.clientOk &&
            req.imagePath in old(store.objects) && req.watermarkPath in old(store.objects) ==>
      var rendering := Render(old(store.objects)[req.imagePath].data, old(store.objects)[req.watermarkPath].data, codec);
      var out := OutputPath(req.imagePath);
      var token := Storage.GenerateToken(env.tokenRandom);
      match rendering
      case RenderFailed(msg, status) =>
        resp == ErrorReply(msg, status) && store.objects == old(store.objects)
      case Rendered(bytes, contentType) =>
        if !(env.writeOk && env.closeOk) then
          resp == ErrorReply("Upload failed", StatusInternalServerError) && store.objects == old(store.objects)
        else
          && store.objects == old(store.objects)[out := Storage.StoredObject(bytes, contentType, map[Storage.TokenMetadataKey := token])]
          && resp == OkReply(WatermarkResponse(Storage.PublicUrl(cfg.storageBucket, env.pathEscape(out), token), true))
  {
    if req.imagePath == "" || req.watermarkPath == "" {
      return ErrorReply("Both paths required", StatusBadRequest);
    }
    if !env.clientOk {
      return ErrorReply("Storage error", StatusInternalServerError);
    }
    var service := new Storage.StorageService(store, cfg.storageBucket, env.pathEscape);
    // the two downloads run side by side in the handler; either failing fails both
    var imgData := service.DownloadImage(req.imagePath);
    var markData := service.DownloadImage(req.watermarkPath);
    if imgData.Failure? || markData.Failure? {
      return ErrorReply("Download failed", StatusInternalServerError);
    }
    var rendering := RenderStep(imgData.value, markData.value, codec);
    if rendering.RenderFailed? {
      return ErrorReply(rendering.message, rendering.status);
    }
    var outputPath := OutputPath(req.imagePath);
    var r := service.UploadImage(rendering.bytes, outputPath, rendering.contentType,
                                 env.tokenRandom, env.writeOk, env.closeOk);
    if r.Failure? {
      return ErrorReply("Upload failed", StatusInternalServerError);
    }
    return OkReply(WatermarkResponse(r.value, true));
  }

  /** The pixel stage of the handler, step by step, with the tiling loops of Tiling.Tile. */
  method RenderStep<Img>(imgData: seq<Byte>, markData: seq<Byte>, codec: Codec<Img>) returns (r: Rendering)
    ensures r == Render(imgData, markData, codec)
  {
    var decodedBase := codec.decode(imgData);
    if decodedBase.None? {
      return RenderFailed("Invalid image", StatusBadRequest);
    }
    var base := decodedBase.value;
    var decodedMark := codec.decode(markData);
    if decodedMark.None? {
      return RenderFailed("Invalid watermark", StatusBadRequest);
    }
    var mark := decodedMark.value;
    var d := MarkDims(base.width, mark.width, mark.height);
    var small := codec.resize(mark.image, d.0, d.1);
    var watermarked := Tiling.Tile(base.image, small, base.width, base.height, d.0, d.1, codec.overlay);
    var e := SelectEncoder(base.format);
    var encoded := codec.encode(watermarked, e);
    if encoded.None? {
      return RenderFailed("Encoding failed", StatusInternalServerError);
    }
    return Rendered(encoded.value, EncodedContentType(e));
  }
}
