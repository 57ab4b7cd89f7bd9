/** `convert_one`: one source image to one outcome. The codec's behaviour
    for the item is given with it: opening, loading and mode preparation sit
    in one `try`, so the decode either yields an image or fails with the text
    of whatever raised there, the mode conversion included; the save either
    succeeds or fails with its text. */
module Convert {
  import opened Wrappers
  import Paths
  import Naming
  import Encoding

  /** One discovered source path together with what the codec does with it.
      `decoded` is the outcome of the whole first `try`: open, load and the
      conversion to the prepared mode. */
  datatype Item = Item(path: string, decoded: Result<Encoding.Image, string>, saveError: Option<string>)

  /** The per-run options `start_conversion` reads from the window. */
  datatype Options = Options(
    overwrite: bool,
    quality: int,
    speed: int,
    lossless: bool,
    keepExif: bool,
    prefix: Option<string>)

  /** What is handed to the encoder: output name in the destination
      directory, colour mode and keyword arguments. */
  datatype Request = Request(outName: string, mode: Encoding.ColourMode, params: map<string, Value>)

  type Value = Encoding.Value

  /** How one item ended. */
  datatype Outcome =
    | Skipped(reason: string)
    | Written(request: Request)
    | WriteFailed(request: Request, reason: string)
  {
    /** The value `convert_one` returns: `None` on success, the message otherwise. */
    function Message(): Option<string>
    {
      match this
      case Written(_) => None
      case Skipped(reason) => Some(reason)
      case WriteFailed(_, reason) => Some(reason)
    }

    /** An encoder call was made for this item. */
    predicate Attempted()
    {
      !Skipped?
    }
  }

  /** The stem an item's output is named after: the source stem, with the
      prefix and an underscore in front when a prefix is set. */
  function ItemStem(item: Item, opts: Options): string
  {
    Naming.OutputStem(opts.prefix, Paths.Stem(Paths.Name(item.path)))
  }

  function ConvertOne(item: Item, existing: set<string>, opts: Options): (r: Outcome)
    ensures r.Skipped? <==> item.decoded.Failure?
    ensures r.Written? <==> item.decoded.Success? && item.saveError.None?
    ensures r.Skipped? ==> r.reason == "Skip " + Paths.Name(item.path) + ": " + item.decoded.error
    ensures r.WriteFailed? ==> r.reason == "Failed " + Paths.Name(item.path) + ": " + item.saveError.value
    ensures r.Attempted() ==>
      && r.request.outName == Naming.ResolveName(existing, ItemStem(item, opts), opts.overwrite)
      && r.request.mode == Encoding.PrepareMode(item.decoded.value.mode)
      && r.request.params == Encoding.SaveParameters(item.decoded.value, opts.quality, opts.speed, opts.lossless, opts.keepExif)
    ensures r.Attempted() && !opts.overwrite ==> r.request.outName !in existing
    ensures !r.Written? ==> |r.reason| >= 5
  {
    match item.decoded
    case Failure(e) =>
      var msg := "Skip " + Paths.Name(item.path) + ": " + e;
      assert |msg| >= 5;
      Skipped(msg)
    case Success(im) =>
      var request := Request(
        Naming.ResolveName(existing, ItemStem(item, opts), opts.overwrite),
        Encoding.PrepareMode(im.mode),
        Encoding.SaveParameters(im, opts.quality, opts.speed, opts.lossless, opts.keepExif));
      match item.saveError
      case None => Written(request)
      case Some(e) =>
        var msg := "Failed " + Paths.Name(item.path) + ": " + e;
        assert |msg| >= 7;
        WriteFailed(request, msg)
  }
}
