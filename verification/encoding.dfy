/** What the converter hands to the image codec: the colour mode it
    normalises a decoded image to (`prepare_mode`) and the keyword arguments
    of the AVIF save call (`save_avif`). Pixels stay opaque; only the mode
    name and the `info` dictionary of the decoded image are modelled. */
module Encoding {

  /** A value in the `info` dictionary of a decoded image or in the save
      parameters. Entries the converter never inspects are `Other`. */
  datatype Value =
    | Str(s: string)
    | Int(i: int)
    | Bool(b: bool)
    | Bytes(bytes: seq<bv8>)
    | Other(description: string)

  /** A decoded image as far as the converter looks at it. */
  datatype Image = Image(mode: string, info: map<string, Value>)

  /** The two modes the AVIF encoder is given. */
  datatype ColourMode = RGB | RGBA

  function ModeName(m: ColourMode): string
  {
    match m
    case RGB => "RGB"
    case RGBA => "RGBA"
  }

  /** `prepare_mode`: images in an alpha mode become RGBA, all others RGB. */
  function PrepareMode(mode: string): (r: ColourMode)
    ensures r == RGBA <==> mode in {"RGBA", "LA"}
  {
    if mode == "RGBA" || mode == "LA" then RGBA else RGB
  }

  /** An image already in one of the two target modes keeps its mode, so
      preparing an already prepared image changes nothing. */
  lemma PrepareModeFixesTargets(m: ColourMode, mode: string)
    ensures PrepareMode(ModeName(m)) == m
    ensures PrepareMode(ModeName(PrepareMode(mode))) == PrepareMode(mode)
  {
  }

  /** The keys `save_avif` may pass: four always, two depending on the
      image's metadata. */
  const BaseKeys: set<string> := {"format", "quality", "speed", "lossless"}
  const MetadataKeys: set<string> := {"exif", "icc_profile"}

  /** The keyword arguments `save_avif` builds: format, quality, speed and
      lossless always; the image's EXIF only when keep-EXIF is on and the
      image carries EXIF; its ICC profile whenever it carries one. */
  function SaveParameters(im: Image, quality: int, speed: int, lossless: bool, keepExif: bool): (p: map<string, Value>)
    ensures BaseKeys <= p.Keys <= BaseKeys + MetadataKeys
    ensures p["format"] == Str("AVIF") && p["quality"] == Int(quality)
    ensures p["speed"] == Int(speed) && p["lossless"] == Bool(lossless)
    ensures "exif" in p <==> keepExif && "exif" in im.info
    ensures "icc_profile" in p <==> "icc_profile" in im.info
    ensures forall k :: k in p && k in MetadataKeys ==> k in im.info && p[k] == im.info[k]
  {
    var base := map["format" := Str("AVIF"), "quality" := Int(quality), "speed" := Int(speed), "lossless" := Bool(lossless)];
    var withExif := if keepExif && "exif" in im.info then base["exif" := im.info["exif"]] else base;
    if "icc_profile" in im.info then withExif["icc_profile" := im.info["icc_profile"]] else withExif
  }

  /** Turning keep-EXIF off removes exactly the EXIF entry and nothing else:
      in particular the ICC profile is passed either way. */
  lemma KeepExifOnlyAffectsExif(im: Image, quality: int, speed: int, lossless: bool)
    ensures SaveParameters(im, quality, speed, lossless, false)
         == SaveParameters(im, quality, speed, lossless, true) - {"exif"}
  {
    var off := SaveParameters(im, quality, speed, lossless, false);
    var on := SaveParameters(im, quality, speed, lossless, true);
    assert off.Keys == on.Keys - {"exif"};
  }

  /** An image without EXIF or ICC entries is saved with the four base
      parameters only, whatever else its `info` holds. */
  lemma NoMetadataNoExtras(im: Image, quality: int, speed: int, lossless: bool, keepExif: bool)
    requires "exif" !in im.info && "icc_profile" !in im.info
    ensures SaveParameters(im, quality, speed, lossless, keepExif).Keys == BaseKeys
  {
  }
}
