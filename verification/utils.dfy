/** The pure helpers of the client's utility module: media classification
    by file-name extension and like-list membership. The relative-time
    formatter lives in module RelativeTime. */
module Utils {
  import opened JsString

  /** The extensions classified as images, in the order `imageExtensions` lists them. */
  const ImageExtensions: seq<string> := ["jpg", "jpeg", "png", "gif"]

  /** The extensions classified as videos. */
  const VideoExtensions: seq<string> := ["mp4", "mov", "avi", "mkv"]

  const Image := "image"
  const Video := "video"
  const Other := "other"

  /** `filename.split(".").pop().toLowerCase()`: the text after the last dot,
      lower-cased; a name without a dot is taken whole. */
  function FileExtension(fileName: string): (ext: string)
    ensures |ext| <= |fileName|
    ensures '.' !in ext
    ensures '.' !in fileName ==> ext == ToLower(fileName)
    ensures '.' in fileName ==>
              exists k :: 0 <= k < |fileName| && fileName[k] == '.'
                          && '.' !in fileName[k + 1..] && ext == ToLower(fileName[k + 1..])
  {
    TailAfterLastDot(fileName);
    ToLower(Last(Split(fileName, '.')))
  }

  /** Witness for the characterisation of `FileExtension`. */
  lemma TailAfterLastDot(fileName: string)
    ensures |Last(Split(fileName, '.'))| <= |fileName|
    ensures '.' !in fileName ==> Last(Split(fileName, '.')) == fileName
    ensures '.' in fileName ==>
              exists k :: 0 <= k < |fileName| && fileName[k] == '.'
                          && '.' !in fileName[k + 1..] && Last(Split(fileName, '.')) == fileName[k + 1..]
  {
    var pieces := Split(fileName, '.');
    var raw := Last(pieces);
    LastPieceIsTail(fileName, '.');
    assert raw in pieces;
    if '.' in fileName {
      var k := |fileName| - |raw| - 1;
      assert fileName[k + 1..] == raw;
    }
  }

  /** `getMediaType`: "image" or "video" when the extension is on the
      corresponding list, "other" for everything else. */
  function MediaType(fileName: string): (kind: string)
    ensures kind == Image <==> FileExtension(fileName) in ImageExtensions
    ensures kind == Video <==> FileExtension(fileName) in VideoExtensions
    ensures kind == Other <==> FileExtension(fileName) !in ImageExtensions + VideoExtensions
  {
    var ext := FileExtension(fileName);
    if ext in ImageExtensions then Image
    else if ext in VideoExtensions then Video
    else Other
  }

  /** `checkIsLiked`: whether `userId` occurs in `likeList`
      (`Array.prototype.includes`, a scan from the front). */
  method CheckIsLiked(likeList: seq<string>, userId: string) returns (liked: bool)
    ensures liked <==> userId in likeList
  {
    var i := 0;
    while i < |likeList|
      invariant 0 <= i <= |likeList|
      invariant userId !in likeList[..i]
    {
      if likeList[i] == userId {
        return true;
      }
      i := i + 1;
    }
    assert likeList[..i] == likeList;
    return false;
  }

  // ---------------------------------------------------------------- lemmas

  /** No extension is on both lists, so the classification is a function of
      the extension alone. */
  lemma ExtensionListsDisjoint(ext: string)
    ensures !(ext in ImageExtensions && ext in VideoExtensions)
  {
  }

  /** The classification is always one of the three kinds. */
  lemma MediaTypeIsOneOfThree(fileName: string)
    ensures MediaType(fileName) in {Image, Video, Other}
  {
  }

  /** Switching the ASCII case of letters in the file name never changes its
      classification, nor its extension. */
  lemma {:induction false} MediaTypeIgnoresAsciiCase(a: string, b: string)
    requires SameUpToAsciiCase(a, b)
    ensures FileExtension(a) == FileExtension(b)
    ensures MediaType(a) == MediaType(b)
  {
    ExtensionOfLowered(a);
    ExtensionOfLowered(b);
    ToLowerIgnoresAsciiCase(a, b);
  }

  /** The extension can equally be read off the lower-cased name. */
  lemma ExtensionOfLowered(name: string)
    ensures FileExtension(name) == Last(Split(ToLower(name), '.'))
  {
    SplitToLower(name);
  }

  /** A dotless name is its own extension: "PNG" classifies as an image. */
  lemma DotlessNameIsItsOwnExtension()
    ensures FileExtension("PNG") == "png"
    ensures MediaType("PNG") == Image
  {
    SplitWithoutSeparator("PNG", '.');
    assert ToLower("PNG") == "png";
    assert "png" in ImageExtensions;
  }

  /** Whatever comes before it, the text after a final dot is the last
      piece of the split. */
  lemma ExtensionAfterLastDot(name: string, ext: string)
    requires '.' !in ext
    ensures Last(Split(name + "." + ext, '.')) == ext
  {
    var s := name + "." + ext;
    var pieces := Split(s, '.');
    var t := Last(pieces);
    assert s[|name|] == '.';
    LastPieceIsTail(s, '.');
    assert '.' !in t by {
      assert t == pieces[|pieces| - 1];
    }
    assert |t| == |ext|;
    assert s[|s| - |ext|..] == ext;
  }

  /** A trailing dot gives the empty extension. */
  lemma TrailingDotGivesEmptyExtension(name: string)
    ensures FileExtension(name + ".") == ""
    ensures MediaType(name + ".") == Other
  {
    assert name + "." == name + "." + "";
    ExtensionAfterLastDot(name, "");
  }

  /** Only the text after the last dot counts, whatever its case and
      whatever comes before it ("a.b.MKV" is a video). */
  lemma UpperCaseVideoExtension(name: string)
    ensures FileExtension(name + ".MKV") == "mkv"
    ensures MediaType(name + ".MKV") == Video
  {
    assert name + ".MKV" == name + "." + "MKV";
    ExtensionAfterLastDot(name, "MKV");
    assert ToLower("MKV") == "mkv";
    assert "mkv" in VideoExtensions;
  }
}
