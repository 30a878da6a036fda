/** File naming in `download_posts_from_queue`: the stem `{id}_{md5}`, the
    image extension taken from the URL, and the two output paths. */
module Naming {
  import opened Wrappers
  import opened Text
  import opened Decimal

  /** `f"{post.id}_{post.md5}"`. */
  function Stem(id: int, md5: string): string {
    IntToDecimal(id) + "_" + md5
  }

  /** `url.split('.')[-1]`. */
  function Extension(url: string): (ext: string)
    ensures '.' !in ext
    ensures |ext| <= |url| && ext == url[|url| - |ext|..]
    ensures |ext| < |url| ==> url[|url| - |ext| - 1] == '.'
  {
    LastPieceSuffix(url, '.');
    Last(Split(url, '.'))
  }

  /** `./{foldername}/images/{filename}.{image_extension}`. */
  function ImagePath(folder: string, stem: string, ext: string): string {
    "./" + folder + "/images/" + stem + "." + ext
  }

  /** `./{foldername}/metadata/{filename}.json`. */
  function MetadataPath(folder: string, stem: string): string {
    "./" + folder + "/metadata/" + stem + ".json"
  }

  /** The position of the first `c` in `s`. */
  function FirstIndex(s: string, c: char): (r: Option<nat>)
    ensures r.None? <==> c !in s
    ensures r.Some? ==> r.value < |s| && s[r.value] == c && c !in s[..r.value]
    decreases |s|
  {
    if |s| == 0 then None
    else if s[0] == c then Some(0)
    else match FirstIndex(s[1..], c)
      case None => None
      case Some(i) => Some(i + 1)
  }

  /** Reads a stem back into the post id and md5 it was made from. */
  function ParseStem(stem: string): Option<(int, string)> {
    match FirstIndex(stem, '_')
    case None => None
    case Some(i) =>
      match ParseInt(stem[..i])
      case None => None
      case Some(id) => Some((id, stem[i + 1..]))
  }

  /** The stem determines the id and md5: it is read back unchanged. */
  lemma StemRoundTrip(id: int, md5: string)
    ensures ParseStem(Stem(id, md5)) == Some((id, md5))
  {
    var d := IntToDecimal(id);
    var s := Stem(id, md5);
    assert '_' !in d;
    assert s[..|d|] == d && s[|d|] == '_';
    assert FirstIndex(s, '_') == Some(|d|);
    assert s[|d| + 1..] == md5;
    IntRoundTrip(id);
  }

  /** Two posts share a stem only when they share id and md5. */
  lemma StemInjective(id1: int, md51: string, id2: int, md52: string)
    requires Stem(id1, md51) == Stem(id2, md52)
    ensures id1 == id2 && md51 == md52
  {
    StemRoundTrip(id1, md51);
    StemRoundTrip(id2, md52);
  }

  /** The extension of an image path is the extension it was built with. */
  lemma ImagePathExtension(folder: string, stem: string, url: string)
    ensures Extension(ImagePath(folder, stem, Extension(url))) == Extension(url)
  {
    var ext := Extension(url);
    var head := "./" + folder + "/images/" + stem;
    assert ImagePath(folder, stem, ext) == head + ['.'] + ext;
    SplitAppend(head, ext, '.');
    SplitFree(ext, '.');
  }

  /** The middle of a three-part concatenation. */
  lemma Middle(a: string, b: string, c: string)
    ensures |a + b + c| == |a| + |b| + |c|
    ensures (a + b + c)[|a|..|a| + |b|] == b
  {
  }

  /** Equal image paths have equal extensions. */
  lemma SameExtension(folder: string, s1: string, url1: string, s2: string, url2: string)
    requires ImagePath(folder, s1, Extension(url1)) == ImagePath(folder, s2, Extension(url2))
    ensures Extension(url1) == Extension(url2)
  {
    ImagePathExtension(folder, s1, url1);
    ImagePathExtension(folder, s2, url2);
  }

  /** Equal image paths with equal extensions have equal stems. */
  lemma SameStem(folder: string, s1: string, s2: string, ext: string)
    requires ImagePath(folder, s1, ext) == ImagePath(folder, s2, ext)
    ensures s1 == s2
  {
    var prefix := "./" + folder + "/images/";
    var p := ImagePath(folder, s1, ext);
    assert p == prefix + s1 + ("." + ext);
    assert p == prefix + s2 + ("." + ext);
    Middle(prefix, s1, "." + ext);
    Middle(prefix, s2, "." + ext);
  }

  /** Image paths in one folder are distinct for posts with distinct (id,
      md5), whatever their URLs: no two such posts write the same file. */
  lemma ImagePathsDistinct(folder: string, id1: int, md51: string, url1: string,
                           id2: int, md52: string, url2: string)
    requires ImagePath(folder, Stem(id1, md51), Extension(url1))
          == ImagePath(folder, Stem(id2, md52), Extension(url2))
    ensures id1 == id2 && md51 == md52 && Extension(url1) == Extension(url2)
  {
    SameExtension(folder, Stem(id1, md51), url1, Stem(id2, md52), url2);
    SameStem(folder, Stem(id1, md51), Stem(id2, md52), Extension(url1));
    StemInjective(id1, md51, id2, md52);
  }

  /** Metadata paths in one folder are distinct for distinct (id, md5). */
  lemma MetadataPathsDistinct(folder: string, id1: int, md51: string, id2: int, md52: string)
    requires MetadataPath(folder, Stem(id1, md51)) == MetadataPath(folder, Stem(id2, md52))
    ensures id1 == id2 && md51 == md52
  {
    var s1, s2 := Stem(id1, md51), Stem(id2, md52);
    assert s1 == s2 by {
      var prefix := "./" + folder + "/metadata/";
      var p := MetadataPath(folder, s1);
      assert p == prefix + s1 + ".json";
      assert p == prefix + s2 + ".json";
      Middle(prefix, s1, ".json");
      Middle(prefix, s2, ".json");
    }
    StemInjective(id1, md51, id2, md52);
  }
}
