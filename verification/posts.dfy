/** A post of the listing endpoint, before and after the downloader reads it. */
module Posts {
  import opened Wrappers

  /** One element of the JSON array the listing endpoint returns. Only the
      keys the downloader reads are broken out; `others` holds the rest of the
      object, kept verbatim as part of the metadata. A key that is absent
      from the object is None. */
  datatype RawPost = RawPost(
    id: Option<int>,
    md5: Option<string>,
    fileUrl: Option<string>,
    sampleUrl: Option<string>,
    others: map<string, string>)

  /** A post as the downloader holds it: the raw object as its metadata and
      the image URL chosen by the thumbnail setting, None for deleted posts. */
  datatype Post = Post(id: int, metadata: RawPost, imageUrl: Option<string>, md5: string)

  /** Builds a post from a listing entry. Reading `id` or `md5` raises when
      the key is absent (None here); the image URL is read with a default of
      None, from `sample_url` in thumbnail mode and `file_url` otherwise. */
  function FromListing(p: RawPost, thumbnails: bool): (r: Option<Post>)
    ensures r.Some? <==> p.id.Some? && p.md5.Some?
    ensures r.Some? ==> r.value.id == p.id.value && r.value.md5 == p.md5.value
    ensures r.Some? ==> r.value.metadata == p
    ensures r.Some? && thumbnails ==> r.value.imageUrl == p.sampleUrl
    ensures r.Some? && !thumbnails ==> r.value.imageUrl == p.fileUrl
  {
    if p.id.None? || p.md5.None? then None
    else Some(Post(p.id.value, p, if thumbnails then p.sampleUrl else p.fileUrl, p.md5.value))
  }

  /** Converts the entries of a page in order up to, not including, the first
      one that cannot be converted. */
  function ConvertPrefix(entries: seq<RawPost>, thumbnails: bool): (r: seq<Post>)
    ensures |r| <= |entries|
    ensures forall i :: 0 <= i < |r| ==> FromListing(entries[i], thumbnails) == Some(r[i])
    ensures |r| < |entries| ==> FromListing(entries[|r|], thumbnails).None?
    decreases |entries|
  {
    if |entries| == 0 then []
    else match FromListing(entries[0], thumbnails)
      case None => []
      case Some(p) => [p] + ConvertPrefix(entries[1..], thumbnails)
  }
}
