/** Blob URLs and the three ways the backend recovers a blob name from one. */
module Urls {
  import opened Wrappers
  import Text

  /** `r` is the last path segment of `s`: a suffix of `s` holding no '/', which is either all of
      `s` or directly preceded by a '/'. */
  ghost predicate IsLastSegment(s: string, r: string) {
    && |r| <= |s|
    && r == s[|s| - |r|..]
    && '/' !in r
    && (|r| < |s| ==> s[|s| - |r| - 1] == '/')
  }

  /** At most one string is the last segment of `s`. */
  lemma LastSegmentUnique(s: string, r1: string, r2: string)
    requires IsLastSegment(s, r1) && IsLastSegment(s, r2)
    ensures r1 == r2
  {
  }

  /** `s.substring(s.lastIndexOf("/") + 1)`. */
  function AfterLastSlash(s: string): (r: string)
    ensures IsLastSegment(s, r)
  {
    s[Text.LastIndexOf(s, '/') + 1..]
  }

  /** The URL of blob `name` in the container at `containerUrl` (`BlobClient.getBlobUrl`). */
  function BlobUrl(containerUrl: string, name: string): string {
    containerUrl + "/" + name
  }

  /** The last segment of a blob URL is the blob's name, whenever the name holds no '/'. */
  lemma {:induction false} AfterLastSlashOfBlobUrl(containerUrl: string, name: string)
    requires '/' !in name
    ensures AfterLastSlash(BlobUrl(containerUrl, name)) == name
  {
    assert BlobUrl(containerUrl, name) == containerUrl + ['/'] + name;
    Text.LastIndexOfJoin(containerUrl, '/', name);
  }

  /** `ImageStorageService.extractFilenameFromUrl`: null for null or "", otherwise the text after
      the last '/' (the whole URL when it has none). */
  function ImageFilename(url: Option<string>): (r: Option<string>)
    ensures r.None? <==> url.None? || url.value == ""
    ensures r.Some? ==> IsLastSegment(url.value, r.value)
  {
    if url.None? || url.value == "" then None
    else Some(AfterLastSlash(url.value))
  }

  /** `ResourceStorageService.extractFilenameFromUrl`, `Course.getImageFilename` and
      `User.getProfileImageFilename`: null unless the URL holds a '/', then the text after the last one. */
  function SlashedFilename(url: Option<string>): (r: Option<string>)
    ensures r.Some? <==> url.Some? && '/' in url.value
    ensures r.Some? ==> IsLastSegment(url.value, r.value)
  {
    if url.Some? && '/' in url.value then Some(AfterLastSlash(url.value))
    else None
  }

  /** Both extractors give back the blob name from the URL the store made for it. */
  lemma FilenameOfBlobUrl(containerUrl: string, name: string)
    requires '/' !in name
    ensures ImageFilename(Some(BlobUrl(containerUrl, name))) == Some(name)
    ensures SlashedFilename(Some(BlobUrl(containerUrl, name))) == Some(name)
  {
    AfterLastSlashOfBlobUrl(containerUrl, name);
  }

  /** The two extractors agree on every URL holding a '/'; on a non-empty string without one the
      image variant returns the string itself while the other returns null. */
  lemma ExtractorsCompared(url: string)
    ensures '/' in url ==> ImageFilename(Some(url)) == SlashedFilename(Some(url))
    ensures '/' !in url && url != "" ==> ImageFilename(Some(url)) == Some(url) && SlashedFilename(Some(url)) == None
    ensures ImageFilename(Some("")) == SlashedFilename(Some("")) == None
    ensures ImageFilename(None) == SlashedFilename(None) == None
  {
    if '/' !in url && url != "" {
      assert IsLastSegment(url, url);
      LastSegmentUnique(url, url, ImageFilename(Some(url)).value);
    }
  }
}
