/** `ResourceStorageService`: course PDFs, stored under the client's own filename. */
module ResourceStorage {
  import opened Wrappers
  import opened BlobStorage
  import Urls

  /** What `uploadResource` does to the container: only a null filename is refused, before any
      write; otherwise the bytes are written under that very filename, replacing whatever was
      there, with the client-declared content type, and the blob's URL is returned. */
  ghost predicate ResourceUploadOutcome(file: MultipartFile, containerUrl: string,
                                        before: map<string, Blob>, after: map<string, Blob>, r: Result<string, UploadError>)
  {
    match file.originalFilename
    case None => r == Failure(InvalidFilename) && after == before
    case Some(name) =>
      && r == Success(Urls.BlobUrl(containerUrl, name))
      && after == before[name := Blob(file.content, file.contentType)]
  }

  /** Uploading the same filename twice keeps only the second content, and the other blobs
      are those of the first state. */
  lemma SecondUploadReplacesFirst(f1: MultipartFile, f2: MultipartFile, containerUrl: string,
                                  s0: map<string, Blob>, s1: map<string, Blob>, s2: map<string, Blob>,
                                  r1: Result<string, UploadError>, r2: Result<string, UploadError>)
    requires f1.originalFilename.Some? && f1.originalFilename == f2.originalFilename
    requires ResourceUploadOutcome(f1, containerUrl, s0, s1, r1)
    requires ResourceUploadOutcome(f2, containerUrl, s1, s2, r2)
    ensures r1 == r2
    ensures s2 == s0[f1.originalFilename.value := Blob(f2.content, f2.contentType)]
  {
  }

  /** The returned URL gives the original filename back through `extractFilenameFromUrl`,
      for a filename without '/'. */
  lemma UploadedUrlNamesResource(file: MultipartFile, containerUrl: string,
                                 before: map<string, Blob>, after: map<string, Blob>, r: Result<string, UploadError>)
    requires ResourceUploadOutcome(file, containerUrl, before, after, r)
    requires file.originalFilename.Some? && '/' !in file.originalFilename.value
    ensures r.Success? && Urls.SlashedFilename(Some(r.value)) == file.originalFilename
  {
    Urls.FilenameOfBlobUrl(containerUrl, file.originalFilename.value);
  }

  class ResourceStorageService {
    const courseResources: BlobContainer

    constructor (courseResources: BlobContainer)
      ensures this.courseResources == courseResources
    {
      this.courseResources := courseResources;
    }

    /** `uploadResource`: no emptiness, size or type check, overwrite on. */
    method UploadResource(file: MultipartFile) returns (r: Result<string, UploadError>)
      modifies courseResources
      ensures ResourceUploadOutcome(file, courseResources.url, old(courseResources.blobs), courseResources.blobs, r)
    {
      if file.originalFilename.None? {
        return Failure(InvalidFilename);
      }
      var filename := file.originalFilename.value;
      courseResources.Upload(filename, file.content);
      courseResources.SetContentType(filename, file.contentType);
      r := Success(courseResources.BlobUrl(filename));
    }

    /** `deleteResource`: false, touching nothing, for a null or empty name; otherwise whether
        a blob of that name existed, which is then gone. */
    method DeleteResource(filename: Option<string>) returns (deleted: bool)
      modifies courseResources
      ensures filename.None? || filename.value == "" ==> !deleted && courseResources.blobs == old(courseResources.blobs)
      ensures filename.Some? && filename.value != "" ==>
        && deleted == (filename.value in old(courseResources.blobs))
        && courseResources.blobs == old(courseResources.blobs) - {filename.value}
    {
      if filename.None? || filename.value == "" {
        return false;
      }
      deleted := courseResources.DeleteIfExists(filename.value);
    }

    /** `extractFilenameFromUrl`: null for null and for any string without '/', "" included. */
    function ExtractFilenameFromUrl(url: Option<string>): (r: Option<string>)
      ensures r.Some? <==> url.Some? && '/' in url.value
      ensures r.Some? ==> Urls.IsLastSegment(url.value, r.value)
    {
      Urls.SlashedFilename(url)
    }
  }
}
