/** Replacing the image a record refers to (a course image or a profile image): what the
    container and the record's URL column become, in the order the controllers use and in the
    order that keeps the reference intact. */
module ImageReplacement {
  import opened Wrappers
  import opened BlobStorage
  import opened ImageStorage
  import Urls

  /** A record's image URL resolves when it holds no image (null or empty) or names, by its last
      segment, a blob of the container that exists. */
  ghost predicate Resolves(url: Option<string>, containerUrl: string, blobs: map<string, Blob>) {
    match Urls.ImageFilename(url)
    case None => true
    case Some(name) => name in blobs && url.value == Urls.BlobUrl(containerUrl, name)
  }

  /** The container once the blob an old URL names has been deleted (nothing to delete for a null
      or empty URL). */
  function WithoutOld(blobs: map<string, Blob>, oldUrl: Option<string>): (r: map<string, Blob>)
    ensures r.Keys <= blobs.Keys
    ensures Urls.ImageFilename(oldUrl).Some? ==> Urls.ImageFilename(oldUrl).value !in r
    ensures forall n | n in blobs && (Urls.ImageFilename(oldUrl).None? || n != Urls.ImageFilename(oldUrl).value) ::
      n in r && r[n] == blobs[n]
  {
    match Urls.ImageFilename(oldUrl)
    case None => blobs
    case Some(name) => blobs - {name}
  }

  /** The URL an accepted image is stored under. */
  function NewUrl(file: MultipartFile, prefix: string, uuid: string, containerUrl: string): string {
    Urls.BlobUrl(containerUrl, StoredName(file, prefix, uuid))
  }

  /** As the controllers do it: delete the old image, then upload the new one, then point the
      record at it. A refused file is reported after the deletion, so the record keeps its old URL
      while the old blob is already gone. */
  ghost predicate DeleteFirstOutcome(file: MultipartFile, prefix: string, uuid: string, containerUrl: string,
                                     oldUrl: Option<string>, before: map<string, Blob>,
                                     newUrl: Option<string>, after: map<string, Blob>, accepted: bool)
  {
    var cleared := WithoutOld(before, oldUrl);
    if Validate(file).None? then
      && accepted
      && newUrl == Some(NewUrl(file, prefix, uuid, containerUrl))
      && after == cleared[StoredName(file, prefix, uuid) := StoredBlob(file)]
    else
      !accepted && newUrl == oldUrl && after == cleared
  }

  /** Upload first, point the record at the new image, and only then delete the old one: a
      refused file changes nothing. */
  ghost predicate UploadFirstOutcome(file: MultipartFile, prefix: string, uuid: string, containerUrl: string,
                                     oldUrl: Option<string>, before: map<string, Blob>,
                                     newUrl: Option<string>, after: map<string, Blob>, accepted: bool)
  {
    if Validate(file).None? then
      && accepted
      && newUrl == Some(NewUrl(file, prefix, uuid, containerUrl))
      && after == WithoutOld(before[StoredName(file, prefix, uuid) := StoredBlob(file)], oldUrl)
    else
      !accepted && newUrl == oldUrl && after == before
  }

  /** As written, refusing the new file after the old one was deleted leaves the record naming a
      blob that no longer exists, whenever the record had an image. */
  lemma DeleteFirstDanglesOnRefusal(file: MultipartFile, prefix: string, uuid: string, containerUrl: string,
                                    oldUrl: Option<string>, before: map<string, Blob>,
                                    newUrl: Option<string>, after: map<string, Blob>, accepted: bool)
    requires DeleteFirstOutcome(file, prefix, uuid, containerUrl, oldUrl, before, newUrl, after, accepted)
    requires Validate(file).Some?
    requires Urls.ImageFilename(oldUrl).Some?
    ensures !accepted && newUrl == oldUrl
    ensures Urls.ImageFilename(oldUrl).value !in after
    ensures !Resolves(newUrl, containerUrl, after)
  {
  }

  /** One instance: a course whose image is stored, and an empty file sent to replace it. */
  lemma EmptyReplacementDangles(containerUrl: string, before: map<string, Blob>,
                                newUrl: Option<string>, after: map<string, Blob>, accepted: bool)
    requires "course_1.png" in before
    requires DeleteFirstOutcome(MultipartFile(Some("dog.png"), Some("image/png"), []), CoursePrefix, "2",
                                containerUrl, Some(Urls.BlobUrl(containerUrl, "course_1.png")), before,
                                newUrl, after, accepted)
    ensures Resolves(Some(Urls.BlobUrl(containerUrl, "course_1.png")), containerUrl, before)
    ensures newUrl == Some(Urls.BlobUrl(containerUrl, "course_1.png"))
    ensures !Resolves(newUrl, containerUrl, after)
  {
    var file := MultipartFile(Some("dog.png"), Some("image/png"), []);
    assert Validate(file) == Some(EmptyFile);
    Urls.FilenameOfBlobUrl(containerUrl, "course_1.png");
    DeleteFirstDanglesOnRefusal(file, CoursePrefix, "2", containerUrl, Some(Urls.BlobUrl(containerUrl, "course_1.png")),
                                before, newUrl, after, accepted);
  }

  /** Uploading first keeps the reference intact: with a fresh token, a record that resolved still
      resolves afterwards, a refused file changes nothing, and an accepted one leaves the old blob
      deleted. */
  lemma {:induction false} UploadFirstKeepsReference(file: MultipartFile, prefix: string, uuid: string, containerUrl: string,
                                                     oldUrl: Option<string>, before: map<string, Blob>,
                                                     newUrl: Option<string>, after: map<string, Blob>, accepted: bool)
    requires UploadFirstOutcome(file, prefix, uuid, containerUrl, oldUrl, before, newUrl, after, accepted)
    requires '/' !in prefix && '/' !in uuid
    requires FreshToken(before, prefix, uuid)
    requires Resolves(oldUrl, containerUrl, before)
    ensures Resolves(newUrl, containerUrl, after)
    ensures !accepted ==> newUrl == oldUrl && after == before
    ensures accepted && Urls.ImageFilename(oldUrl).Some? ==> Urls.ImageFilename(oldUrl).value !in after
  {
    if accepted {
      var name := StoredName(file, prefix, uuid);
      FreshTokenNoClash(before, file, prefix, uuid);
      UploadedUrlNamesBlob(containerUrl, file, prefix, uuid);
      assert Urls.ImageFilename(oldUrl).Some? ==> Urls.ImageFilename(oldUrl).value != name;
    }
  }

  /** For an accepted file with a fresh token the two orders end in the same state: the
      difference is confined to refusals. */
  lemma {:induction false} OrdersAgreeOnAcceptance(file: MultipartFile, prefix: string, uuid: string, containerUrl: string,
                                                   oldUrl: Option<string>, before: map<string, Blob>,
                                                   url1: Option<string>, after1: map<string, Blob>, accepted1: bool,
                                                   url2: Option<string>, after2: map<string, Blob>, accepted2: bool)
    requires DeleteFirstOutcome(file, prefix, uuid, containerUrl, oldUrl, before, url1, after1, accepted1)
    requires UploadFirstOutcome(file, prefix, uuid, containerUrl, oldUrl, before, url2, after2, accepted2)
    requires Validate(file).None?
    requires FreshToken(before, prefix, uuid)
    requires Resolves(oldUrl, containerUrl, before)
    ensures accepted1 && accepted2 && url1 == url2 && after1 == after2
  {
    var name := StoredName(file, prefix, uuid);
    FreshTokenNoClash(before, file, prefix, uuid);
    match Urls.ImageFilename(oldUrl)
    case None =>
    case Some(oldName) =>
      assert oldName != name;
      RemoveThenStore(before, oldName, name, StoredBlob(file));
  }

  /** Deleting one name and storing under another commute. */
  lemma RemoveThenStore(blobs: map<string, Blob>, removed: string, stored: string, blob: Blob)
    requires removed != stored
    ensures (blobs - {removed})[stored := blob] == blobs[stored := blob] - {removed}
  {
  }
}
