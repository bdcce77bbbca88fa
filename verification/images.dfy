/** `ImageStorageService`: validation, naming and storage of profile and course images. */
module ImageStorage {
  import opened Wrappers
  import opened BlobStorage
  import Text
  import Urls

  /** The image extensions accepted, lower case with the dot. */
  const AllowedExtensions: seq<string> := [".jpg", ".jpeg", ".png", ".gif", ".bmp"]

  /** The largest accepted image: 2 MiB. */
  const MaxFileSize: nat := 2 * 1024 * 1024

  const OctetStream: string := "application/octet-stream"

  /** The blob-name prefixes of the two image kinds. */
  const ProfilePrefix: string := "profile"
  const CoursePrefix: string := "course"

  /** `getFileExtension`: "" for a null name or one without '.', otherwise the name's suffix
      from its last '.', lower-cased. */
  function FileExtension(filename: Option<string>): (ext: string)
    ensures ext == "" <==> filename.None? || '.' !in filename.value
    ensures ext != "" ==>
      var f := filename.value;
      && |ext| <= |f|
      && ext[0] == '.'
      && '.' !in ext[1..]
      && ext == Text.ToLower(f[|f| - |ext|..])
  {
    if filename.None? || '.' !in filename.value then ""
    else
      var f := filename.value;
      var suffix := f[Text.LastIndexOf(f, '.')..];
      Text.ToLowerKeepsNonLetter(suffix, '.');
      assert forall i | 1 <= i < |suffix| :: suffix[i] != '.' by {
        assert '.' !in f[Text.LastIndexOf(f, '.') + 1..];
        forall i | 1 <= i < |suffix| ensures suffix[i] != '.' {
          assert suffix[i] == f[Text.LastIndexOf(f, '.') + 1..][i - 1];
        }
      }
      Text.ToLower(suffix)
  }

  /** Extensions come out lower case already, so lowering them again changes nothing. */
  lemma FileExtensionIsLower(filename: Option<string>)
    ensures Text.ToLower(FileExtension(filename)) == FileExtension(filename)
  {
    var ext := FileExtension(filename);
    if ext != "" {
      var f := filename.value;
      Text.ToLowerIdempotent(f[|f| - |ext|..]);
    }
  }

  /** `validateFile`: the first failed check, in the source's order, or None when the file is
      acceptable. */
  function Validate(file: MultipartFile): (r: Option<UploadError>)
    ensures r == Some(EmptyFile) <==> file.IsEmpty()
    ensures r == Some(FileTooLarge) <==> !file.IsEmpty() && file.Size() > MaxFileSize
    ensures r == Some(InvalidFilename) <==> !file.IsEmpty() && file.Size() <= MaxFileSize && !NamePresent(file)
    ensures r == Some(TypeNotAllowed) <==>
      !file.IsEmpty() && file.Size() <= MaxFileSize && NamePresent(file) && FileExtension(file.originalFilename) !in AllowedExtensions
    ensures r.None? <==> Acceptable(file)
  {
    NamePresentIff(file);
    FileExtensionIsLower(file.originalFilename);
    if file.IsEmpty() then Some(EmptyFile)
    else if file.Size() > MaxFileSize then Some(FileTooLarge)
    else if file.originalFilename.None? || Text.Trim(file.originalFilename.value) == "" then Some(InvalidFilename)
    else if Text.ToLower(FileExtension(file.originalFilename)) !in AllowedExtensions then Some(TypeNotAllowed)
    else None
  }

  /** The filename is there and is not blank after trimming. */
  predicate NamePresent(file: MultipartFile) {
    file.originalFilename.Some? && Text.HasVisible(file.originalFilename.value)
  }

  lemma NamePresentIff(file: MultipartFile)
    ensures NamePresent(file) <==> file.originalFilename.Some? && Text.Trim(file.originalFilename.value) != ""
  {
    if file.originalFilename.Some? {
      Text.TrimEmptyIff(file.originalFilename.value);
    }
  }

  /** The size limit is inclusive: exactly 2 MiB passes the size check, one byte more fails it. */
  lemma SizeLimitIsInclusive(name: Option<string>, contentType: Option<string>, content: seq<Byte>)
    ensures |content| == MaxFileSize ==> Validate(MultipartFile(name, contentType, content)) != Some(FileTooLarge)
    ensures |content| == MaxFileSize + 1 ==> Validate(MultipartFile(name, contentType, content)) == Some(FileTooLarge)
  {
  }

  /** The extension of `stem.tail`, where `tail` has no dot, is ".tail" lower-cased. */
  lemma FileExtensionOfJoin(stem: string, tail: string)
    requires '.' !in tail
    ensures FileExtension(Some(stem + ['.'] + tail)) == Text.ToLower(['.'] + tail)
  {
    var f := stem + ['.'] + tail;
    Text.LastIndexOfJoin(stem, '.', tail);
    assert f[|stem|..] == ['.'] + tail;
  }

  /** The extension check ignores case: "CAT.PNG" is accepted. */
  lemma UpperCaseExtensionAccepted()
    ensures Validate(MultipartFile(Some("CAT.PNG"), None, [0])).None?
  {
    var f := "CAT.PNG";
    var file := MultipartFile(Some(f), None, [0]);
    assert FileExtension(Some(f)) == ".png" by {
      assert f == "CAT" + ['.'] + "PNG";
      FileExtensionOfJoin("CAT", "PNG");
      assert Text.ToLower(['.'] + "PNG") == ".png";
    }
    assert NamePresent(file) by {
      assert !Text.IsTrimmed(f[0]);
    }
    assert Acceptable(file);
  }

  /** A name without a dot has the empty extension, which is not allowed. */
  lemma NameWithoutDotRefused()
    ensures FileExtension(Some("photo")) == ""
    ensures Validate(MultipartFile(Some("photo"), None, [0])) == Some(TypeNotAllowed)
  {
    var file := MultipartFile(Some("photo"), None, [0]);
    assert NamePresent(file) by {
      assert !Text.IsTrimmed("photo"[0]);
    }
    assert FileExtension(Some("photo")) == "";
  }

  /** A name ending in a dot has the extension ".", which is not allowed. */
  lemma NameEndingInDotRefused()
    ensures FileExtension(Some("photo.")) == "."
    ensures Validate(MultipartFile(Some("photo."), None, [0])) == Some(TypeNotAllowed)
  {
    var file := MultipartFile(Some("photo."), None, [0]);
    assert FileExtension(Some("photo.")) == "." by {
      assert "photo." == "photo" + ['.'] + "";
      FileExtensionOfJoin("photo", "");
      assert Text.ToLower(['.'] + "") == ".";
    }
    assert NamePresent(file) by {
      assert !Text.IsTrimmed("photo."[0]);
    }
  }

  /** A file every check accepts. */
  predicate Acceptable(file: MultipartFile) {
    && !file.IsEmpty()
    && file.Size() <= MaxFileSize
    && NamePresent(file)
    && FileExtension(file.originalFilename) in AllowedExtensions
  }

  /** `generateUniqueFilename`: `prefix + "_" + uuid + extension`. */
  function GeneratedName(prefix: string, uuid: string, extension: string): (name: string)
    ensures prefix + "_" + uuid <= name
    ensures |name| == |prefix| + 1 + |uuid| + |extension|
    ensures name[|name| - |extension|..] == extension
  {
    prefix + "_" + uuid + extension
  }

  /** The blob name an accepted `file` is stored under. */
  function StoredName(file: MultipartFile, prefix: string, uuid: string): string {
    GeneratedName(prefix, uuid, FileExtension(file.originalFilename))
  }

  /** The blob an accepted image becomes: its bytes, typed by its extension. */
  function StoredBlob(file: MultipartFile): Blob {
    Blob(file.content, Some(ContentType(FileExtension(file.originalFilename))))
  }

  /** `getContentType`: the image type of a known extension (any case), otherwise
      application/octet-stream. */
  function ContentType(extension: string): (r: string)
    ensures r == OctetStream <==> Text.ToLower(extension) !in AllowedExtensions
    ensures r != OctetStream ==> "image/" <= r
  {
    match Text.ToLower(extension)
    case ".jpg" => "image/jpeg"
    case ".jpeg" => "image/jpeg"
    case ".png" => "image/png"
    case ".gif" => "image/gif"
    case ".bmp" => "image/bmp"
    case _ => OctetStream
  }

  /** The content-type table, entry by entry. */
  lemma ContentTypeTable()
    ensures ContentType(".jpg") == ContentType(".jpeg") == "image/jpeg"
    ensures ContentType(".png") == "image/png"
    ensures ContentType(".gif") == "image/gif"
    ensures ContentType(".bmp") == "image/bmp"
    ensures ContentType(".pdf") == ContentType("") == OctetStream
  {
    assert ContentType(".jpg") == "image/jpeg" by { assert Text.ToLower(".jpg") == ".jpg"; }
    assert ContentType(".jpeg") == "image/jpeg" by { assert Text.ToLower(".jpeg") == ".jpeg"; }
    assert ContentType(".png") == "image/png" by { assert Text.ToLower(".png") == ".png"; }
    assert ContentType(".gif") == "image/gif" by { assert Text.ToLower(".gif") == ".gif"; }
    assert ContentType(".bmp") == "image/bmp" by { assert Text.ToLower(".bmp") == ".bmp"; }
    assert ContentType(".pdf") == OctetStream by { assert Text.ToLower(".pdf") == ".pdf"; }
  }

  /** The content type depends on the extension's letters only, not on their case:
      ".PNG" maps where ".png" does. */
  lemma ContentTypeIgnoresCase(extension: string)
    ensures ContentType(extension) == ContentType(Text.ToLower(extension))
    ensures ContentType(".PNG") == "image/png"
  {
    Text.ToLowerIdempotent(extension);
    assert Text.ToLower(".PNG") == ".png";
  }

  /** An accepted image is never stored as application/octet-stream. */
  lemma AcceptedHasImageType(file: MultipartFile)
    requires Validate(file).None?
    ensures ContentType(FileExtension(file.originalFilename)) != OctetStream
    ensures "image/" <= ContentType(FileExtension(file.originalFilename))
  {
    FileExtensionIsLower(file.originalFilename);
  }

  /** The stored name of an accepted image ends with one of the allowed extensions. */
  lemma AcceptedNameHasAllowedExtension(file: MultipartFile, prefix: string, uuid: string)
    requires Validate(file).None?
    ensures var name := StoredName(file, prefix, uuid);
      exists ext | ext in AllowedExtensions :: |ext| <= |name| && name[|name| - |ext|..] == ext
  {
    var ext := FileExtension(file.originalFilename);
    assert ext in AllowedExtensions;
  }

  /** A token no stored name of the container starts with (with its prefix): what a random
      UUID is relied on to give. */
  ghost predicate FreshToken(blobs: map<string, Blob>, prefix: string, uuid: string) {
    forall name | name in blobs :: !(prefix + "_" + uuid <= name)
  }

  /** With a fresh token the new name is not taken, so an image upload never replaces a blob. */
  lemma FreshTokenNoClash(blobs: map<string, Blob>, file: MultipartFile, prefix: string, uuid: string)
    requires FreshToken(blobs, prefix, uuid)
    ensures StoredName(file, prefix, uuid) !in blobs
  {
  }

  /** Two uploads with different tokens of one length get different names, whatever their
      original filenames. */
  lemma DistinctTokensDistinctNames(f1: MultipartFile, f2: MultipartFile, prefix: string, u1: string, u2: string)
    requires |u1| == |u2| && u1 != u2
    ensures StoredName(f1, prefix, u1) != StoredName(f2, prefix, u2)
  {
    var n1, n2 := StoredName(f1, prefix, u1), StoredName(f2, prefix, u2);
    var k := |prefix| + 1 + |u1|;
    assert n1 == (prefix + "_" + u1) + FileExtension(f1.originalFilename);
    assert n2 == (prefix + "_" + u2) + FileExtension(f2.originalFilename);
    assert n1[..k] == prefix + "_" + u1;
    assert n2[..k] == prefix + "_" + u2;
    assert n1[..k][|prefix| + 1..] == u1;
    assert n2[..k][|prefix| + 1..] == u2;
  }

  /** The URL returned for an accepted image gives its blob name back through
      `extractFilenameFromUrl`, when the token holds no '/'. */
  lemma UploadedUrlNamesBlob(containerUrl: string, file: MultipartFile, prefix: string, uuid: string)
    requires Validate(file).None?
    requires '/' !in prefix && '/' !in uuid
    ensures Urls.ImageFilename(Some(Urls.BlobUrl(containerUrl, StoredName(file, prefix, uuid))))
         == Some(StoredName(file, prefix, uuid))
  {
    var ext := FileExtension(file.originalFilename);
    AllowedHaveNoSlash(ext);
    var name := StoredName(file, prefix, uuid);
    assert name == prefix + "_" + uuid + ext;
    Urls.FilenameOfBlobUrl(containerUrl, name);
  }

  /** No allowed extension holds a '/'. */
  lemma AllowedHaveNoSlash(ext: string)
    requires ext in AllowedExtensions
    ensures '/' !in ext
  {
  }

  /** What `uploadImage` does to a container, as a relation between its blobs before and after
      and the result: a refused file is reported before any write; an accepted one is written
      under its generated name with its content type, and its URL is returned. */
  ghost predicate UploadOutcome(file: MultipartFile, prefix: string, uuid: string, containerUrl: string,
                                before: map<string, Blob>, after: map<string, Blob>, r: Result<string, UploadError>)
  {
    match Validate(file)
    case Some(e) => r == Failure(e) && after == before
    case None =>
      var name := StoredName(file, prefix, uuid);
      && r == Success(Urls.BlobUrl(containerUrl, name))
      && after == before[name := StoredBlob(file)]
  }

  /** An upload leaves every other blob as it was; with a fresh token it adds exactly one. */
  lemma UploadOutcomeFrame(file: MultipartFile, prefix: string, uuid: string, containerUrl: string,
                           before: map<string, Blob>, after: map<string, Blob>, r: Result<string, UploadError>)
    requires UploadOutcome(file, prefix, uuid, containerUrl, before, after, r)
    ensures forall n | n in before && (r.Failure? || n != StoredName(file, prefix, uuid)) :: n in after && after[n] == before[n]
    ensures r.Success? && FreshToken(before, prefix, uuid) ==> |after| == |before| + 1
  {
    if r.Success? && FreshToken(before, prefix, uuid) {
      var name := StoredName(file, prefix, uuid);
      assert after.Keys == before.Keys + {name};
    }
  }

  class ImageStorageService {
    const profileImages: BlobContainer
    const courseImages: BlobContainer

    constructor (profileImages: BlobContainer, courseImages: BlobContainer)
      ensures this.profileImages == profileImages && this.courseImages == courseImages
    {
      this.profileImages := profileImages;
      this.courseImages := courseImages;
    }

    /** `uploadProfileImage`. */
    method UploadProfileImage(file: MultipartFile, uuid: string) returns (r: Result<string, UploadError>)
      modifies profileImages
      ensures UploadOutcome(file, ProfilePrefix, uuid, profileImages.url, old(profileImages.blobs), profileImages.blobs, r)
    {
      r := UploadImage(file, profileImages, ProfilePrefix, uuid);
    }

    /** `uploadCourseImage`. */
    method UploadCourseImage(file: MultipartFile, uuid: string) returns (r: Result<string, UploadError>)
      modifies courseImages
      ensures UploadOutcome(file, CoursePrefix, uuid, courseImages.url, old(courseImages.blobs), courseImages.blobs, r)
    {
      r := UploadImage(file, courseImages, CoursePrefix, uuid);
    }

    /** `uploadImage`: validate, name, write, set the content type, return the URL. */
    static method UploadImage(file: MultipartFile, container: BlobContainer, imageType: string, uuid: string)
      returns (r: Result<string, UploadError>)
      modifies container
      ensures UploadOutcome(file, imageType, uuid, container.url, old(container.blobs), container.blobs, r)
    {
      var refused := Validate(file);
      if refused.Some? {
        return Failure(refused.value);
      }
      var extension := FileExtension(file.originalFilename);
      var uniqueFilename := GeneratedName(imageType, uuid, extension);
      WriteImage(file, container, uniqueFilename);
      r := Success(container.BlobUrl(uniqueFilename));
    }

    /** The write half of `uploadImage`: the bytes go to `name`, then the blob is typed by the
        file's extension. */
    static method WriteImage(file: MultipartFile, container: BlobContainer, name: string)
      modifies container
      ensures container.blobs == old(container.blobs)[name := StoredBlob(file)]
    {
      container.Upload(name, file.content);
      container.SetContentType(name, Some(ContentType(FileExtension(file.originalFilename))));
    }

    /** `getProfileImageUrl`: the URL of a profile image, which names it back when the name
        holds no '/'. */
    function GetProfileImageUrl(filename: string): (r: string)
      ensures '/' !in filename ==> ExtractFilenameFromUrl(Some(r)) == Some(filename)
    {
      ImageUrl(profileImages, filename)
    }

    /** `getCourseImageUrl`: the URL of a course image, which names it back when the name holds
        no '/'. */
    function GetCourseImageUrl(filename: string): (r: string)
      ensures '/' !in filename ==> ExtractFilenameFromUrl(Some(r)) == Some(filename)
    {
      ImageUrl(courseImages, filename)
    }

    static function ImageUrl(container: BlobContainer, filename: string): (r: string)
      ensures '/' !in filename ==> Urls.ImageFilename(Some(r)) == Some(filename)
    {
      assert '/' !in filename ==> Urls.ImageFilename(Some(container.BlobUrl(filename))) == Some(filename) by {
        if '/' !in filename {
          Urls.FilenameOfBlobUrl(container.url, filename);
        }
      }
      container.BlobUrl(filename)
    }

    /** `deleteProfileImage`. */
    method DeleteProfileImage(filename: string) returns (deleted: bool)
      modifies profileImages
      ensures deleted == (filename in old(profileImages.blobs))
      ensures profileImages.blobs == old(profileImages.blobs) - {filename}
    {
      deleted := DeleteImage(filename, profileImages);
    }

    /** `deleteCourseImage`. */
    method DeleteCourseImage(filename: string) returns (deleted: bool)
      modifies courseImages
      ensures deleted == (filename in old(courseImages.blobs))
      ensures courseImages.blobs == old(courseImages.blobs) - {filename}
    {
      deleted := DeleteImage(filename, courseImages);
    }

    /** `deleteImage`: true when the blob existed and was removed; false, with nothing changed,
        when there was none. */
    static method DeleteImage(filename: string, container: BlobContainer) returns (deleted: bool)
      modifies container
      ensures deleted == (filename in old(container.blobs))
      ensures container.blobs == old(container.blobs) - {filename}
      ensures !deleted ==> container.blobs == old(container.blobs)
    {
      if container.Exists(filename) {
        container.Delete(filename);
        deleted := true;
      } else {
        deleted := false;
      }
    }

    /** `extractFilenameFromUrl`. */
    function ExtractFilenameFromUrl(url: Option<string>): (r: Option<string>)
      ensures r.None? <==> url.None? || url.value == ""
      ensures r.Some? ==> Urls.IsLastSegment(url.value, r.value)
    {
      Urls.ImageFilename(url)
    }
  }
}
