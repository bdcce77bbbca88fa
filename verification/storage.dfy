/** The object-storage side of attachments: uploaded multipart files and blob containers. */
module BlobStorage {
  import opened Wrappers
  import Urls

  type Byte = bv8

  /** A multipart upload as Spring hands it over: the client's filename and declared content type
      (either may be absent) and the bytes. */
  datatype MultipartFile = MultipartFile(originalFilename: Option<string>, contentType: Option<string>, content: seq<Byte>) {
    /** `MultipartFile.isEmpty()`: no content. */
    predicate IsEmpty() {
      |content| == 0
    }

    /** `MultipartFile.getSize()`. */
    function Size(): nat {
      |content|
    }
  }

  /** An optional multipart part that was sent and is not empty (`f != null && !f.isEmpty()`). */
  predicate Supplied(f: Option<MultipartFile>) {
    f.Some? && !f.value.IsEmpty()
  }

  /** Why an upload was refused; each is an `IOException` in the backend. */
  datatype UploadError = EmptyFile | FileTooLarge | InvalidFilename | TypeNotAllowed

  /** A stored object: its bytes and its `Content-Type` header (absent until one is set). */
  datatype Blob = Blob(content: seq<Byte>, contentType: Option<string>)

  /** One blob container (`BlobContainerClient`): a map from blob name to blob. */
  class BlobContainer {
    /** The container's URL, fixed by configuration. */
    const url: string
    var blobs: map<string, Blob>

    constructor (url: string)
      ensures this.url == url && blobs == map[]
    {
      this.url := url;
      blobs := map[];
    }

    /** `getBlobClient(name).getBlobUrl()`. */
    function BlobUrl(name: string): string {
      Urls.BlobUrl(url, name)
    }

    /** `getBlobClient(name).exists()`. */
    predicate Exists(name: string)
      reads this
    {
      name in blobs
    }

    /** `getBlobClient(name).upload(content, size, true)`: writes the blob, replacing any blob of
        that name together with its headers; the content type None stands for the one the service
        records when none is set, `application/octet-stream`. */
    method Upload(name: string, content: seq<Byte>)
      modifies this
      ensures blobs == old(blobs)[name := Blob(content, None)]
    {
      blobs := blobs[name := Blob(content, None)];
    }

    /** `getBlobClient(name).setHttpHeaders(...)` with a content type, on a blob just written. */
    method SetContentType(name: string, contentType: Option<string>)
      requires name in blobs
      modifies this
      ensures blobs == old(blobs)[name := old(blobs)[name].(contentType := contentType)]
    {
      blobs := blobs[name := blobs[name].(contentType := contentType)];
    }

    /** `getBlobClient(name).delete()`. */
    method Delete(name: string)
      modifies this
      ensures blobs == old(blobs) - {name}
    {
      blobs := blobs - {name};
    }

    /** `getBlobClient(name).deleteIfExists()`: whether a blob was there to remove. */
    method DeleteIfExists(name: string) returns (deleted: bool)
      modifies this
      ensures deleted == (name in old(blobs))
      ensures blobs == old(blobs) - {name}
    {
      deleted := name in blobs;
      blobs := blobs - {name};
    }
  }
}
