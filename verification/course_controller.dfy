/** `CourseController`: each handler as a transition of the courses table and the course-image
    and course-resource containers. */
module CourseEndpoints {
  import opened Wrappers
  import opened Http
  import opened BlobStorage
  import opened CourseModel
  import opened CourseStore
  import opened ImageStorage
  import opened ResourceStorage
  import opened ImageReplacement
  import Text
  import Urls

  /** The image URL `createCourse` stores: the new blob's when an image part was sent, else null. */
  function CreatedImageUrl(imageFile: Option<MultipartFile>, uuid: string, containerUrl: string): Option<string> {
    if Supplied(imageFile) then Some(NewUrl(imageFile.value, CoursePrefix, uuid, containerUrl)) else None
  }

  /** The resource URL `createCourse` stores: the PDF blob's when a PDF part was sent, else null. */
  function CreatedResourceUrl(pdfFile: Option<MultipartFile>, containerUrl: string): Option<string> {
    if Supplied(pdfFile) && pdfFile.value.originalFilename.Some? then
      Some(Urls.BlobUrl(containerUrl, pdfFile.value.originalFilename.value))
    else None
  }

  /** The resources container once `uploadCourseResource` has deleted the old PDF: only a URL
      holding a '/' names one, and an empty name deletes nothing. */
  function WithoutOldResource(blobs: map<string, Blob>, oldUrl: Option<string>): (r: map<string, Blob>)
    ensures r.Keys <= blobs.Keys
    ensures Urls.SlashedFilename(oldUrl).Some? && Urls.SlashedFilename(oldUrl).value != "" ==>
      Urls.SlashedFilename(oldUrl).value !in r
    ensures forall n | n in blobs && Urls.SlashedFilename(oldUrl) != Some(n) :: n in r && r[n] == blobs[n]
  {
    match Urls.SlashedFilename(oldUrl)
    case Some(name) => if name != "" then blobs - {name} else blobs
    case None => blobs
  }

  class CourseController {
    const courseService: CourseService
    const imageStorage: ImageStorageService
    const resourceStorage: ResourceStorageService

    /** The table is consistent and the image and resource containers are different ones. */
    ghost predicate Valid()
      reads this, courseService
    {
      courseService.Valid() && imageStorage.courseImages != resourceStorage.courseResources
    }

    constructor (courseService: CourseService, imageStorage: ImageStorageService, resourceStorage: ResourceStorageService)
      requires courseService.Valid() && imageStorage.courseImages != resourceStorage.courseResources
      ensures this.courseService == courseService && this.imageStorage == imageStorage
      ensures this.resourceStorage == resourceStorage
      ensures Valid()
    {
      this.courseService, this.imageStorage, this.resourceStorage := courseService, imageStorage, resourceStorage;
    }

    /** `createCourse`. An image part that is sent and refused answers 400 before anything is
        written. Past the image, an unparseable date (`startDate` none), a PDF part without a
        filename or a row the table refuses answers 500, and the blobs already written stay. On
        success (201) exactly one row is added, holding the new blobs' URLs, null where no part was
        sent. */
    method CreateCourse(name: string, description: string, startDate: Option<Date>, price: Price,
                        imageFile: Option<MultipartFile>, pdfFile: Option<MultipartFile>, uuid: string)
      returns (resp: Response)
      requires Valid()
      modifies courseService, imageStorage.courseImages, resourceStorage.courseResources
      ensures Valid()
      ensures Supplied(imageFile) && Validate(imageFile.value).Some? ==>
        && resp == Fail(BadRequest)
        && imageStorage.courseImages.blobs == old(imageStorage.courseImages.blobs)
        && resourceStorage.courseResources.blobs == old(resourceStorage.courseResources.blobs)
      ensures Supplied(imageFile) && Validate(imageFile.value).None? ==>
        imageStorage.courseImages.blobs ==
          old(imageStorage.courseImages.blobs)[StoredName(imageFile.value, CoursePrefix, uuid) := StoredBlob(imageFile.value)]
      ensures !Supplied(imageFile) ==> imageStorage.courseImages.blobs == old(imageStorage.courseImages.blobs)
      ensures (!Supplied(imageFile) || Validate(imageFile.value).None?) && startDate.Some? && Supplied(pdfFile) ==>
        ResourceUploadOutcome(pdfFile.value, resourceStorage.courseResources.url,
          old(resourceStorage.courseResources.blobs), resourceStorage.courseResources.blobs,
          if pdfFile.value.originalFilename.Some? then Success(CreatedResourceUrl(pdfFile, resourceStorage.courseResources.url).value)
          else Failure(InvalidFilename))
      ensures startDate.None? || !Supplied(pdfFile) ==>
        resourceStorage.courseResources.blobs == old(resourceStorage.courseResources.blobs)
      ensures (!Supplied(imageFile) || Validate(imageFile.value).None?) && startDate.None? ==>
        resp == Fail(InternalServerError)
      ensures resp.success <==>
        && (!Supplied(imageFile) || Validate(imageFile.value).None?)
        && startDate.Some?
        && (!Supplied(pdfFile) || pdfFile.value.originalFilename.Some?)
        && |name| <= Text.DefaultColumnLength
        && |description| <= DescriptionLength
        && (CreatedResourceUrl(pdfFile, resourceStorage.courseResources.url).None? ||
            |CreatedResourceUrl(pdfFile, resourceStorage.courseResources.url).value| <= Text.DefaultColumnLength)
      ensures resp.success ==>
        && resp == Response(Created, true)
        && courseService.rows == old(courseService.rows)[old(courseService.nextId) :=
             CourseData(Some(old(courseService.nextId)), Some(name), Some(description), startDate, price,
                        CreatedImageUrl(imageFile, uuid, imageStorage.courseImages.url),
                        CreatedResourceUrl(pdfFile, resourceStorage.courseResources.url))]
      ensures (!Supplied(imageFile) || Validate(imageFile.value).None?) && !resp.success ==> resp == Fail(InternalServerError)
      ensures !resp.success ==> resp.status in {BadRequest, InternalServerError} && unchanged(courseService)
    {
      var imageUrl: Option<string> := None;
      if Supplied(imageFile) {
        var uploaded := imageStorage.UploadCourseImage(imageFile.value, uuid);
        if uploaded.Failure? {
          return Fail(BadRequest);
        }
        imageUrl := Some(uploaded.value);
      }
      if startDate.None? {
        return Fail(InternalServerError);
      }
      var resourceUrl: Option<string> := None;
      if Supplied(pdfFile) {
        var uploaded := resourceStorage.UploadResource(pdfFile.value);
        if uploaded.Failure? {
          return Fail(InternalServerError);
        }
        resourceUrl := Some(uploaded.value);
      }
      var saved := SaveNewCourse(name, description, startDate, price, imageUrl, resourceUrl);
      if saved.Failure? {
        return Fail(InternalServerError);
      }
      resp := Response(Created, true);
    }

    /** The last step of `createCourse`: a new entity filled through its setters and saved. */
    method SaveNewCourse(name: string, description: string, startDate: Option<Date>, price: Price,
                         imageUrl: Option<string>, resourceUrl: Option<string>) returns (saved: Result<CourseData, DbError>)
      requires courseService.Valid()
      modifies courseService
      ensures courseService.Valid()
      ensures saved.Success? <==>
        && |name| <= Text.DefaultColumnLength
        && |description| <= DescriptionLength
        && startDate.Some?
        && (resourceUrl.None? || |resourceUrl.value| <= Text.DefaultColumnLength)
      ensures saved.Success? ==>
        courseService.rows == old(courseService.rows)[old(courseService.nextId) :=
          CourseData(Some(old(courseService.nextId)), Some(name), Some(description), startDate, price, imageUrl, resourceUrl)]
      ensures saved.Failure? ==> unchanged(courseService)
    {
      var course := new Course();
      course.SetName(Some(name));
      course.SetDescription(Some(description));
      course.SetStartDate(startDate);
      course.SetPrice(price);
      course.SetImageUrl(imageUrl);
      course.SetResourceUrl(resourceUrl);
      saved := courseService.Save(course);
    }

    /** `updateCourseImage`, as written: 404 for a missing course, touching nothing; otherwise the
        old image is deleted first, then the new one uploaded (400 when refused) and the row
        pointed at it. */
    method UpdateCourseImage(id: int, imageFile: MultipartFile, uuid: string) returns (resp: Response)
      requires Valid()
      modifies courseService, imageStorage.courseImages
      ensures Valid()
      ensures id !in old(courseService.rows) ==>
        resp == Fail(NotFound) && unchanged(courseService) && unchanged(imageStorage.courseImages)
      ensures id in old(courseService.rows) ==>
        && id in courseService.rows
        && DeleteFirstOutcome(imageFile, CoursePrefix, uuid, imageStorage.courseImages.url,
             old(courseService.rows[id].imageUrl), old(imageStorage.courseImages.blobs),
             courseService.rows[id].imageUrl, imageStorage.courseImages.blobs, resp.success)
        && courseService.rows == old(courseService.rows)[id := old(courseService.rows[id]).(imageUrl := courseService.rows[id].imageUrl)]
        && courseService.nextId == old(courseService.nextId)
        && resp == (if resp.success then Response(Ok, true) else Fail(BadRequest))
    {
      var found := courseService.FindById(id);
      if found.None? {
        return Fail(NotFound);
      }
      var course := found.value;
      if course.imageUrl.Some? && course.imageUrl.value != "" {
        var oldFilename := imageStorage.ExtractFilenameFromUrl(course.imageUrl);
        if oldFilename.Some? {
          var _ := imageStorage.DeleteCourseImage(oldFilename.value);
        }
      }
      var uploaded := imageStorage.UploadCourseImage(imageFile, uuid);
      if uploaded.Failure? {
        return Fail(BadRequest);
      }
      course.SetImageUrl(Some(uploaded.value));
      var saved := courseService.Save(course);
      match saved {
        case Success(_) => resp := Response(Ok, true);
        case Failure(_) => assert false;
      }
    }

    /** `updateCourseImage` with the new image uploaded before the old one is deleted: a refused
        file leaves the row and the container as they were. */
    method UpdateCourseImageUploadFirst(id: int, imageFile: MultipartFile, uuid: string) returns (resp: Response)
      requires Valid()
      modifies courseService, imageStorage.courseImages
      ensures Valid()
      ensures id !in old(courseService.rows) ==>
        resp == Fail(NotFound) && unchanged(courseService) && unchanged(imageStorage.courseImages)
      ensures id in old(courseService.rows) ==>
        && id in courseService.rows
        && UploadFirstOutcome(imageFile, CoursePrefix, uuid, imageStorage.courseImages.url,
             old(courseService.rows[id].imageUrl), old(imageStorage.courseImages.blobs),
             courseService.rows[id].imageUrl, imageStorage.courseImages.blobs, resp.success)
        && courseService.rows == old(courseService.rows)[id := old(courseService.rows[id]).(imageUrl := courseService.rows[id].imageUrl)]
        && courseService.nextId == old(courseService.nextId)
        && resp == (if resp.success then Response(Ok, true) else Fail(BadRequest))
    {
      var found := courseService.FindById(id);
      if found.None? {
        return Fail(NotFound);
      }
      var course := found.value;
      var oldUrl := course.imageUrl;
      var uploaded := imageStorage.UploadCourseImage(imageFile, uuid);
      if uploaded.Failure? {
        return Fail(BadRequest);
      }
      course.SetImageUrl(Some(uploaded.value));
      var saved := courseService.Save(course);
      match saved {
        case Success(_) =>
          if oldUrl.Some? && oldUrl.value != "" {
            var oldFilename := imageStorage.ExtractFilenameFromUrl(oldUrl);
            if oldFilename.Some? {
              var _ := imageStorage.DeleteCourseImage(oldFilename.value);
            }
          }
          resp := Response(Ok, true);
        case Failure(_) => assert false;
      }
    }

    /** `deleteCourse`: the course's image blob (if it has one) goes first, then the row; a
        missing id answers 404 with nothing changed. The PDF stays in its container. */
    method DeleteCourse(id: int) returns (resp: Response)
      requires Valid()
      modifies courseService, imageStorage.courseImages
      ensures Valid()
      ensures id !in old(courseService.rows) ==>
        resp == Fail(NotFound) && unchanged(courseService) && unchanged(imageStorage.courseImages)
      ensures id in old(courseService.rows) ==>
        && resp == Response(Ok, true)
        && courseService.rows == old(courseService.rows) - {id}
        && courseService.nextId == old(courseService.nextId)
        && imageStorage.courseImages.blobs == WithoutOld(old(imageStorage.courseImages.blobs), old(courseService.rows[id].imageUrl))
    {
      var found := courseService.FindById(id);
      if found.Some? {
        var course := found.value;
        if course.imageUrl.Some? && course.imageUrl.value != "" {
          var filename := imageStorage.ExtractFilenameFromUrl(course.imageUrl);
          if filename.Some? {
            var _ := imageStorage.DeleteCourseImage(filename.value);
          }
        }
      }
      var deleted := courseService.DeleteCourse(id);
      if deleted.Failure? {
        return Fail(NotFound);
      }
      resp := Response(Ok, true);
    }

    /** `deleteCourseImage`: 404 for a missing course. Otherwise the answer is 200, and the image
        URL is cleared exactly when the storage delete reports a blob was removed; a null or empty
        URL touches nothing. */
    method DeleteCourseImage(id: int) returns (resp: Response)
      requires Valid()
      modifies courseService, imageStorage.courseImages
      ensures Valid()
      ensures id !in old(courseService.rows) ==>
        resp == Fail(NotFound) && unchanged(courseService) && unchanged(imageStorage.courseImages)
      ensures id in old(courseService.rows) ==>
        var url := old(courseService.rows[id].imageUrl);
        && resp.status == Ok
        && imageStorage.courseImages.blobs == WithoutOld(old(imageStorage.courseImages.blobs), url)
        && (resp.success <==> Urls.ImageFilename(url).Some? && Urls.ImageFilename(url).value in old(imageStorage.courseImages.blobs))
        && (resp.success ==>
              && courseService.rows == old(courseService.rows)[id := old(courseService.rows[id]).(imageUrl := None)]
              && courseService.nextId == old(courseService.nextId))
        && (!resp.success ==> unchanged(courseService))
    {
      var found := courseService.FindById(id);
      if found.None? {
        return Fail(NotFound);
      }
      var course := found.value;
      if course.imageUrl.Some? && course.imageUrl.value != "" {
        var filename := imageStorage.ExtractFilenameFromUrl(course.imageUrl);
        if filename.Some? {
          var deleted := imageStorage.DeleteCourseImage(filename.value);
          if deleted {
            course.SetImageUrl(None);
            var saved := courseService.Save(course);
            match saved {
              case Success(_) => resp := Response(Ok, true);
              case Failure(_) => assert false;
            }
          } else {
            resp := Response(Ok, false);
          }
        } else {
          resp := Response(Ok, false);
        }
      } else {
        resp := Response(Ok, false);
      }
    }

    /** `uploadCourseResource`: 404 for a missing course, touching nothing. Otherwise the old PDF
        is deleted first; a PDF part without a filename then answers 400, and an accepted one is
        stored under its filename. Its URL becomes the course's resource URL, nothing else of the
        row changing, unless it is too long for the column: then the row is refused and the answer
        is 500, with the old PDF gone and the new one stored. */
    method UploadCourseResource(id: int, file: MultipartFile) returns (resp: Response)
      requires Valid()
      modifies courseService, resourceStorage.courseResources
      ensures Valid()
      ensures id !in old(courseService.rows) ==>
        resp == Fail(NotFound) && unchanged(courseService) && unchanged(resourceStorage.courseResources)
      ensures id in old(courseService.rows) ==>
        var cleared := WithoutOldResource(old(resourceStorage.courseResources.blobs), old(courseService.rows[id].resourceUrl));
        && (resp.success <==>
              file.originalFilename.Some? &&
              |Urls.BlobUrl(resourceStorage.courseResources.url, file.originalFilename.value)| <= Text.DefaultColumnLength)
        && (file.originalFilename.None? ==>
              && resp == Fail(BadRequest)
              && resourceStorage.courseResources.blobs == cleared
              && unchanged(courseService))
        && (file.originalFilename.Some? && !resp.success ==>
              && resp == Fail(InternalServerError)
              && resourceStorage.courseResources.blobs ==
                   cleared[file.originalFilename.value := Blob(file.content, file.contentType)]
              && unchanged(courseService))
        && (resp.success ==>
              var name := file.originalFilename.value;
              && resp == Response(Ok, true)
              && resourceStorage.courseResources.blobs == cleared[name := Blob(file.content, file.contentType)]
              && courseService.rows == old(courseService.rows)[id :=
                   old(courseService.rows[id]).(resourceUrl := Some(Urls.BlobUrl(resourceStorage.courseResources.url, name)))]
              && courseService.nextId == old(courseService.nextId))
    {
      var found := courseService.FindById(id);
      if found.None? {
        return Fail(NotFound);
      }
      var course := found.value;
      if course.resourceUrl.Some? && course.resourceUrl.value != "" {
        var oldFilename := resourceStorage.ExtractFilenameFromUrl(course.resourceUrl);
        if oldFilename.Some? {
          var _ := resourceStorage.DeleteResource(oldFilename);
        }
      }
      var uploaded := resourceStorage.UploadResource(file);
      if uploaded.Failure? {
        return Fail(BadRequest);
      }
      course.SetResourceUrl(Some(uploaded.value));
      var saved := courseService.Save(course);
      resp := if saved.Success? then Response(Ok, true) else Fail(InternalServerError);
    }
  }
}
