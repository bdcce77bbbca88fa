# BrightPath backend: attachments and enrollments in Dafny

This project models the part of the BrightPath learning-platform backend that has logic of its own. That part has two concerns.

The first is the **attachment lifecycle**:
- validating, naming and storing course images and profile images (`ImageStorageService`);
- storing course PDFs (`ResourceStorageService`);
- recovering blob names from URLs;
- the controller handlers that keep a record's URL column (`Course.imageUrl`, `Course.resourceUrl`, `User.profileImageUrl`) in step with the blob containers.

The second is the **enrollment relation**:
- the (id, user, course) rows of the enrollments table;
- the service queries over it and the counts;
- the guarded enroll and unenroll handlers of `EnrollmentController`.

Each Java entity whose fields the code sets in place is a Dafny `class` with those fields (`Course`, `User`). The persistence layer is folded into the service classes:
- the courses table and the users table are `map<int, ...>` fields;
- the enrollments table is a `seq` in insertion order;
- each table has an identity counter.

`save` enforces the column declarations of the entities:
- not-null columns;
- the 1000-character description;
- the 255 characters JPA gives a `String` column without a declared length, on the course name, the course resource URL, and the username, email and password;
- unique usernames and emails.

The 255-character limit of the two image URL columns is not enforced (see "## Left out").

`findById` hands out a fresh entity object loaded from the row, which the handlers mutate through setters and then save, as the Java code does.

Each blob container is a `BlobContainer` object holding a `map<string, Blob>`. The three containers are distinct objects. Handlers return a `Response`, which is a status and the body's `success` flag. Java `null` is `Option`, and a thrown exception is `Result.Failure`.

The value `UUID.randomUUID()` would produce is a `uuid: string` parameter. The predicate `FreshToken` states what a random UUID is relied on for: no stored name starts with `prefix_uuid`. Wherever it matters, freshness appears as a hypothesis of the statement, not as a precondition, because the code uploads with overwrite on.

Modules, one per file:
- `Wrappers`, `Text`, `Urls`, `Ids`, `Http`: `Option` and `Result`, the `String` operations the code uses, URL-to-name extraction, `Long.hashCode`, responses;
- `BlobStorage`: multipart files and blob containers;
- `ImageStorage` and `ResourceStorage`: the two storage services;
- `CourseModel` and `UserModel`: the entities;
- `CourseStore`, `UserStore` and `EnrollmentStore`: the services and their tables;
- `ImageReplacement`: the two orders of replacing an image, as relations between the before and after states;
- `CourseEndpoints`, `UserEndpoints` and `EnrollmentEndpoints`: the controllers.

Replacing an image is meant to upload the new image first and delete the old one after it. The code deletes first, and the model follows the code. The upload-first order is modelled beside it, and the difference is logged under Findings.

## Model

| member | source | states |
|---|---|---|
| Text.LastIndexOf | backend/src/main/java/com/brightpath/backend/service/ImageStorageService.java:169 | -1 exactly when the character is absent; otherwise an index holding it with none after it |
| Text.TrimEmptyIff | backend/src/main/java/com/brightpath/backend/service/ImageStorageService.java:152 | `trim()` gives "" exactly when every character is at most U+0020 |
| Urls.AfterLastSlash | backend/src/main/java/com/brightpath/backend/service/ImageStorageService.java:205 | the text after the last '/' is the URL's last segment: a '/'-free suffix that is the whole string or follows a '/' |
| Urls.LastSegmentUnique | backend/src/main/java/com/brightpath/backend/service/ImageStorageService.java:205 | a string has at most one last segment, so the extraction is determined by that property |
| Urls.ImageFilename | backend/src/main/java/com/brightpath/backend/service/ImageStorageService.java:201-206 | null exactly for null or ""; otherwise the last segment, the whole string when it has no '/' |
| Urls.SlashedFilename | backend/src/main/java/com/brightpath/backend/service/ResourceStorageService.java:53-56 | null exactly when the URL is null or has no '/'; otherwise its last segment |
| Urls.AfterLastSlashOfBlobUrl | backend/src/main/java/com/brightpath/backend/service/ImageStorageService.java:205 | the last segment of `container + "/" + name` is `name` when `name` has no '/' |
| Urls.FilenameOfBlobUrl | backend/src/main/java/com/brightpath/backend/service/ImageStorageService.java:201-206 | round trip: both extractors give back `name` from the blob URL made for it, for names without '/' |
| Urls.ExtractorsCompared | backend/src/main/java/com/brightpath/backend/service/ResourceStorageService.java:53-56 | the two extractors agree on URLs holding '/', both give null for null and ""; on other strings the image one returns the string and the resource one null |
| Ids.LongHashCode | backend/src/main/java/com/brightpath/backend/model/Course.java:149 | `Long.hashCode` folds the 64-bit value into a signed 32-bit `int` |
| Ids.SmallIdHashesToItself | backend/src/main/java/com/brightpath/backend/model/Course.java:148-150 | an id in 0..2^31-1 hashes to itself |
| BlobStorage.BlobContainer.Upload | backend/src/main/java/com/brightpath/backend/service/ImageStorageService.java:74 | upload with overwrite replaces the named blob (headers included) and touches no other |
| BlobStorage.BlobContainer.SetContentType | backend/src/main/java/com/brightpath/backend/service/ImageStorageService.java:77 | only the content type of the named blob changes |
| BlobStorage.BlobContainer.Delete | backend/src/main/java/com/brightpath/backend/service/ImageStorageService.java:126 | the named blob is gone, every other stays |
| BlobStorage.BlobContainer.DeleteIfExists | backend/src/main/java/com/brightpath/backend/service/ResourceStorageService.java:47 | true exactly when the blob existed; afterwards it is absent and every other blob stays |
| ImageStorage.FileExtension | backend/src/main/java/com/brightpath/backend/service/ImageStorageService.java:165-170 | "" exactly for a null name or one without '.'; otherwise a lower-cased suffix of the name that starts with its only '.' |
| ImageStorage.FileExtensionIsLower | backend/src/main/java/com/brightpath/backend/service/ImageStorageService.java:169 | an extension is already lower case, so the second `toLowerCase` in `validateFile` changes nothing |
| ImageStorage.FileExtensionOfJoin | backend/src/main/java/com/brightpath/backend/service/ImageStorageService.java:165-170 | for `stem.tail` with a dot-free tail the extension is ".tail" lower-cased |
| ImageStorage.Validate | backend/src/main/java/com/brightpath/backend/service/ImageStorageService.java:142-160 | first failure wins, in order: empty, over 2 MiB, null or blank name, disallowed extension; no failure exactly for an acceptable file |
| ImageStorage.NamePresentIff | backend/src/main/java/com/brightpath/backend/service/ImageStorageService.java:152 | the name check passes exactly when the name is non-null and `trim()` is not empty |
| ImageStorage.SizeLimitIsInclusive | backend/src/main/java/com/brightpath/backend/service/ImageStorageService.java:147 | exactly 2·1024·1024 bytes passes the size check, one byte more fails it |
| ImageStorage.UpperCaseExtensionAccepted | backend/src/main/java/com/brightpath/backend/service/ImageStorageService.java:157 | "CAT.PNG" is accepted: the extension check ignores case |
| ImageStorage.NameWithoutDotRefused | backend/src/main/java/com/brightpath/backend/service/ImageStorageService.java:165-168 | "photo" has extension "" and is refused as a disallowed type |
| ImageStorage.NameEndingInDotRefused | backend/src/main/java/com/brightpath/backend/service/ImageStorageService.java:169 | "photo." has extension "." and is refused as a disallowed type |
| ImageStorage.GeneratedName | backend/src/main/java/com/brightpath/backend/service/ImageStorageService.java:175-177 | the name starts with `prefix_uuid`, ends with the extension, and its length is the sum of the parts plus one |
| ImageStorage.ContentType | backend/src/main/java/com/brightpath/backend/service/ImageStorageService.java:182-196 | application/octet-stream exactly for extensions outside the allowed list (in any case); otherwise an `image/` type |
| ImageStorage.ContentTypeTable | backend/src/main/java/com/brightpath/backend/service/ImageStorageService.java:182-196 | the table entry by entry: .jpg and .jpeg → image/jpeg, .png, .gif, .bmp → their types, .pdf and "" → octet-stream |
| ImageStorage.ContentTypeIgnoresCase | backend/src/main/java/com/brightpath/backend/service/ImageStorageService.java:183 | the type depends on the lower-cased extension only; ".PNG" maps to image/png |
| ImageStorage.AcceptedHasImageType | backend/src/main/java/com/brightpath/backend/service/ImageStorageService.java:71 | an accepted image is never stored as octet-stream; its type starts with `image/` |
| ImageStorage.AcceptedNameHasAllowedExtension | backend/src/main/java/com/brightpath/backend/service/ImageStorageService.java:63 | the stored name of an accepted image ends with one of the allowed extensions |
| ImageStorage.FreshTokenNoClash | backend/src/main/java/com/brightpath/backend/service/ImageStorageService.java:176 | with a fresh token the generated name is not yet in the container, so nothing is overwritten |
| ImageStorage.DistinctTokensDistinctNames | backend/src/main/java/com/brightpath/backend/service/ImageStorageService.java:175-177 | different tokens of one length give different names, whatever the original filenames |
| ImageStorage.UploadedUrlNamesBlob | backend/src/main/java/com/brightpath/backend/service/ImageStorageService.java:79 | the returned URL gives the stored blob name back through `extractFilenameFromUrl` |
| ImageStorage.UploadOutcomeFrame | backend/src/main/java/com/brightpath/backend/service/ImageStorageService.java:56-87 | an upload leaves every other blob as it was; with a fresh token it adds exactly one blob |
| ImageStorage.ImageStorageService.UploadProfileImage | backend/src/main/java/com/brightpath/backend/service/ImageStorageService.java:40-43 | the upload outcome in the profile container under prefix "profile" |
| ImageStorage.ImageStorageService.UploadCourseImage | backend/src/main/java/com/brightpath/backend/service/ImageStorageService.java:48-51 | the upload outcome in the course container under prefix "course" |
| ImageStorage.ImageStorageService.UploadImage | backend/src/main/java/com/brightpath/backend/service/ImageStorageService.java:56-87 | a refused file fails before any write and the container is unchanged; an accepted one is stored under its generated name with its content type, and its URL is returned |
| ImageStorage.ImageStorageService.WriteImage | backend/src/main/java/com/brightpath/backend/service/ImageStorageService.java:67-77 | after the upload and the header write the blob holds the file's bytes and its extension's type |
| ImageStorage.ImageStorageService.GetProfileImageUrl | backend/src/main/java/com/brightpath/backend/service/ImageStorageService.java:92-95 | the URL names the image back through `extractFilenameFromUrl` when the name has no '/' |
| ImageStorage.ImageStorageService.GetCourseImageUrl | backend/src/main/java/com/brightpath/backend/service/ImageStorageService.java:100-103 | as for profile images, in the course container |
| ImageStorage.ImageStorageService.DeleteProfileImage | backend/src/main/java/com/brightpath/backend/service/ImageStorageService.java:108-110 | true exactly when the blob existed; afterwards it is absent, the rest unchanged |
| ImageStorage.ImageStorageService.DeleteCourseImage | backend/src/main/java/com/brightpath/backend/service/ImageStorageService.java:115-117 | as for profile images, in the course container |
| ImageStorage.ImageStorageService.DeleteImage | backend/src/main/java/com/brightpath/backend/service/ImageStorageService.java:122-137 | true exactly when the blob existed, which is then gone; false leaves the container unchanged |
| ImageStorage.ImageStorageService.ExtractFilenameFromUrl | backend/src/main/java/com/brightpath/backend/service/ImageStorageService.java:201-206 | null exactly for null or ""; otherwise the URL's last segment |
| ResourceStorage.SecondUploadReplacesFirst | backend/src/main/java/com/brightpath/backend/service/ResourceStorageService.java:32 | uploading one filename twice returns the same URL; only the second content remains and other blobs are untouched |
| ResourceStorage.UploadedUrlNamesResource | backend/src/main/java/com/brightpath/backend/service/ResourceStorageService.java:39 | the returned URL gives the original filename back through the resource extractor |
| ResourceStorage.ResourceStorageService.UploadResource | backend/src/main/java/com/brightpath/backend/service/ResourceStorageService.java:25-40 | only a null filename is refused, before any write; otherwise the bytes go under that filename, overwriting, with the declared content type, and the blob URL is returned |
| ResourceStorage.ResourceStorageService.DeleteResource | backend/src/main/java/com/brightpath/backend/service/ResourceStorageService.java:45-48 | null or "" gives false with the container untouched; otherwise true exactly when the blob existed, which is then gone |
| ResourceStorage.ResourceStorageService.ExtractFilenameFromUrl | backend/src/main/java/com/brightpath/backend/service/ResourceStorageService.java:53-56 | null exactly for null or a string without '/', "" included; otherwise the last segment |
| CourseModel.Course.constructor | backend/src/main/java/com/brightpath/backend/model/Course.java:35 | every reference field null, price 0 |
| CourseModel.Course.Basic | backend/src/main/java/com/brightpath/backend/model/Course.java:38-43 | the four given fields set; id, imageUrl and resourceUrl null |
| CourseModel.Course.WithImage | backend/src/main/java/com/brightpath/backend/model/Course.java:46-52 | the five given fields set; id and resourceUrl null |
| CourseModel.Course.SetId | backend/src/main/java/com/brightpath/backend/model/Course.java:60-62 | only the id changes |
| CourseModel.Course.SetName | backend/src/main/java/com/brightpath/backend/model/Course.java:68-70 | only the name changes |
| CourseModel.Course.SetDescription | backend/src/main/java/com/brightpath/backend/model/Course.java:76-78 | only the description changes |
| CourseModel.Course.SetStartDate | backend/src/main/java/com/brightpath/backend/model/Course.java:84-86 | only the start date changes |
| CourseModel.Course.SetPrice | backend/src/main/java/com/brightpath/backend/model/Course.java:92-94 | only the price changes |
| CourseModel.Course.SetImageUrl | backend/src/main/java/com/brightpath/backend/model/Course.java:100-102 | only imageUrl changes, and reading it back gives the value set |
| CourseModel.Course.SetResourceUrl | backend/src/main/java/com/brightpath/backend/model/Course.java:121-123 | only resourceUrl changes, and reading it back gives the value set |
| CourseModel.Course.HasImage | backend/src/main/java/com/brightpath/backend/model/Course.java:105-107 | true exactly when imageUrl is non-null and holds a character that survives `trim()` |
| CourseModel.Course.ImageFilename | backend/src/main/java/com/brightpath/backend/model/Course.java:110-115 | null exactly when imageUrl is null or has no '/'; otherwise its last segment |
| CourseModel.CourseEqualityById | backend/src/main/java/com/brightpath/backend/model/Course.java:140-150 | `equals` is reflexive, symmetric and transitive; distinct objects are equal exactly when both ids are set and the same; a null id means identity only; equal courses hash alike; a null id hashes to 0 |
| UserModel.User.constructor | backend/src/main/java/com/brightpath/backend/model/User.java:25 | every field null |
| UserModel.User.Basic | backend/src/main/java/com/brightpath/backend/model/User.java:28-32 | the three given fields set; id and profileImageUrl null |
| UserModel.User.WithImage | backend/src/main/java/com/brightpath/backend/model/User.java:35-40 | the four given fields set; id null |
| UserModel.User.SetId | backend/src/main/java/com/brightpath/backend/model/User.java:47-49 | only the id changes |
| UserModel.User.SetUsername | backend/src/main/java/com/brightpath/backend/model/User.java:55-57 | only the username changes |
| UserModel.User.SetEmail | backend/src/main/java/com/brightpath/backend/model/User.java:63-65 | only the email changes |
| UserModel.User.SetPassword | backend/src/main/java/com/brightpath/backend/model/User.java:71-73 | only the password changes |
| UserModel.User.SetProfileImageUrl | backend/src/main/java/com/brightpath/backend/model/User.java:79-81 | only profileImageUrl changes |
| UserModel.User.ProfileImage | backend/src/main/java/com/brightpath/backend/model/User.java:84-86 | the legacy getter always equals `getProfileImageUrl()` |
| UserModel.User.SetProfileImage | backend/src/main/java/com/brightpath/backend/model/User.java:89-91 | the legacy setter sets profileImageUrl and nothing else |
| UserModel.User.HasProfileImage | backend/src/main/java/com/brightpath/backend/model/User.java:94-96 | true exactly when the URL is non-null and holds a character that survives `trim()` |
| UserModel.User.ProfileImageFilename | backend/src/main/java/com/brightpath/backend/model/User.java:99-104 | null exactly when the URL is null or has no '/'; otherwise its last segment |
| UserModel.UserEqualityById | backend/src/main/java/com/brightpath/backend/model/User.java:117-127 | as for courses: an equivalence by non-null id, identity for a null id, hash consistent with it, 0 for a null id |
| CourseStore.CourseService.GetAllCourses | backend/src/main/java/com/brightpath/backend/service/CourseService.java:16-18 | every stored course is listed, and every listed course is the row under its own id |
| CourseStore.CourseService.FindById | backend/src/main/java/com/brightpath/backend/service/CourseService.java:30-32 | empty exactly for an absent id; otherwise a new object holding the row |
| CourseStore.CourseService.GetCourseById | backend/src/main/java/com/brightpath/backend/service/CourseService.java:73-75 | null exactly for an absent id; otherwise a new object holding the stored course |
| CourseStore.CourseService.Save | backend/src/main/java/com/brightpath/backend/service/CourseService.java:20-27 | a course without an id is inserted under the next identity, written back into it; one with an id overwrites its row; a row breaking its column declarations (a null required column, a description over 1000 characters, a name or resource URL over 255), or an id with no row, is refused with nothing changed; the table invariant is kept |
| CourseStore.CourseService.UpdateCourse | backend/src/main/java/com/brightpath/backend/service/CourseService.java:34-47 | "Course not found" for an absent id with nothing changed; otherwise the row takes all six fields of the details (nulls clear the URLs) and keeps its id |
| CourseStore.CourseService.DeleteCourse | backend/src/main/java/com/brightpath/backend/service/CourseService.java:49-54 | "Course not found" for an absent id; otherwise exactly that row is removed |
| CourseStore.CourseService.UpdateCourseResource | backend/src/main/java/com/brightpath/backend/service/CourseService.java:57-62 | "Course not found" for an absent id; a URL over 255 characters is refused with nothing changed; otherwise only that row's resourceUrl changes |
| CourseStore.CourseService.RemoveCourseResource | backend/src/main/java/com/brightpath/backend/service/CourseService.java:65-70 | "Course not found" for an absent id; otherwise only that row's resourceUrl becomes null |
| UserStore.UserService.AdmitsIgnoresImage | backend/src/main/java/com/brightpath/backend/model/User.java:12-22 | whether a row may be stored does not depend on its profile image (the image column has no constraint) |
| UserStore.UserService.FindById | backend/src/main/java/com/brightpath/backend/service/UserService.java:16-18 | empty exactly for an absent id; otherwise a new object holding the row |
| UserStore.UserService.FindByUsername | backend/src/main/java/com/brightpath/backend/service/UserService.java:27-29 | empty exactly when no row has the username; otherwise the stored user with it |
| UserStore.UserService.Save | backend/src/main/java/com/brightpath/backend/service/UserService.java:31-33 | insert or overwrite as for courses; a null required column, a username, email or password over 255 characters, or a username or email used by another row is refused with nothing changed; uniqueness is kept |
| EnrollmentStore.Filter | backend/src/main/java/com/brightpath/backend/repository/EnrollmentRepository.java:16-21 | a query returns exactly the rows meeting its condition, never more rows than the table |
| EnrollmentStore.CountIsFilterSize | backend/src/main/java/com/brightpath/backend/repository/EnrollmentRepository.java:36-41 | a count query equals the length of the list the matching find query returns |
| EnrollmentStore.EveryRowKept | backend/src/main/java/com/brightpath/backend/repository/EnrollmentRepository.java:16-21 | a query whose condition every row meets returns the whole table |
| EnrollmentStore.FilterSplits | backend/src/main/java/com/brightpath/backend/service/EnrollmentService.java:99-110 | the rows kept and the rows removed by a condition add up to the table |
| EnrollmentStore.FilterKeepsPairwise | backend/src/main/java/com/brightpath/backend/service/EnrollmentService.java:99-110 | deleting rows keeps the order of the rest, so increasing ids and unique pairs are preserved |
| EnrollmentStore.PairsUniqueAtMostOne | backend/src/main/java/com/brightpath/backend/repository/EnrollmentRepository.java:31 | with unique pairs the single-result lookup of a pair finds at most one row |
| EnrollmentStore.EnrollKeepsPairsUnique | backend/src/main/java/com/brightpath/backend/controller/EnrollmentController.java:59-66 | adding a pair not yet enrolled keeps every pair unique |
| EnrollmentStore.SameRowsRemoved | backend/src/main/java/com/brightpath/backend/service/EnrollmentService.java:53-55 | deleting the one row found for a pair, by its id, removes exactly the rows of that pair |
| EnrollmentStore.EnrollmentService.EnrollUser | backend/src/main/java/com/brightpath/backend/service/EnrollmentService.java:21-26 | exactly one row linking the user and the course is added under a new id, and returned |
| EnrollmentStore.EnrollmentService.GetUserEnrollments | backend/src/main/java/com/brightpath/backend/service/EnrollmentService.java:31-33 | exactly the rows of that user |
| EnrollmentStore.EnrollmentService.GetCourseEnrollments | backend/src/main/java/com/brightpath/backend/service/EnrollmentService.java:38-40 | exactly the rows of that course |
| EnrollmentStore.EnrollmentService.IsUserEnrolled | backend/src/main/java/com/brightpath/backend/service/EnrollmentService.java:45-47 | true exactly when some row has that user id and that course id |
| EnrollmentStore.EnrollmentService.GetEnrollment | backend/src/main/java/com/brightpath/backend/service/EnrollmentService.java:64-66 | empty exactly when the pair is not enrolled; a found row is of the pair; the only error is a non-unique result, impossible while pairs are unique |
| EnrollmentStore.EnrollmentService.GetAllEnrollments | backend/src/main/java/com/brightpath/backend/service/EnrollmentService.java:71-73 | all rows, in table order |
| EnrollmentStore.EnrollmentService.CountTotalEnrollments | backend/src/main/java/com/brightpath/backend/service/EnrollmentService.java:78-80 | the length of the list `getAllEnrollments` returns |
| EnrollmentStore.EnrollmentService.CountUserEnrollments | backend/src/main/java/com/brightpath/backend/service/EnrollmentService.java:85-87 | the length of the list `getUserEnrollments` returns |
| EnrollmentStore.EnrollmentService.CountCourseEnrollments | backend/src/main/java/com/brightpath/backend/service/EnrollmentService.java:92-94 | the length of the list `getCourseEnrollments` returns |
| EnrollmentStore.EnrollmentService.UnenrollUser | backend/src/main/java/com/brightpath/backend/service/EnrollmentService.java:52-59 | without a row for the pair it throws and nothing changes; otherwise exactly the pair's one row goes and the others stay in order |
| EnrollmentStore.EnrollmentService.DeleteAllUserEnrollments | backend/src/main/java/com/brightpath/backend/service/EnrollmentService.java:99-102 | exactly the user's rows go, all others stay in order, and the table shrinks by the user's count |
| EnrollmentStore.EnrollmentService.DeleteAllCourseEnrollments | backend/src/main/java/com/brightpath/backend/service/EnrollmentService.java:107-110 | exactly the course's rows go, all others stay in order, and the table shrinks by the course's count |
| EnrollmentEndpoints.CoursesOf | backend/src/main/java/com/brightpath/backend/controller/EnrollmentController.java:89-93 | one entry per enrollment whose course row still exists, in enrollment order, each that enrollment's course; so exactly as many entries as such enrollments |
| EnrollmentEndpoints.NotEnrolledFindsNothing | backend/src/main/java/com/brightpath/backend/service/EnrollmentService.java:45-47 | a pair `isUserEnrolled` denies has no row for the pair lookup to find |
| EnrollmentEndpoints.EnrollmentController.EnrollInCourse | backend/src/main/java/com/brightpath/backend/controller/EnrollmentController.java:33-79 | in order: missing user 404, missing course 404, already enrolled 409, each with nothing changed; otherwise exactly one row of the pair is added; pairs stay unique |
| EnrollmentEndpoints.EnrollmentController.GetUserCourses | backend/src/main/java/com/brightpath/backend/controller/EnrollmentController.java:82-100 | 404 for a missing user; otherwise one course per enrollment of the user whose course still exists, in order, with count equal to the list's length, at most the user's enrollment count and equal to it when every enrolled course exists |
| EnrollmentEndpoints.EnrollmentController.UnenrollFromCourse | backend/src/main/java/com/brightpath/backend/controller/EnrollmentController.java:105-148 | 404 with nothing changed for a missing user, a missing course or a pair not enrolled; otherwise the pair's row goes and it is no longer enrolled |
| EnrollmentEndpoints.EnrollmentController.GetCourseEnrollments | backend/src/main/java/com/brightpath/backend/controller/EnrollmentController.java:151-176 | 404 for a missing course; otherwise the course's enrollments in table order, with count equal to the list's length and to `countCourseEnrollments` |
| ImageReplacement.WithoutOld | backend/src/main/java/com/brightpath/backend/controller/CourseController.java:186-192 | deleting the old image removes the blob the old URL names and keeps every other blob |
| ImageReplacement.DeleteFirstDanglesOnRefusal | backend/src/main/java/com/brightpath/backend/controller/CourseController.java:186-212 | delete-first order: a refused file leaves the record's URL naming a blob that was just deleted |
| ImageReplacement.EmptyReplacementDangles | backend/src/main/java/com/brightpath/backend/controller/CourseController.java:186-212 | a concrete case: an empty file sent to replace a stored "course_1.png" leaves the record pointing at nothing |
| ImageReplacement.UploadFirstKeepsReference | backend/src/main/java/com/brightpath/backend/controller/CourseController.java:186-199 | upload-first order: with a fresh token a resolving URL still resolves afterwards, and a refusal changes nothing |
| ImageReplacement.OrdersAgreeOnAcceptance | backend/src/main/java/com/brightpath/backend/controller/CourseController.java:186-199 | for an accepted file with a fresh token both orders end in the same record and container |
| CourseEndpoints.WithoutOldResource | backend/src/main/java/com/brightpath/backend/controller/CourseController.java:323-328 | the blob named by the old resource URL's last segment is gone, and every other blob is kept as it was |
| CourseEndpoints.CourseController.CreateCourse | backend/src/main/java/com/brightpath/backend/controller/CourseController.java:46-115 | a refused image gives 400 with nothing written; past an accepted or absent image every failure (a bad date, a PDF without filename, a name over 255 characters, a description over 1000, a resource URL over 255) is exactly 500; success (201) adds exactly one row, with null image and resource URLs where no part was sent |
| CourseEndpoints.CourseController.SaveNewCourse | backend/src/main/java/com/brightpath/backend/controller/CourseController.java:91-100 | the new course is saved exactly when its date is present, its name fits 255 characters, its description 1000 and its resource URL 255, as one new row |
| CourseEndpoints.CourseController.UpdateCourseImage | backend/src/main/java/com/brightpath/backend/controller/CourseController.java:169-219 | 404 with nothing changed for a missing course; otherwise the delete-first outcome, touching only the row's imageUrl, which after success is the returned URL |
| CourseEndpoints.CourseController.UpdateCourseImageUploadFirst | backend/src/main/java/com/brightpath/backend/controller/CourseController.java:169-219 | the same handler with the upload-first outcome: a refused file changes nothing |
| CourseEndpoints.CourseController.DeleteCourse | backend/src/main/java/com/brightpath/backend/controller/CourseController.java:222-257 | 404 with nothing changed for a missing id; otherwise the image blob goes, then exactly that row |
| CourseEndpoints.CourseController.DeleteCourseImage | backend/src/main/java/com/brightpath/backend/controller/CourseController.java:260-304 | 404 for a missing course; otherwise 200, with imageUrl cleared exactly when the storage delete removed a blob; a null or empty URL changes nothing |
| CourseEndpoints.CourseController.UploadCourseResource | backend/src/main/java/com/brightpath/backend/controller/CourseController.java:306-352 | 404 with nothing changed for a missing course; the old PDF is deleted first; a null filename then gives 400; a URL over 255 characters gives 500 with the row unchanged and the new PDF stored; on success resourceUrl becomes the returned URL and nothing else of the row changes |
| UserEndpoints.UpdatedRow | backend/src/main/java/com/brightpath/backend/controller/UserController.java:158-164 | username and email always come from the request; the password only when given and not blank; id and profile image kept |
| UserEndpoints.UserController.Register | backend/src/main/java/com/brightpath/backend/controller/UserController.java:31-78 | a taken username gives 409 and a refused image 400, both before any write; past those guards every failure (an email in use, a username, email or password over 255 characters) is exactly 500; success (200) adds exactly one row |
| UserEndpoints.UserController.NewUser | backend/src/main/java/com/brightpath/backend/controller/UserController.java:46-63 | the new entity carries the three fields, plus the uploaded image's URL when one was sent and accepted |
| UserEndpoints.UserController.Login | backend/src/main/java/com/brightpath/backend/controller/UserController.java:82-114 | success exactly when a user has the username and the given password; an unknown username gives 404, a wrong password 401 |
| UserEndpoints.UserController.UpdateUser | backend/src/main/java/com/brightpath/backend/controller/UserController.java:143-179 | 404 for a missing user; otherwise the row becomes `UpdatedRow` of the request when the table accepts it, and stays (500) when not |
| UserEndpoints.UserController.UploadProfileImage | backend/src/main/java/com/brightpath/backend/controller/UserController.java:182-240 | 404 for a missing user and 400 for a missing or empty part, both touching nothing; otherwise the delete-first outcome on profileImageUrl alone |
| UserEndpoints.UserController.UpdateProfileImage | backend/src/main/java/com/brightpath/backend/controller/UserController.java:243-249 | exactly the outcomes of `uploadProfileImage` |
| UserEndpoints.UserController.UploadProfileImageUploadFirst | backend/src/main/java/com/brightpath/backend/controller/UserController.java:182-240 | the same handler with the upload-first outcome: a refused file changes nothing |
| UserEndpoints.UserController.DeleteProfileImage | backend/src/main/java/com/brightpath/backend/controller/UserController.java:252-296 | 404 for a missing user; otherwise 200, with profileImageUrl cleared exactly when the storage delete removed a blob |

## Left out

- `AzureBlobConfig` (container creation and wiring) and `AzureBlobService` (SAS URLs from the wall clock and SDK cryptography) are not part of this model.
- `ResourceStorageService.downloadResource` and the `downloadResource` / `getCourseResource` handlers are left out: they are a network read.
- The blob store never fails. The Azure SDK's network exceptions, which the handlers turn into 500, are not modelled.
- Blob names are not URL-encoded in the model: `getBlobUrl` is `containerUrl + "/" + name`.
- Logging and the response bodies other than the `success` flag are left out. So are the tokens `login` returns, which come from `UUID.randomUUID()`.
- `UUID.randomUUID()` is a parameter. Its format and randomness are not modelled; freshness is the stated hypothesis `FreshToken`.
- Date parsing: `startDate` arrives already parsed, as `Option<Date>`, where None stands for a string `SimpleDateFormat` rejects.
- The `double` price is a `real`: floating-point rounding is not modelled.
- `Text.LowerChar` lowers ASCII letters only. `toLowerCase` on other scripts is not modelled.
- `Enrollment.java` is not part of this model. An enrollment is its ids. `getUserCourses` treats an enrollment whose course row is gone as a null course.
- Foreign keys and cascades are not modelled: deleting a course or a user leaves its enrollment rows.
- The handlers outside the attachment and enrollment core are left out: `getAllCourses`, `getCourse` and `updateCourse` of `CourseController`, and `getUserProfile` of `UserController`. `updateCourse` would answer 404 for every runtime exception, a refused row included.
- `UserService.findByIdOrThrow` and `findByIdOptional` are not modelled separately: they behave as `findById`.
- CourseStore.CourseService.GetAllCourses: returns a set, so the order of the list `findAll` returns is not modelled.
- JPA's merge of a detached entity whose row is gone is modelled as a refusal (`StaleEntity`) with nothing changed, not as a re-insert.
- `deleteCourse` leaves the course's PDF in the resources container, as the code does; the model states this and does not flag it.
- `createCourse` and `register` leave an uploaded blob behind when a later step fails, as the code does. The model states which blobs remain.
- CourseStore.CourseService.Save and UserStore.UserService.Save do not enforce the default 255-character limit of `image_url` and `profile_image_url`. Those columns hold a configured container URL plus a generated name: the prefix, `_`, the 36-character UUID and an allowed extension of at most five characters. A request cannot lengthen them, so only a container URL of about 200 characters or more could overflow them.
- CourseEndpoints.CourseController.CreateCourse, UpdateCourseImage and UpdateCourseImageUploadFirst therefore never refuse a row for the length of its image URL. In the code an over-long URL would answer 500 after the blob writes.
- UserEndpoints.UserController.Register, UploadProfileImage, UpdateProfileImage and UploadProfileImageUploadFirst: the same for the profile image URL.
- Requests are handled one at a time. Concurrent requests are not modelled, so neither is the race in `enrollInCourse` between the `isUserEnrolled` check and the insert. Two requests could both pass the check and store the same pair twice, since no uniqueness constraint is declared. Later `unenrollFromCourse` calls for that pair would then answer 500, because the single-result lookup meets two rows. The model keeps pairs unique as a controller invariant, so `UnenrollFromCourse` has no 500 outcome.

## Findings

| source | as written | input that shows it | evidently intended | confidence | as-written member | corrected member |
|---|---|---|---|---|---|---|
| backend/src/main/java/com/brightpath/backend/controller/CourseController.java:186-195 | the old course image is deleted before the new file is validated and uploaded; a refused file answers 400 but the record keeps the URL of the deleted blob | a course whose image "course_1.png" is stored, and an empty file (or a `.pdf`) sent to replace it | upload the new image first, point the record at it, then delete the old blob, so that a refusal changes nothing | high (not executed) | CourseEndpoints.CourseController.UpdateCourseImage | CourseEndpoints.CourseController.UpdateCourseImageUploadFirst |
| backend/src/main/java/com/brightpath/backend/controller/UserController.java:207-215 | the old profile image is deleted before the new file is validated and uploaded; a refused file answers 400 but the record keeps the URL of the deleted blob | a user with a stored profile image, and a 3 MiB file or a `.pdf` sent to replace it | upload first, then delete the old blob | high (not executed) | UserEndpoints.UserController.UploadProfileImage | UserEndpoints.UserController.UploadProfileImageUploadFirst |

The lemmas `ImageReplacement.DeleteFirstDanglesOnRefusal` and `ImageReplacement.EmptyReplacementDangles` exhibit the as-written discrepancy. `ImageReplacement.UploadFirstKeepsReference` proves the intended property of the corrected order, and `ImageReplacement.OrdersAgreeOnAcceptance` shows that the two orders differ only on refusals.
