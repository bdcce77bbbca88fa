/** `UserController`: each handler as a transition of the users table and the profile-image
    container. */
module UserEndpoints {
  import opened Wrappers
  import opened Http
  import opened BlobStorage
  import opened UserModel
  import opened UserStore
  import opened ImageStorage
  import opened ImageReplacement
  import Text
  import Urls

  /** The profile image URL `register` stores: the new blob's when an image part was sent, else
      null. */
  function RegisteredImageUrl(profileImage: Option<MultipartFile>, uuid: string, containerUrl: string): Option<string> {
    if Supplied(profileImage) then Some(NewUrl(profileImage.value, ProfilePrefix, uuid, containerUrl)) else None
  }

  /** The row `updateUser` writes: username and email always taken from the request, the password
      only when one is given that is not blank, the id and the profile image kept. */
  function UpdatedRow(stored: UserData, request: UserData): (r: UserData)
    ensures r.id == stored.id && r.profileImageUrl == stored.profileImageUrl
    ensures r.username == request.username && r.email == request.email
    ensures r.password == request.password || r.password == stored.password
    ensures r.password == request.password <== request.password.Some? && !Text.IsBlank(request.password.value)
    ensures r.password == stored.password <== request.password.None? || Text.IsBlank(request.password.value)
  {
    var password := if request.password.Some? && !Text.IsBlank(request.password.value) then request.password else stored.password;
    stored.(username := request.username, email := request.email, password := password)
  }

  /** Some stored user already has the username. */
  ghost predicate Taken(rows: map<int, UserData>, username: string) {
    exists id | id in rows :: rows[id].username == Some(username)
  }

  class UserController {
    const userService: UserService
    const imageStorage: ImageStorageService

    ghost predicate Valid()
      reads this, userService
    {
      userService.Valid()
    }

    constructor (userService: UserService, imageStorage: ImageStorageService)
      requires userService.Valid()
      ensures this.userService == userService && this.imageStorage == imageStorage
      ensures Valid()
    {
      this.userService, this.imageStorage := userService, imageStorage;
    }

    /** `register`. A taken username answers 409 and an image part that is sent and refused 400,
        both before anything is written. A row the table refuses (an email already in use) answers
        500, leaving the uploaded image behind. Otherwise exactly one row is added. */
    method Register(username: string, email: string, password: string, profileImage: Option<MultipartFile>, uuid: string)
      returns (resp: Response)
      requires Valid()
      modifies userService, imageStorage.profileImages
      ensures Valid()
      ensures Taken(old(userService.rows), username) ==> resp == Fail(Conflict)
      ensures !Taken(old(userService.rows), username) && Supplied(profileImage) && Validate(profileImage.value).Some? ==>
        resp == Fail(BadRequest)
      ensures Taken(old(userService.rows), username) || !Supplied(profileImage) || Validate(profileImage.value).Some? ==>
        imageStorage.profileImages.blobs == old(imageStorage.profileImages.blobs)
      ensures !Taken(old(userService.rows), username) && Supplied(profileImage) && Validate(profileImage.value).None? ==>
        imageStorage.profileImages.blobs == old(imageStorage.profileImages.blobs)[
          StoredName(profileImage.value, ProfilePrefix, uuid) := StoredBlob(profileImage.value)]
      ensures resp.success <==>
        && !Taken(old(userService.rows), username)
        && (!Supplied(profileImage) || Validate(profileImage.value).None?)
        && |username| <= Text.DefaultColumnLength && |email| <= Text.DefaultColumnLength
        && |password| <= Text.DefaultColumnLength
        && forall id | id in old(userService.rows) :: old(userService.rows[id].email) != Some(email)
      ensures resp.success ==>
        && resp == Response(Ok, true)
        && userService.rows == old(userService.rows)[old(userService.nextId) :=
             UserData(Some(old(userService.nextId)), Some(username), Some(email), Some(password),
                      RegisteredImageUrl(profileImage, uuid, imageStorage.profileImages.url))]
      ensures !Taken(old(userService.rows), username) && (!Supplied(profileImage) || Validate(profileImage.value).None?) ==>
        !resp.success ==> resp == Fail(InternalServerError)
      ensures !resp.success ==> resp.status in {Conflict, BadRequest, InternalServerError} && unchanged(userService)
    {
      var existing := userService.FindByUsername(Some(username));
      if existing.Some? {
        return Fail(Conflict);
      }
      assert !Taken(userService.rows, username);
      var user, accepted := NewUser(username, email, password, profileImage, uuid);
      if !accepted {
        return Fail(BadRequest);
      }
      var saved := userService.Save(user);
      if saved.Failure? {
        return Fail(InternalServerError);
      }
      resp := Response(Ok, true);
    }

    /** The entity `register` builds before saving it: the three fields set, and the profile image
        uploaded and its URL set when an image part was sent; `accepted` is false when the upload
        was refused. */
    method NewUser(username: string, email: string, password: string, profileImage: Option<MultipartFile>, uuid: string)
      returns (user: User, accepted: bool)
      modifies imageStorage.profileImages
      ensures fresh(user)
      ensures accepted <==> !Supplied(profileImage) || Validate(profileImage.value).None?
      ensures accepted ==>
        user.Data() == UserData(None, Some(username), Some(email), Some(password),
                                RegisteredImageUrl(profileImage, uuid, imageStorage.profileImages.url))
      ensures Supplied(profileImage) && Validate(profileImage.value).None? ==>
        imageStorage.profileImages.blobs == old(imageStorage.profileImages.blobs)[
          StoredName(profileImage.value, ProfilePrefix, uuid) := StoredBlob(profileImage.value)]
      ensures !Supplied(profileImage) || Validate(profileImage.value).Some? ==>
        imageStorage.profileImages.blobs == old(imageStorage.profileImages.blobs)
    {
      user := new User();
      user.SetUsername(Some(username));
      user.SetEmail(Some(email));
      user.SetPassword(Some(password));
      accepted := true;
      if Supplied(profileImage) {
        var uploaded := imageStorage.UploadProfileImage(profileImage.value, uuid);
        if uploaded.Failure? {
          accepted := false;
        } else {
          user.SetProfileImageUrl(Some(uploaded.value));
        }
      }
    }

    /** `login`: 404 when no user has the username, 401 when its stored password differs from the
        one given, 200 otherwise; nothing changes. */
    method Login(username: Option<string>, password: Option<string>) returns (resp: Response)
      requires Valid()
      ensures (forall id | id in userService.rows :: userService.rows[id].username != username) ==> resp == Fail(NotFound)
      ensures resp.success <==>
        exists id | id in userService.rows :: userService.rows[id].username == username && userService.rows[id].password == password
      ensures resp.success ==> resp == Response(Ok, true)
      ensures !resp.success && (exists id | id in userService.rows :: userService.rows[id].username == username) ==>
        resp == Fail(Unauthorized)
    {
      var found := userService.FindByUsername(username);
      if found.None? {
        return Fail(NotFound);
      }
      var user := found.value;
      var k := user.id.value;
      // usernames are unique, so the loaded row is the only one with this username
      forall other | other in userService.rows && userService.rows[other].username == username
        ensures other == k
      {
        assert userService.Admits(other, userService.rows[other]);
      }
      if user.password == password {
        resp := Response(Ok, true);
      } else {
        resp := Fail(Unauthorized);
      }
    }

    /** `updateUser`: 404 for a missing user; otherwise the row becomes `UpdatedRow` of the request
        when the table accepts it (200) and stays as it was otherwise (500). */
    method UpdateUser(id: int, updatedUser: User) returns (resp: Response)
      requires Valid()
      modifies userService
      ensures Valid()
      ensures id !in old(userService.rows) ==> resp == Fail(NotFound) && unchanged(userService)
      ensures id in old(userService.rows) ==>
        var row := UpdatedRow(old(userService.rows[id]), updatedUser.Data());
        && (resp.success <==> old(userService.Admits(id, row)))
        && (resp.success ==>
              resp == Response(Ok, true) && userService.rows == old(userService.rows)[id := row] &&
              userService.nextId == old(userService.nextId))
        && (!resp.success ==> resp == Fail(InternalServerError) && unchanged(userService))
    {
      var found := userService.FindById(id);
      if found.None? {
        return Fail(NotFound);
      }
      var existingUser := found.value;
      existingUser.SetUsername(updatedUser.username);
      existingUser.SetEmail(updatedUser.email);
      if updatedUser.password.Some? && !Text.IsBlank(updatedUser.password.value) {
        existingUser.SetPassword(updatedUser.password);
      }
      var saved := userService.Save(existingUser);
      if saved.Failure? {
        return Fail(InternalServerError);
      }
      resp := Response(Ok, true);
    }

    /** `uploadProfileImage`, as written: 404 for a missing user and 400 for a missing or empty
        part, both touching nothing; otherwise the old image is deleted first, then the new one
        uploaded (400 when refused) and the row pointed at it. */
    method UploadProfileImage(id: int, profileImage: Option<MultipartFile>, uuid: string) returns (resp: Response)
      requires Valid()
      modifies userService, imageStorage.profileImages
      ensures Valid()
      ensures id !in old(userService.rows) ==>
        resp == Fail(NotFound) && unchanged(userService) && unchanged(imageStorage.profileImages)
      ensures id in old(userService.rows) && !Supplied(profileImage) ==>
        resp == Fail(BadRequest) && unchanged(userService) && unchanged(imageStorage.profileImages)
      ensures id in old(userService.rows) && Supplied(profileImage) ==>
        && id in userService.rows
        && DeleteFirstOutcome(profileImage.value, ProfilePrefix, uuid, imageStorage.profileImages.url,
             old(userService.rows[id].profileImageUrl), old(imageStorage.profileImages.blobs),
             userService.rows[id].profileImageUrl, imageStorage.profileImages.blobs, resp.success)
        && userService.rows == old(userService.rows)[id := old(userService.rows[id]).(profileImageUrl := userService.rows[id].profileImageUrl)]
        && userService.nextId == old(userService.nextId)
        && resp == (if resp.success then Response(Ok, true) else Fail(BadRequest))
    {
      var found := userService.FindById(id);
      if found.None? {
        return Fail(NotFound);
      }
      if !Supplied(profileImage) {
        return Fail(BadRequest);
      }
      var user := found.value;
      if user.profileImageUrl.Some? && user.profileImageUrl.value != "" {
        var oldFilename := imageStorage.ExtractFilenameFromUrl(user.profileImageUrl);
        if oldFilename.Some? {
          var _ := imageStorage.DeleteProfileImage(oldFilename.value);
        }
      }
      var uploaded := imageStorage.UploadProfileImage(profileImage.value, uuid);
      if uploaded.Failure? {
        return Fail(BadRequest);
      }
      userService.AdmitsIgnoresImage(id, user.Data(), Some(uploaded.value));
      user.SetProfileImageUrl(Some(uploaded.value));
      var saved := userService.Save(user);
      match saved {
        case Success(_) => resp := Response(Ok, true);
        case Failure(_) => assert false;
      }
    }

    /** `updateProfileImage`: hands the request to `uploadProfileImage`, so it behaves the same. */
    method UpdateProfileImage(id: int, profileImage: Option<MultipartFile>, uuid: string) returns (resp: Response)
      requires Valid()
      modifies userService, imageStorage.profileImages
      ensures Valid()
      ensures id !in old(userService.rows) ==>
        resp == Fail(NotFound) && unchanged(userService) && unchanged(imageStorage.profileImages)
      ensures id in old(userService.rows) && !Supplied(profileImage) ==>
        resp == Fail(BadRequest) && unchanged(userService) && unchanged(imageStorage.profileImages)
      ensures id in old(userService.rows) && Supplied(profileImage) ==>
        && id in userService.rows
        && DeleteFirstOutcome(profileImage.value, ProfilePrefix, uuid, imageStorage.profileImages.url,
             old(userService.rows[id].profileImageUrl), old(imageStorage.profileImages.blobs),
             userService.rows[id].profileImageUrl, imageStorage.profileImages.blobs, resp.success)
        && userService.rows == old(userService.rows)[id := old(userService.rows[id]).(profileImageUrl := userService.rows[id].profileImageUrl)]
        && userService.nextId == old(userService.nextId)
        && resp == (if resp.success then Response(Ok, true) else Fail(BadRequest))
    {
      resp := UploadProfileImage(id, profileImage, uuid);
    }

    /** `uploadProfileImage` with the new image uploaded before the old one is deleted: a refused
        file leaves the row and the container as they were. */
    method UploadProfileImageUploadFirst(id: int, profileImage: Option<MultipartFile>, uuid: string) returns (resp: Response)
      requires Valid()
      modifies userService, imageStorage.profileImages
      ensures Valid()
      ensures id !in old(userService.rows) ==>
        resp == Fail(NotFound) && unchanged(userService) && unchanged(imageStorage.profileImages)
      ensures id in old(userService.rows) && !Supplied(profileImage) ==>
        resp == Fail(BadRequest) && unchanged(userService) && unchanged(imageStorage.profileImages)
      ensures id in old(userService.rows) && Supplied(profileImage) ==>
        && id in userService.rows
        && UploadFirstOutcome(profileImage.value, ProfilePrefix, uuid, imageStorage.profileImages.url,
             old(userService.rows[id].profileImageUrl), old(imageStorage.profileImages.blobs),
             userService.rows[id].profileImageUrl, imageStorage.profileImages.blobs, resp.success)
        && userService.rows == old(userService.rows)[id := old(userService.rows[id]).(profileImageUrl := userService.rows[id].profileImageUrl)]
        && userService.nextId == old(userService.nextId)
        && resp == (if resp.success then Response(Ok, true) else Fail(BadRequest))
    {
      var found := userService.FindById(id);
      if found.None? {
        return Fail(NotFound);
      }
      if !Supplied(profileImage) {
        return Fail(BadRequest);
      }
      var user := found.value;
      var oldUrl := user.profileImageUrl;
      var uploaded := imageStorage.UploadProfileImage(profileImage.value, uuid);
      if uploaded.Failure? {
        return Fail(BadRequest);
      }
      userService.AdmitsIgnoresImage(id, user.Data(), Some(uploaded.value));
      user.SetProfileImageUrl(Some(uploaded.value));
      var saved := userService.Save(user);
      match saved {
        case Success(_) =>
          if oldUrl.Some? && oldUrl.value != "" {
            var oldFilename := imageStorage.ExtractFilenameFromUrl(oldUrl);
            if oldFilename.Some? {
              var _ := imageStorage.DeleteProfileImage(oldFilename.value);
            }
          }
          resp := Response(Ok, true);
        case Failure(_) => assert false;
      }
    }

    /** `deleteProfileImage`: 404 for a missing user. Otherwise the answer is 200, and the profile
        image URL is cleared exactly when the storage delete reports a blob was removed; a null or
        empty URL touches nothing. */
    method DeleteProfileImage(id: int) returns (resp: Response)
      requires Valid()
      modifies userService, imageStorage.profileImages
      ensures Valid()
      ensures id !in old(userService.rows) ==>
        resp == Fail(NotFound) && unchanged(userService) && unchanged(imageStorage.profileImages)
      ensures id in old(userService.rows) ==>
        var url := old(userService.rows[id].profileImageUrl);
        && resp.status == Ok
        && imageStorage.profileImages.blobs == WithoutOld(old(imageStorage.profileImages.blobs), url)
        && (resp.success <==> Urls.ImageFilename(url).Some? && Urls.ImageFilename(url).value in old(imageStorage.profileImages.blobs))
        && (resp.success ==>
              && userService.rows == old(userService.rows)[id := old(userService.rows[id]).(profileImageUrl := None)]
              && userService.nextId == old(userService.nextId))
        && (!resp.success ==> unchanged(userService))
    {
      var found := userService.FindById(id);
      if found.None? {
        return Fail(NotFound);
      }
      var user := found.value;
      if user.profileImageUrl.Some? && user.profileImageUrl.value != "" {
        var filename := imageStorage.ExtractFilenameFromUrl(user.profileImageUrl);
        if filename.Some? {
          var deleted := imageStorage.DeleteProfileImage(filename.value);
          if deleted {
            userService.AdmitsIgnoresImage(id, user.Data(), None);
            user.SetProfileImageUrl(None);
            var saved := userService.Save(user);
            match saved {
              case Success(_) => resp := Response(Ok, true);
              case Failure(_) => assert false;
            }
          } else {
            resp := Response(Ok, false);
          }
        } else {
          resp := Response(Ok, false);
        }
      } else {
        resp := Response(Ok, false);
      }
    }
  }
}
