/** The `User` entity: one row of the users table, held as an object the controllers mutate. */
module UserModel {
  import opened Wrappers
  import Text
  import Urls
  import Ids

  /** The value of a user: what a row of the table holds. */
  datatype UserData = UserData(
    id: Option<int>,
    username: Option<string>,
    email: Option<string>,
    password: Option<string>,
    profileImageUrl: Option<string>)

  /** The columns declared `nullable = false` hold values that fit the default 255 characters. */
  predicate ColumnsOk(u: UserData) {
    && u.username.Some? && |u.username.value| <= Text.DefaultColumnLength
    && u.email.Some? && |u.email.value| <= Text.DefaultColumnLength
    && u.password.Some? && |u.password.value| <= Text.DefaultColumnLength
  }

  class User {
    var id: Option<int>
    var username: Option<string>
    var email: Option<string>
    var password: Option<string>
    var profileImageUrl: Option<string>

    /** The user's current field values. */
    function Data(): UserData
      reads this
    {
      UserData(id, username, email, password, profileImageUrl)
    }

    /** `User()`: every field null. */
    constructor ()
      ensures Data() == UserData(None, None, None, None, None)
    {
      id, username, email, password, profileImageUrl := None, None, None, None, None;
    }

    /** `User(username, email, password)`: no id, no profile image. */
    constructor Basic(username: Option<string>, email: Option<string>, password: Option<string>)
      ensures Data() == UserData(None, username, email, password, None)
    {
      this.id, this.username, this.email, this.password, this.profileImageUrl := None, username, email, password, None;
    }

    /** `User(username, email, password, profileImageUrl)`. */
    constructor WithImage(username: Option<string>, email: Option<string>, password: Option<string>, profileImageUrl: Option<string>)
      ensures Data() == UserData(None, username, email, password, profileImageUrl)
    {
      this.id, this.username, this.email, this.password, this.profileImageUrl := None, username, email, password, profileImageUrl;
    }

    /** The object the persistence layer builds when it reads a row. */
    constructor Load(row: UserData)
      ensures Data() == row
    {
      id, username, email, password, profileImageUrl := row.id, row.username, row.email, row.password, row.profileImageUrl;
    }

    method SetId(id: Option<int>)
      modifies this
      ensures Data() == old(Data()).(id := id)
    {
      this.id := id;
    }

    method SetUsername(username: Option<string>)
      modifies this
      ensures Data() == old(Data()).(username := username)
    {
      this.username := username;
    }

    method SetEmail(email: Option<string>)
      modifies this
      ensures Data() == old(Data()).(email := email)
    {
      this.email := email;
    }

    method SetPassword(password: Option<string>)
      modifies this
      ensures Data() == old(Data()).(password := password)
    {
      this.password := password;
    }

    /** `setProfileImageUrl`: changes the profile image URL and nothing else. */
    method SetProfileImageUrl(profileImageUrl: Option<string>)
      modifies this
      ensures Data() == old(Data()).(profileImageUrl := profileImageUrl)
    {
      this.profileImageUrl := profileImageUrl;
    }

    /** `getProfileImage()`, the legacy name of `getProfileImageUrl()`. */
    function ProfileImage(): (r: Option<string>)
      reads this
      ensures r == Data().profileImageUrl
    {
      profileImageUrl
    }

    /** `setProfileImage(x)`, the legacy name of `setProfileImageUrl(x)`. */
    method SetProfileImage(profileImage: Option<string>)
      modifies this
      ensures Data() == old(Data()).(profileImageUrl := profileImage)
      ensures ProfileImage() == profileImage
    {
      SetProfileImageUrl(profileImage);
    }

    /** `hasProfileImage()`: the URL is set and not blank after trimming. */
    predicate HasProfileImage()
      reads this
      ensures HasProfileImage() <==> profileImageUrl.Some? && Text.HasVisible(profileImageUrl.value)
    {
      if profileImageUrl.None? then false
      else
        Text.TrimEmptyIff(profileImageUrl.value);
        Text.Trim(profileImageUrl.value) != ""
    }

    /** `getProfileImageFilename()`: null unless the URL holds a '/', then its last segment. */
    function ProfileImageFilename(): (r: Option<string>)
      reads this
      ensures r.Some? <==> profileImageUrl.Some? && '/' in profileImageUrl.value
      ensures r.Some? ==> Urls.IsLastSegment(profileImageUrl.value, r.value)
    {
      Urls.SlashedFilename(profileImageUrl)
    }

    /** `equals(o)`: the same object, or another user with the same non-null id. */
    predicate Equals(o: User?)
      reads this, o
    {
      o != null && (this == o || (id.Some? && id == o.id))
    }

    /** `hashCode()`: the id's `Long` hash, 0 for a null id. */
    function HashCode(): int
      reads this
    {
      Ids.IdHashCode(id)
    }
  }

  /** `equals` is an equivalence on users, by id once an id is assigned and by identity before;
      `hashCode` agrees with it. */
  lemma UserEqualityById(a: User, b: User, c: User)
    ensures a.Equals(a) && !a.Equals(null)
    ensures a.Equals(b) <==> b.Equals(a)
    ensures a.Equals(b) && b.Equals(c) ==> a.Equals(c)
    ensures a != b ==> (a.Equals(b) <==> a.id.Some? && a.id == b.id)
    ensures a.id.None? ==> (a.Equals(b) <==> a == b)
    ensures a.Equals(b) ==> a.HashCode() == b.HashCode()
    ensures a.id.None? ==> a.HashCode() == 0
  {
  }
}
