/** The `Course` entity: one row of the courses table, held as an object the controllers mutate. */
module CourseModel {
  import opened Wrappers
  import Text
  import Urls
  import Ids

  /** The start date, kept opaque (a day number); parsing it is not part of this model. */
  type Date = int

  /** The price, a Java `double`, kept as a real. */
  type Price = real

  /** The value of a course: what a row of the table holds. */
  datatype CourseData = CourseData(
    id: Option<int>,
    name: Option<string>,
    description: Option<string>,
    startDate: Option<Date>,
    price: Price,
    imageUrl: Option<string>,
    resourceUrl: Option<string>)

  /** The declared length of the description column. */
  const DescriptionLength := 1000

  /** The row satisfies its column declarations: the `nullable = false` columns hold values, the
      description fits its 1000 characters, and the name and the resource URL fit the default 255. */
  predicate ColumnsOk(c: CourseData) {
    && c.name.Some? && |c.name.value| <= Text.DefaultColumnLength
    && c.description.Some? && |c.description.value| <= DescriptionLength
    && c.startDate.Some?
    && (c.resourceUrl.None? || |c.resourceUrl.value| <= Text.DefaultColumnLength)
  }

  class Course {
    var id: Option<int>
    var name: Option<string>
    var description: Option<string>
    var startDate: Option<Date>
    var price: Price
    var imageUrl: Option<string>
    var resourceUrl: Option<string>

    /** The course's current field values. */
    function Data(): CourseData
      reads this
    {
      CourseData(id, name, description, startDate, price, imageUrl, resourceUrl)
    }

    /** `Course()`: every reference field null, price 0. */
    constructor ()
      ensures Data() == CourseData(None, None, None, None, 0.0, None, None)
    {
      id, name, description, startDate, price, imageUrl, resourceUrl := None, None, None, None, 0.0, None, None;
    }

    /** `Course(name, description, startDate, price)`: no id, no image, no resource. */
    constructor Basic(name: Option<string>, description: Option<string>, startDate: Option<Date>, price: Price)
      ensures Data() == CourseData(None, name, description, startDate, price, None, None)
    {
      this.id, this.name, this.description, this.startDate, this.price := None, name, description, startDate, price;
      this.imageUrl, this.resourceUrl := None, None;
    }

    /** `Course(name, description, startDate, price, imageUrl)`: the image set, no resource. */
    constructor WithImage(name: Option<string>, description: Option<string>, startDate: Option<Date>, price: Price, imageUrl: Option<string>)
      ensures Data() == CourseData(None, name, description, startDate, price, imageUrl, None)
    {
      this.id, this.name, this.description, this.startDate, this.price := None, name, description, startDate, price;
      this.imageUrl, this.resourceUrl := imageUrl, None;
    }

    /** The object the persistence layer builds when it reads a row. */
    constructor Load(row: CourseData)
      ensures Data() == row
    {
      id, name, description, startDate, price := row.id, row.name, row.description, row.startDate, row.price;
      imageUrl, resourceUrl := row.imageUrl, row.resourceUrl;
    }

    method SetId(id: Option<int>)
      modifies this
      ensures Data() == old(Data()).(id := id)
    {
      this.id := id;
    }

    method SetName(name: Option<string>)
      modifies this
      ensures Data() == old(Data()).(name := name)
    {
      this.name := name;
    }

    method SetDescription(description: Option<string>)
      modifies this
      ensures Data() == old(Data()).(description := description)
    {
      this.description := description;
    }

    method SetStartDate(startDate: Option<Date>)
      modifies this
      ensures Data() == old(Data()).(startDate := startDate)
    {
      this.startDate := startDate;
    }

    method SetPrice(price: Price)
      modifies this
      ensures Data() == old(Data()).(price := price)
    {
      this.price := price;
    }

    /** `setImageUrl`: changes the image URL and nothing else. */
    method SetImageUrl(imageUrl: Option<string>)
      modifies this
      ensures Data() == old(Data()).(imageUrl := imageUrl)
    {
      this.imageUrl := imageUrl;
    }

    /** `setResourceUrl`: changes the resource URL and nothing else. */
    method SetResourceUrl(resourceUrl: Option<string>)
      modifies this
      ensures Data() == old(Data()).(resourceUrl := resourceUrl)
    {
      this.resourceUrl := resourceUrl;
    }

    /** `hasImage()`: the image URL is set and not blank after trimming. */
    predicate HasImage()
      reads this
      ensures HasImage() <==> imageUrl.Some? && Text.HasVisible(imageUrl.value)
    {
      if imageUrl.None? then false
      else
        Text.TrimEmptyIff(imageUrl.value);
        Text.Trim(imageUrl.value) != ""
    }

    /** `getImageFilename()`: null unless the image URL holds a '/', then its last segment. */
    function ImageFilename(): (r: Option<string>)
      reads this
      ensures r.Some? <==> imageUrl.Some? && '/' in imageUrl.value
      ensures r.Some? ==> Urls.IsLastSegment(imageUrl.value, r.value)
    {
      Urls.SlashedFilename(imageUrl)
    }

    /** `equals(o)`: the same object, or another course with the same non-null id. */
    predicate Equals(o: Course?)
      reads this, o
    {
      o != null && (this == o || (id.Some? && id == o.id))
    }

    /** `hashCode()`: the id's `Long` hash, 0 for a null id. */
    function HashCode(): int
      reads this
    {
      Ids.IdHashCode(id)
    }
  }

  /** `equals` is an equivalence on courses, by id once an id is assigned and by identity before;
      `hashCode` agrees with it. */
  lemma CourseEqualityById(a: Course, b: Course, c: Course)
    ensures a.Equals(a) && !a.Equals(null)
    ensures a.Equals(b) <==> b.Equals(a)
    ensures a.Equals(b) && b.Equals(c) ==> a.Equals(c)
    ensures a != b ==> (a.Equals(b) <==> a.id.Some? && a.id == b.id)
    ensures a.id.None? ==> (a.Equals(b) <==> a == b)
    ensures a.Equals(b) ==> a.HashCode() == b.HashCode()
    ensures a.id.None? ==> a.HashCode() == 0
  {
  }
}
