/** The records the catalog API returns, and the sort orders the table offers. */
module Products {
  import opened Wrappers

  /** A JavaScript value that may stand in an image field: missing or another
      falsy non-string (null, undefined, false, 0), a string, an array, an
      object whose `url` or `src` property is read, or some other truthy
      scalar such as a number. */
  datatype ImageValue =
    | Absent
    | Str(value: string)
    | Arr(items: seq<ImageValue>)
    | Obj(url: ImageValue, src: ImageValue)
    | Other

  /** JavaScript truthiness: the empty string is falsy, every array and
      object is truthy, even an empty one. */
  predicate Truthy(v: ImageValue) {
    match v
    case Absent => false
    case Str(s) => s != ""
    case _ => true
  }

  /** One catalog entry. `title` is read unguarded by the source, so it is
      always present here; description and price are optional; the three
      image fields accept any of the shapes above. */
  datatype Product = Product(
    id: int,
    title: string,
    description: Option<string>,
    price: Option<int>,
    images: ImageValue,
    image: ImageValue,
    thumbnail: ImageValue)

  datatype SortField = ByPrice | ByName

  /** Any direction other than 'asc' sorts descending. */
  datatype Direction = Asc | Desc

  /** The value of `currentSort` when it is not null: `{type, direction}`. */
  datatype SortSpec = SortSpec(field: SortField, direction: Direction)
}
