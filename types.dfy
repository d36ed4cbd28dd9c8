/** The value types the favorites store works on: the recipe record of the
    web client and JavaScript's `undefined`, written as an Option. */
module Types {

  /** `T | undefined`: an optional property of a record. */
  datatype Option<+T> = None | Some(value: T)

  datatype Ingredient = Ingredient(name: string, quantity: string)

  /** Only the id of an attached image is declared by the recipe record. */
  datatype ImageRef = ImageRef(id: int)

  datatype Review = Review(text: string, rating: int, authorName: string)

  /** A recipe as the backend returns it. `id` is undefined until the recipe
      has been saved; `likes` is the server's like counter, if sent. */
  datatype Recipe = Recipe(
    id: Option<int>,
    title: string,
    description: string,
    ingredients: Option<seq<Ingredient>>,
    images: Option<seq<ImageRef>>,
    imageUrl: Option<string>,
    ownerId: Option<string>,
    likes: Option<int>,
    reviews: Option<seq<Review>>)

  /** JavaScript truthiness of an optional numeric id: `undefined` and `0`
      are falsy, every other integer is truthy. */
  predicate IsTruthyId(id: Option<int>)
  {
    id.Some? && id.value != 0
  }
}
