/**
 * The candidates a search runs over and the match test applied to each:
 * the static product table of the home page, the product elements of a
 * listing page, and the filter that keeps the matching ones in order.
 */
module Catalog {
  import opened Options
  import opened Text
  import opened Filtering

  /** A record of the static product table. */
  datatype Product = Product(id: string, name: string, price: string, image: string, alt: string)

  /** The fifteen products the home page searches, in display order. */
  const ProductData: seq<Product> := [
    Product("indoor", "Rubber Plant (Ficus Elastica)", "$15", "img/rubber plant.jpeg", "Indoor Plant"),
    Product("outdoor", "Rose Plant", "$25", "img/rose.jpg", "Outdoor Plant"),
    Product("succulents", "Echeveria Succulent", "$12", "img/echeveria.jpg", "Succulent"),
    Product("herbs", "Basil Herb", "$8", "img/basil.jpg", "Herb"),
    Product("indoor", "Snake Plant", "$50", "img/Snake_Plant.jpg", "Indoor Plant"),
    Product("indoor", "Parlor Palm", "$70", "img/parlour-palm-plant.jpg", "Indoor Plant"),
    Product("indoor", "ENGLISH IVY CREEPER \U{2013} CLIMBERS", "$60", "img/english-ivy.jpg", "Indoor Plant"),
    Product("indoor", "Chinese Evergreen", "$75", "img/chinese-evergreen.jpg", "Indoor Plant"),
    Product("outdoor", "Alexendar Palm", "$100", "img/alexendra-palm.webp", "Outdoor Plant"),
    Product("outdoor", "ASPARAGUS MARRY \U{2013} FOXTAIL FERN", "$30", "img/marry.webp", "Outdoor Plant"),
    Product("succulents", "Aloe Vera", "$18", "img/aloe-vera.jpg", "Succulent"),
    Product("herbs", "Mint Plant", "$10", "img/mint.jpg", "Herb"),
    Product("seeds", "CELOSIA-SUMMER SEEDS", "$15", "img/celosia seed.webp", "Seeds"),
    Product("seeds", "TOMATO SEEDS", "$15", "img/tomato_seeds.jpeg", "Seeds"),
    Product("seeds", "COCONUT BULB", "$25", "img/coconut_bulb.jpeg", "Seeds")
  ]

  /**
   * A `.product-item` element of a listing page: the text of its `.name`
   * and of its `.card-title` element when it has one, its id attribute
   * (empty when absent), the alt text of its image when it has one, and
   * whether it holds a `.card` element for the result to clone.
   */
  datatype Item = Item(nameText: Option<string>, titleText: Option<string>, id: string, imageAlt: Option<string>, hasCard: bool)

  /** The three texts a query is matched against. */
  datatype Fields = Fields(name: string, category: string, alt: string)

  function ProductFields(p: Product): Fields {
    Fields(p.name, p.id, p.alt)
  }

  /** A missing name element or image reads as the empty string; `.name` wins over `.card-title`. */
  function ItemFields(it: Item): (f: Fields)
    ensures it.nameText.Some? ==> f.name == it.nameText.value
    ensures it.nameText.None? && it.titleText.Some? ==> f.name == it.titleText.value
    ensures it.nameText.None? && it.titleText.None? ==> f.name == []
    ensures f.category == it.id
    ensures f.alt == if it.imageAlt.Some? then it.imageAlt.value else []
  {
    var name := match it.nameText
      case Some(t) => t
      case None => (match it.titleText case Some(t) => t case None => []);
    var alt := match it.imageAlt case Some(a) => a case None => [];
    Fields(name, it.id, alt)
  }

  /** The case-insensitive substring test of the search, on name, category and alt text. */
  predicate Matches(query: string, f: Fields) {
    var q := Lower(query);
    Contains(Lower(f.name), q) || Contains(Lower(f.category), q) || Contains(Lower(f.alt), q)
  }

  /** A candidate matches exactly when the lower-cased query occurs in one of its lower-cased texts. */
  lemma MatchesOccurs(query: string, f: Fields)
    ensures Matches(query, f) <==>
      (exists i :: OccursAt(Lower(f.name), Lower(query), i))
      || (exists i :: OccursAt(Lower(f.category), Lower(query), i))
      || (exists i :: OccursAt(Lower(f.alt), Lower(query), i))
  {
    ContainsOccurs(Lower(f.name), Lower(query));
    ContainsOccurs(Lower(f.category), Lower(query));
    ContainsOccurs(Lower(f.alt), Lower(query));
  }

  /** The match test for `query` on candidates whose texts `fields` reads. */
  function Matcher<T>(query: string, fields: T -> Fields): T -> bool {
    x => Matches(query, fields(x))
  }

  /** The candidates of `xs` that match `query`, in order. */
  function Select<T>(query: string, xs: seq<T>, fields: T -> Fields): seq<T> {
    Filter(Matcher(query, fields), xs)
  }

}
