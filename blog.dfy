/**
 * The records the handlers read and write, after the Mongoose schemas of
 * posts (src/models/postModel.js) and categories.
 */
module Blog {
  import opened Wrappers

  /** A MongoDB ObjectId: only equality between ids matters. */
  type ObjectId = nat

  /** A category document: its name is the display and lookup key. */
  datatype Category = Category(id: ObjectId, name: string, banner: seq<string>, shortDescription: string)

  /**
   * A post document. `C` is the type of the `category` path: a stored post
   * holds an optional category id (`Post`), the home page's display copy holds
   * the category's name instead (`PostView`). Every other field is the same.
   * `banner` is the path the handlers write (the schema declares `banners`).
   */
  datatype PostDoc<C> = PostDoc(
    id: ObjectId,
    title: string,
    slug: string,
    category: C,
    banner: seq<string>,
    shortDescription: string,
    description: string,
    tags: seq<string>,
    isEditorsChoice: bool,
    metaTitle: string,
    metaImg: seq<string>,
    metaDescription: string,
    metaKeywords: string,
    views: nat,
    creator: Option<ObjectId>,
    createdAt: int,
    updatedAt: int)

  type Post = PostDoc<Option<ObjectId>>

  type PostView = PostDoc<string>

  /** `{ ...post, category: c }`: the same document with its `category` path replaced. */
  function WithCategory<C, D>(p: PostDoc<C>, c: D): (r: PostDoc<D>)
    ensures r.category == c
  {
    PostDoc(p.id, p.title, p.slug, c, p.banner, p.shortDescription, p.description, p.tags,
            p.isEditorsChoice, p.metaTitle, p.metaImg, p.metaDescription, p.metaKeywords,
            p.views, p.creator, p.createdAt, p.updatedAt)
  }

  /** Replacing the category path loses nothing else: putting the old value back restores the document. */
  lemma WithCategoryRestores<C, D>(p: PostDoc<C>, c: D)
    ensures WithCategory(WithCategory(p, c), p.category) == p
  {
  }

  /**
   * A new post as the schema defaults it: not an editor's choice, no views, no
   * creator, and each timestamp from its own clock reading (the schema's
   * `default: Date.now` is called once per path).
   */
  function NewPost(id: ObjectId, title: string, slug: string, category: Option<ObjectId>,
                   banner: seq<string>, shortDescription: string, description: string,
                   tags: seq<string>, metaTitle: string, metaImg: seq<string>,
                   metaDescription: string, metaKeywords: string,
                   createdAt: int, updatedAt: int): (p: Post)
    ensures !p.isEditorsChoice && p.views == 0 && p.creator.None?
    ensures p.createdAt == createdAt && p.updatedAt == updatedAt
    ensures p.tags == tags && p.banner == banner && p.metaImg == metaImg && p.category == category
  {
    PostDoc(id, title, slug, category, banner, shortDescription, description, tags,
            false, metaTitle, metaImg, metaDescription, metaKeywords, 0, None, createdAt, updatedAt)
  }
}
