/**
 * The home page's read model (`getIndex`): every query the handler sends to
 * the store, written as a function over the post and category collections,
 * and the lemmas that say what each one delivers.
 */
module HomeIndex {
  import opened Wrappers
  import opened Blog
  import opened Seqs

  // ---------------------------------------------------------------------------
  // Queries

  /** The filter documents the handler passes to `find` and `countDocuments`. */
  datatype Filter =
    | InCategory(id: ObjectId)          // { category: id }
    | EditorsChoice                     // { isEditorsChoice: true }
    | InAnyCategory(ids: set<ObjectId>) // { category: { $in: ids } }, used only to state the census total

  predicate Matches(p: Post, f: Filter) {
    match f
    case InCategory(id) => p.category == Some(id)
    case EditorsChoice => p.isEditorsChoice
    case InAnyCategory(ids) => p.category.Some? && p.category.value in ids
  }

  /** `Post.find(filter)`: the matching posts in the collection's natural order. */
  function Find(posts: seq<Post>, f: Filter): (r: seq<Post>)
    ensures |r| <= |posts|
    ensures forall p :: p in r <==> p in posts && Matches(p, f)
    ensures forall i :: 0 <= i < |r| ==> Matches(r[i], f)
  {
    if posts == [] then []
    else (if Matches(posts[0], f) then [posts[0]] else []) + Find(posts[1..], f)
  }

  /** Find keeps the collection's order: the matches of a prefix come before those of the rest. */
  lemma {:induction false} FindAppend(a: seq<Post>, b: seq<Post>, f: Filter)
    ensures Find(a + b, f) == Find(a, f) + Find(b, f)
  {
    if a != [] {
      var head := if Matches(a[0], f) then [a[0]] else [];
      HeadTailAppend(a, b);
      FindAppend(a[1..], b, f);
      assert Find(a + b, f) == head + Find(a[1..] + b, f);
      assert Find(a, f) == head + Find(a[1..], f);
      AppendAssoc(head, Find(a[1..], f), Find(b, f));
    } else {
      assert a + b == b;
    }
  }

  /** A filter every post satisfies selects the whole collection. */
  lemma {:induction false} FindAll(posts: seq<Post>, f: Filter)
    requires forall p :: p in posts ==> Matches(p, f)
    ensures Find(posts, f) == posts
  {
    if posts != [] {
      FindAll(posts[1..], f);
    }
  }

  /** `Post.countDocuments(filter)`. */
  function CountDocuments(posts: seq<Post>, f: Filter): nat {
    |Find(posts, f)|
  }

  /** `.limit(n)`: at most the first n elements. */
  function Limit<T>(s: seq<T>, n: nat): (r: seq<T>)
    ensures |r| == if |s| <= n then |s| else n
    ensures r <= s
  {
    if |s| <= n then s else s[..n]
  }

  /** The cap every home-page selector applies. */
  const Cap: nat := 5

  // ---------------------------------------------------------------------------
  // Sorting, as `.sort({ key: 'desc' })`

  datatype SortKey = Views | CreatedAt

  function Key(p: Post, k: SortKey): int {
    match k
    case Views => p.views
    case CreatedAt => p.createdAt
  }

  /** Never increasing in the key. */
  predicate SortedDesc(s: seq<Post>, k: SortKey) {
    forall i, j :: 0 <= i < j < |s| ==> Key(s[i], k) >= Key(s[j], k)
  }

  function Insert(p: Post, s: seq<Post>, k: SortKey): (r: seq<Post>)
    ensures |r| == |s| + 1
  {
    if s == [] || Key(p, k) >= Key(s[0], k) then [p] + s
    else [s[0]] + Insert(p, s[1..], k)
  }

  /** A head no smaller than anything after it keeps a descending sequence descending. */
  lemma SortedCons(x: Post, t: seq<Post>, k: SortKey)
    requires SortedDesc(t, k)
    requires forall y :: y in t ==> Key(y, k) <= Key(x, k)
    ensures SortedDesc([x] + t, k)
  {
    var r := [x] + t;
    forall i, j | 0 <= i < j < |r| ensures Key(r[i], k) >= Key(r[j], k) {
      assert r[j] == t[j - 1];
      if 0 < i { assert r[i] == t[i - 1]; }
    }
  }

  /** Insertion keeps the sequence descending and adds exactly the one post. */
  lemma {:induction false} InsertSpec(p: Post, s: seq<Post>, k: SortKey)
    requires SortedDesc(s, k)
    ensures SortedDesc(Insert(p, s, k), k)
    ensures multiset(Insert(p, s, k)) == multiset(s) + multiset{p}
  {
    if s == [] || Key(p, k) >= Key(s[0], k) {
      SortedCons(p, s, k);
    } else {
      var t := s[1..];
      HeadTail(s);
      TailSorted(s, k);
      InsertSpec(p, t, k);
      var rest := Insert(p, t, k);
      forall y | y in rest ensures Key(y, k) <= Key(s[0], k) {
        assert y in multiset(rest);
      }
      SortedCons(s[0], rest, k);
    }
  }

  /** The tail of a descending sequence is descending and no larger than its head. */
  lemma TailSorted(s: seq<Post>, k: SortKey)
    requires SortedDesc(s, k) && s != []
    ensures SortedDesc(s[1..], k)
    ensures forall y :: y in s[1..] ==> Key(y, k) <= Key(s[0], k)
  {
    forall i, j | 0 <= i < j < |s| - 1 ensures Key(s[1..][i], k) >= Key(s[1..][j], k) {
      assert s[1..][i] == s[i + 1] && s[1..][j] == s[j + 1];
    }
  }

  /**
   * The order the store returns for a descending sort. Equal keys keep their
   * collection order here; the store promises no particular tie-break, so no
   * lemma below depends on it.
   */
  function SortDesc(s: seq<Post>, k: SortKey): (r: seq<Post>)
    ensures |r| == |s|
  {
    if s == [] then [] else Insert(s[0], SortDesc(s[1..], k), k)
  }

  /** The sort returns the same posts, never increasing in the key. */
  lemma {:induction false} SortDescSpec(s: seq<Post>, k: SortKey)
    ensures SortedDesc(SortDesc(s, k), k)
    ensures multiset(SortDesc(s, k)) == multiset(s)
  {
    if s != [] {
      SortDescSpec(s[1..], k);
      InsertSpec(s[0], SortDesc(s[1..], k), k);
      HeadTail(s);
    }
  }

  /** The first n of a descending sequence are its n largest: nothing left out outranks them. */
  lemma LimitOfSortedIsTop(s: seq<Post>, k: SortKey, n: nat)
    requires SortedDesc(s, k)
    ensures forall x, y :: x in multiset(s) - multiset(Limit(s, n)) && y in Limit(s, n) ==> Key(x, k) <= Key(y, k)
  {
    if n < |s| {
      SuffixMultiset(s, n);
      SuffixBelowPrefix(s, k, n);
    }
  }

  /** What a prefix leaves of a sequence's elements is its suffix's. */
  lemma SuffixMultiset(s: seq<Post>, n: nat)
    requires n <= |s|
    ensures multiset(s) - multiset(s[..n]) == multiset(s[n..])
  {
    assert s == s[..n] + s[n..];
  }

  /** In a descending sequence nothing after position n outranks anything before it. */
  lemma SuffixBelowPrefix(s: seq<Post>, k: SortKey, n: nat)
    requires SortedDesc(s, k) && n <= |s|
    ensures forall x, y :: x in s[n..] && y in s[..n] ==> Key(x, k) <= Key(y, k)
  {
    forall x, y | x in s[n..] && y in s[..n] ensures Key(x, k) <= Key(y, k) {
      var i :| 0 <= i < |s| - n && s[n..][i] == x;
      var j :| 0 <= j < n && s[..n][j] == y;
      assert s[j] == y && s[n + i] == x;
    }
  }

  /** A prefix of a descending sequence is descending. */
  lemma SortedPrefix(s: seq<Post>, k: SortKey, n: nat)
    requires SortedDesc(s, k)
    ensures SortedDesc(Limit(s, n), k)
  {
  }

  /** A prefix holds some of the sequence's elements. */
  lemma PrefixMultiset(s: seq<Post>, n: nat)
    ensures multiset(Limit(s, n)) <= multiset(s)
  {
    if n < |s| {
      assert s == s[..n] + s[n..];
    }
  }

  // ---------------------------------------------------------------------------
  // The selectors

  /** `Post.find().sort({ views: 'desc' }).limit(5)`. */
  function PopularPosts(posts: seq<Post>): seq<Post> {
    Limit(SortDesc(posts, Views), Cap)
  }

  /** `Post.find().sort({ createdAt: 'desc' }).limit(5)`. */
  function RecentPosts(posts: seq<Post>): seq<Post> {
    Limit(SortDesc(posts, CreatedAt), Cap)
  }

  /** `Post.find({ isEditorsChoice: true }).limit(5)`. */
  function EditorsChoicePosts(posts: seq<Post>): seq<Post> {
    Limit(Find(posts, EditorsChoice), Cap)
  }

  /** `Post.find({ category: id }).limit(5)`. */
  function CategoryPosts(posts: seq<Post>, id: ObjectId): seq<Post> {
    Limit(Find(posts, InCategory(id)), Cap)
  }

  /**
   * A sort-and-limit selector returns min(5, |posts|) posts of the collection,
   * never increasing in the key, and no post it leaves out has a larger key
   * than one it returns.
   */
  lemma TopByKey(posts: seq<Post>, k: SortKey)
    ensures |Limit(SortDesc(posts, k), Cap)| == if |posts| <= Cap then |posts| else Cap
    ensures SortedDesc(Limit(SortDesc(posts, k), Cap), k)
    ensures multiset(Limit(SortDesc(posts, k), Cap)) <= multiset(posts)
    ensures forall x, y ::
      x in multiset(posts) - multiset(Limit(SortDesc(posts, k), Cap)) && y in Limit(SortDesc(posts, k), Cap) ==>
      Key(x, k) <= Key(y, k)
  {
    var s := SortDesc(posts, k);
    SortDescSpec(posts, k);
    SortedPrefix(s, k, Cap);
    PrefixMultiset(s, Cap);
    LimitOfSortedIsTop(s, k, Cap);
  }

  lemma PopularPostsSpec(posts: seq<Post>)
    ensures |PopularPosts(posts)| == if |posts| <= Cap then |posts| else Cap
    ensures SortedDesc(PopularPosts(posts), Views)
    ensures multiset(PopularPosts(posts)) <= multiset(posts)
    ensures forall x, y :: x in multiset(posts) - multiset(PopularPosts(posts)) && y in PopularPosts(posts) ==>
      x.views <= y.views
  {
    TopByKey(posts, Views);
    var r := PopularPosts(posts);
    forall x, y | x in multiset(posts) - multiset(r) && y in r ensures x.views <= y.views {
      assert Key(x, Views) <= Key(y, Views);
    }
  }

  lemma RecentPostsSpec(posts: seq<Post>)
    ensures |RecentPosts(posts)| == if |posts| <= Cap then |posts| else Cap
    ensures SortedDesc(RecentPosts(posts), CreatedAt)
    ensures multiset(RecentPosts(posts)) <= multiset(posts)
    ensures forall x, y :: x in multiset(posts) - multiset(RecentPosts(posts)) && y in RecentPosts(posts) ==>
      x.createdAt <= y.createdAt
  {
    TopByKey(posts, CreatedAt);
    var r := RecentPosts(posts);
    forall x, y | x in multiset(posts) - multiset(r) && y in r ensures x.createdAt <= y.createdAt {
      assert Key(x, CreatedAt) <= Key(y, CreatedAt);
    }
  }

  /**
   * The editor's choices are the first five flagged posts in collection order:
   * all of them when there are fewer than five.
   */
  lemma EditorsChoiceSpec(posts: seq<Post>)
    ensures |EditorsChoicePosts(posts)| ==
      if CountDocuments(posts, EditorsChoice) <= Cap then CountDocuments(posts, EditorsChoice) else Cap
    ensures var r := EditorsChoicePosts(posts);
      && |r| <= Cap
      && (forall p :: p in r ==> p in posts && p.isEditorsChoice)
      && r <= Find(posts, EditorsChoice)
      && (CountDocuments(posts, EditorsChoice) <= Cap ==> forall p :: p in posts && p.isEditorsChoice ==> p in r)
  {
  }

  // ---------------------------------------------------------------------------
  // Category census

  /** `{ category: category.name, count: postCount }`. */
  datatype CategoryCount = CategoryCount(category: string, count: nat)

  /** One count query per category, in the category list's order. */
  function Census(categories: seq<Category>, posts: seq<Post>): (r: seq<CategoryCount>)
    ensures |r| == |categories|
    ensures forall i :: 0 <= i < |r| ==>
      r[i].category == categories[i].name && r[i].count == CountDocuments(posts, InCategory(categories[i].id))
  {
    if categories == [] then []
    else
      [CategoryCount(categories[0].name, CountDocuments(posts, InCategory(categories[0].id)))]
      + Census(categories[1..], posts)
  }

  function TotalCount(counts: seq<CategoryCount>): nat {
    if counts == [] then 0 else counts[0].count + TotalCount(counts[1..])
  }

  function Ids(categories: seq<Category>): set<ObjectId> {
    set c | c in categories :: c.id
  }

  /** No two categories share an id, as the store guarantees for `_id`. */
  predicate DistinctIds(categories: seq<Category>) {
    forall i, j :: 0 <= i < j < |categories| ==> categories[i].id != categories[j].id
  }

  /** Counting the posts of a set of categories one category at a time. */
  lemma {:induction false} CountAddCategory(posts: seq<Post>, x: ObjectId, ids: set<ObjectId>)
    requires x !in ids
    ensures CountDocuments(posts, InAnyCategory({x} + ids))
         == CountDocuments(posts, InCategory(x)) + CountDocuments(posts, InAnyCategory(ids))
  {
    if posts != [] {
      CountAddCategory(posts[1..], x, ids);
    }
  }

  /**
   * The census adds up to the number of posts whose category is one of the
   * listed categories: each post is counted at most once, and a post without
   * a resolvable category is not counted.
   */
  lemma {:induction false} CensusTotal(categories: seq<Category>, posts: seq<Post>)
    requires DistinctIds(categories)
    ensures TotalCount(Census(categories, posts)) == CountDocuments(posts, InAnyCategory(Ids(categories)))
  {
    if categories == [] {
      assert Ids(categories) == {};
      FindEmptyIds(posts);
    } else {
      var rest := categories[1..];
      assert DistinctIds(rest);
      CensusTotal(rest, posts);
      CensusCons(categories, posts);
      IdsCons(categories);
      CountAddCategory(posts, categories[0].id, Ids(rest));
    }
  }

  /** The census of a non-empty list: the first category's count, then the rest's census. */
  lemma CensusCons(categories: seq<Category>, posts: seq<Post>)
    requires categories != []
    ensures TotalCount(Census(categories, posts))
         == CountDocuments(posts, InCategory(categories[0].id)) + TotalCount(Census(categories[1..], posts))
  {
    var c := Census(categories, posts);
    assert c[1..] == Census(categories[1..], posts);
  }

  /** The ids of a list with distinct ids: the first one, which no later category has, and the rest's. */
  lemma IdsCons(categories: seq<Category>)
    requires categories != [] && DistinctIds(categories)
    ensures Ids(categories) == {categories[0].id} + Ids(categories[1..])
    ensures categories[0].id !in Ids(categories[1..])
  {
    var rest := categories[1..];
    HeadTail(categories);
    forall c | c in rest ensures c.id != categories[0].id {
      var j :| 0 <= j < |rest| && rest[j] == c;
      assert categories[j + 1] == c;
    }
  }

  lemma {:induction false} FindEmptyIds(posts: seq<Post>)
    ensures Find(posts, InAnyCategory({})) == []
  {
    if posts != [] {
      FindEmptyIds(posts[1..]);
    }
  }

  /**
   * The counts never add up to more than there are posts, and they add up to
   * exactly that many when every post's category is a listed one.
   */
  lemma CensusBounds(categories: seq<Category>, posts: seq<Post>)
    requires DistinctIds(categories)
    ensures TotalCount(Census(categories, posts)) <= |posts|
    ensures (forall p :: p in posts ==> p.category.Some? && p.category.value in Ids(categories))
            ==> TotalCount(Census(categories, posts)) == |posts|
  {
    CensusTotal(categories, posts);
    if forall p :: p in posts ==> p.category.Some? && p.category.value in Ids(categories) {
      FindAll(posts, InAnyCategory(Ids(categories)));
    }
  }

  // ---------------------------------------------------------------------------
  // Distinct tags

  /** The tags of every post, one after another (what `distinct` unwinds). */
  function AllTags(posts: seq<Post>): (r: seq<string>)
    ensures forall t :: t in r <==> exists i :: 0 <= i < |posts| && t in posts[i].tags
  {
    if posts == [] then []
    else
      var rest := AllTags(posts[1..]);
      assert forall i :: 1 <= i < |posts| ==> posts[i] == posts[1..][i - 1];
      posts[0].tags + rest
  }

  predicate NoDuplicates<T(==)>(s: seq<T>) {
    forall i, j :: 0 <= i < j < |s| ==> s[i] != s[j]
  }

  /** Each element once, at its first occurrence. */
  function Dedup(s: seq<string>): (r: seq<string>)
    ensures NoDuplicates(r)
    ensures forall x :: x in r <==> x in s
  {
    if s == [] then []
    else
      var d := Dedup(s[..|s| - 1]);
      assert s == s[..|s| - 1] + [s[|s| - 1]];
      if s[|s| - 1] in d then d else d + [s[|s| - 1]]
  }

  /** `Post.distinct('tags')`. */
  function PostTags(posts: seq<Post>): seq<string> {
    Dedup(AllTags(posts))
  }

  /** Every tag some post carries occurs exactly once, and nothing else occurs. */
  lemma PostTagsSpec(posts: seq<Post>)
    ensures NoDuplicates(PostTags(posts))
    ensures forall t :: t in PostTags(posts) <==> exists i :: 0 <= i < |posts| && t in posts[i].tags
  {
  }

  // ---------------------------------------------------------------------------
  // Posts by category

  /** No later category in the list has the same name as the one at index i. */
  predicate LastWithName(categories: seq<Category>, i: int)
    requires 0 <= i < |categories|
  {
    forall j :: i < j < |categories| ==> categories[j].name != categories[i].name
  }

  function Names(categories: seq<Category>): set<string> {
    set c | c in categories :: c.name
  }

  /**
   * `Object.assign({}, ...categories.map(c => ({ [c.name]: posts of c })))`:
   * the singleton objects merged left to right, so a later category overwrites
   * an earlier one of the same name.
   */
  function PostsByCategory(categories: seq<Category>, posts: seq<Post>): (m: map<string, seq<Post>>)
    ensures m.Keys == Names(categories)
  {
    if categories == [] then map[]
    else
      var n := |categories| - 1;
      var init := categories[..n];
      assert categories == init + [categories[n]];
      PostsByCategory(init, posts)[categories[n].name := CategoryPosts(posts, categories[n].id)]
  }

  /** A category that no later category shares its name with keeps its own posts under that name. */
  lemma {:induction false} PostsByCategoryLast(categories: seq<Category>, posts: seq<Post>, i: nat)
    requires i < |categories| && LastWithName(categories, i)
    ensures PostsByCategory(categories, posts)[categories[i].name] == CategoryPosts(posts, categories[i].id)
    decreases |categories|
  {
    var n := |categories| - 1;
    if i < n {
      var init := categories[..n];
      assert init[i] == categories[i];
      assert LastWithName(init, i) by {
        forall j | i < j < n ensures init[j].name != init[i].name {
          assert init[j] == categories[j];
        }
      }
      PostsByCategoryLast(init, posts, i);
    }
  }

  /** Every list in the merged object has at most five posts, all of one category carrying that name. */
  lemma PostsByCategoryEntries(categories: seq<Category>, posts: seq<Post>)
    ensures var m := PostsByCategory(categories, posts);
      forall name :: name in m ==>
        && |m[name]| <= Cap
        && (exists i :: 0 <= i < |categories| && categories[i].name == name &&
              forall p :: p in m[name] ==> p in posts && p.category == Some(categories[i].id))
  {
    var m := PostsByCategory(categories, posts);
    forall name | name in m
      ensures |m[name]| <= Cap
      ensures exists i :: 0 <= i < |categories| && categories[i].name == name &&
                (forall p :: p in m[name] ==> p in posts && p.category == Some(categories[i].id))
    {
      var i := LastIndexOf(categories, name);
      PostsByCategoryLast(categories, posts, i);
      var found := Find(posts, InCategory(categories[i].id));
      assert m[name] == Limit(found, Cap);
      forall p | p in m[name] ensures p in posts && p.category == Some(categories[i].id) {
        assert p in found;
      }
    }
  }

  /** The index of the last category called `name`. */
  function LastIndexOf(categories: seq<Category>, name: string): (i: nat)
    requires name in Names(categories)
    ensures i < |categories| && categories[i].name == name && LastWithName(categories, i)
  {
    var n := |categories| - 1;
    if categories[n].name == name then n
    else
      assert name in Names(categories[..n]) by {
        var c :| c in categories && c.name == name;
        var j :| 0 <= j < |categories| && categories[j] == c;
        assert categories[..n][j] == c;
      }
      var i := LastIndexOf(categories[..n], name);
      assert categories[i] == categories[..n][i];
      i
  }

  /** When no two categories share a name, every category gets its own posts. */
  lemma PostsByCategoryDistinctNames(categories: seq<Category>, posts: seq<Post>)
    requires forall i, j :: 0 <= i < j < |categories| ==> categories[i].name != categories[j].name
    ensures forall i :: 0 <= i < |categories| ==>
      PostsByCategory(categories, posts)[categories[i].name] == CategoryPosts(posts, categories[i].id)
  {
    forall i | 0 <= i < |categories|
      ensures PostsByCategory(categories, posts)[categories[i].name] == CategoryPosts(posts, categories[i].id)
    {
      PostsByCategoryLast(categories, posts, i);
    }
  }

  // ---------------------------------------------------------------------------
  // Category names for display

  /** A post with its category reference resolved, as `.populate('category')` leaves it. */
  datatype Populated = Populated(post: Post, category: Option<Category>)

  /** The category whose id is `id`, if the collection holds one. */
  function Lookup(categories: seq<Category>, id: ObjectId): (r: Option<Category>)
    ensures r.Some? ==> r.value in categories && r.value.id == id
    ensures r.None? ==> forall c :: c in categories ==> c.id != id
  {
    if categories == [] then None
    else if categories[0].id == id then Some(categories[0])
    else Lookup(categories[1..], id)
  }

  function Populate(categories: seq<Category>, posts: seq<Post>): (r: seq<Populated>)
    ensures |r| == |posts|
    ensures forall i :: 0 <= i < |r| ==>
      && r[i].post == posts[i]
      && r[i].category == (if posts[i].category.None? then None else Lookup(categories, posts[i].category.value))
  {
    seq(|posts|, i requires 0 <= i < |posts| =>
      Populated(posts[i], if posts[i].category.None? then None else Lookup(categories, posts[i].category.value)))
  }

  const Uncategorized: string := "Uncategorized"

  /** `post.category ? post.category.name : 'Uncategorized'`. */
  function DisplayCategory(c: Option<Category>): string {
    if c.Some? then c.value.name else Uncategorized
  }

  /** `allPosts.map(post => ({ ...post._doc, category: <display name> }))`. */
  function WithCategoryNames(populated: seq<Populated>): (r: seq<PostView>)
    ensures |r| == |populated|
  {
    seq(|populated|, i requires 0 <= i < |populated| =>
      WithCategory(populated[i].post, DisplayCategory(populated[i].category)))
  }

  /**
   * Display copies come in the posts' order, one per post; each one's category
   * is the referenced category's name, or "Uncategorized" when the post has no
   * reference or its reference does not resolve; every other field is the
   * post's own (putting the reference back gives the post).
   */
  lemma WithCategoryNamesSpec(categories: seq<Category>, posts: seq<Post>)
    ensures var r := WithCategoryNames(Populate(categories, posts));
      && |r| == |posts|
      && forall i :: 0 <= i < |posts| ==>
        && WithCategory(r[i], posts[i].category) == posts[i]
        && (posts[i].category.None? ==> r[i].category == Uncategorized)
        && (posts[i].category.Some? && (forall c :: c in categories ==> c.id != posts[i].category.value) ==>
              r[i].category == Uncategorized)
        && (posts[i].category.Some? && Lookup(categories, posts[i].category.value).Some? ==>
              r[i].category == Lookup(categories, posts[i].category.value).value.name)
  {
    var r := WithCategoryNames(Populate(categories, posts));
    forall i | 0 <= i < |posts| ensures WithCategory(r[i], posts[i].category) == posts[i] {
      WithCategoryRestores(posts[i], r[i].category);
    }
  }

  // ---------------------------------------------------------------------------
  // The assembled read model

  datatype HomeView = HomeView(
    categoryCounts: seq<CategoryCount>,
    postTags: seq<string>,
    popularPosts: seq<Populated>,
    recentPosts: seq<Populated>,
    posts: seq<Populated>,
    postWithCategoryNames: seq<PostView>,
    allCategories: seq<Category>,
    postsByCategory: map<string, seq<Post>>,
    editorsChoicePosts: seq<Populated>)

  /** `getIndex`: every sub-query evaluated against the same collections. */
  function GetIndex(categories: seq<Category>, posts: seq<Post>): HomeView {
    var all := Populate(categories, posts);
    HomeView(
      Census(categories, posts),
      PostTags(posts),
      Populate(categories, PopularPosts(posts)),
      Populate(categories, RecentPosts(posts)),
      all,
      WithCategoryNames(all),
      categories,
      PostsByCategory(categories, posts),
      Populate(categories, EditorsChoicePosts(posts)))
  }

  /** The posts behind a list of populated posts. */
  function PostsOf(ps: seq<Populated>): (r: seq<Post>)
    ensures |r| == |ps| && forall i :: 0 <= i < |ps| ==> r[i] == ps[i].post
  {
    seq(|ps|, i requires 0 <= i < |ps| => ps[i].post)
  }

  /** Populating changes no post and no order. */
  lemma PopulateKeepsPosts(categories: seq<Category>, posts: seq<Post>)
    ensures PostsOf(Populate(categories, posts)) == posts
  {
  }

  /** The home page's promises, read off the assembled view. */
  lemma GetIndexSpec(categories: seq<Category>, posts: seq<Post>)
    ensures |GetIndex(categories, posts).categoryCounts| == |categories|
    ensures var pop := PostsOf(GetIndex(categories, posts).popularPosts);
      |pop| <= Cap && SortedDesc(pop, Views) && multiset(pop) <= multiset(posts)
    ensures var rec := PostsOf(GetIndex(categories, posts).recentPosts);
      |rec| <= Cap && SortedDesc(rec, CreatedAt) && multiset(rec) <= multiset(posts)
    ensures var ec := PostsOf(GetIndex(categories, posts).editorsChoicePosts);
      |ec| <= Cap && forall p :: p in ec ==> p in posts && p.isEditorsChoice
    ensures PostsOf(GetIndex(categories, posts).posts) == posts
    ensures |GetIndex(categories, posts).postWithCategoryNames| == |posts|
    ensures GetIndex(categories, posts).postsByCategory.Keys == Names(categories)
  {
    PopularPostsSpec(posts);
    RecentPostsSpec(posts);
    EditorsChoiceSpec(posts);
    PopulateKeepsPosts(categories, PopularPosts(posts));
    PopulateKeepsPosts(categories, RecentPosts(posts));
    PopulateKeepsPosts(categories, EditorsChoicePosts(posts));
    PopulateKeepsPosts(categories, posts);
  }

  // ---------------------------------------------------------------------------
  // The admin post list

  /** `getAdminBlog`: every post, populated, with its category shown by name. */
  function AdminBlogPosts(categories: seq<Category>, posts: seq<Post>): seq<PostView> {
    WithCategoryNames(Populate(categories, posts))
  }

  /**
   * The admin list shows the same display copies as the home page: one per
   * post, in order, named after the resolved category or "Uncategorized".
   */
  lemma AdminBlogPostsSpec(categories: seq<Category>, posts: seq<Post>)
    ensures AdminBlogPosts(categories, posts) == GetIndex(categories, posts).postWithCategoryNames
    ensures var r := AdminBlogPosts(categories, posts);
      && |r| == |posts|
      && forall i :: 0 <= i < |posts| ==>
        && WithCategory(r[i], posts[i].category) == posts[i]
        && (posts[i].category.None? ==> r[i].category == Uncategorized)
        && (posts[i].category.Some? && Lookup(categories, posts[i].category.value).Some? ==>
              r[i].category == Lookup(categories, posts[i].category.value).value.name)
        && (posts[i].category.Some? && Lookup(categories, posts[i].category.value).None? ==>
              r[i].category == Uncategorized)
  {
    WithCategoryNamesSpec(categories, posts);
  }
}
