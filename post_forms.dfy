/**
 * What the admin post and category forms do to the stored records: tag
 * parsing, the editor's-choice checkbox, upload paths, creating a post, and
 * the in-place edits of a post and of a category.
 */
module PostForms {
  import opened Wrappers
  import opened Js
  import opened Blog

  // ---------------------------------------------------------------------------
  // Tags

  /** The one way tag parsing fails: `tags.split` is not a function on a truthy non-string. */
  datatype Failure = SplitIsNotAFunction

  /** Every piece with its surrounding white space removed. */
  function TrimAll(pieces: seq<string>): (r: seq<string>)
    ensures |r| == |pieces|
    ensures forall i :: 0 <= i < |r| ==> r[i] == Trim(pieces[i])
    ensures forall i :: 0 <= i < |r| ==> |r[i]| <= |pieces[i]|
  {
    seq(|pieces|, i requires 0 <= i < |pieces| => Trim(pieces[i]))
  }

  /**
   * `tags ? tags.split(",").map(tag => tag.trim()) : []`. A falsy value gives
   * no tags; a string is cut at every comma; anything else truthy throws.
   */
  function ParseTags(v: JsValue): (r: Result<seq<string>, Failure>)
    ensures !Truthy(v) ==> r == Ok([])
    ensures r.Err? <==> Truthy(v) && !v.Str?
  {
    if !Truthy(v) then Ok([])
    else if v.Str? then Ok(TrimAll(Split(v.s, {','})))
    else Err(SplitIsNotAFunction)
  }

  /** A text without white space at either end. */
  predicate Trimmed(t: string) {
    t == [] || (!IsWhitespace(t[0]) && !IsWhitespace(t[|t| - 1]))
  }

  lemma TrimOfTrimmed(t: string)
    requires Trimmed(t)
    ensures Trim(t) == t
  {
    if t != [] {
      TrimIsTheInfix(t, 0, |t|);
    }
  }

  /**
   * A non-empty tag text gives one tag per comma-separated piece (commas plus
   * one, empty pieces kept): tag i is piece i with its white space trimmed, so
   * it has no comma and no white space at either end.
   */
  lemma ParseTagsPieces(s: string)
    requires s != ""
    ensures ParseTags(Str(s)).Ok?
    ensures var tags := ParseTags(Str(s)).value;
      |tags| == |Split(s, {','})| && forall i :: 0 <= i < |tags| ==> tags[i] == Trim(Split(s, {','})[i])
    ensures var tags := ParseTags(Str(s)).value;
      && |tags| == CountOf(s, {','}) + 1
      && forall i :: 0 <= i < |tags| ==> NoneOf(tags[i], {','}) && Trimmed(tags[i])
  {
    var pieces := Split(s, {','});
    var tags := ParseTags(Str(s)).value;
    forall i | 0 <= i < |tags| ensures NoneOf(tags[i], {','}) && Trimmed(tags[i]) {
      TrimNoneOf(pieces[i], {','});
    }
  }

  /** Trimming only removes characters, so it cannot introduce a separator. */
  lemma TrimNoneOf(s: string, seps: set<char>)
    requires NoneOf(s, seps)
    ensures NoneOf(Trim(s), seps)
  {
    var a := LeadingWhitespace(s);
    if a < |s| {
      var b := TrailingStart(s);
      forall k | 0 <= k < b - a ensures s[a..b][k] !in seps {
        assert s[a..b][k] == s[a + k];
      }
    }
  }

  /** Empty pieces are kept: a blank piece between two commas yields an empty tag. */
  lemma ParseTagsKeepsEmptyPieces()
    ensures ParseTags(Str("a, ,b")) == Ok(["a", "", "b"])
  {
    SplitThreePieces();
    TrimThreePieces();
  }

  lemma SplitThreePieces()
    ensures Split("a, ,b", {','}) == ["a", " ", "b"]
  {
    assert "a, ,b" == "a" + [','] + (" " + [','] + "b");
    SplitAtSeparator("a", ',', " " + [','] + "b", {','});
    SplitAtSeparator(" ", ',', "b", {','});
    SplitWithoutSeparator("a", {','});
    SplitWithoutSeparator(" ", {','});
    SplitWithoutSeparator("b", {','});
  }

  lemma TrimThreePieces()
    ensures TrimAll(["a", " ", "b"]) == ["a", "", "b"]
  {
    TrimOfTrimmed("a");
    TrimOfTrimmed("b");
    assert AllWhitespace(" ");
    assert TrimAll(["a", " ", "b"]) == [Trim("a"), Trim(" "), Trim("b")];
  }

  /** A blank tag text is truthy, so it yields one empty tag rather than none. */
  lemma ParseTagsBlank()
    ensures ParseTags(Str("   ")) == Ok([""])
  {
    assert Split("   ", {','}) == ["   "] by { SplitWithoutSeparator("   ", {','}); }
    assert AllWhitespace("   ");
    assert TrimAll(["   "]) == [Trim("   ")];
  }

  /** A join of tags is empty only for no tags or a single empty tag. */
  lemma JoinEmpty(tags: seq<string>)
    requires tags != [] && tags != [""]
    ensures Join(tags, ',') != ""
  {
    if |tags| > 1 {
      assert |Join(tags, ',')| >= 1;
    } else {
      assert tags == [tags[0]];
    }
  }

  /**
   * Tags written back as one comma-separated text parse to the same tags, when
   * each is trimmed and comma-free (a single empty tag would be an empty text,
   * which reads as no tags).
   */
  lemma ParseTagsJoin(tags: seq<string>)
    requires tags != [""]
    requires forall i :: 0 <= i < |tags| ==> NoneOf(tags[i], {','}) && Trimmed(tags[i])
    ensures ParseTags(Str(Join(tags, ','))) == Ok(tags)
  {
    if tags != [] {
      JoinEmpty(tags);
      SplitJoin(tags, ',');
      forall i | 0 <= i < |tags| ensures Trim(tags[i]) == tags[i] {
        TrimOfTrimmed(tags[i]);
      }
      assert TrimAll(tags) == tags;
    }
  }

  // ---------------------------------------------------------------------------
  // The editor's-choice checkbox

  /** `isEditorsChoice === "true" || isEditorsChoice === true || isEditorsChoice === "on"`. */
  predicate EditorsChoiceFlag(v: JsValue) {
    v == Str("true") || v == Bool(true) || v == Str("on")
  }

  /** A settings checkbox is on exactly when its value is the text "on". */
  predicate CheckboxOn(v: JsValue) {
    v == Str("on")
  }

  /**
   * The post form's flag accepts what a checkbox sends and two more spellings;
   * every accepted value is truthy, and no other value, however truthy, is.
   */
  lemma EditorsChoiceFlagSpec(v: JsValue)
    ensures CheckboxOn(v) ==> EditorsChoiceFlag(v)
    ensures EditorsChoiceFlag(v) && !CheckboxOn(v) <==> v == Str("true") || v == Bool(true)
    ensures EditorsChoiceFlag(v) ==> Truthy(v)
    ensures v == Str("1") || v == Num(1) || v == Str("yes") || v == Arr([Str("on")]) ==> !EditorsChoiceFlag(v)
  {
  }

  // ---------------------------------------------------------------------------
  // Uploads

  const UploadDir: string := "../public/uploads/"

  /**
   * The stored paths of the uploaded files. `None` is a request that is not
   * multipart (`req.files` undefined); the post forms treat it as no uploads.
   */
  function UploadPaths(files: Option<seq<string>>): (r: seq<string>)
    ensures files.None? ==> r == []
    ensures files.Some? ==> |r| == |files.value| && forall i :: 0 <= i < |r| ==> r[i] == UploadDir + files.value[i]
  {
    if files.None? then []
    else seq(|files.value|, i requires 0 <= i < |files.value| => UploadDir + files.value[i])
  }

  // ---------------------------------------------------------------------------
  // Creating and editing posts

  /** The text fields a post form destructures from the body. */
  datatype PostForm = PostForm(
    title: string,
    categoryId: Option<ObjectId>,
    slug: string,
    shortDescription: string,
    description: string,
    metaTitle: string,
    metaDescription: string,
    metaKeywords: string)

  /**
   * `postAdminBlogCreate`: the new post carries the parsed tags and the
   * uploads as both banner and meta image, with the schema's defaults; a tag
   * value that cannot be split creates nothing.
   */
  function CreatePost(form: PostForm, tagsField: JsValue, files: Option<seq<string>>,
                      id: ObjectId, createdAt: int, updatedAt: int): (r: Result<Post, Failure>)
    ensures r.Err? <==> ParseTags(tagsField).Err?
    ensures r.Ok? ==>
      && r.value.tags == ParseTags(tagsField).value
      && r.value.banner == UploadPaths(files) && r.value.metaImg == UploadPaths(files)
      && r.value.category == form.categoryId && r.value.title == form.title && r.value.slug == form.slug
      && r.value.shortDescription == form.shortDescription && r.value.description == form.description
      && r.value.metaTitle == form.metaTitle && r.value.metaDescription == form.metaDescription
      && r.value.metaKeywords == form.metaKeywords
      && !r.value.isEditorsChoice && r.value.views == 0
      && r.value.createdAt == createdAt && r.value.updatedAt == updatedAt
  {
    var tags := ParseTags(tagsField);
    if tags.Err? then Err(tags.error)
    else
      var uploads := UploadPaths(files);
      Ok(NewPost(id, form.title, form.slug, form.categoryId, uploads, form.shortDescription,
                 form.description, tags.value, form.metaTitle, uploads, form.metaDescription,
                 form.metaKeywords, createdAt, updatedAt))
  }

  /**
   * The document after `postAdminBlogEdit`: the form's fields, tags and flag
   * written over it, then the banner replaced only by a non-empty upload and
   * the meta image filled only while it is empty.
   */
  function EditedPost(p: Post, form: PostForm, tags: seq<string>, editorsChoice: bool,
                      uploads: seq<string>): Post
  {
    var updated := p.(title := form.title, category := form.categoryId, slug := form.slug,
                      shortDescription := form.shortDescription, description := form.description,
                      metaTitle := form.metaTitle, tags := tags, isEditorsChoice := editorsChoice,
                      metaDescription := form.metaDescription, metaKeywords := form.metaKeywords);
    var withBanner := if |uploads| > 0 then updated.(banner := uploads) else updated;
    if |withBanner.metaImg| == 0 then withBanner.(metaImg := uploads) else withBanner
  }

  /**
   * What an edit writes and keeps: every text field, the category, the tags
   * and the flag come from the form; the id, views, creator and timestamps
   * stay; the old banner stays unless something was uploaded; the meta image
   * stays once it is non-empty.
   */
  lemma EditedPostSpec(p: Post, form: PostForm, tags: seq<string>, editorsChoice: bool, uploads: seq<string>)
    ensures var q := EditedPost(p, form, tags, editorsChoice, uploads);
      && q.id == p.id && q.views == p.views && q.creator == p.creator
      && q.createdAt == p.createdAt && q.updatedAt == p.updatedAt
      && q.tags == tags && q.isEditorsChoice == editorsChoice && q.category == form.categoryId
      && q.title == form.title && q.slug == form.slug
      && q.shortDescription == form.shortDescription && q.description == form.description
      && q.metaTitle == form.metaTitle && q.metaDescription == form.metaDescription
      && q.metaKeywords == form.metaKeywords
      && (q.banner == p.banner <== uploads == [])
      && (uploads != [] ==> q.banner == uploads)
      && (p.metaImg != [] ==> q.metaImg == p.metaImg)
      && (p.metaImg == [] ==> q.metaImg == uploads)
  {
  }

  /** Submitting the same edit twice leaves the post as the first submission did. */
  lemma EditedPostIdempotent(p: Post, form: PostForm, tags: seq<string>, editorsChoice: bool, uploads: seq<string>)
    ensures var q := EditedPost(p, form, tags, editorsChoice, uploads);
      EditedPost(q, form, tags, editorsChoice, uploads) == q
  {
  }

  datatype EditOutcome = Saved | NotFound | Failed

  /** The post collection, keyed by `_id`. */
  class PostCollection {
    var docs: map<ObjectId, Post>

    constructor(docs: map<ObjectId, Post>)
      ensures this.docs == docs
    {
      this.docs := docs;
    }

    /**
     * `postAdminBlogEdit`: the tags are parsed before the store is touched, so
     * a value that cannot be split changes nothing; an unknown id changes
     * nothing; otherwise the one post becomes its edited form.
     */
    method Edit(id: ObjectId, form: PostForm, tagsField: JsValue, editorsChoiceField: JsValue,
                files: Option<seq<string>>) returns (outcome: EditOutcome)
      modifies this
      ensures ParseTags(tagsField).Err? ==> outcome == Failed && docs == old(docs)
      ensures ParseTags(tagsField).Ok? && id !in old(docs) ==> outcome == NotFound && docs == old(docs)
      ensures ParseTags(tagsField).Ok? && id in old(docs) ==>
        && outcome == Saved
        && docs == old(docs)[id := EditedPost(old(docs)[id], form, ParseTags(tagsField).value,
                                              EditorsChoiceFlag(editorsChoiceField), UploadPaths(files))]
    {
      var uploads := UploadPaths(files);
      var tags := ParseTags(tagsField);
      if tags.Err? {
        return Failed;
      }
      var editorsChoice := EditorsChoiceFlag(editorsChoiceField);
      if id !in docs {
        return NotFound;
      }
      var post := docs[id].(title := form.title, category := form.categoryId, slug := form.slug,
                            shortDescription := form.shortDescription, description := form.description,
                            metaTitle := form.metaTitle, tags := tags.value, isEditorsChoice := editorsChoice,
                            metaDescription := form.metaDescription, metaKeywords := form.metaKeywords);
      if |uploads| > 0 {
        post := post.(banner := uploads);
      }
      if |post.metaImg| == 0 {
        post := post.(metaImg := uploads);
      }
      docs := docs[id := post];
      outcome := Saved;
    }
  }

  // ---------------------------------------------------------------------------
  // Editing a category

  /**
   * The banner after `editAdminCategory`: the uploads when the request is
   * multipart (even when no file was chosen), the old banner otherwise.
   */
  function CategoryBanner(oldBanner: seq<string>, files: Option<seq<string>>): (r: seq<string>)
    ensures files.None? ==> r == oldBanner
    ensures files.Some? ==> r == UploadPaths(files)
  {
    if files.None? then oldBanner else UploadPaths(files)
  }

  /** The category collection, keyed by `_id`. */
  class CategoryCollection {
    var docs: map<ObjectId, Category>

    constructor(docs: map<ObjectId, Category>)
      ensures this.docs == docs
    {
      this.docs := docs;
    }

    /** `editAdminCategory`: name, banner and short description of one category. */
    method Edit(id: ObjectId, name: string, shortDescription: string, files: Option<seq<string>>)
      returns (found: bool)
      modifies this
      ensures found <==> id in old(docs)
      ensures !found ==> docs == old(docs)
      ensures found ==>
        docs == old(docs)[id := old(docs)[id].(name := name, banner := CategoryBanner(old(docs)[id].banner, files),
                                              shortDescription := shortDescription)]
    {
      if id !in docs {
        return false;
      }
      var category := docs[id];
      var banner := if files.Some? then UploadPaths(files) else category.banner;
      category := category.(name := name);
      category := category.(banner := banner);
      category := category.(shortDescription := shortDescription);
      docs := docs[id := category];
      found := true;
    }
  }

  /**
   * The banner survives an edit only when the request carries no file list at
   * all; a multipart request with no file chosen empties it.
   */
  lemma CategoryBannerKept(oldBanner: seq<string>, files: Option<seq<string>>)
    ensures CategoryBanner(oldBanner, files) == oldBanner <==> files.None? || UploadPaths(files) == oldBanner
    ensures CategoryBanner(oldBanner, Some([])) == []
    ensures forall f :: f in CategoryBanner(oldBanner, files) ==> f in oldBanner || files.Some?
  {
  }
}
