# No-Limit-Sys-Blog: the home page read model and the admin form handlers, in Dafny

This project models the blog's core request handlers as Dafny values, functions and small classes, and proves what they deliver.

- **`HomeIndex`** (`getIndex`) assembles the home page:
  - one post count per category;
  - the five most viewed posts, the five newest, and the first five editor's choices;
  - the distinct tags;
  - the category-name-to-posts object built by `Object.assign`;
  - every post with its category shown by name, or "Uncategorized" when it has none.
- **`PostForms`** covers the admin post and category forms:
  - tag parsing (`split(",")` then `trim`);
  - the editor's-choice checkbox coercion;
  - upload paths;
  - creating a post;
  - the in-place edit of a post, where the banner is replaced only by a non-empty upload and the meta image is filled only while empty;
  - the in-place edit of a category, where the banner is replaced whenever the request is multipart.
- **`SiteSettings`** (`updateAdminSettingHeader`) updates the settings document:
  - the listed body fields are copied;
  - the checkbox fields are overridden with `value === "on"`;
  - the five image fields are replaced by their uploads.
- **`EnvFile`** (`postAdminEnvSetting`) rewrites the `.env` text. It is modelled at two levels:
  - at the character level, as the chain of `replace(/^KEY=.*/m, ...)` calls;
  - at the line level, where each replace is proved to rewrite the first line starting with `KEY=` and nothing else.
- **`Js`** holds the JavaScript semantics the handlers rely on: body values, truthiness, template-literal text, `trim`, `split` and `join`.
- **`Blog`** holds the post and category records.
- **`Wrappers`** and **`Seqs`** are small utilities.

The store is a value:
- A collection is a `seq` of documents, in the store's natural order.
- A query is a function over that sequence.
- A document the handler mutates and saves is a field of a class, and the handler is a method with `modifies`.
- Clocks, file names chosen by the upload middleware, and the `.env` file's contents are parameters.

Three details of the code shape the model:
- The category census is a list of `{category, count}` records in category order, not a map.
- Categories that share a name are not rejected: a later one overwrites an earlier one in `postsByCategory`. `PostsByCategoryLast` states exactly which one wins.
- The post schema declares `banners` as a string, but the post handlers write an array under `banner` (the category handlers' `banner` is the category's own path). The record has the field `banner: seq<string>`.

## Model

| member | source | states |
|---|---|---|
| HomeIndex.Find | src/controller/homeController.js:31 | the result holds exactly the collection's posts that match the filter, and nothing else |
| HomeIndex.FindAppend | src/controller/homeController.js:31 | a query keeps collection order: the matches of a prefix come before those of the rest |
| HomeIndex.Limit | src/controller/homeController.js:17-21 | `.limit(n)` is a prefix of length min(n, count) |
| HomeIndex.Census | src/controller/homeController.js:11-14 | one record per category, in category order, holding the category's name and the number of posts whose category is its id (zero entries included) |
| HomeIndex.CensusTotal | src/controller/homeController.js:11-14 | for categories with distinct ids, the counts add up to the number of posts whose category is one of them |
| HomeIndex.CensusBounds | src/controller/homeController.js:11-14 | the counts never exceed the number of posts, and equal it when every post's category is a listed one |
| HomeIndex.InsertSpec | src/controller/homeController.js:17 | inserting into a descending sequence keeps it descending and adds exactly the one post |
| HomeIndex.SortDescSpec | src/controller/homeController.js:17 | `.sort({key: 'desc'})` returns a permutation of the posts that never increases in the key |
| HomeIndex.LimitOfSortedIsTop | src/controller/homeController.js:17 | the first n of a descending sequence outrank every element left out |
| HomeIndex.TopByKey | src/controller/homeController.js:17-21 | sort-then-limit returns min(5, count) of the posts, descending, and no omitted post has a larger key than a returned one |
| HomeIndex.PopularPostsSpec | src/controller/homeController.js:17 | the popular posts are at most five of the posts, by views descending, and no post left out has more views than one returned |
| HomeIndex.RecentPostsSpec | src/controller/homeController.js:21 | the recent posts are at most five of the posts, newest first, and no post left out is newer than one returned |
| HomeIndex.EditorsChoiceSpec | src/controller/homeController.js:18 | the editor's choices are exactly min(5, number of flagged posts) flagged posts, the first ones in collection order, and all of them when there are five or fewer |
| HomeIndex.AllTags | src/controller/homeController.js:24 | a tag occurs in the unwound list exactly when some post carries it |
| HomeIndex.Dedup | src/controller/homeController.js:24 | the result has no duplicates and the same elements as the input |
| HomeIndex.PostTagsSpec | src/controller/homeController.js:24 | `distinct('tags')` lists every tag some post carries exactly once and nothing else |
| HomeIndex.PostsByCategory | src/controller/homeController.js:30-35 | the merged object has exactly the category names as keys |
| HomeIndex.PostsByCategoryLast | src/controller/homeController.js:30-35 | `Object.assign` lets the last category with a given name win: its own five posts are stored under the name |
| HomeIndex.PostsByCategoryEntries | src/controller/homeController.js:30-35 | every entry holds at most five posts, all from the collection and all of one category carrying that name |
| HomeIndex.PostsByCategoryDistinctNames | src/controller/homeController.js:30-35 | with distinct names, every category's entry is its own first five posts |
| HomeIndex.LastIndexOf | src/controller/homeController.js:35 | the index of the last category carrying a name: no later category has it |
| HomeIndex.Lookup | src/controller/homeController.js:27 | `.populate('category')` finds a category with the referenced id, or reports that none exists |
| HomeIndex.Populate | src/controller/homeController.js:27 | one populated copy per post, in order, with the resolved category, or none when the reference is missing or does not resolve |
| HomeIndex.PopulateKeepsPosts | src/controller/homeController.js:27 | populating changes no post and no order |
| HomeIndex.WithCategoryNamesSpec | src/controller/homeController.js:40-44 | one display copy per post, in order: the category becomes the resolved name, or "Uncategorized" for a missing or dangling reference, and every other field is the post's own |
| HomeIndex.AdminBlogPostsSpec | src/controller/adminController.js:189-193 | `getAdminBlog` shows the same display copies as the home page: one per post, in order, named after the resolved category or "Uncategorized", every other field the post's own |
| HomeIndex.GetIndexSpec | src/controller/homeController.js:5-58 | the assembled view has one count per category; popular and recent are at most five posts in key order; the editor's choices are at most five flagged posts; `posts` is the whole collection in order; one display copy per post; the merged object is keyed by the category names |
| Blog.WithCategory | src/controller/homeController.js:41-44 | `{...post, category: c}` sets the category path to c |
| Blog.WithCategoryRestores | src/controller/homeController.js:41-44 | replacing the category path loses no other field |
| Blog.NewPost | src/models/postModel.js:6-70 | a new post is not an editor's choice, has no views and no creator, and takes each timestamp from its own clock reading |
| Js.Trim | src/controller/adminController.js:253 | `trim` is no longer than its input, is empty exactly for an all-white-space input, and neither starts nor ends with white space |
| Js.TrimIsTheInfix | src/controller/adminController.js:253 | `trim` returns exactly the part between the white-space margins |
| Js.Split | src/controller/adminController.js:253 | `split` yields one piece more than there are separators, and no piece contains one |
| Js.SplitWithoutSeparator | src/controller/adminController.js:253 | a text without separators splits into itself |
| Js.SplitAtSeparator | src/controller/adminController.js:253 | splitting distributes over a separator |
| Js.JoinSplit | src/controller/adminController.js:253 | joining the pieces of a split gives back the text |
| Js.SplitJoin | src/controller/adminController.js:253 | splitting a join of separator-free pieces gives back the pieces |
| Js.Separators | src/controller/adminController.js:938 | the separators of a text, in order: one per counted separator, each a separator |
| Js.SeparatorsAppend | src/controller/adminController.js:938 | the separators of a concatenation are those of its parts, in order |
| Js.SplitRebuild | src/controller/adminController.js:938 | the pieces of a split with the text's own separators put back between them give back the text |
| PostForms.TrimAll | src/controller/adminController.js:253 | one trimmed piece per piece, none longer than its original |
| PostForms.ParseTags | src/controller/adminController.js:252-254 | a falsy value gives no tags; the parse fails exactly for a truthy value that is not a string |
| PostForms.ParseTagsPieces | src/controller/adminController.js:344-346 | a non-empty text gives one tag per comma piece (commas plus one), tag i being piece i trimmed, so each is comma-free and trimmed at both ends |
| PostForms.TrimNoneOf | src/controller/adminController.js:345 | trimming a comma-free piece leaves it comma-free |
| PostForms.ParseTagsKeepsEmptyPieces | src/controller/adminController.js:344-346 | empty pieces are kept: "a, ,b" gives "a", "" and "b" |
| PostForms.ParseTagsBlank | src/controller/adminController.js:252-254 | a blank text is truthy, so it gives one empty tag, not none |
| PostForms.ParseTagsJoin | src/controller/adminController.js:344-346 | comma-free trimmed tags written back joined with commas parse to the same tags (all but a single empty tag) |
| PostForms.EditorsChoiceFlagSpec | src/controller/adminController.js:364-367 | the flag holds for the checkbox's "on" and also for "true" and `true`; every accepted value is truthy; other truthy values such as "1" are refused |
| PostForms.UploadPaths | src/controller/adminController.js:340-342 | no file list gives no paths; otherwise one `../public/uploads/<name>` path per file, in order |
| PostForms.CreatePost | src/controller/adminController.js:248-281 | the new post carries the parsed tags, the uploads as both banner and meta image, the form's category, title, slug, short description, description, meta title, meta description and meta keywords, the schema defaults and the two clock readings; a tag value that cannot be split creates nothing |
| PostForms.EditedPostSpec | src/controller/adminController.js:374-406 | an edit keeps id, views, creator and timestamps; it writes the tags, flag and category, and copies the form's title, slug, short description, description, meta title, meta description and meta keywords; it keeps the banner unless files were uploaded; it keeps a non-empty meta image and fills an empty one with the uploads |
| PostForms.EditedPostIdempotent | src/controller/adminController.js:374-406 | submitting the same edit twice leaves the post as the first submission did |
| PostForms.PostCollection.Edit | src/controller/adminController.js:340-407 | a tag value that cannot be split fails and an unknown id is not found, both leaving the collection unchanged; otherwise exactly that post becomes its edited form |
| PostForms.CategoryBanner | src/controller/adminController.js:604-606 | the old banner when the request has no file list, the upload paths otherwise |
| PostForms.CategoryCollection.Edit | src/controller/adminController.js:594-615 | found exactly for a stored id; an unknown id changes nothing; otherwise only that category's name, banner and short description change |
| PostForms.CategoryBannerKept | src/controller/adminController.js:604-606 | the banner survives only without a file list (or an identical upload); a multipart request with no file empties it; no path appears from nowhere |
| SiteSettings.FieldListsAgree | src/controller/adminController.js:709-758 | every checkbox field is also a copied field, and no image field is either |
| SiteSettings.Convert | src/controller/adminController.js:760-764 | a checkbox value is stored as whether it equals "on" |
| SiteSettings.OverlayAt | src/controller/adminController.js:745-764 | after a `forEach` over a field list, a listed field the body has holds the converted body value, and every other field is unchanged |
| SiteSettings.Uploads | src/controller/adminController.js:670-701 | a field without uploads gives no paths; otherwise the paths are exactly `../public/uploads/<name>` for that field's files, one per file, in order |
| SiteSettings.StoredPaths | src/controller/adminController.js:767-785 | an image field stores an array holding the paths in order |
| SiteSettings.WithUploadsAt | src/controller/adminController.js:767-769 | one image write touches only its own field, and only when it received files |
| SiteSettings.ImageWritesAt | src/controller/adminController.js:767-785 | an image field with uploads holds their paths; every other field is unchanged |
| SiteSettings.UpdatedSettingsAt | src/controller/adminController.js:709-785 | a sent checkbox is true exactly when its value is "on"; another sent listed field takes the body's value; an image with uploads takes their paths; every other field keeps its value or stays absent |
| SiteSettings.UpdatedSettingsIdempotent | src/controller/adminController.js:709-785 | sending the same form again changes nothing more |
| SiteSettings.SettingDocument.constructor | src/controller/adminController.js:703-707 | an upserted settings document starts with no fields |
| SiteSettings.SettingDocument.UpdateHeader | src/controller/adminController.js:709-787 | the document becomes the specified merge of the old document, the body and the uploads |
| SiteSettings.SettingDocument.Assign | src/controller/adminController.js:745-764 | the loop writes the listed body fields, converted, in list order |
| SiteSettings.SettingDocument.ReplaceImages | src/controller/adminController.js:767-785 | the five conditional writes equal the specified image writes |
| EnvFile.EnvKeysPlain | src/controller/adminController.js:938-983 | no rewritten key contains `=` or a line break |
| EnvFile.EnvKeysDistinct | src/controller/adminController.js:938-983 | the chain rewrites 19 distinct keys |
| EnvFile.AppleRedirectUnlisted | src/controller/adminController.js:927 | `SIGN_IN_WITH_APPLE_REDIRECT` is read from the body but is not among the rewritten keys |
| EnvFile.OccursAtIsPrefix | src/controller/adminController.js:938 | the pattern occurs at i exactly when it is a prefix of the text from i |
| EnvFile.FindFrom | src/controller/adminController.js:938 | a found position is a line start where `KEY=` occurs |
| EnvFile.FindFromLeftmost | src/controller/adminController.js:938 | the search finds the leftmost match, and finds none only when there is none |
| EnvFile.LineEndStops | src/controller/adminController.js:938 | `.*` runs over no line terminator and stops at one or at the end of the text |
| EnvFile.ReplaceSingleLine | src/controller/adminController.js:938 | on a one-line text the replace yields the new line exactly when the line starts with the pattern, and the text otherwise |
| EnvFile.LinesOfReplace | src/controller/adminController.js:938 | on lines, one replace rewrites the first line starting with `KEY=` and keeps all others, when the value has no line break; with no such line the text is unchanged |
| EnvFile.ReplaceFirstLineAt | src/controller/adminController.js:938 | the first line with the key becomes `KEY=value` and every other line is kept |
| EnvFile.ReplaceKeepsStarts | src/controller/adminController.js:938-983 | one replace keeps which other keys each line starts with |
| EnvFile.FirstWithKept | src/controller/adminController.js:938-983 | one replace keeps which line is first to start with another key |
| EnvFile.LinesOfRewrite | src/controller/adminController.js:937-983 | the chain of replaces on the text is the chain of first-line rewrites on its lines |
| EnvFile.RewriteWithoutKeyLines | src/controller/adminController.js:937-983 | when no line starts with any key, the chain returns the text unchanged |
| EnvFile.RewriteLinesFirst | src/controller/adminController.js:937-983 | after the chain, a key's first line holds that key's new value |
| EnvFile.RewriteLinesLater | src/controller/adminController.js:937-983 | after the chain, a later line for a key already rewritten is kept |
| EnvFile.RewriteLinesKeepsOther | src/controller/adminController.js:937-983 | after the chain, a line starting with none of the keys is kept |
| EnvFile.RewriteEnvAsLines | src/controller/adminController.js:937-983 | the handler's rewrite keeps the number of lines and equals the line-level rewrite |
| EnvFile.RewriteEnvFirstLine | src/controller/adminController.js:937-983 | each listed key's first line becomes `KEY=<value as text>` |
| EnvFile.RewriteEnvLaterLine | src/controller/adminController.js:937-983 | a second line for a listed key is kept |
| EnvFile.RewriteEnvOtherLine | src/controller/adminController.js:937-983 | a line for no listed key is kept |
| EnvFile.RewriteEnvKeepsRedirect | src/controller/adminController.js:927-983 | a `SIGN_IN_WITH_APPLE_REDIRECT=` line is kept whatever the body holds for it |
| EnvFile.RewriteEnvWithoutKeyLines | src/controller/adminController.js:937-983 | a `.env` text with no line for any listed key is written back unchanged, whatever the body holds |
| EnvFile.SpliceKeepsBreaks | src/controller/adminController.js:938 | replacing a part without line breaks by text without line breaks keeps every line break |
| EnvFile.MatchedLineIsPlain | src/controller/adminController.js:938 | what `^KEY=.*` matches holds no line break |
| EnvFile.ReplaceKeepsBreaks | src/controller/adminController.js:938 | one replace keeps every line break of the text, in order, whichever line it rewrites |
| EnvFile.RewriteKeysKeepsBreaks | src/controller/adminController.js:937-983 | the chain of replaces keeps every line break of the text, in order |
| EnvFile.RewriteEnvText | src/controller/adminController.js:937-983 | character for character, the new `.env` text is the rewritten lines joined by the original text's own line breaks (`\r\n` stays `\r\n`) |

## Left out

- The MongoDB engine, connection and query planner: collections are sequences, and each query is a function over them.
- The concurrent fan-out of `Promise.all`. The sub-queries read the same collections and do not depend on each other, so they are evaluated against one snapshot.
- Failures of the store or of the upload middleware and the HTTP status codes they produce (500 and 404 responses, `validationResult`). The exceptions are the two error paths that depend on the request: an unsplittable tag value and an unknown post or category id.
- Routing, rendering, redirects, `console` logging, and the settings lookup whose result `getIndex` only hands to the template.
- Multer's storage engine and the `Date.now`-based file names: uploaded file names are inputs.
- The upload count limits are not modelled. The category and settings forms cap each field at 5 files. The post forms pass `"meta_img"` where the count belongs and so have no cap.
- PostForms.CreatePost: describes the document the handler builds, not what the store keeps. The schema requires `banners`, which the handler never sets, and strict mode drops the undeclared `banner`. So `save()` rejects every create, and the handler answers 500.
- PostForms.EditedPost: the banner part describes what the handler assigns, not what the store keeps. `banner` is not a schema path, and `save()` rejects a post without the required `banners`. Then only the fields written by `findByIdAndUpdate` are stored, and the handler answers 500.
- Reading and writing the `.env` file: its contents before and after are a parameter and a result.
- HomeIndex.SortDescSpec: the order among posts with equal keys is not stated, because the store promises no tie-break. The model sorts stably.
- Js.ToText: numbers are integers; floating point, `NaN`, `Infinity` and objects with their own `toString` are not modelled.
- EnvFile.LinesOfReplace: the line-level statements require values without line terminators. A value with a line break can insert lines, and then only the character-level `RewriteEnv` describes the result.
- EnvFile.ReplaceMatch: `$&`, `$1` and other `$` patterns in the replacement text are not expanded.
- The `__proto__` category name, which `Object.assign` treats as a prototype setter rather than a key, is not modelled.
- Mongoose casting, validation of `required` fields, and strict-mode dropping of the undeclared `banner` path on save are not modelled. The record keeps `banner` as the handlers use it.
- The schema's `pre('save')` slug hook (slugify) is not modelled; the slug is a form field.
- PostForms.PostForm: every text field is a present string. A field missing from the request body (`undefined`) is not modelled: in the post update Mongoose drops or nulls such a field, and in PostForms.CategoryCollection.Edit `category.name = name` (src/controller/adminController.js:611) would unset the path.
- PostForms.PostCollection.Edit: `author`, `publish_date` and `status` are sent to `findByIdAndUpdate`, but they are not schema paths, so the record does not carry them.
- Pagination, the admin dashboard counts, `updateAdminProfile`, the tag create/update/delete handlers, mail sending, the server statistics probes and the JWT middleware are not part of this model.
