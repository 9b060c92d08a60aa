/**
 * The site-settings document and `updateAdminSettingHeader`: listed body
 * fields copied over it, checkbox fields turned into booleans, and the five
 * image fields replaced by whatever was uploaded for them.
 */
module SiteSettings {
  import opened Wrappers
  import opened Js
  import opened PostForms

  /** The body fields the handler copies, in the handler's order. */
  const FieldsToUpdate: seq<string> := [
    "header_sticky", "site_name", "website_name", "site_motto", "base_color",
    "base_hov_color", "secondary_base_color", "secondary_base_hov_color", "meta_title",
    "meta_description", "meta_keywords", "cookies_description", "show_cookies_agreement",
    "show_website_popup", "popup_description", "show_subscribe_form", "header_script",
    "footer_script", "show_social_links", "contact_address", "phonenumber",
    "frontend_copyright_text", "play_store_link", "contact_phone", "app_store_link",
    "facebook_link", "twitter_link", "instagram_link", "youtube_link", "linkedin_link",
    "contact_email", "copywritetext", "description"]

  /** The fields a form sends as checkboxes, in the handler's order. */
  const CheckboxFields: seq<string> := [
    "header_sticky", "show_social_links", "show_cookies_agreement", "show_website_popup",
    "show_subscribe_form"]

  /** The upload fields; each is stored under its own name, in the handler's order. */
  const ImageFields: seq<string> := ["headerlogo", "site_icon", "system_logo", "meta_image", "footerlogo"]

  /** Every checkbox is also a copied field, and no image field is one. */
  lemma FieldListsAgree()
    ensures forall x :: x in CheckboxFields ==> x in FieldsToUpdate
    ensures forall x :: x in ImageFields ==> x !in FieldsToUpdate && x !in CheckboxFields
  {
    CheckboxesAreCopied();
    ImagesAreNotCopied();
  }

  lemma CheckboxesAreCopied()
    ensures forall x :: x in CheckboxFields ==> x in FieldsToUpdate
  {
    assert CheckboxFields == [FieldsToUpdate[0], FieldsToUpdate[18], FieldsToUpdate[12], FieldsToUpdate[13], FieldsToUpdate[15]];
  }

  lemma ImagesAreNotCopied()
    ensures forall x :: x in ImageFields ==> x !in FieldsToUpdate && x !in CheckboxFields
  {
    forall x | x in ImageFields ensures x !in FieldsToUpdate && x !in CheckboxFields {
      var j :| 0 <= j < |ImageFields| && ImageFields[j] == x;
      ImageNotCopied(j);
    }
  }

  lemma ImageNotCopied(j: nat)
    requires j < |ImageFields|
    ensures ImageFields[j] !in FieldsToUpdate && ImageFields[j] !in CheckboxFields
  {
    forall i | 0 <= i < |FieldsToUpdate| ensures FieldsToUpdate[i] != ImageFields[j] { }
  }

  // ---------------------------------------------------------------------------
  // Specification of the merge

  /** How a copied body value is stored: as given, or as a checkbox's boolean. */
  datatype Conversion = AsGiven | AsCheckbox

  function Convert(c: Conversion, v: JsValue): (r: JsValue)
    ensures c.AsCheckbox? ==> r == Bool(CheckboxOn(v))
  {
    match c
    case AsGiven => v
    case AsCheckbox => Bool(CheckboxOn(v))
  }

  /**
   * `names.forEach(field => { if (hasOwnProperty(body, field)) doc[field] = convert(body[field]) })`:
   * the fields written one after another, in list order.
   */
  function Overlay(doc: map<string, JsValue>, body: map<string, JsValue>, names: seq<string>,
                   c: Conversion): map<string, JsValue>
    decreases |names|
  {
    if names == [] then doc
    else
      var prev := Overlay(doc, body, names[..|names| - 1], c);
      var x := names[|names| - 1];
      if x in body then prev[x := Convert(c, body[x])] else prev
  }

  /**
   * After the overlay a field is present when it was before or when it is
   * listed and present in the body, and then holds the converted body value;
   * every other field keeps its old value.
   */
  lemma {:induction false} OverlayAt(doc: map<string, JsValue>, body: map<string, JsValue>,
                                     names: seq<string>, c: Conversion, k: string)
    ensures var r := Overlay(doc, body, names, c);
      && (k in r <==> k in doc || (k in names && k in body))
      && (k in names && k in body ==> r[k] == Convert(c, body[k]))
      && (!(k in names && k in body) && k in doc ==> r[k] == doc[k])
    decreases |names|
  {
    if names != [] {
      var init := names[..|names| - 1];
      OverlayAt(doc, body, init, c, k);
      assert names == init + [names[|names| - 1]];
    }
  }

  /** The uploaded files of one field, as stored paths; none when the field has no upload. */
  function Uploads(files: map<string, seq<string>>, field: string): (r: seq<string>)
    ensures field !in files ==> r == []
    ensures field in files ==> r == UploadPaths(Some(files[field]))
    ensures field in files ==> |r| == |files[field]|
  {
    if field in files then UploadPaths(Some(files[field])) else []
  }

  /** An image field's new value: the list of stored paths. */
  function StoredPaths(paths: seq<string>): (r: JsValue)
    ensures r.Arr? && |r.items| == |paths| && forall i :: 0 <= i < |paths| ==> r.items[i] == Str(paths[i])
  {
    Arr(seq(|paths|, i requires 0 <= i < |paths| => Str(paths[i])))
  }

  /** One image field's write: its stored paths when it received files, otherwise nothing. */
  function WithUploads(doc: map<string, JsValue>, files: map<string, seq<string>>, x: string): map<string, JsValue> {
    if |Uploads(files, x)| > 0 then doc[x := StoredPaths(Uploads(files, x))] else doc
  }

  /** The five image writes, one after another in the handler's order. */
  function ImageWrites(doc: map<string, JsValue>, files: map<string, seq<string>>): map<string, JsValue> {
    var d1 := WithUploads(doc, files, "headerlogo");
    var d2 := WithUploads(d1, files, "site_icon");
    var d3 := WithUploads(d2, files, "system_logo");
    var d4 := WithUploads(d3, files, "meta_image");
    WithUploads(d4, files, "footerlogo")
  }

  /** An image field with uploads holds their paths; every other field is kept. */
  lemma ImageWritesAt(doc: map<string, JsValue>, files: map<string, seq<string>>, k: string)
    ensures k in ImageFields && |Uploads(files, k)| > 0 ==>
      k in ImageWrites(doc, files) && ImageWrites(doc, files)[k] == StoredPaths(Uploads(files, k))
    ensures !(k in ImageFields && |Uploads(files, k)| > 0) ==>
      (k in ImageWrites(doc, files) <==> k in doc) && (k in doc ==> ImageWrites(doc, files)[k] == doc[k])
  {
    var d1 := WithUploads(doc, files, "headerlogo");
    var d2 := WithUploads(d1, files, "site_icon");
    var d3 := WithUploads(d2, files, "system_logo");
    var d4 := WithUploads(d3, files, "meta_image");
    WithUploadsAt(doc, files, "headerlogo", k);
    WithUploadsAt(d1, files, "site_icon", k);
    WithUploadsAt(d2, files, "system_logo", k);
    WithUploadsAt(d3, files, "meta_image", k);
    WithUploadsAt(d4, files, "footerlogo", k);
    assert k in ImageFields <==> k == "headerlogo" || k == "site_icon" || k == "system_logo" || k == "meta_image" || k == "footerlogo";
  }

  /** One image write touches its own field only, and only when it has uploads. */
  lemma WithUploadsAt(doc: map<string, JsValue>, files: map<string, seq<string>>, x: string, k: string)
    ensures k == x && |Uploads(files, x)| > 0 ==>
      k in WithUploads(doc, files, x) && WithUploads(doc, files, x)[k] == StoredPaths(Uploads(files, x))
    ensures !(k == x && |Uploads(files, x)| > 0) ==>
      (k in WithUploads(doc, files, x) <==> k in doc) && (k in doc ==> WithUploads(doc, files, x)[k] == doc[k])
  {
  }

  /** The settings document after the whole handler. */
  function UpdatedSettings(doc: map<string, JsValue>, body: map<string, JsValue>,
                           files: map<string, seq<string>>): map<string, JsValue>
  {
    var copied := Overlay(doc, body, FieldsToUpdate, AsGiven);
    var checked := Overlay(copied, body, CheckboxFields, AsCheckbox);
    ImageWrites(checked, files)
  }

  // ---------------------------------------------------------------------------
  // What the merge promises

  /**
   * Field by field: a checkbox sent in the body becomes true exactly when its
   * value is "on"; any other listed field sent in the body takes the body's
   * value; an image field with uploads takes their paths; everything else,
   * including listed fields the body leaves out and images with no upload,
   * keeps its old value (or stays absent).
   */
  lemma UpdatedSettingsAt(doc: map<string, JsValue>, body: map<string, JsValue>,
                          files: map<string, seq<string>>, k: string)
    ensures var r := UpdatedSettings(doc, body, files);
      && (k in CheckboxFields && k in body ==> k in r && r[k] == Bool(body[k] == Str("on")))
      && (k in FieldsToUpdate && k !in CheckboxFields && k in body ==> k in r && r[k] == body[k])
      && (k in ImageFields && |Uploads(files, k)| > 0 ==> k in r && r[k] == StoredPaths(Uploads(files, k)))
      && (!(k in FieldsToUpdate && k in body) && !(k in ImageFields && |Uploads(files, k)| > 0) ==>
            (k in r <==> k in doc) && (k in doc ==> r[k] == doc[k]))
  {
    FieldListsAgree();
    var copied := Overlay(doc, body, FieldsToUpdate, AsGiven);
    var checked := Overlay(copied, body, CheckboxFields, AsCheckbox);
    OverlayAt(doc, body, FieldsToUpdate, AsGiven, k);
    OverlayAt(copied, body, CheckboxFields, AsCheckbox, k);
    ImageWritesAt(checked, files, k);
  }

  /** Sending the same form again changes nothing more. */
  lemma UpdatedSettingsIdempotent(doc: map<string, JsValue>, body: map<string, JsValue>,
                                  files: map<string, seq<string>>)
    ensures UpdatedSettings(UpdatedSettings(doc, body, files), body, files) == UpdatedSettings(doc, body, files)
  {
    var once := UpdatedSettings(doc, body, files);
    var twice := UpdatedSettings(once, body, files);
    forall k | true
      ensures (k in twice <==> k in once) && (k in once ==> twice[k] == once[k])
    {
      UpdatedSettingsAt(doc, body, files, k);
      UpdatedSettingsAt(once, body, files, k);
      FieldListsAgree();
    }
  }

  // ---------------------------------------------------------------------------
  // The document

  /** The single settings document. */
  class SettingDocument {
    var fields: map<string, JsValue>

    /** `findOneAndUpdate({}, {}, { upsert: true })` on an empty collection: a document with no fields. */
    constructor()
      ensures fields == map[]
    {
      fields := map[];
    }

    /** `updateAdminSettingHeader`: the two loops over the field lists, then the image fields. */
    method UpdateHeader(body: map<string, JsValue>, files: map<string, seq<string>>)
      modifies this
      ensures fields == UpdatedSettings(old(fields), body, files)
    {
      Assign(body, FieldsToUpdate, AsGiven);
      Assign(body, CheckboxFields, AsCheckbox);
      ReplaceImages(files);
    }

    /** One `forEach` over a field list: each listed field the body carries is written, converted. */
    method Assign(body: map<string, JsValue>, names: seq<string>, c: Conversion)
      modifies this
      ensures fields == Overlay(old(fields), body, names, c)
    {
      var i := 0;
      while i < |names|
        invariant 0 <= i <= |names|
        invariant fields == Overlay(old(fields), body, names[..i], c)
      {
        var field := names[i];
        if field in body {
          fields := fields[field := Convert(c, body[field])];
        }
        assert names[..i + 1][..i] == names[..i];
        i := i + 1;
      }
      assert names[..i] == names;
    }

    /** The five conditional writes: an image field is replaced only when it received files. */
    method ReplaceImages(files: map<string, seq<string>>)
      modifies this
      ensures fields == ImageWrites(old(fields), files)
    {
      var headerlogo := Uploads(files, "headerlogo");
      var siteIcon := Uploads(files, "site_icon");
      var systemLogo := Uploads(files, "system_logo");
      var metaImage := Uploads(files, "meta_image");
      var footerlogo := Uploads(files, "footerlogo");
      if |headerlogo| > 0 {
        fields := fields["headerlogo" := StoredPaths(headerlogo)];
      }
      if |siteIcon| > 0 {
        fields := fields["site_icon" := StoredPaths(siteIcon)];
      }
      if |systemLogo| > 0 {
        fields := fields["system_logo" := StoredPaths(systemLogo)];
      }
      if |metaImage| > 0 {
        fields := fields["meta_image" := StoredPaths(metaImage)];
      }
      if |footerlogo| > 0 {
        fields := fields["footerlogo" := StoredPaths(footerlogo)];
      }
    }
  }
}
