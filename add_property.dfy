/**
 * The add-property form action: coerce the submitted fields, validate them, upload
 * the main image and the gallery, split the feature list, and create the row.
 */
module AddProperty {
  import opened Wrappers
  import opened Text
  import opened Validation
  import opened Records
  import opened Media

  /** The multipart form as submitted: text fields are `None` when absent. */
  datatype PropertyForm = PropertyForm(
    title: Option<string>,
    slug: Option<string>,
    address: Option<string>,
    price: Option<string>,
    beds: Option<string>,
    baths: Option<string>,
    area: Option<string>,
    yearBuilt: Option<string>,
    propertyType: Option<string>,
    description: Option<string>,
    videoUrl: Option<string>,
    latitude: Option<string>,
    longitude: Option<string>,
    agentId: Option<string>,
    features: Option<string>,
    imageUrl: Option<File>,
    galleryImages: seq<File>)

  /** The coerced scalar inputs, echoed back with every failure. `price` is `None`
      when `parseInt` gives `NaN`. */
  datatype PropertyData = PropertyData(
    title: Option<string>,
    slug: Option<string>,
    address: Option<string>,
    price: Option<int>,
    beds: Option<int>,
    baths: Option<int>,
    area: Option<int>,
    yearBuilt: Option<int>,
    propertyType: Option<string>,
    description: Option<string>,
    videoUrl: Option<string>,
    latitude: Option<real>,
    longitude: Option<real>,
    agentId: Option<string>)

  datatype Outcome =
    | Added(addedTitle: string)
    | Failure(status: int, error: string, data: PropertyData)

  /** `parseFloat`, with `None` for `NaN`. */
  type FloatParser = string -> Option<real>

  const MissingFields := "Missing required fields."
  const BadSlug := "Invalid slug format."
  const UploadFailed := "File upload failed."
  const SaveFailed := "Failed to save property to database."

  function SlugTaken(slug: string): string {
    "Slug \"" + slug + "\" is already taken."
  }

  function ReadForm(form: PropertyForm, parseFloat: FloatParser): PropertyData {
    PropertyData(
      form.title, form.slug, form.address, IntOrZero(form.price),
      OptionalInt(form.beds), OptionalInt(form.baths), OptionalInt(form.area), OptionalInt(form.yearBuilt),
      OptionalText(form.propertyType), OptionalText(form.description), OptionalText(form.videoUrl),
      OptionalCoordinate(parseFloat(FieldText(form.latitude))),
      OptionalCoordinate(parseFloat(FieldText(form.longitude))),
      OptionalText(form.agentId))
  }

  /** `data.title && data.slug && data.address && data.price`. */
  predicate HasRequired(d: PropertyData) {
    Truthy(d.title) && Truthy(d.slug) && Truthy(d.address) && d.price.Some? && d.price.value != 0
  }

  /** The validation step: the message of the first check that fails, or `None` when
      the submission may go on. `slugs` are the slugs already in use. */
  function Check(d: PropertyData, slugs: set<string>): (e: Option<string>)
    ensures e.None? <==> HasRequired(d) && SlugShape(d.slug.value) && d.slug.value !in slugs
    ensures !HasRequired(d) ==> e == Some(MissingFields)
    ensures HasRequired(d) && !SlugShape(d.slug.value) ==> e == Some(BadSlug)
    ensures HasRequired(d) && SlugShape(d.slug.value) && d.slug.value in slugs ==>
              e == Some(SlugTaken(d.slug.value))
  {
    if !HasRequired(d) then Some(MissingFields)
    else
      SlugCharacterisation(d.slug.value);
      if !IsSlug(d.slug.value) then Some(BadSlug)
      else if d.slug.value in slugs then Some(SlugTaken(d.slug.value))
      else None
  }

  /** An absent or empty price therefore fails the required-field check. */
  lemma MissingPriceRejected(form: PropertyForm, parseFloat: FloatParser, slugs: set<string>)
    requires FieldText(form.price) == []
    ensures Check(ReadForm(form, parseFloat), slugs) == Some(MissingFields)
  {
    EmptyIntOrZero(form.price);
  }

  /** Only the price being zero or unparsable makes it missing: a negative price passes. */
  lemma NegativePriceAccepted(d: PropertyData)
    requires Truthy(d.title) && Truthy(d.slug) && Truthy(d.address)
    requires d.price.Some? && d.price.value < 0
    ensures HasRequired(d)
  {
  }

  /** The files of the gallery that have content, in order: the ones handed to the
      uploader. */
  function ContentFiles(files: seq<File>): (r: seq<File>)
    ensures |r| <= |files|
    ensures forall f :: f in r ==> f in files && |f.bytes| > 0
  {
    if files == [] then []
    else
      var last := files[|files| - 1];
      var prefix := ContentFiles(files[..|files| - 1]);
      if |last.bytes| > 0 then prefix + [last] else prefix
  }

  /** The URLs the gallery loop collects: for each file with content, in order, the URL
      of its upload when that upload gave a non-empty URL. A failed upload is skipped. */
  function GalleryUrls(files: seq<File>, upload: Uploader): (urls: seq<string>)
    ensures |urls| <= |ContentFiles(files)|
  {
    if files == [] then []
    else
      var last := files[|files| - 1];
      var prefix := GalleryUrls(files[..|files| - 1], upload);
      if |last.bytes| > 0 && Truthy(upload(last.bytes, PropertyFolder)) then
        prefix + [upload(last.bytes, PropertyFolder).value]
      else prefix
  }

  lemma {:induction false} ContentFilesComplete(files: seq<File>)
    ensures forall f :: f in files && |f.bytes| > 0 ==> f in ContentFiles(files)
  {
    if files != [] {
      var init := files[..|files| - 1];
      ContentFilesComplete(init);
      assert files == init + [files[|files| - 1]];
    }
  }

  /** Every collected URL is the non-empty URL returned for one of the files with content. */
  lemma {:induction false} GalleryUrlsSound(files: seq<File>, upload: Uploader)
    ensures forall u :: u in GalleryUrls(files, upload) ==>
      u != [] && exists f :: f in files && |f.bytes| > 0 && upload(f.bytes, PropertyFolder) == Some(u)
  {
    if files != [] {
      var init := files[..|files| - 1];
      GalleryUrlsSound(init, upload);
      assert files == init + [files[|files| - 1]];
    }
  }

  /** The gallery keeps one URL per file with content exactly when every upload succeeds. */
  lemma {:induction false} GalleryUrlsComplete(files: seq<File>, upload: Uploader)
    ensures |GalleryUrls(files, upload)| == |ContentFiles(files)| <==>
      forall f :: f in files && |f.bytes| > 0 ==> Truthy(upload(f.bytes, PropertyFolder))
  {
    if files != [] {
      var init := files[..|files| - 1];
      var last := files[|files| - 1];
      GalleryUrlsComplete(init, upload);
      assert files == init + [last];
    }
  }

  /** Gallery URLs of two batches of files are those of each batch, in order. */
  lemma {:induction false} GalleryUrlsAppend(a: seq<File>, b: seq<File>, upload: Uploader)
    ensures GalleryUrls(a + b, upload) == GalleryUrls(a, upload) + GalleryUrls(b, upload)
  {
    if b == [] {
      assert a + b == a;
    } else {
      var init, last := b[..|b| - 1], b[|b| - 1];
      var tail := if |last.bytes| > 0 && Truthy(upload(last.bytes, PropertyFolder))
        then [upload(last.bytes, PropertyFolder).value] else [];
      assert (a + b)[..|a + b| - 1] == a + init;
      assert (a + b)[|a + b| - 1] == last;
      calc {
        GalleryUrls(a + b, upload);
        GalleryUrls(a + init, upload) + tail;
        { GalleryUrlsAppend(a, init, upload); }
        GalleryUrls(a, upload) + GalleryUrls(init, upload) + tail;
        GalleryUrls(a, upload) + GalleryUrls(b, upload);
      }
    }
  }

  /** The gallery loop: uploads each file with content in order and keeps the URLs
      of the uploads that succeeded. */
  method UploadGallery(files: seq<File>, upload: Uploader) returns (urls: seq<string>, sent: seq<File>)
    ensures urls == GalleryUrls(files, upload)
    ensures sent == ContentFiles(files)
  {
    urls := [];
    sent := [];
    for i := 0 to |files|
      invariant urls == GalleryUrls(files[..i], upload)
      invariant sent == ContentFiles(files[..i])
    {
      assert files[..i + 1][..i] == files[..i];
      var file := files[i];
      if |file.bytes| > 0 {
        sent := sent + [file];
        var url := upload(file.bytes, PropertyFolder);
        if Truthy(url) {
          urls := urls + [url.value];
        }
      }
    }
    assert files[..|files|] == files;
  }

  /** The main image URL, `None` when no image with content was sent. */
  function MainUrl(form: PropertyForm, upload: Uploader): Option<string> {
    if HasContent(form.imageUrl) then upload(form.imageUrl.value.bytes, PropertyFolder) else None
  }

  /** An image with content was sent and its upload gave no URL. */
  predicate MainUploadFails(form: PropertyForm, upload: Uploader) {
    HasContent(form.imageUrl) && !Truthy(MainUrl(form, upload))
  }

  /** The row the action asks the database to create. */
  function NewProperty(id: string, now: int, d: PropertyData, imageUrl: Option<string>,
                       gallery: seq<string>, features: seq<string>): (p: Property)
    requires HasRequired(d)
    ensures p.id == id && p.createdAt == now && !p.isFeatured
    ensures p.title == d.title.value && p.slug == d.slug.value && p.address == d.address.value
    ensures p.price == d.price.value && p.agentId == d.agentId
    ensures p.imageUrl == imageUrl && p.galleryImages == gallery && p.features == features
    ensures p.beds == d.beds && p.baths == d.baths && p.area == d.area && p.yearBuilt == d.yearBuilt
    ensures p.propertyType == d.propertyType && p.description == d.description && p.videoUrl == d.videoUrl
    ensures p.latitude == d.latitude && p.longitude == d.longitude
  {
    Property(id, d.slug.value, d.title.value, d.address.value, d.price.value,
             d.beds, d.baths, d.area, d.yearBuilt, d.propertyType, d.description, d.videoUrl,
             d.latitude, d.longitude, imageUrl, gallery, features, false, now, d.agentId)
  }

  /** The row stored for a submission that passes validation and whose main image
      did not fail. */
  function Submitted(form: PropertyForm, parseFloat: FloatParser, upload: Uploader, id: string, now: int): Property
    requires HasRequired(ReadForm(form, parseFloat))
  {
    NewProperty(id, now, ReadForm(form, parseFloat), MainUrl(form, upload),
                GalleryUrls(form.galleryImages, upload), ParseFeatures(FieldText(form.features)))
  }

  /** The form action. `newId` and `now` are the id and timestamp the database assigns;
      `reachable` is false when the database fails the create statement. `sent` are the
      files handed to the uploader, in order. */
  method Submit(store: Store, form: PropertyForm, parseFloat: FloatParser, upload: Uploader,
                newId: string, now: int, reachable: bool)
    returns (outcome: Outcome, sent: seq<File>)
    requires store.Valid()
    modifies store
    ensures store.Valid() && store.agents == old(store.agents)
    ensures var d := ReadForm(form, parseFloat);
      var e := Check(d, old(store.Slugs()));
      e.Some? ==> outcome == Failure(400, e.value, d) && sent == [] && store.properties == old(store.properties)
    ensures var d := ReadForm(form, parseFloat);
      Check(d, old(store.Slugs())).None? && MainUploadFails(form, upload) ==>
        && outcome == Failure(500, UploadFailed, d)
        && sent == [form.imageUrl.value]
        && store.properties == old(store.properties)
    ensures var d := ReadForm(form, parseFloat);
      Check(d, old(store.Slugs())).None? && !MainUploadFails(form, upload) ==>
        var p := Submitted(form, parseFloat, upload, newId, now);
        && sent == (if HasContent(form.imageUrl) then [form.imageUrl.value] else []) + ContentFiles(form.galleryImages)
        && (reachable && old(store.CanInsertProperty(p)) ==>
              outcome == Added(p.title) && store.properties == old(store.properties)[newId := p])
        && (!(reachable && old(store.CanInsertProperty(p))) ==>
              outcome == Failure(500, SaveFailed, d) && store.properties == old(store.properties))
  {
    var d := ReadForm(form, parseFloat);
    var e := Check(d, store.Slugs());
    if e.Some? {
      return Failure(400, e.value, d), [];
    }
    sent := [];
    var mainUrl: Option<string> := None;
    if HasContent(form.imageUrl) {
      sent := [form.imageUrl.value];
      mainUrl := upload(form.imageUrl.value.bytes, PropertyFolder);
      if !Truthy(mainUrl) {
        return Failure(500, UploadFailed, d), sent;
      }
    }
    var gallery, gallerySent := UploadGallery(form.galleryImages, upload);
    sent := sent + gallerySent;
    var features := ParseFeatures(FieldText(form.features));
    var p := NewProperty(newId, now, d, mainUrl, gallery, features);
    var ok := false;
    if reachable {
      ok := store.InsertProperty(p);
    }
    if ok {
      outcome := Added(p.title);
    } else {
      outcome := Failure(500, SaveFailed, d);
    }
  }

  /** A property added through the form has a slug of the required shape that no
      other property had. */
  lemma AddedSlugFresh(form: PropertyForm, parseFloat: FloatParser, upload: Uploader,
                       slugs: set<string>, id: string, now: int)
    requires Check(ReadForm(form, parseFloat), slugs).None?
    ensures var p := Submitted(form, parseFloat, upload, id, now);
      SlugShape(p.slug) && p.slug !in slugs && p.price != 0
  {
  }
}
