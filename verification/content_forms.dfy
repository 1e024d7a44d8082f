/** The media edit page: its validator, the payload it sends, the file-type
    switch and the archive toggle. */
module MediaForm {
  import opened Common
  import opened JsValue
  import Text
  import Tags
  import Forms

  /** The form's state. Text inputs hold strings; `file` is the uploaded
      file record or `null`. */
  datatype MediaFormData = MediaFormData(title: string, description: string, filetype: string,
                                         file: Value, youtubeLink: string, tags: string,
                                         isArchived: Value)

  /** Field name to error message. */
  type Errors = map<string, string>

  /** A YouTube link the validator accepts: not blank, and naming one of the
      two YouTube hosts somewhere. */
  predicate LinkAccepted(link: string) {
    Text.Trim(link) != "" && (Text.Contains(link, "youtube.com") || Text.Contains(link, "youtu.be"))
  }

  /** What the page demands before it saves, stated field by field. */
  predicate Acceptable(f: MediaFormData, id: Option<string>) {
    Text.Trim(f.title) != "" && Text.Trim(f.description) != ""
    && (f.filetype == "youtube" ==> LinkAccepted(f.youtubeLink))
    && (f.filetype != "youtube" && !Forms.IsEditing(id) ==> Truthy(f.file))
  }

  function LinkError(link: string): string {
    if Text.Trim(link) == "" then "YouTube URL is required" else "Please enter a valid YouTube URL"
  }

  function FileError(filetype: string): string {
    (if filetype == "image" then "Image" else "Video") + " is required"
  }

  /** `validateForm`: the error map, which is empty exactly when the form is
      acceptable. */
  function ValidateForm(f: MediaFormData, id: Option<string>): (errors: Errors)
    ensures |errors| == 0 <==> Acceptable(f, id)
    ensures errors.Keys <= {"title", "description", "youtubeLink", "file"}
    ensures "title" in errors <==> Text.Trim(f.title) == ""
    ensures "description" in errors <==> Text.Trim(f.description) == ""
    ensures "youtubeLink" in errors <==> f.filetype == "youtube" && !LinkAccepted(f.youtubeLink)
    ensures "file" in errors <==> f.filetype != "youtube" && !Forms.IsEditing(id) && !Truthy(f.file)
    ensures "title" in errors ==> errors["title"] == "Title is required"
    ensures "description" in errors ==> errors["description"] == "Description is required"
    ensures "youtubeLink" in errors ==> errors["youtubeLink"] == LinkError(f.youtubeLink)
    ensures "file" in errors ==> errors["file"] == FileError(f.filetype)
  {
    var e1: Errors := if Text.Trim(f.title) == "" then map["title" := "Title is required"] else map[];
    var e2 := if Text.Trim(f.description) == "" then e1["description" := "Description is required"] else e1;
    var e3 :=
      if f.filetype == "youtube" then
        (if !LinkAccepted(f.youtubeLink) then e2["youtubeLink" := LinkError(f.youtubeLink)] else e2)
      else if !Forms.IsEditing(id) && !Truthy(f.file) then e2["file" := FileError(f.filetype)]
      else e2;
    assert |e3| == 0 <==> e3.Keys == {};
    e3
  }

  /** Where the media comes from: the link for YouTube, the uploaded file
      record for every other type. */
  datatype Source = YoutubeLink(link: string) | File(file: Value)

  /** The object `handleSubmit` sends. */
  datatype MediaPayload = MediaPayload(title: string, description: string, filetype: string,
                                       tags: seq<string>, source: Source)

  /** The payload carries `youtubeLink` exactly for the YouTube type and
      `file` for every other type, never both. */
  function Payload(f: MediaFormData): (p: MediaPayload)
    ensures p.title == f.title && p.description == f.description && p.filetype == f.filetype
    ensures p.tags == Tags.ParseTags(f.tags)
    ensures p.source.YoutubeLink? <==> f.filetype == "youtube"
    ensures p.source.YoutubeLink? ==> p.source.link == f.youtubeLink
    ensures p.source.File? ==> p.source.file == f.file
  {
    var source := if f.filetype == "youtube" then YoutubeLink(f.youtubeLink) else File(f.file);
    MediaPayload(f.title, f.description, f.filetype, Tags.ParseTags(f.tags), source)
  }

  datatype MediaSubmit = MediaSubmit(errors: Errors, submitted: Forms.Submitted<MediaPayload>)

  /** `handleSubmit`: validate, and only then write; the page leaves for the
      media list after any write that did not throw. */
  function HandleSubmit(f: MediaFormData, id: Option<string>, reply: Reply<Value>): (r: MediaSubmit)
    ensures r.errors == ValidateForm(f, id)
    ensures r.submitted.call.Some? <==> Acceptable(f, id)
    ensures r.submitted.call.Some? ==> r.submitted.call.value.payload == Payload(f)
    ensures r.submitted.call.Some? ==> (r.submitted.call.value.Update? <==> Forms.IsEditing(id))
    ensures r.submitted.call.Some? && r.submitted.call.value.Update? ==> r.submitted.call.value.id == id.value
    ensures r.submitted.nav.Some? <==> Acceptable(f, id) && !reply.Threw?
    ensures r.submitted.nav.Some? ==> r.submitted.nav.value == Navigate("/media", false)
  {
    var errors := ValidateForm(f, id);
    MediaSubmit(errors, Forms.Submit(|errors| == 0, id, Payload(f), Forms.UnlessThrown, "/media", reply))
  }

  /** Saved tags survive a load-and-save cycle unchanged. */
  lemma LoadedTagsSaveBack(f: MediaFormData, xs: seq<string>)
    requires forall k :: 0 <= k < |xs| ==> Tags.IsCleanTag(xs[k])
    ensures Payload(f.(tags := Tags.LoadTags(Arr(Tags.StrValues(xs))))).tags == xs
  {
    Tags.TagsRoundTrip(xs);
  }

  /** The form with its preview and error map. */
  datatype MediaEditor = MediaEditor(data: MediaFormData, preview: Option<string>, errors: Errors)

  /** `handleFiletypeChange`: the source of the old type is dropped and so
      are its errors; the errors are set to "" rather than removed. */
  function FiletypeChange(e: MediaEditor, newType: string): (r: MediaEditor)
    ensures r.data.filetype == newType && r.data.file == Null && r.data.youtubeLink == ""
    ensures r.data.title == e.data.title && r.data.description == e.data.description
    ensures r.data.tags == e.data.tags && r.data.isArchived == e.data.isArchived
    ensures r.preview.None?
    ensures r.errors.Keys == e.errors.Keys + {"file", "youtubeLink"}
    ensures r.errors["file"] == "" && r.errors["youtubeLink"] == ""
    ensures forall k :: k in e.errors && k != "file" && k != "youtubeLink" ==> r.errors[k] == e.errors[k]
  {
    MediaEditor(e.data.(filetype := newType, file := Null, youtubeLink := ""), None,
                e.errors["file" := ""]["youtubeLink" := ""])
  }

  /** After switching type, a new record cannot be saved until a source for
      the new type is given: a file for image and video, a link for YouTube. */
  lemma SwitchDemandsNewSource(e: MediaEditor, newType: string)
    ensures var errors := ValidateForm(FiletypeChange(e, newType).data, None);
            if newType == "youtube" then errors["youtubeLink"] == "YouTube URL is required"
            else errors["file"] == FileError(newType)
  {
    var d := FiletypeChange(e, newType).data;
    assert d.youtubeLink == "" && d.file == Null && d.filetype == newType;
    assert !LinkAccepted(d.youtubeLink) && LinkError(d.youtubeLink) == "YouTube URL is required" by {
      assert Text.Trim("") == "";
    }
    assert !Forms.IsEditing(None) && !Truthy(d.file);
  }

  /** `handleArchiveToggle` */
  function ArchiveToggle(f: MediaFormData, id: Option<string>, reply: Reply<Value>): (r: (MediaFormData, Option<string>))
    ensures r.0 == f.(isArchived := r.0.isArchived)
    ensures r.1.Some? <==> Forms.IsEditing(id)
    ensures r.1.Some? ==> r.1.value == (if Truthy(f.isArchived) then "unarchived" else "archived")
    ensures Forms.IsEditing(id) && reply.Ok? ==> r.0.isArchived == Bool(!Truthy(f.isArchived))
    ensures !(Forms.IsEditing(id) && reply.Ok?) ==> r.0 == f
  {
    var t := Forms.ArchiveToggle(id, f.isArchived, reply);
    (f.(isArchived := t.isArchived), t.sent)
  }
}

/** The blog edit page: the edit-mode load, the payload, image removal and
    the archive toggle. */
module BlogForm {
  import opened Common
  import opened JsValue
  import Tags
  import Forms

  /** The form's state. `publishedAt` is `undefined` when the key is absent. */
  datatype BlogFormData = BlogFormData(title: Value, author: Value, slug: Value, tags: string,
                                       image: Value, content: Value, isArchived: Value,
                                       publishedAt: Value)

  /** The state of a new blog. */
  const Initial := BlogFormData(Str(""), Str(""), Str(""), "", Null, Str(""), Bool(false), Str(""))

  /** The edit-mode load of `res.data.blog`: each field falls back with
      `||`, tags arrays are joined with ", ", and the new object has no
      `publishedAt` at all. `None` when reading `blog.title` throws, which it
      does for `null` and `undefined`; the `catch` then leaves the form as it
      was. */
  function LoadBlog(blog: Value): (r: Option<BlogFormData>)
    ensures r.None? <==> blog.Null? || blog.Undefined?
    ensures r.Some? ==> var f := r.value;
              f.title == Or(Field(blog, "title"), Str("")) && f.author == Or(Field(blog, "author"), Str(""))
              && f.slug == Or(Field(blog, "slug"), Str("")) && f.content == Or(Field(blog, "content"), Str(""))
              && f.image == Or(Field(blog, "image"), Null)
              && f.isArchived == Or(Field(blog, "isArchived"), Bool(false))
              && f.tags == Tags.LoadTags(Field(blog, "tags"))
              && f.publishedAt == Undefined
  {
    if blog.Null? || blog.Undefined? then None
    else
      Some(BlogFormData(Or(Field(blog, "title"), Str("")), Or(Field(blog, "author"), Str("")),
                        Or(Field(blog, "slug"), Str("")), Tags.LoadTags(Field(blog, "tags")),
                        Or(Field(blog, "image"), Null), Or(Field(blog, "content"), Str("")),
                        Or(Field(blog, "isArchived"), Bool(false)), Undefined))
  }

  /** The form after the edit-mode load: the loaded blog, or the form as it
      stood when the load throws. */
  function AfterLoad(form: BlogFormData, blog: Value): (f: BlogFormData)
    ensures blog.Null? || blog.Undefined? ==> f == form
    ensures !(blog.Null? || blog.Undefined?) ==> f.publishedAt == Undefined
  {
    var loaded := LoadBlog(blog);
    if loaded.Some? then loaded.value else form
  }

  /** A response without `data.blog` leaves a new form's empty publication
      date in place, so a save then sends "" rather than no date. */
  lemma MissingBlogKeepsInitialDate()
    ensures Payload(AfterLoad(Initial, Undefined)).publishedAt == Str("")
  {
  }

  /** The object `handleSubmit` sends. */
  datatype BlogPayload = BlogPayload(title: Value, author: Value, slug: Value, tags: seq<string>,
                                     content: Value, image: Value, publishedAt: Value)

  /** Every field is copied as it stands, except the tags text, which is
      parsed into a list. */
  function Payload(f: BlogFormData): (p: BlogPayload)
    ensures p.title == f.title && p.author == f.author && p.slug == f.slug
    ensures p.content == f.content && p.image == f.image && p.publishedAt == f.publishedAt
    ensures p.tags == Tags.ParseTags(f.tags)
  {
    BlogPayload(f.title, f.author, f.slug, Tags.ParseTags(f.tags), f.content, f.image, f.publishedAt)
  }

  /** Saving a freshly loaded blog sends its tags back unchanged, but no
      publication date, whatever the stored blog had. */
  lemma SaveAfterLoad(blog: Value, xs: seq<string>)
    requires Field(blog, "tags") == Arr(Tags.StrValues(xs))
    requires forall k :: 0 <= k < |xs| ==> Tags.IsCleanTag(xs[k])
    ensures LoadBlog(blog).Some?
    ensures Payload(LoadBlog(blog).value).tags == xs
    ensures Payload(LoadBlog(blog).value).publishedAt == Undefined
  {
    Tags.TagsRoundTrip(xs);
  }

  /** `handleSubmit`: there are no checks; the page leaves for the blog list
      after any write that did not throw. */
  function HandleSubmit(f: BlogFormData, id: Option<string>, reply: Reply<Value>): (r: Forms.Submitted<BlogPayload>)
    ensures !r.isSubmitting
    ensures r.call.Some? && r.call.value.payload == Payload(f)
    ensures r.call.value.Update? <==> Forms.IsEditing(id)
    ensures r.call.value.Update? ==> r.call.value.id == id.value
    ensures r.nav.Some? <==> !reply.Threw?
    ensures r.nav.Some? ==> r.nav.value == Navigate("/blog", false)
  {
    Forms.Submit(true, id, Payload(f), Forms.UnlessThrown, "/blog", reply)
  }

  /** `removeImage`: the image and its preview are both cleared. */
  function RemoveImage(f: BlogFormData, preview: Option<string>): (r: (BlogFormData, Option<string>))
    ensures r.0.image == Null && r.1.None?
    ensures r.0 == f.(image := Null)
  {
    (f.(image := Null), None)
  }

  /** `handleArchiveToggle` */
  function ArchiveToggle(f: BlogFormData, id: Option<string>, reply: Reply<Value>): (r: (BlogFormData, Option<string>))
    ensures r.0 == f.(isArchived := r.0.isArchived)
    ensures r.1.Some? <==> Forms.IsEditing(id)
    ensures r.1.Some? ==> r.1.value == (if Truthy(f.isArchived) then "unarchived" else "archived")
    ensures Forms.IsEditing(id) && reply.Ok? ==> r.0.isArchived == Bool(!Truthy(f.isArchived))
    ensures !(Forms.IsEditing(id) && reply.Ok?) ==> r.0 == f
  {
    var t := Forms.ArchiveToggle(id, f.isArchived, reply);
    (f.(isArchived := t.isArchived), t.sent)
  }
}
