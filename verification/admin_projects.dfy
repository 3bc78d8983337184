/**
 * The `admin-projects` handler: `create`, `update` and `delete` over the
 * `projects` table, and the re-hosting of a remote `image_url` into the
 * site's own storage bucket before the row is written.
 *
 * The table is a map from id to row. The outcome of `fetch`, of the storage
 * upload, the public URL storage reports for a path, the clock,
 * `Math.random()` and the id and creation time the database assigns are all
 * parameters.
 */
module AdminProjects {
  import opened Wrappers
  import opened JsString
  import opened Http
  import Decimal

  datatype Category = Student | Business

  /** The `project` object of a request, every member present; a JSON `null` member is None. */
  datatype ProjectInput = ProjectInput(
    title: string,
    description: string,
    category: Category,
    imageUrl: Option<string>,
    technologies: Option<seq<string>>,
    features: Option<seq<string>>,
    demoUrl: Option<string>)

  /** A row of the `projects` table. */
  datatype ProjectRow = ProjectRow(
    id: string,
    title: string,
    description: string,
    category: Category,
    imageUrl: Option<string>,
    technologies: seq<string>,
    features: seq<string>,
    demoUrl: Option<string>,
    createdAt: nat)

  type ProjectStore = map<string, ProjectRow>

  /** Every row sits under its own id. */
  ghost predicate WellKeyed(store: ProjectStore) {
    forall id :: id in store ==> store[id].id == id
  }

  const DefaultBucket: string := "project-images"
  const ImageIngestFailed: string := "Image fetch/upload failed"
  const DefaultExtension: string := "png"

  /**
   * The message of the catch-all 500 reply when the database client reports an
   * error; its error object is not an `Error`, so the handler answers with this.
   */
  const UnknownError: string := "Unknown error"

  /** `Deno.env.get('PROJECT_IMAGES_BUCKET') || 'project-images'`. */
  function BucketName(configured: Option<string>): (bucket: string)
    ensures Truthy(configured) ==> bucket == configured.value
    ensures !Truthy(configured) ==> bucket == DefaultBucket
    ensures bucket != ""
  {
    if Truthy(configured) then configured.value else DefaultBucket
  }

  /** The path segment every public URL of the bucket contains. */
  function PublicPathMarker(bucket: string): string {
    "/storage/v1/object/public/" + bucket + "/"
  }

  /**
   * An `image_url` is fetched and re-hosted when it is a non-empty string that
   * starts with "http" and does not already point into the bucket.
   */
  predicate NeedsRehost(imageUrl: Option<string>, bucket: string) {
    Truthy(imageUrl) && StartsWith(imageUrl.value, "http") && !Includes(imageUrl.value, PublicPathMarker(bucket))
  }

  // ---------------------------------------------------------------------------
  // File extension of a re-hosted image
  // ---------------------------------------------------------------------------

  /**
   * `x` is the media subtype of an "image/..." content type: the text after
   * "image/" up to the next '/' or ';', or to the end.
   */
  predicate IsMediaSubtype(x: string, contentType: string)
    requires StartsWith(contentType, "image/")
  {
    var rest := contentType[6..];
    StartsWith(rest, x) && '/' !in x && ';' !in x
    && (|x| == |rest| || rest[|x|] == '/' || rest[|x|] == ';')
  }

  lemma MediaSubtypeUnique(x: string, y: string, contentType: string)
    requires StartsWith(contentType, "image/")
    requires IsMediaSubtype(x, contentType) && IsMediaSubtype(y, contentType)
    ensures x == y
  {
  }

  /** `contentType.split('/')[1].split(';')[0]`. */
  function ContentSubtype(contentType: string): (x: string)
    requires StartsWith(contentType, "image/")
    ensures IsMediaSubtype(x, contentType)
  {
    var rest := contentType[6..];
    assert contentType == "image" + ['/'] + rest;
    SplitConcat("image", '/', rest);
    var word := Split(contentType, '/')[1];
    assert word == Split(rest, '/')[0];
    FirstPiece(rest, '/');
    FirstPiece(word, ';');
    Split(word, ';')[0]
  }

  /** `url.split('?')[0]`: the URL without its query. */
  function UrlPath(url: string): (path: string)
    ensures IsTextBefore(path, url, '?')
  {
    FirstPiece(url, '?');
    Split(url, '?')[0]
  }

  /**
   * The extension `downloadAndUploadImage` gives the stored file: the media
   * subtype of an "image/..." content type; failing that, the text after the
   * last dot of the URL's last path segment when that segment has a dot;
   * failing that, "png".
   */
  function DerivedExtension(contentTypeHeader: Option<string>, url: string): (ext: string)
    ensures ext != ""
    ensures var ct := contentTypeHeader.GetOr("");
            if StartsWith(ct, "image/") && ContentSubtype(ct) != "" then ext == ContentSubtype(ct)
            else if '.' in AfterLast(UrlPath(url), '/') && AfterLast(AfterLast(UrlPath(url), '/'), '.') != "" then
              ext == AfterLast(AfterLast(UrlPath(url), '/'), '.')
            else ext == DefaultExtension
  {
    var contentType := contentTypeHeader.GetOr("");
    var fromType := if StartsWith(contentType, "image/") then ContentSubtype(contentType) else "";
    var fromUrl :=
      if fromType != "" then fromType
      else
        var last := AfterLast(UrlPath(url), '/');
        if '.' in last then (if AfterLast(last, '.') != "" then AfterLast(last, '.') else DefaultExtension)
        else "";
    if fromUrl != "" then fromUrl else DefaultExtension
  }

  /** `projects/${Date.now()}-${random}.${ext}`, the storage path of an uploaded image. */
  function ObjectPath(now: nat, random: string, ext: string): string {
    "projects/" + Decimal.FromNat(now) + "-" + random + "." + ext
  }

  /** An extension without a dot can be read back from the path: it is the text after the path's last dot. */
  lemma ObjectPathExtension(now: nat, random: string, ext: string)
    requires '.' !in ext
    ensures StartsWith(ObjectPath(now, random, ext), "projects/")
    ensures AfterLast(ObjectPath(now, random, ext), '.') == ext
  {
    var stem := "projects/" + Decimal.FromNat(now) + "-" + random;
    assert ObjectPath(now, random, ext) == stem + ['.'] + ext;
    assert ObjectPath(now, random, ext)[..9] == "projects/";
    AfterLastOf(stem, '.', ext);
  }

  // ---------------------------------------------------------------------------
  // Re-hosting
  // ---------------------------------------------------------------------------

  /** What `fetch(url)` gave: a failure (network error or non-ok status), or the content-type header. */
  datatype FetchOutcome = FetchFailed | Fetched(contentType: Option<string>)

  /** The outside inputs of one image ingestion. */
  datatype ImageEnv = ImageEnv(
    fetch: FetchOutcome,
    uploadOk: bool,
    now: nat,
    random: string,
    publicUrl: (string, string) -> string)

  datatype Upload = Upload(path: string, publicUrl: string)

  /** `downloadAndUploadImage(url)`: None when the fetch or the upload fails. */
  function DownloadAndUpload(url: string, bucket: string, env: ImageEnv): (r: Option<Upload>)
    ensures r.Some? <==> env.fetch.Fetched? && env.uploadOk
    ensures r.Some? ==> r.value.publicUrl == env.publicUrl(bucket, r.value.path)
                        && r.value.path == ObjectPath(env.now, env.random, DerivedExtension(env.fetch.contentType, url))
  {
    match env.fetch
    case FetchFailed => None
    case Fetched(contentType) =>
      var path := ObjectPath(env.now, env.random, DerivedExtension(contentType, url));
      if env.uploadOk then Some(Upload(path, env.publicUrl(bucket, path))) else None
  }

  /** Whether ingestion can go through: nothing to re-host, or the fetch and the upload both succeed. */
  predicate IngestOk(p: ProjectInput, bucket: string, env: ImageEnv) {
    !NeedsRehost(p.imageUrl, bucket) || (env.fetch.Fetched? && env.uploadOk)
  }

  /** The public URL a re-hosted image gets: that of `projects/{now}-{random}.{ext}` in the bucket. */
  function RehostedUrl(url: string, bucket: string, env: ImageEnv): string
    requires env.fetch.Fetched?
  {
    env.publicUrl(bucket, ObjectPath(env.now, env.random, DerivedExtension(env.fetch.contentType, url)))
  }

  /** The project with its image re-hosted when it needs to be; None when ingestion fails. */
  function PrepareImage(p: ProjectInput, bucket: string, env: ImageEnv): (r: Option<ProjectInput>)
    ensures !NeedsRehost(p.imageUrl, bucket) ==> r == Some(p)
    ensures r.Some? <==> IngestOk(p, bucket, env)
    ensures r.Some? ==> r.value == p.(imageUrl := r.value.imageUrl)
    ensures NeedsRehost(p.imageUrl, bucket) && r.Some? ==>
              env.fetch.Fetched? && r.value.imageUrl == Some(RehostedUrl(p.imageUrl.value, bucket, env))
  {
    if NeedsRehost(p.imageUrl, bucket) then
      match DownloadAndUpload(p.imageUrl.value, bucket, env)
      case None => None
      case Some(u) => Some(p.(imageUrl := Some(u.publicUrl)))
    else Some(p)
  }

  /** The row written for a project: missing tag lists become empty ones. */
  function RowOf(id: string, p: ProjectInput, createdAt: nat): (row: ProjectRow)
    ensures row.id == id && row.createdAt == createdAt
    ensures row.title == p.title && row.description == p.description && row.category == p.category
    ensures row.imageUrl == p.imageUrl && row.demoUrl == p.demoUrl
    ensures row.technologies == p.technologies.GetOr([]) && row.features == p.features.GetOr([])
  {
    ProjectRow(id, p.title, p.description, p.category, p.imageUrl,
               p.technologies.GetOr([]), p.features.GetOr([]), p.demoUrl, createdAt)
  }

  /**
   * `row` is what `create` or `update` writes for the input `p` under `id`: the
   * input's fields, empty lists for missing ones, and its `image_url` as given
   * when it needs no re-hosting, else the public URL of the re-hosted copy.
   */
  predicate HoldsInput(row: ProjectRow, id: string, p: ProjectInput, createdAt: nat, bucket: string, env: ImageEnv) {
    row.id == id && row.createdAt == createdAt
    && row.title == p.title && row.description == p.description && row.category == p.category
    && row.demoUrl == p.demoUrl
    && row.technologies == p.technologies.GetOr([]) && row.features == p.features.GetOr([])
    && (!NeedsRehost(p.imageUrl, bucket) ==> row.imageUrl == p.imageUrl)
    && (NeedsRehost(p.imageUrl, bucket) ==>
          env.fetch.Fetched? && row.imageUrl == Some(RehostedUrl(p.imageUrl.value, bucket, env)))
  }

  // ---------------------------------------------------------------------------
  // The handler
  // ---------------------------------------------------------------------------

  datatype ProjectsBody =
    | Saved(project: ProjectRow)   // { success: true, project }
    | Removed                      // { success: true }

  datatype ProjectsRequest = ProjectsRequest(action: string, project: ProjectInput, projectId: string)

  /** The outside inputs of one call; `freshId` and `createdAt` are what the database assigns on insert. */
  datatype ProjectsEnv = ProjectsEnv(configuredBucket: Option<string>, image: ImageEnv, freshId: string, createdAt: nat)

  /** `create`: insert the prepared project as a new row under the id the database assigns. */
  function Create(store: ProjectStore, p: ProjectInput, bucket: string, env: ProjectsEnv): (out: (ProjectStore, Response<ProjectsBody>))
    requires env.freshId !in store
    ensures !IngestOk(p, bucket, env.image) ==> out == (store, Fail(BadRequest, ImageIngestFailed))
    ensures IngestOk(p, bucket, env.image) ==>
              out.1.Ok? && out.1.body.Saved? && out.0 == store[env.freshId := out.1.body.project]
              && HoldsInput(out.1.body.project, env.freshId, p, env.createdAt, bucket, env.image)
  {
    match PrepareImage(p, bucket, env.image)
    case None => (store, Fail(BadRequest, ImageIngestFailed))
    case Some(q) =>
      var row := RowOf(env.freshId, q, env.createdAt);
      (store[env.freshId := row], Ok(Saved(row)))
  }

  /**
   * `update`: rewrite the row `id` with the prepared project, keeping its id and
   * creation time. When no row has that id, `.single()` reports an error and
   * the handler's catch answers 500.
   */
  function Update(store: ProjectStore, id: string, p: ProjectInput, bucket: string, env: ProjectsEnv): (out: (ProjectStore, Response<ProjectsBody>))
    ensures !IngestOk(p, bucket, env.image) ==> out == (store, Fail(BadRequest, ImageIngestFailed))
    ensures IngestOk(p, bucket, env.image) && id !in store ==> out == (store, Fail(InternalError, UnknownError))
    ensures IngestOk(p, bucket, env.image) && id in store ==>
              out.1.Ok? && out.1.body.Saved? && out.0 == store[id := out.1.body.project]
              && HoldsInput(out.1.body.project, id, p, store[id].createdAt, bucket, env.image)
  {
    match PrepareImage(p, bucket, env.image)
    case None => (store, Fail(BadRequest, ImageIngestFailed))
    case Some(q) =>
      if id in store then
        var row := RowOf(id, q, store[id].createdAt);
        (store[id := row], Ok(Saved(row)))
      else
        (store, Fail(InternalError, UnknownError))
  }

  function Delete(store: ProjectStore, id: string): (out: (ProjectStore, Response<ProjectsBody>))
    ensures out.0.Keys == store.Keys - {id}
    ensures out.1 == Ok(Removed)
  {
    (store - {id}, Ok(Removed))
  }

  /**
   * The whole handler. A failed ingestion leaves the table as it was; `update`
   * touches only the row `projectId`; `delete` removes only that row.
   */
  function Handle(store: ProjectStore, req: ProjectsRequest, env: ProjectsEnv): (out: (ProjectStore, Response<ProjectsBody>))
    requires env.freshId !in store
    ensures var bucket := BucketName(env.configuredBucket);
            req.action in {"create", "update"} && !IngestOk(req.project, bucket, env.image) ==>
              out == (store, Fail(BadRequest, ImageIngestFailed))
    ensures var bucket := BucketName(env.configuredBucket);
            req.action == "create" && IngestOk(req.project, bucket, env.image) ==>
              out.1.Ok? && out.1.body.Saved? && out.0 == store[env.freshId := out.1.body.project]
              && HoldsInput(out.1.body.project, env.freshId, req.project, env.createdAt, bucket, env.image)
    ensures var bucket := BucketName(env.configuredBucket);
            req.action == "update" && IngestOk(req.project, bucket, env.image) && req.projectId !in store ==>
              out == (store, Fail(InternalError, UnknownError))
    ensures var bucket := BucketName(env.configuredBucket);
            req.action == "update" && IngestOk(req.project, bucket, env.image) && req.projectId in store ==>
              out.1.Ok? && out.1.body.Saved? && out.0 == store[req.projectId := out.1.body.project]
              && HoldsInput(out.1.body.project, req.projectId, req.project, store[req.projectId].createdAt, bucket, env.image)
    ensures req.action == "delete" ==>
              out.1 == Ok(Removed) && out.0.Keys == store.Keys - {req.projectId}
              && forall id :: id in out.0 ==> out.0[id] == store[id]
    ensures req.action !in {"create", "update", "delete"} ==> out == (store, Fail(BadRequest, InvalidAction))
  {
    var bucket := BucketName(env.configuredBucket);
    if req.action == "create" then Create(store, req.project, bucket, env)
    else if req.action == "update" then Update(store, req.projectId, req.project, bucket, env)
    else if req.action == "delete" then Delete(store, req.projectId)
    else (store, Fail(BadRequest, InvalidAction))
  }

  /** Every handler call keeps each row under its own id. */
  lemma HandleKeepsWellKeyed(store: ProjectStore, req: ProjectsRequest, env: ProjectsEnv)
    requires env.freshId !in store
    requires WellKeyed(store)
    ensures WellKeyed(Handle(store, req, env).0)
  {
  }

  // ---------------------------------------------------------------------------
  // Worked cases
  // ---------------------------------------------------------------------------

  /** "image/jpeg; q" names the extension "jpeg", whatever the URL. */
  lemma ContentTypeExample(url: string)
    ensures DerivedExtension(Some("image/jpeg; q"), url) == "jpeg"
  {
    var ct := "image/jpeg; q";
    assert ct[..6] == "image/";
    assert ct[6..] == "jpeg; q" && ct[6..][..4] == "jpeg";
    assert IsMediaSubtype("jpeg", ct);
    MediaSubtypeUnique("jpeg", ContentSubtype(ct), ct);
  }

  /** The public URL of an object already in the default bucket. */
  const OwnImageExample: string := "https://x.supabase.co" + "/storage/v1/object/public/project-images/" + "projects/a.png"

  /** A remote URL outside the bucket is re-hosted; a public URL of the bucket is kept. */
  lemma RehostExamples()
    ensures NeedsRehost(Some("https://example.com/pic.jpg"), DefaultBucket)
    ensures !NeedsRehost(Some(OwnImageExample), DefaultBucket)
    ensures !NeedsRehost(Some(""), DefaultBucket) && !NeedsRehost(None, DefaultBucket)
  {
    var own := OwnImageExample;
    assert own[..4] == "http";
    assert own[21..][..41] == "/storage/v1/object/public/project-images/";
    assert StartsWith(own[21..], PublicPathMarker(DefaultBucket));
    assert "https://example.com/pic.jpg"[..4] == "http";
  }

  /**
   * Creating a project whose image is "https://example.com/pic.jpg", fetched
   * without a content type, stores the bucket's public URL of the uploaded
   * `projects/{now}-{random}.jpg` in place of the remote one.
   */
  lemma CreateRehostsRemoteImage(store: ProjectStore, p: ProjectInput, env: ProjectsEnv)
    requires env.freshId !in store && env.configuredBucket == None
    requires p.imageUrl == Some("https://example.com/pic.jpg")
    requires env.image.fetch == Fetched(None) && env.image.uploadOk
    ensures var out := Handle(store, ProjectsRequest("create", p, ""), env);
            out.1.Ok? && env.freshId in out.0
            && out.0[env.freshId].imageUrl
               == Some(env.image.publicUrl(DefaultBucket, ObjectPath(env.image.now, env.image.random, "jpg")))
  {
    RehostExamples();
    UrlExtensionExample();
  }

  /** A URL without a query is its own path. */
  lemma UrlPathWithoutQuery(url: string)
    requires '?' !in url
    ensures UrlPath(url) == url
  {
    TextBeforeUnique(UrlPath(url), url, url, '?');
  }

  /**
   * Without a usable image content type, a URL `front/stem.ext` with no query
   * gives the extension `ext`, or "png" when `ext` is empty.
   */
  lemma UrlExtension(contentType: Option<string>, front: string, stem: string, ext: string)
    requires !StartsWith(contentType.GetOr(""), "image/") || ContentSubtype(contentType.GetOr("")) == ""
    requires '?' !in front && '?' !in stem && '?' !in ext
    requires '/' !in stem && '/' !in ext && '.' !in ext
    ensures DerivedExtension(contentType, front + "/" + stem + "." + ext) == if ext == "" then DefaultExtension else ext
  {
    var url := front + "/" + stem + "." + ext;
    var segment := stem + ['.'] + ext;
    assert url == front + ['/'] + segment;
    assert '?' !in url;
    UrlPathWithoutQuery(url);
    AfterLastOf(front, '/', segment);
    AfterLastOf(stem, '.', ext);
  }

  /** Without a content type, "https://example.com/pic.jpg" gives "jpg". */
  lemma UrlExtensionExample()
    ensures DerivedExtension(None, "https://example.com/pic.jpg") == "jpg"
  {
    var front := "https://example.com";
    assert "https://example.com/pic.jpg" == front + "/" + "pic" + "." + "jpg";
    assert '?' !in front;
    UrlExtension(None, front, "pic", "jpg");
  }

  /** An "image/" content type whose subtype is empty, such as "image/;x", has the empty subtype. */
  lemma EmptySubtype(contentType: string)
    requires StartsWith(contentType, "image/")
    requires |contentType| == 6 || contentType[6] == ';' || contentType[6] == '/'
    ensures ContentSubtype(contentType) == ""
  {
    assert IsMediaSubtype("", contentType);
    MediaSubtypeUnique("", ContentSubtype(contentType), contentType);
  }
}
