/**
 * The admin page's own logic: the setup form check, the project form
 * (opening a project into text fields and parsing them back on save), the
 * unread badge and the extension of a directly uploaded image.
 */
module AdminPage {
  import opened Wrappers
  import opened JsString
  import opened AdminProjects
  import opened SubmitRequest
  import AdminRequests
  import AdminAuth

  // ---------------------------------------------------------------------------
  // handleSetup
  // ---------------------------------------------------------------------------

  const MinPasswordLength: nat := 6
  const PasswordTooShort: string := "Password must be at least 6 characters"
  const PasswordsDiffer: string := "Passwords do not match"

  /** The checks before `setup` is sent: the length first, then the confirmation. */
  function SetupCheck(newPassword: string, confirmPassword: string): (r: Checked<string>)
    ensures r.Valid? <==> |newPassword| >= MinPasswordLength && newPassword == confirmPassword
    ensures r.Valid? ==> r.value == newPassword
    ensures |newPassword| < MinPasswordLength ==> r == Invalid(PasswordTooShort)
    ensures |newPassword| >= MinPasswordLength && newPassword != confirmPassword ==> r == Invalid(PasswordsDiffer)
  {
    if |newPassword| < MinPasswordLength then Invalid(PasswordTooShort)
    else if newPassword != confirmPassword then Invalid(PasswordsDiffer)
    else Valid(newPassword)
  }

  /**
   * A password the setup form lets through, once stored on a fresh table, is
   * accepted at login, typed again as it was confirmed.
   */
  lemma AcceptedPasswordLogsIn(newPassword: string, confirmPassword: string, setupEnv: AdminAuth.AuthEnv, loginEnv: AdminAuth.AuthEnv)
    requires setupEnv.sha256 == loginEnv.sha256
    requires SetupCheck(newPassword, confirmPassword).Valid?
    ensures var sent := SetupCheck(newPassword, confirmPassword).value;
            var t := AdminAuth.Handle([], AdminAuth.AuthRequest("setup", "", sent), setupEnv).0;
            AdminAuth.Handle(t, AdminAuth.AuthRequest("login", confirmPassword, ""), loginEnv).1.Ok?
  {
    AdminAuth.LoginAfterSetup(newPassword, confirmPassword, setupEnv, loginEnv);
  }

  // ---------------------------------------------------------------------------
  // The project form
  // ---------------------------------------------------------------------------

  /** The modal's text fields. */
  datatype ProjectForm = ProjectForm(
    title: string,
    description: string,
    category: Category,
    imageUrl: string,
    technologies: string,
    features: string,
    demoUrl: string)

  /** The form for a new project. */
  const EmptyForm: ProjectForm := ProjectForm("", "", Student, "", "", "", "")

  /** `value || ""` for a nullable text column. */
  function NullToEmpty(o: Option<string>): (s: string)
    ensures Truthy(o) ==> s == o.value
    ensures !Truthy(o) ==> s == ""
  {
    if Truthy(o) then o.value else ""
  }

  /** `openProjectModal(project)`: the row's fields as text, lists joined by ", " and by line breaks. */
  function OpenProjectForm(p: ProjectRow): (f: ProjectForm)
    ensures f.title == p.title && f.description == p.description && f.category == p.category
    ensures f.imageUrl == NullToEmpty(p.imageUrl) && f.demoUrl == NullToEmpty(p.demoUrl)
    ensures f.technologies == Join(p.technologies, ", ") && f.features == Join(p.features, "\n")
  {
    ProjectForm(p.title, p.description, p.category, NullToEmpty(p.imageUrl),
                Join(p.technologies, ", "), Join(p.features, "\n"), NullToEmpty(p.demoUrl))
  }

  /** An element the tag parser can give back: non-empty, trimmed and free of the separator. */
  predicate IsTag(t: string, sep: char) {
    t != "" && Trimmed(t) && sep !in t
  }

  /** `.map((t) => t.trim())`. */
  function TrimAll(xs: seq<string>): (ys: seq<string>)
    ensures |ys| == |xs|
    ensures forall i :: 0 <= i < |xs| ==> ys[i] == Trim(xs[i])
  {
    if |xs| == 0 then [] else [Trim(xs[0])] + TrimAll(xs[1..])
  }

  /** `.filter(Boolean)` on strings: the non-empty ones, in order. */
  function DropEmpty(xs: seq<string>): (ys: seq<string>)
    ensures forall s :: s in ys <==> s in xs && s != ""
    ensures (forall i :: 0 <= i < |xs| ==> xs[i] != "") ==> ys == xs
  {
    if |xs| == 0 then []
    else if xs[0] == "" then DropEmpty(xs[1..])
    else [xs[0]] + DropEmpty(xs[1..])
  }

  /** Dropping the empty pieces keeps the others in order, each as often as it occurs. */
  lemma {:induction false} DropEmptyConcat(a: seq<string>, b: seq<string>)
    ensures DropEmpty(a + b) == DropEmpty(a) + DropEmpty(b)
    decreases |a|
  {
    if |a| == 0 {
      assert a + b == b;
    } else {
      assert (a + b)[0] == a[0];
      assert (a + b)[1..] == a[1..] + b;
      DropEmptyConcat(a[1..], b);
    }
  }

  /** `text.split(sep).map(trim).filter(Boolean)`: every element is a tag. */
  function ParseTags(text: string, sep: char): (tags: seq<string>)
    ensures forall t :: t in tags ==> IsTag(t, sep)
  {
    var pieces := Split(text, sep);
    var trimmed := TrimAll(pieces);
    assert forall i :: 0 <= i < |trimmed| ==> sep !in trimmed[i] by {
      forall i | 0 <= i < |trimmed| ensures sep !in trimmed[i] {
        TrimInside(pieces[i]);
      }
    }
    DropEmpty(trimmed)
  }

  /** `trim` keeps a contiguous part of its input, so it adds no character. */
  lemma TrimInside(s: string)
    ensures forall c :: c in Trim(s) ==> c in s
  {
    var r := Trim(s);
    var i := LeadingSpaces(s);
    forall c | c in r ensures c in s {
      var k :| 0 <= k < |r| && r[k] == c;
      assert s[i + k] == c;
    }
  }

  const TitleDescriptionRequired: string := "Title and description are required"

  /** `saveProject`: refuse without a title or description, else build the project sent to the handler. */
  function SaveProject(form: ProjectForm): (r: Checked<ProjectInput>)
    ensures r.Invalid? <==> form.title == "" || form.description == ""
    ensures r.Invalid? ==> r.message == TitleDescriptionRequired
    ensures r.Valid? ==> r.value.title == form.title && r.value.description == form.description
                         && r.value.category == form.category
    ensures r.Valid? ==> r.value.imageUrl == OrNull(Some(form.imageUrl)) && r.value.demoUrl == OrNull(Some(form.demoUrl))
    ensures r.Valid? ==> r.value.technologies == Some(ParseTags(form.technologies, ','))
                         && r.value.features == Some(ParseTags(form.features, '\n'))
  {
    if form.title == "" || form.description == "" then Invalid(TitleDescriptionRequired)
    else Valid(ProjectInput(
      form.title, form.description, form.category,
      OrNull(Some(form.imageUrl)),
      Some(ParseTags(form.technologies, ',')),
      Some(ParseTags(form.features, '\n')),
      OrNull(Some(form.demoUrl))))
  }

  /**
   * `openProjectModal()` for a new project: the blank form is refused, and once
   * a title and a description are typed it saves with no image, no demo link
   * and empty lists.
   */
  lemma NewProjectForm(title: string, description: string)
    ensures SaveProject(EmptyForm) == Invalid(TitleDescriptionRequired)
    ensures var r := SaveProject(EmptyForm.(title := title, description := description));
            (r.Valid? <==> title != "" && description != "")
            && (r.Valid? ==> r.value == ProjectInput(title, description, Student, None, Some([]), Some([]), None))
  {
    ParseTagsOfEmpty(',');
    ParseTagsOfEmpty('\n');
  }

  /**
   * Splitting `pre + xs[0] + ", " + xs[1] + ...` on commas gives `pre + xs[0]`
   * and then each later element behind the blank of its ", ".
   */
  lemma {:induction false} SplitCommaJoin(xs: seq<string>, pre: string)
    requires |xs| >= 1 && ',' !in pre
    requires forall i :: 0 <= i < |xs| ==> ',' !in xs[i]
    ensures var pieces := Split(pre + Join(xs, ", "), ',');
            |pieces| == |xs| && pieces[0] == pre + xs[0]
            && forall i :: 1 <= i < |xs| ==> pieces[i] == " " + xs[i]
    decreases |xs|
  {
    if |xs| == 1 {
      SplitNoSep(pre + xs[0], ',');
    } else {
      var rest := Join(xs[1..], ", ");
      assert pre + Join(xs, ", ") == (pre + xs[0]) + [','] + (" " + rest);
      SplitConcat(pre + xs[0], ',', " " + rest);
      SplitCommaJoin(xs[1..], " ");
      var tail := Split(" " + rest, ',');
      assert forall i :: 1 <= i < |xs| ==> tail[i - 1] == " " + xs[i] by {
        forall i | 1 <= i < |xs| ensures tail[i - 1] == " " + xs[i] {
          assert xs[1..][i - 1] == xs[i];
        }
      }
    }
  }

  /** Nothing to parse gives no tags. */
  lemma ParseTagsOfEmpty(sep: char)
    ensures ParseTags("", sep) == []
  {
    assert Split("", sep) == [""];
    var trimmed := TrimAll([""]);
    assert trimmed[0] == Trim("") == "";
    assert DropEmpty(trimmed) == DropEmpty(trimmed[1..]);
  }

  /** When the trimmed pieces of a split are exactly the tags `xs`, parsing gives `xs`. */
  lemma ParseTagsOfPieces(text: string, sep: char, xs: seq<string>)
    requires |Split(text, sep)| == |xs|
    requires forall i :: 0 <= i < |xs| ==> Trim(Split(text, sep)[i]) == xs[i] && xs[i] != ""
    ensures ParseTags(text, sep) == xs
  {
    var trimmed := TrimAll(Split(text, sep));
    assert trimmed == xs;
  }

  /** The comma pieces of joined technologies trim back to the technologies. */
  lemma TrimCommaPieces(pieces: seq<string>, xs: seq<string>)
    requires |pieces| == |xs| >= 1 && pieces[0] == xs[0]
    requires forall i :: 1 <= i < |xs| ==> pieces[i] == " " + xs[i]
    requires forall i :: 0 <= i < |xs| ==> IsTag(xs[i], ',')
    ensures forall i :: 0 <= i < |xs| ==> Trim(pieces[i]) == xs[i] && xs[i] != ""
  {
    forall i | 0 <= i < |xs| ensures Trim(pieces[i]) == xs[i] {
      if i == 0 {
        TrimOfTrimmed(xs[0]);
      } else {
        TrimOfSpacePrefixed(xs[i]);
      }
    }
  }

  /** The comma pieces of technologies joined by ", ": the first as it is, each later one behind a blank. */
  lemma SplitTechnologies(xs: seq<string>)
    requires |xs| >= 1
    requires forall i :: 0 <= i < |xs| ==> ',' !in xs[i]
    ensures var pieces := Split(Join(xs, ", "), ',');
            |pieces| == |xs| && pieces[0] == xs[0]
            && forall i :: 1 <= i < |xs| ==> pieces[i] == " " + xs[i]
  {
    var text := Join(xs, ", ");
    assert "" + text == text;
    assert "" + xs[0] == xs[0];
    SplitCommaJoin(xs, "");
  }

  lemma TechnologiesRoundTripNonEmpty(xs: seq<string>)
    requires |xs| >= 1
    requires forall i :: 0 <= i < |xs| ==> IsTag(xs[i], ',')
    ensures ParseTags(Join(xs, ", "), ',') == xs
  {
    var text := Join(xs, ", ");
    assert |Split(text, ',')| == |xs|
           && forall i :: 0 <= i < |xs| ==> Trim(Split(text, ',')[i]) == xs[i] && xs[i] != "" by {
      SplitTechnologies(xs);
      TrimCommaPieces(Split(text, ','), xs);
    }
    ParseTagsOfPieces(text, ',', xs);
  }

  /** Opening then saving gives back the technologies, given that each is a comma-free tag. */
  lemma TechnologiesRoundTrip(xs: seq<string>)
    requires forall i :: 0 <= i < |xs| ==> IsTag(xs[i], ',')
    ensures ParseTags(Join(xs, ", "), ',') == xs
  {
    if |xs| == 0 {
      ParseTagsOfEmpty(',');
    } else {
      TechnologiesRoundTripNonEmpty(xs);
    }
  }

  /** Opening then saving gives back the features, given that each is a tag without a line break. */
  lemma FeaturesRoundTrip(xs: seq<string>)
    requires forall i :: 0 <= i < |xs| ==> IsTag(xs[i], '\n')
    ensures ParseTags(Join(xs, "\n"), '\n') == xs
  {
    if |xs| == 0 {
      ParseTagsOfEmpty('\n');
    } else {
      var text := Join(xs, "\n");
      SplitJoin(xs, '\n');
      forall i | 0 <= i < |xs| ensures Trim(Split(text, '\n')[i]) == xs[i] {
        TrimOfTrimmed(xs[i]);
      }
      ParseTagsOfPieces(text, '\n', xs);
    }
  }

  /** A blank URL field is saved as null and a null URL opens as a blank field; a non-empty URL passes both ways. */
  lemma UrlFieldRoundTrip(s: string, o: Option<string>)
    ensures NullToEmpty(OrNull(Some(s))) == s
    ensures o != Some("") ==> OrNull(Some(NullToEmpty(o))) == o
  {
  }

  /** A row the form can show faithfully: text that the parser and the null handling give back. */
  predicate Representable(p: ProjectRow) {
    p.title != "" && p.description != ""
    && p.imageUrl != Some("") && p.demoUrl != Some("")
    && (forall i :: 0 <= i < |p.technologies| ==> IsTag(p.technologies[i], ','))
    && (forall i :: 0 <= i < |p.features| ==> IsTag(p.features[i], '\n'))
  }

  /** Opening a representable project and saving it unchanged sends back exactly its content. */
  lemma EditRoundTrip(p: ProjectRow)
    requires Representable(p)
    ensures SaveProject(OpenProjectForm(p))
            == Valid(ProjectInput(p.title, p.description, p.category, p.imageUrl,
                                  Some(p.technologies), Some(p.features), p.demoUrl))
  {
    TechnologiesRoundTrip(p.technologies);
    FeaturesRoundTrip(p.features);
    UrlFieldRoundTrip("", p.imageUrl);
    UrlFieldRoundTrip("", p.demoUrl);
  }

  /**
   * Saving an unchanged edit whose image needs no rehosting writes the row
   * back as it was: the stored project table does not change.
   */
  lemma UnchangedEditKeepsStore(store: ProjectStore, p: ProjectRow, bucket: string, env: ProjectsEnv)
    requires p.id in store && store[p.id] == p && Representable(p)
    requires !NeedsRehost(p.imageUrl, bucket)
    ensures var input := SaveProject(OpenProjectForm(p)).value;
            Update(store, p.id, input, bucket, env) == (store, Http.Ok(Saved(p)))
  {
    var input := ProjectInput(p.title, p.description, p.category, p.imageUrl,
                              Some(p.technologies), Some(p.features), p.demoUrl);
    assert SaveProject(OpenProjectForm(p)).value == input by { EditRoundTrip(p); }
    assert PrepareImage(input, bucket, env.image) == Some(input);
    assert RowOf(p.id, input, p.createdAt) == p;
    assert store[p.id := p] == store;
  }

  // ---------------------------------------------------------------------------
  // The unread badge
  // ---------------------------------------------------------------------------

  /** `requests.filter((r) => !r.is_read)`. */
  function Unread(rows: seq<RequestRow>): (r: seq<RequestRow>)
    ensures forall x :: x in r <==> x in rows && !x.isRead
    ensures |r| <= |rows|
  {
    if |rows| == 0 then []
    else if !rows[0].isRead then [rows[0]] + Unread(rows[1..])
    else Unread(rows[1..])
  }

  /** The number of unread requests, counted one row at a time. */
  function UnreadCount(rows: seq<RequestRow>): (n: nat)
    ensures n <= |rows|
  {
    if |rows| == 0 then 0 else (if rows[0].isRead then 0 else 1) + UnreadCount(rows[1..])
  }

  /** The count is the length of the filtered list, as the page computes it. */
  lemma {:induction false} CountIsFilterLength(rows: seq<RequestRow>)
    ensures UnreadCount(rows) == |Unread(rows)|
  {
    if |rows| > 0 {
      CountIsFilterLength(rows[1..]);
    }
  }

  /** The count is zero exactly when every request is read. */
  lemma {:induction false} NoUnreadIffAllRead(rows: seq<RequestRow>)
    ensures UnreadCount(rows) == 0 <==> forall i :: 0 <= i < |rows| ==> rows[i].isRead
  {
    if |rows| > 0 {
      NoUnreadIffAllRead(rows[1..]);
      assert forall i :: 1 <= i < |rows| ==> rows[i] == rows[1..][i - 1];
    }
  }

  /** The badge shows the count, and only when some request is unread. */
  function Badge(rows: seq<RequestRow>): (b: Option<nat>)
    ensures b.Some? <==> exists i :: 0 <= i < |rows| && !rows[i].isRead
    ensures b.Some? ==> b.value == UnreadCount(rows) && b.value >= 1
  {
    NoUnreadIffAllRead(rows);
    if UnreadCount(rows) > 0 then Some(UnreadCount(rows)) else None
  }

  /** Appending a row adds its own share to the count. */
  lemma {:induction false} UnreadCountAppend(rows: seq<RequestRow>, row: RequestRow)
    ensures UnreadCount(rows + [row]) == UnreadCount(rows) + (if row.isRead then 0 else 1)
  {
    if |rows| > 0 {
      assert (rows + [row])[1..] == rows[1..] + [row];
      UnreadCountAppend(rows[1..], row);
    } else {
      assert rows + [row] == [row];
    }
  }

  /** Marking a request read never raises the count. */
  lemma {:induction false} MarkReadNeverRaisesCount(rows: seq<RequestRow>, id: string)
    ensures UnreadCount(AdminRequests.MarkRead(rows, id)) <= UnreadCount(rows)
    decreases |rows|
  {
    if |rows| > 0 {
      var marked := AdminRequests.MarkRead(rows, id);
      assert marked[1..] == AdminRequests.MarkRead(rows[1..], id);
      MarkReadNeverRaisesCount(rows[1..], id);
    }
  }

  /** With unique ids, marking an unread request read lowers the count by exactly one. */
  lemma {:induction false} MarkReadLowersCountByOne(rows: seq<RequestRow>, id: string, k: nat)
    requires UniqueIds(rows)
    requires k < |rows| && rows[k].id == id && !rows[k].isRead
    ensures UnreadCount(AdminRequests.MarkRead(rows, id)) == UnreadCount(rows) - 1
    decreases |rows|
  {
    var marked := AdminRequests.MarkRead(rows, id);
    var rest := rows[1..];
    assert marked[1..] == AdminRequests.MarkRead(rest, id);
    if k == 0 {
      assert marked[1..] == rest by {
        assert !HasId(rest, id) by {
          forall i | 0 <= i < |rest| ensures rest[i].id != id {
            assert rest[i] == rows[i + 1];
          }
        }
      }
    } else {
      assert rows[0].id != id;
      assert UniqueIds(rest);
      assert rest[k - 1] == rows[k];
      MarkReadLowersCountByOne(rest, id, k - 1);
    }
  }

  /** A new submission, stored unread, raises the count by one. */
  lemma SubmissionRaisesCount(table: RequestTable, input: RequestInput, defaults: ColumnDefaults)
    requires HasRequiredFields(input) && defaults.isRead == IsReadDefault
    ensures UnreadCount(Submit(table, input, defaults).0) == UnreadCount(table) + 1
  {
    var row := Submit(table, input, defaults).1.body;
    UnreadCountAppend(table, row);
  }

  // ---------------------------------------------------------------------------
  // uploadImageFile
  // ---------------------------------------------------------------------------

  /** `(name.split(".").pop() || "png").toLowerCase()`. */
  function UploadExtension(fileName: string): (ext: string)
    ensures forall piece :: IsTextAfterLast(piece, fileName, '.') ==>
              ext == if piece == "" then "png" else ToLowerAscii(piece)
    ensures '.' !in fileName && fileName != "" ==> ext == ToLowerAscii(fileName)
    ensures ext != ""
  {
    var piece := AfterLast(fileName, '.');
    assert forall q :: IsTextAfterLast(q, fileName, '.') ==> q == piece by {
      forall q | IsTextAfterLast(q, fileName, '.') ensures q == piece {
        TextAfterLastUnique(q, piece, fileName, '.');
      }
    }
    assert '.' !in fileName ==> IsTextAfterLast(fileName, fileName, '.');
    if piece == "" then "png" else ToLowerAscii(piece)
  }

  /** A name ending in a dot, or an empty name, gets "png"; "photo.JPG" gets "jpg". */
  lemma UploadExtensionExamples(stem: string)
    ensures UploadExtension(stem + ".") == "png"
    ensures UploadExtension("") == "png"
    ensures UploadExtension("photo.JPG") == "jpg"
  {
    assert IsTextAfterLast("", stem + ".", '.');
    assert IsTextAfterLast("", "", '.');
    assert UploadExtension("photo.JPG") == "jpg" by {
      var name := "photo.JPG";
      assert name == "photo" + ['.'] + "JPG";
      AfterLastOf("photo", '.', "JPG");
      assert IsTextAfterLast("JPG", name, '.');
      var r := ToLowerAscii("JPG");
      assert r[0] == 'j' && r[1] == 'p' && r[2] == 'g';
      assert r == "jpg";
    }
  }
}
