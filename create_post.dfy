/**
 * The post-composition form: its fields, the change handler every input shares, the
 * excerpt generation that runs on submit, and the submit handler with its validation
 * gate in front of the call that stores the post.
 */
module CreatePost {
  import opened Wrappers
  import opened Text
  import opened Excerpt
  import ExcerptExamples

  /** The form's state object. */
  datatype FormData = FormData(title: string, excerpt: string, content: string, coverImage: string, published: bool)

  /** A fresh form: every text field empty, "publish now" ticked. */
  const EmptyForm := FormData("", "", "", "", true)

  /** The `name` attributes of the form's inputs. Only `published` is a checkbox. */
  datatype FieldName = TitleField | ExcerptField | ContentField | CoverImageField | PublishedField

  /** An input's change event: the input's name, its text value and its checked state. */
  datatype ChangeEvent = ChangeEvent(name: FieldName, value: string, checked: bool)

  /** The record handed to the store: the form's fields, no author and a creation time. */
  datatype PostData = PostData(
    title: string, excerpt: string, content: string, coverImage: string, published: bool,
    authorId: Option<string>, createdAt: string)

  /** A toast notification. */
  datatype Toast = ErrorToast(message: string) | SuccessToast(message: string)

  /** What a submit attempt does outside the form: the record it sends, if any, the toast, and where it navigates. */
  datatype Submission = Submission(sent: Option<PostData>, toast: Toast, navigateTo: Option<string>)

  const TitleMissing := "请输入文章标题"
  const ContentMissing := "请输入文章内容"
  const PublishedMessage := "文章发表成功！"
  const PublishFailed := "发表失败，请重试"

  /** The form after a change event: the named field takes the event's value (its checked state for the checkbox). */
  function Changed(f: FormData, e: ChangeEvent): FormData {
    match e.name
    case TitleField => f.(title := e.value)
    case ExcerptField => f.(excerpt := e.value)
    case ContentField => f.(content := e.value)
    case CoverImageField => f.(coverImage := e.value)
    case PublishedField => f.(published := e.checked)
  }

  /** The value a field holds, as text, or its checked state for the checkbox. */
  function TextOf(f: FormData, name: FieldName): string {
    match name
    case TitleField => f.title
    case ExcerptField => f.excerpt
    case ContentField => f.content
    case CoverImageField => f.coverImage
    case PublishedField => []
  }

  /** A change event sets the field it names and leaves every other field as it was. */
  lemma ChangeSetsOnlyItsField(f: FormData, e: ChangeEvent, other: FieldName)
    ensures e.name != PublishedField ==> TextOf(Changed(f, e), e.name) == e.value
    ensures e.name == PublishedField ==> Changed(f, e).published == e.checked
    ensures other != e.name ==> TextOf(Changed(f, e), other) == TextOf(f, other)
    ensures e.name != PublishedField ==> Changed(f, e).published == f.published
  {
  }

  /** The later of two changes to the same field wins. */
  lemma LastChangeWins(f: FormData, e1: ChangeEvent, e2: ChangeEvent)
    requires e1.name == e2.name
    ensures Changed(Changed(f, e1), e2) == Changed(f, e2)
  {
  }

  /** Changes to different fields can arrive in either order. */
  lemma ChangesCommute(f: FormData, e1: ChangeEvent, e2: ChangeEvent)
    requires e1.name != e2.name
    ensures Changed(Changed(f, e1), e2) == Changed(Changed(f, e2), e1)
  {
  }

  /**
   * The validation gate of the submit handler: a blank title is reported first, whatever
   * the content; a blank content is reported only when the title is filled in.
   */
  function Validate(f: FormData): (r: Option<string>)
    ensures r == Some(TitleMissing) <==> AllSpace(f.title)
    ensures r == Some(ContentMissing) <==> !AllSpace(f.title) && AllSpace(f.content)
    ensures r == None <==> !AllSpace(f.title) && !AllSpace(f.content)
  {
    if Trim(f.title) == [] then Some(TitleMissing)
    else if Trim(f.content) == [] then Some(ContentMissing)
    else None
  }

  /** The record the submit handler builds from the form state it was called with. */
  function SubmittedPost(f: FormData, now: string): PostData {
    PostData(f.title, f.excerpt, f.content, f.coverImage, f.published, None, now)
  }

  /** The record the submit handler evidently means to send: the form with its excerpt generated. */
  function IntendedPost(f: FormData, now: string): PostData {
    SubmittedPost(f.(excerpt := AutoExcerpt(f.content, f.excerpt)), now)
  }

  /** The page a stored post is shown on. */
  function PostPath(id: string): (r: string)
    ensures |r| == |"/blog/"| + |id| && r[..|"/blog/"|] == "/blog/" && r[|"/blog/"|..] == id
  {
    "/blog/" + id
  }

  /**
   * The submit handler as written sends the form as it was before the excerpt was
   * generated: with an empty excerpt field and prose content, the record carries an
   * empty excerpt while the form afterwards shows the generated one.
   */
  lemma SubmittedExcerptIsStale(f: FormData, now: string)
    requires f.excerpt == [] && f.content != [] && !AllSpace(f.title)
    requires ExcerptExamples.Inert(f.content) && ExcerptExamples.Trimmed(f.content)
    ensures Validate(f) == None
    ensures SubmittedPost(f, now).excerpt == []
    ensures AutoExcerpt(f.content, f.excerpt) != []
  {
    assert f.content[0] in f.content && !IsSpace(f.content[0]);
    ExcerptExamples.PlainProseKept(f.content);
  }

  /**
   * The intended record carries the excerpt the form ends up with: the user's own when
   * there is one, and otherwise the generated one, which is non-empty whenever the
   * content has any plain text, has no newline and at most 153 characters.
   */
  lemma IntendedPostCarriesExcerpt(f: FormData, now: string)
    ensures f.excerpt != [] ==> IntendedPost(f, now).excerpt == f.excerpt
    ensures f.excerpt == [] && f.content != [] ==>
      var e := IntendedPost(f, now).excerpt;
      '\n' !in e && |e| <= ExcerptLength + |Ellipsis| && (PlainText(f.content) != [] ==> e != [])
  {
    if f.excerpt == [] && f.content != [] {
      GeneratedExcerptShape(f.content);
    }
  }

  /**
   * The stale record through the handlers themselves: a fresh form, a title and prose
   * content typed in, then a submit the store accepts. The record sent has an empty
   * excerpt, while the form afterwards shows the generated one.
   */
  method StaleExcerptSent(title: string, content: string, now: string, id: string)
    returns (sent: PostData, shown: string)
    requires !AllSpace(title) && content != []
    requires ExcerptExamples.Inert(content) && ExcerptExamples.Trimmed(content)
    ensures sent.excerpt == [] && sent.title == title && sent.content == content
    ensures shown == AutoExcerpt(content, []) && shown != []
  {
    var page := new CreatePostForm();
    page.HandleChange(ChangeEvent(TitleField, title, false));
    page.HandleChange(ChangeEvent(ContentField, content, false));
    var typed := page.form;
    assert typed == FormData(title, [], content, [], true);
    SubmittedExcerptIsStale(typed, now);
    var r := page.HandleSubmit(now, Some(id));
    sent := r.sent.value;
    shown := page.form.excerpt;
  }

  /** The form component's state. */
  class CreatePostForm {
    var form: FormData
    var submitting: bool
    var previewMode: bool

    /** The page as it first renders: an empty form, not submitting, in edit mode. */
    constructor ()
      ensures form == EmptyForm && !submitting && !previewMode
    {
      form := EmptyForm;
      submitting := false;
      previewMode := false;
    }

    /** The change handler shared by every input. */
    method HandleChange(e: ChangeEvent)
      modifies this
      ensures form == Changed(old(form), e)
      ensures submitting == old(submitting) && previewMode == old(previewMode)
    {
      form := Changed(form, e);
    }

    /** The edit/preview toggle. */
    method TogglePreview()
      modifies this
      ensures previewMode == !old(previewMode)
      ensures form == old(form) && submitting == old(submitting)
    {
      previewMode := !previewMode;
    }

    /** Fills in an empty excerpt from non-empty content; a user excerpt is kept. */
    method GenerateExcerpt()
      modifies this
      ensures form == old(form).(excerpt := AutoExcerpt(old(form).content, old(form).excerpt))
      ensures old(form).excerpt != [] ==> form == old(form)
      ensures submitting == old(submitting) && previewMode == old(previewMode)
    {
      if form.content != [] && form.excerpt == [] {
        var plain := PlainText(form.content);
        form := form.(excerpt := Truncate(plain));
      }
    }

    /**
     * The submit handler. `now` is the creation time it stamps on the record; `created`
     * is what the store answers, the new post's id or `None` when the call fails.
     * A blank title or content stops it with an error toast before anything is sent.
     * Otherwise it generates the excerpt, sends the record built from the form as it
     * was when the handler started, and either navigates to the new post with a success
     * toast or shows an error toast; either way `submitting` ends false.
     */
    method HandleSubmit(now: string, created: Option<string>) returns (r: Submission)
      modifies this
      ensures r.sent.None? <==> Validate(old(form)).Some?
      ensures Validate(old(form)).Some? ==>
        r.toast == ErrorToast(Validate(old(form)).value) && r.navigateTo.None?
        && form == old(form) && submitting == old(submitting)
      ensures Validate(old(form)).None? ==>
        r.sent == Some(SubmittedPost(old(form), now))
        && form == old(form).(excerpt := AutoExcerpt(old(form).content, old(form).excerpt))
        && !submitting
        && (created.Some? ==> r.toast == SuccessToast(PublishedMessage) && r.navigateTo == Some(PostPath(created.value)))
        && (created.None? ==> r.toast == ErrorToast(PublishFailed) && r.navigateTo.None?)
      ensures previewMode == old(previewMode)
    {
      var snapshot := form;
      var problem := Validate(snapshot);
      if problem.Some? {
        return Submission(None, ErrorToast(problem.value), None);
      }
      GenerateExcerpt();
      submitting := true;
      var post := SubmittedPost(snapshot, now);
      match created {
        case Some(id) =>
          r := Submission(Some(post), SuccessToast(PublishedMessage), Some(PostPath(id)));
        case None =>
          r := Submission(Some(post), ErrorToast(PublishFailed), None);
      }
      submitting := false;
    }
  }
}
