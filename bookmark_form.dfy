/**
 * The bookmark form component: URL normalisation and the submit handler,
 * which validates the two inputs, builds the row to insert and updates the
 * form's fields according to the insert's outcome.
 */
module BookmarkForm {
  import opened Wrappers
  import opened JsString
  import BookmarkList

  type Id = BookmarkList.Id

  /** The row the form asks the storage layer to insert; the server adds `id` and `created_at`. */
  datatype NewBookmark = NewBookmark(title: string, url: string, userId: Id)

  /** Shown when either input is blank. */
  const FillInMessage: string := "Please fill in both title and URL."
  /** Shown when the insert fails. */
  const SaveFailedMessage: string := "Failed to save bookmark. Please try again."

  /** `u.startsWith('http://') || u.startsWith('https://')` */
  predicate HasScheme(u: string)
  {
    "http://" <= u || "https://" <= u
  }

  /**
   * `normalizeUrl`: the result always carries a scheme and ends with the
   * input; it is the input itself exactly when the input already had one,
   * and otherwise has `https://` in front of it.
   */
  function NormalizeUrl(u: string): (r: string)
    ensures HasScheme(r)
    ensures |u| <= |r| && r[|r| - |u|..] == u
    ensures r == u <==> HasScheme(u)
    ensures !HasScheme(u) ==> r == "https://" + u
  {
    if !("http://" <= u) && !("https://" <= u) then
      var r := "https://" + u;
      assert "https://" <= r;
      r
    else
      u
  }

  /** Normalising an already normalised URL changes nothing. */
  lemma NormalizeUrlIdempotent(u: string)
    ensures NormalizeUrl(NormalizeUrl(u)) == NormalizeUrl(u)
  {
  }

  /**
   * What a submission sends: nothing when the trimmed title or the trimmed URL
   * is empty, and otherwise the trimmed title, the normalised trimmed URL and
   * the owner.
   */
  function Submission(title: string, url: string, userId: Id): (r: Option<NewBookmark>)
    ensures r.None? <==> IsBlank(title) || IsBlank(url)
    ensures r.Some? ==> r.value == NewBookmark(Trim(title), NormalizeUrl(Trim(url)), userId)
    ensures r.Some? ==> r.value.title != [] && !IsWhitespace(r.value.title[0]) && HasScheme(r.value.url)
  {
    if Trim(title) == [] || Trim(url) == [] then None
    else Some(NewBookmark(Trim(title), NormalizeUrl(Trim(url)), userId))
  }

  /** A blank title or a blank URL is rejected, whatever the other input. */
  lemma BlankInputRejected(title: string, url: string, userId: Id)
    requires IsBlank(title) || IsBlank(url)
    ensures Submission(title, url, userId) == None
  {
  }

  /** `("", "x.com")`, `("Title", "")` and `(" \t", "x.com")` are each rejected. */
  lemma BlankInputExamples(userId: Id)
    ensures Submission("", "x.com", userId) == None
    ensures Submission("Title", "", userId) == None
    ensures Submission(" \t", "x.com", userId) == None
  {
    assert IsWhitespace(" \t"[0]) && IsWhitespace(" \t"[1]);
    BlankInputRejected(" \t", "x.com", userId);
  }

  /** "My Site" / "example.com" is sent as "My Site" / "https://example.com". */
  lemma SchemeAddedOnSubmit(userId: Id)
    ensures Submission("My Site", "example.com", userId) == Some(NewBookmark("My Site", "https://example.com", userId))
  {
    var t, u := "My Site", "example.com";
    assert t[0] == 'M' && t[|t| - 1] == 'e';
    TrimNoOp(t);
    assert u[0] == 'e' && u[|u| - 1] == 'm';
    TrimNoOp(u);
    assert !HasScheme(u) by {
      assert "http://"[0] == 'h' && "https://"[0] == 'h';
    }
    assert "https://" + u == "https://example.com";
  }

  /** The form's state: the two inputs, the busy flag of the submit button and the error line. */
  class FormState {
    const userId: Id
    var title: string
    var url: string
    var loading: bool
    var error: string

    /** Empty inputs, not busy, no error. */
    constructor (userId: Id)
      ensures this.userId == userId
      ensures title == "" && url == "" && !loading && error == ""
    {
      this.userId := userId;
      title, url, loading, error := "", "", false, "";
    }

    /** The title input's change handler. */
    method SetTitle(value: string)
      modifies this`title
      ensures title == value
    {
      title := value;
    }

    /** The URL input's change handler. */
    method SetUrl(value: string)
      modifies this`url
      ensures url == value
    {
      url := value;
    }

    /**
     * `handleSubmit` up to the insert request: clears the error, rejects blank
     * input (and then sends nothing and touches neither input nor the busy
     * flag), otherwise marks the form busy and returns the row to insert.
     */
    method BeginSubmit() returns (sent: Option<NewBookmark>)
      modifies this`error, this`loading
      ensures sent == Submission(old(title), old(url), userId)
      ensures sent.None? ==> error == FillInMessage && loading == old(loading)
      ensures sent.Some? ==> error == "" && loading
    {
      error := "";
      if Trim(title) == [] || Trim(url) == [] {
        error := FillInMessage;
        return None;
      }
      loading := true;
      var cleanUrl := NormalizeUrl(Trim(url));
      sent := Some(NewBookmark(Trim(title), cleanUrl, userId));
    }

    /**
     * `handleSubmit` after the insert has answered (`ok` is its outcome): on
     * success both inputs are cleared, on failure they are kept and the error
     * line says so; the form is no longer busy either way.
     */
    method CompleteSubmit(ok: bool)
      modifies this`title, this`url, this`loading, this`error
      ensures !loading
      ensures ok ==> title == "" && url == "" && error == old(error)
      ensures !ok ==> title == old(title) && url == old(url) && error == SaveFailedMessage
    {
      if !ok {
        error := SaveFailedMessage;
      } else {
        title := "";
        url := "";
      }
      loading := false;
    }

    /** The whole of `handleSubmit`, with the insert's outcome given as `ok`. */
    method HandleSubmit(ok: bool) returns (sent: Option<NewBookmark>)
      modifies this`title, this`url, this`loading, this`error
      ensures sent == Submission(old(title), old(url), userId)
      ensures sent.None? ==> error == FillInMessage && title == old(title) && url == old(url) && loading == old(loading)
      ensures sent.Some? ==> !loading
      ensures sent.Some? && ok ==> title == "" && url == "" && error == ""
      ensures sent.Some? && !ok ==> title == old(title) && url == old(url) && error == SaveFailedMessage
    {
      sent := BeginSubmit();
      if sent.Some? {
        CompleteSubmit(ok);
      }
    }
  }
}
