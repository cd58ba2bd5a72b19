/**
 * The admin login (wishpage-app/src/Login.tsx): the Edit / Edit Complete
 * buttons, the password dialog, and the submit that posts the hex SHA-256
 * digest of the password and, on success, stores the token and switches the
 * app into admin mode.
 */
module LoginView {
  import opened Wrappers
  import opened Items
  import opened Hex
  import opened AppView

  /** The login request: the digest as lower-case hex, sent without a token. */
  function LoginRequest(digest: seq<byte>): (q: Request)
    ensures q.verb == Post && q.path == "login" && q.token == ""
    ensures q.body.LoginBody? && q.body.password == GoHex(digest)
  {
    DigestHexIsGoHex(digest);
    Request(Post, "login", LoginBody(DigestHex(digest)), "")
  }

  /** Which of the two buttons the component renders. */
  datatype Buttons = Buttons(edit: bool, editComplete: bool)

  /**
   * The buttons appear only once a category is chosen; "Edit" outside admin
   * mode, "Edit Complete" inside it, never both.
   */
  function LoginButtons(displayEditButton: bool, isAdminMode: bool): (b: Buttons)
    ensures b.edit ==> displayEditButton && !isAdminMode
    ensures b.editComplete ==> displayEditButton && isAdminMode
    ensures !(b.edit && b.editComplete)
    ensures displayEditButton ==> b.edit || b.editComplete
  {
    Buttons(displayEditButton && !isAdminMode, displayEditButton && isAdminMode)
  }

  class Login {
    var isDialogOpen: bool
    /** The `token` entry of the browser's local storage. */
    var storedToken: Option<string>
    /** The requests the component has issued, oldest first. */
    var requests: seq<Request>

    constructor (storedToken: Option<string>)
      ensures !isDialogOpen && this.storedToken == storedToken && requests == []
    {
      isDialogOpen := false;
      this.storedToken := storedToken;
      requests := [];
    }

    /** The "Edit" button. */
    method OpenDialog()
      modifies this
      ensures isDialogOpen && storedToken == old(storedToken) && requests == old(requests)
    {
      isDialogOpen := true;
    }

    /** The dialog's cancel button. */
    method CancelDialog()
      modifies this
      ensures !isDialogOpen && storedToken == old(storedToken) && requests == old(requests)
    {
      isDialogOpen := false;
    }

    /** The "Edit Complete" button: leaves admin mode; the stored token stays. */
    method EditComplete(app: App)
      modifies app
      ensures !app.isAdminMode && app.items == old(app.items) && app.category == old(app.category)
      ensures app.requests == old(app.requests)
    {
      app.isAdminMode := false;
    }

    /**
     * `handleSubmit`, given the SHA-256 digest of the typed password and the
     * outcome of the login request: a failure answers `false` and changes
     * nothing; a success stores the returned token, closes the dialog and
     * enters admin mode.
     */
    method HandleSubmit(app: App, digest: seq<byte>, reply: Reply<string>) returns (ok: bool)
      modifies this, app
      ensures requests == old(requests) + [LoginRequest(digest)]
      ensures app.items == old(app.items) && app.category == old(app.category) && app.requests == old(app.requests)
      ensures ok <==> reply.Resolved?
      ensures !ok ==>
        isDialogOpen == old(isDialogOpen) && storedToken == old(storedToken) &&
        app.isAdminMode == old(app.isAdminMode)
      ensures ok ==> storedToken == Some(reply.value) && !isDialogOpen && app.isAdminMode
    {
      requests := requests + [LoginRequest(digest)];
      if reply.Threw? {
        return false;
      }
      storedToken := Some(reply.value);
      isDialogOpen := false;
      app.isAdminMode := true;
      ok := true;
    }
  }
}
