/**
 * The administrator gate of the accounts pages (`admin_panel`): a
 * non-administrator is refused with HTTP status 403, an administrator gets
 * the welcome text.
 */
module Accounts {
  import opened Models
  import opened Messenger

  /** What a route returns: a page body, or an abort with an HTTP status. */
  datatype Response = Page(body: string) | Abort(status: nat)

  const Forbidden: nat := 403
  const AdminWelcome: string := "Ласкаво просимо до адмін-панелі!"

  /** `admin_panel` for the authenticated user `caller`. */
  function AdminPanel(users: seq<User>, caller: nat): (r: Response)
    requires HasUser(users, caller)
    ensures r.Abort? <==> !GetUser(users, caller).value.isAdmin
    ensures r.Abort? ==> r.status == Forbidden
    ensures r.Page? ==> r.body == AdminWelcome
  {
    var user := GetUser(users, caller).value;
    if !user.isAdmin then Abort(Forbidden) else Page(AdminWelcome)
  }

  /**
   * Registration never grants the administrator flag, so a user who
   * signed up through `register` is refused by `admin_panel`.
   */
  lemma RegisteredUserIsRefused(users: seq<User>, username: string, email: string, password: string)
    requires UsersValid(users)
    ensures var u := User(|users| + 1, username, email, password, false);
      HasUser(users + [u], u.id) && AdminPanel(users + [u], u.id) == Abort(Forbidden)
  {
    var u := User(|users| + 1, username, email, password, false);
    var grown := users + [u];
    assert DenseUserIds(grown);
    GetUserDense(grown, u.id);
  }
}
