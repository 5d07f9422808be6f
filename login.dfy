/** The login page (src/app/login/page.tsx): a signed-in visitor is sent to
    the dashboard; otherwise the page shows the message for the sign-in
    error code in the query string, if there is one. */
module Login {
  import opened Wrappers

  /** What the page does: redirect, or render with an optional error message. */
  datatype LoginView = Redirect(path: string) | Page(errorMessage: Option<string>)

  const DefaultMessage: string := "認証中にエラーが発生しました。もう一度お試しください。"

  /** The error codes with a message of their own. */
  const KnownCodes: seq<string> := ["OAuthSignin", "OAuthCallback", "OAuthAccountNotLinked", "AccessDenied", "Configuration"]

  /** `getErrorMessage`: a fixed message per known code, the default for any other. */
  function ErrorMessage(error: string): (m: string)
    ensures m == DefaultMessage <==> error !in KnownCodes
  {
    match error
    case "OAuthSignin" => "認証の開始に失敗しました。もう一度お試しください。"
    case "OAuthCallback" => "認証のコールバック処理に失敗しました。"
    case "OAuthAccountNotLinked" => "このメールアドレスは別のアカウントでリンクされています。"
    case "AccessDenied" => "アクセスが拒否されました。"
    case "Configuration" => "サーバーの設定エラーが発生しました。"
    case _ => DefaultMessage
  }

  /** Distinct known codes show distinct messages. */
  lemma KnownMessagesDistinct(a: string, b: string)
    requires a in KnownCodes && b in KnownCodes && a != b
    ensures ErrorMessage(a) != ErrorMessage(b)
  {
  }

  /** The page for a visitor with or without a session and an optional `error` parameter. */
  function LoginPage(hasSession: bool, error: Option<string>): (v: LoginView)
    ensures hasSession <==> v == Redirect("/dashboard")
    ensures v.Page? ==> (v.errorMessage.None? <==> error.None? || error.value == "")
    ensures v.Page? && v.errorMessage.Some? ==> error.Some? && v.errorMessage.value == ErrorMessage(error.value)
  {
    if hasSession then Redirect("/dashboard")
    else if error.Some? && error.value != "" then Page(Some(ErrorMessage(error.value)))
    else Page(None)
  }
}
