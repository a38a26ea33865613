/** The message the login page shows for a failed login, chosen from the HTTP
    status and the server's message. */
module LoginErrors {
  import opened Wrappers
  import opened Text

  /** A login failure: no response at all, or a response with a status (absent
      when the server sent none) and `data?.message`. */
  datatype LoginFailure = NoResponse | Response(status: Option<int>, message: Option<string>)

  const NetworkMsg := "서버와의 통신 오류가 발생했습니다. 네트워크 연결을 확인해주세요."
  const WrongPasswordMsg := "비밀번호가 올바르지 않습니다."
  const NoSuchEmailMsg := "존재하지 않는 이메일입니다."
  const BadCredentialsMsg := "이메일 또는 비밀번호가 올바르지 않습니다."
  const CheckInputMsg := "입력 정보를 확인해주세요."
  const BlockedMsg := "로그인이 차단되었습니다. 관리자에게 문의하세요."
  const TooManyMsg := "로그인 시도 횟수를 초과했습니다. 잠시 후 다시 시도해주세요."
  const ServerTroubleMsg := "서버에 일시적인 문제가 발생했습니다. 잠시 후 다시 시도해주세요."
  const GenericMsg := "로그인 중 오류가 발생했습니다. 다시 시도해주세요."

  /** `data?.message || ''`. */
  function ServerMessage(message: Option<string>): string {
    if message.Some? then message.value else ""
  }

  /** A status that means the server itself is in trouble. */
  predicate ServerTrouble(status: int) {
    status == 500 || status == 502 || status == 503 || status == 504
  }

  /** The message names the password. */
  predicate MentionsPassword(m: string) {
    Contains(m, "password") || Contains(m, "비밀번호")
  }

  /** The message names the e-mail address. */
  predicate MentionsEmail(m: string) {
    Contains(m, "email") || Contains(m, "이메일")
  }

  /** The message names the credentials. */
  predicate MentionsCredential(m: string) {
    Contains(m, "credential") || Contains(m, "인증")
  }

  /** The 400 branch: the message is searched for the password words, then the
      e-mail words, then the credential words; otherwise the server's own text,
      or the default when it is empty. */
  function BadRequestMessage(m: string): (r: string)
    ensures MentionsPassword(m) ==> r == WrongPasswordMsg
    ensures !MentionsPassword(m) && MentionsEmail(m) ==> r == NoSuchEmailMsg
    ensures !MentionsPassword(m) && !MentionsEmail(m) && MentionsCredential(m) ==> r == BadCredentialsMsg
    ensures !MentionsPassword(m) && !MentionsEmail(m) && !MentionsCredential(m) ==>
      r == (if m == "" then CheckInputMsg else m)
  {
    if MentionsPassword(m) then WrongPasswordMsg
    else if MentionsEmail(m) then NoSuchEmailMsg
    else if MentionsCredential(m) then BadCredentialsMsg
    else if m != "" then m
    else CheckInputMsg
  }

  /** A status no case of the handler names: missing, or none of 400, 401, 403,
      404, 429 and the server-trouble codes. */
  predicate OtherStatus(status: Option<int>) {
    status.None? || (status.value !in {400, 401, 403, 404, 429} && !ServerTrouble(status.value))
  }

  /** `getLoginErrorMessage`. */
  function LoginErrorMessage(e: LoginFailure): (r: string)
    ensures e.NoResponse? ==> r == NetworkMsg
    ensures e.Response? && e.status == Some(401) ==> r == BadCredentialsMsg
    ensures e.Response? && e.status == Some(403) ==> r == BlockedMsg
    ensures e.Response? && e.status == Some(404) ==> r == NoSuchEmailMsg
    ensures e.Response? && e.status == Some(429) ==> r == TooManyMsg
    ensures e.Response? && e.status.Some? && ServerTrouble(e.status.value) ==> r == ServerTroubleMsg
    ensures e.Response? && e.status == Some(400) ==> r == BadRequestMessage(ServerMessage(e.message))
    ensures e.Response? && OtherStatus(e.status) ==>
      r == if ServerMessage(e.message) != "" then ServerMessage(e.message) else GenericMsg
  {
    match e
    case NoResponse => NetworkMsg
    case Response(status, message) =>
      var m := ServerMessage(message);
      if status == Some(400) then BadRequestMessage(m)
      else if status == Some(401) then BadCredentialsMsg
      else if status == Some(403) then BlockedMsg
      else if status == Some(404) then NoSuchEmailMsg
      else if status == Some(429) then TooManyMsg
      else if status.Some? && ServerTrouble(status.value) then ServerTroubleMsg
      else if m != "" then m
      else GenericMsg
  }

  /** Every failure gets a message to show: the result is never empty. */
  lemma LoginErrorMessageNonEmpty(e: LoginFailure)
    ensures LoginErrorMessage(e) != ""
  {
    assert |NetworkMsg| > 0 && |WrongPasswordMsg| > 0 && |NoSuchEmailMsg| > 0;
    assert |BadCredentialsMsg| > 0 && |CheckInputMsg| > 0 && |BlockedMsg| > 0;
    assert |TooManyMsg| > 0 && |ServerTroubleMsg| > 0 && |GenericMsg| > 0;
  }

  /** Any other status, 501 for one, passes the server's message through, or the
      generic default when there is none. */
  lemma OtherStatusUsesServerMessage(status: Option<int>, message: Option<string>)
    requires OtherStatus(status)
    ensures ServerMessage(message) != "" ==> LoginErrorMessage(Response(status, message)) == ServerMessage(message)
    ensures ServerMessage(message) == "" ==> LoginErrorMessage(Response(status, message)) == GenericMsg
  {
  }

  /** The 400 checks run in order: a message naming both the password and the
      e-mail address is reported as a wrong password. */
  lemma BadRequestOrder(m: string)
    requires Contains(m, "password") && Contains(m, "email")
    ensures LoginErrorMessage(Response(Some(400), Some(m))) == WrongPasswordMsg
  {
  }
}
