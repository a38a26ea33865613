/** The e-mail code verification shared, handler for handler, by the first
    sign-up step and the first password-reset step: a code is sent to a school
    address, a five-minute countdown runs, and the typed six-digit code is checked
    by the server. */
module Verification {
  import opened Wrappers
  import opened Text
  import opened Credentials

  /** Seconds a sent code stays usable. */
  const CodeLifetime := 300

  const EmailFormatMsg := "학교 이메일을 입력해주세요. (@mju.ac.kr)"
  const EmailRequiredMsg := "유효한 학교 이메일을 입력해주세요. (@mju.ac.kr)"
  const CodeFormatMsg := "6자리 숫자 인증번호를 입력해주세요."
  const NotSentMsg := "먼저 인증번호를 전송해주세요."
  const ExpiredMsg := "인증번호가 만료되었습니다. 다시 전송해주세요."
  const VerifiedMsg := "인증 성공"
  const WrongCodeMsg := "인증번호가 올바르지 않습니다."
  const VerifyFailedMsg := "인증번호 확인에 실패했습니다. 다시 시도해주세요."

  /** `/^[0-9]{6}$/.test(v)`. */
  predicate SixDigits(v: string) {
    |v| == 6 && AllDigits(v)
  }

  /** `mmss`: zero-padded whole minutes, a colon, zero-padded remaining seconds. */
  function Mmss(s: nat): string {
    Pad2(NatToString(s / 60)) + ":" + Pad2(NatToString(s % 60))
  }

  /** Within the countdown's range the text is `MM:SS` and reads back as the
      number of seconds it shows. */
  lemma MmssRoundTrip(s: nat)
    requires s <= CodeLifetime
    ensures |Mmss(s)| == 5 && Mmss(s)[2] == ':'
    ensures AllDigits(Mmss(s)[..2]) && AllDigits(Mmss(s)[3..])
    ensures ParseNat(Mmss(s)[3..]) < 60
    ensures 60 * ParseNat(Mmss(s)[..2]) + ParseNat(Mmss(s)[3..]) == s
  {
    Pad2Nat(s / 60);
    Pad2Nat(s % 60);
    var m := Pad2(NatToString(s / 60));
    var r := Pad2(NatToString(s % 60));
    assert Mmss(s) == m + ":" + r;
    assert Mmss(s)[..2] == m;
    assert Mmss(s)[3..] == r;
  }

  /** The answer of the verify request: `data.verified`, `data.success` and the
      HTTP status. */
  datatype VerifyReply = VerifyReply(verified: Option<bool>, success: Option<bool>, status: int)

  /** `(res?.data?.verified ?? res?.data?.success) === true || res?.status === 200`. */
  predicate Accepted(r: VerifyReply) {
    (if r.verified.Some? then r.verified else r.success) == Some(true) || r.status == 200
  }

  /** A 200 answer is accepted whatever its body; otherwise `verified` decides when
      it is present, however `success` reads. */
  lemma AcceptedCases(r: VerifyReply)
    ensures r.status == 200 ==> Accepted(r)
    ensures r.status != 200 && r.verified.Some? ==> (Accepted(r) <==> r.verified.value)
    ensures r.status != 200 && r.verified.None? ==> (Accepted(r) <==> r.success == Some(true))
  {
  }

  class Form {
    var email: string
    var number: string
    var emailError: string
    var numberError: string
    var isCodeVerified: bool
    var message: string
    var isSending: bool
    var isVerifying: bool
    var secondsLeft: int
    var codeSent: bool
    /** Whether the interval that ticks the countdown is running. */
    var timerRunning: bool

    /** The countdown stays between zero and five minutes, and while it is above
        zero its interval is running. */
    predicate Valid()
      reads this
    {
      0 <= secondsLeft <= CodeLifetime && (secondsLeft > 0 ==> timerRunning)
    }

    /** `canVerify`. */
    predicate CanVerify()
      reads this
    {
      codeSent && secondsLeft > 0 && SixDigits(number)
    }

    /** The sign-up page's verify button: `!canVerify || isVerifying || isSending`. */
    predicate SignUpVerifyDisabled()
      reads this
    {
      !CanVerify() || isVerifying || isSending
    }

    /** The reset page's verify button, written out condition by condition. */
    predicate ResetVerifyDisabled()
      reads this
    {
      isVerifying || !codeSent || secondsLeft <= 0 || !SixDigits(number) || isSending
    }

    /** The Next button and link: only after a successful verification. */
    predicate NextEnabled()
      reads this
    {
      isCodeVerified
    }

    constructor()
      ensures email == "" && number == "" && emailError == "" && numberError == ""
      ensures !isCodeVerified && message == "" && !isSending && !isVerifying
      ensures secondsLeft == 0 && !codeSent && !timerRunning
      ensures Valid() && !CanVerify() && !NextEnabled()
    {
      email, number, emailError, numberError := "", "", "", "";
      isCodeVerified, message, isSending, isVerifying := false, "", false, false;
      secondsLeft, codeSent, timerRunning := 0, false, false;
    }

    /** The e-mail field's `onChange`: an empty or accepted address clears the
        error, anything else shows it. */
    method EditEmail(value: string)
      modifies this
      ensures email == value
      ensures emailError == if value == "" || StrictEmail(value) then "" else EmailFormatMsg
      ensures number == old(number) && numberError == old(numberError) && message == old(message)
      ensures isCodeVerified == old(isCodeVerified) && codeSent == old(codeSent)
      ensures secondsLeft == old(secondsLeft) && timerRunning == old(timerRunning)
      ensures isSending == old(isSending) && isVerifying == old(isVerifying)
    {
      email := value;
      if value == "" || StrictEmail(value) {
        emailError := "";
      } else {
        emailError := EmailFormatMsg;
      }
    }

    /** `startTimer`. */
    method StartTimer()
      modifies this
      ensures secondsLeft == CodeLifetime && timerRunning
      ensures email == old(email) && number == old(number) && codeSent == old(codeSent)
      ensures emailError == old(emailError) && numberError == old(numberError) && message == old(message)
      ensures isCodeVerified == old(isCodeVerified) && isSending == old(isSending) && isVerifying == old(isVerifying)
      ensures Valid()
    {
      secondsLeft := CodeLifetime;
      timerRunning := true;
    }

    /** One second of the interval: at one or below the count becomes zero and the
        interval is cleared, otherwise it counts down by one. A cleared interval
        does not tick. */
    method Tick()
      requires Valid()
      modifies this
      ensures !old(timerRunning) ==> secondsLeft == old(secondsLeft) && !timerRunning
      ensures old(timerRunning) && old(secondsLeft) <= 1 ==> secondsLeft == 0 && !timerRunning
      ensures old(timerRunning) && old(secondsLeft) > 1 ==> secondsLeft == old(secondsLeft) - 1 && timerRunning
      ensures 0 <= secondsLeft <= old(secondsLeft)
      ensures email == old(email) && number == old(number) && codeSent == old(codeSent)
      ensures emailError == old(emailError) && numberError == old(numberError) && message == old(message)
      ensures isCodeVerified == old(isCodeVerified) && isSending == old(isSending) && isVerifying == old(isVerifying)
      ensures Valid()
    {
      if !timerRunning {
        return;
      }
      if secondsLeft <= 1 {
        timerRunning := false;
        secondsLeft := 0;
      } else {
        secondsLeft := secondsLeft - 1;
      }
    }

    /** `handleSendCode`, with `ok` the outcome of the send request. The messages
        and the verified flag are cleared first, and the `finally` block ends the
        sending state on every path; an address the expression rejects
        shows its error and sends nothing. A sent code starts the countdown; a
        failed send withdraws any earlier code and zeroes the countdown. */
    method SendCode(ok: bool) returns (requested: bool)
      requires Valid()
      modifies this
      ensures requested <==> StrictEmail(old(email))
      ensures message == "" && numberError == "" && !isCodeVerified && !isSending
      ensures !requested ==> (emailError == EmailRequiredMsg && codeSent == old(codeSent) &&
        secondsLeft == old(secondsLeft) && timerRunning == old(timerRunning))
      ensures requested ==> emailError == ""
      ensures requested && ok ==> codeSent && secondsLeft == CodeLifetime && timerRunning
      ensures requested && !ok ==> !codeSent && secondsLeft == 0 && timerRunning == old(timerRunning)
      ensures email == old(email) && number == old(number) && isVerifying == old(isVerifying)
      ensures Valid()
    {
      message, numberError, isCodeVerified := "", "", false;
      if !StrictEmail(email) {
        emailError := EmailRequiredMsg;
        isSending := false;
        return false;
      }
      emailError := "";
      isSending := true;
      requested := true;
      if ok {
        codeSent := true;
        StartTimer();
      } else {
        codeSent := false;
        secondsLeft := 0;
      }
      isSending := false;
    }

    /** `handleNumberChange` (`handleCodeInput` on the reset page): white space is
        removed, any earlier verification is dropped, and the format error shows
        exactly for a non-empty value that is not six digits. */
    method NumberChange(value: string)
      modifies this
      ensures number == RemoveSpaces(value)
      ensures !isCodeVerified && message == ""
      ensures numberError == if number != "" && !SixDigits(number) then CodeFormatMsg else ""
      ensures email == old(email) && emailError == old(emailError) && codeSent == old(codeSent)
      ensures secondsLeft == old(secondsLeft) && timerRunning == old(timerRunning)
      ensures isSending == old(isSending) && isVerifying == old(isVerifying)
    {
      var v := RemoveSpaces(value);
      number := v;
      isCodeVerified := false;
      message := "";
      if v != "" && !SixDigits(v) {
        numberError := CodeFormatMsg;
      } else {
        numberError := "";
      }
    }

    /** `handleVerifyCode`, with `response` the answer of the verify request or its
        failure. The checks run in order (no code sent, then time up, then a
        malformed code) and the request is made only when all pass, that is
        exactly when `canVerify` holds. The code counts as verified only on an
        accepted answer. */
    method VerifyCode(response: Fetch<VerifyReply>) returns (requested: bool)
      modifies this
      ensures requested <==> old(CanVerify())
      ensures !old(codeSent) ==> message == NotSentMsg
      ensures old(codeSent) && old(secondsLeft) <= 0 ==> message == ExpiredMsg
      ensures old(codeSent) && old(secondsLeft) > 0 && !SixDigits(old(number)) ==>
        numberError == CodeFormatMsg && message == ""
      ensures isCodeVerified <==> requested && response.Fetched? && Accepted(response.body)
      ensures requested && response.Failed? ==> message == VerifyFailedMsg
      ensures requested && response.Fetched? ==>
        message == if Accepted(response.body) then VerifiedMsg else WrongCodeMsg
      ensures !isVerifying
      ensures email == old(email) && number == old(number) && emailError == old(emailError)
      ensures codeSent == old(codeSent) && secondsLeft == old(secondsLeft) && timerRunning == old(timerRunning)
      ensures isSending == old(isSending)
      ensures old(codeSent) && old(secondsLeft) > 0 && SixDigits(old(number)) ==> numberError == old(numberError)
      ensures !old(codeSent) || old(secondsLeft) <= 0 ==> numberError == old(numberError)
    {
      isVerifying, message, isCodeVerified := true, "", false;
      requested := false;
      if !codeSent {
        message := NotSentMsg;
      } else if secondsLeft <= 0 {
        message := ExpiredMsg;
      } else if !SixDigits(number) {
        numberError := CodeFormatMsg;
      } else {
        requested := true;
        match response
        case Failed =>
          message := VerifyFailedMsg;
        case Fetched(reply) =>
          if Accepted(reply) {
            isCodeVerified, message := true, VerifiedMsg;
          } else {
            message := WrongCodeMsg;
          }
      }
      isVerifying := false;
    }
  }

  /** The two pages disable their verify buttons under the same conditions. */
  lemma VerifyButtonsAgree(f: Form)
    ensures f.SignUpVerifyDisabled() <==> f.ResetVerifyDisabled()
  {
  }

  /** A code-format error shown after an edit means the verify button is off. */
  lemma FormatErrorDisablesVerify(f: Form)
    requires f.numberError == CodeFormatMsg && f.number != "" && !SixDigits(f.number)
    ensures f.SignUpVerifyDisabled()
  {
  }
}
