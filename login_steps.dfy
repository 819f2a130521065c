/** The two-step phone login: a phone number, then a six-cell one-time code. Moving to
    the user page is recorded as the path the router was sent to. */
module LoginSteps {
  import opened Text

  const EnterPhone: string := "Please enter your phone number"
  const InvalidPhone: string := "Please enter a valid phone number"
  const InvalidOtp: string := "Please enter a valid 6-digit OTP"
  const UserPage: string := "/user/"

  /** `/^\+?[1-9]\d{1,14}$/`: an optional plus, a non-zero digit, then one to fourteen
      more digits. */
  predicate ValidPhoneNumber(s: string)
  {
    var d := if |s| > 0 && s[0] == '+' then s[1..] else s;
    2 <= |d| <= 15 && AllDigits(d) && d[0] != '0'
  }

  /** Accepted numbers carry 2 to 15 digits, the first not zero, and a plus sign at
      most at the front; a plus-prefixed one is sent to the SMS service unchanged. */
  lemma ValidPhoneNumberShape(s: string)
    requires ValidPhoneNumber(s)
    ensures forall i :: 0 < i < |s| ==> IsDigit(s[i])
    ensures IsDigit(s[0]) || s[0] == '+'
    ensures var digits := if s[0] == '+' then |s| - 1 else |s|; 2 <= digits <= 15
    ensures s[0] != '0'
  {
    if s[0] == '+' {
      assert forall i :: 0 < i < |s| ==> s[i] == s[1..][i - 1];
    } else {
      assert IsDigit(s[0]);
    }
  }

  lemma ValidPhoneNumberExamples()
    ensures ValidPhoneNumber("+38761234567")
    ensures !ValidPhoneNumber("061234567")
    ensures !ValidPhoneNumber("+1")
  {
    assert "+38761234567"[1..] == "38761234567";
    assert "061234567"[0] == '0';
    assert "+1"[1..] == "1";
  }

  function EmptyOtp(): (cells: seq<string>)
    ensures |cells| == 6 && forall i :: 0 <= i < 6 ==> cells[i] == ""
  {
    ["", "", "", "", "", ""]
  }

  class Steps {
    var step: int
    var phoneNumber: string
    var error: string
    var submitted: bool
    var otp: seq<string>
    /** Where the router was sent, if anywhere. */
    var redirect: Option<string>

    /** Six cells of at most one character each. */
    predicate Valid()
      reads this
    {
      |otp| == 6 && forall i :: 0 <= i < 6 ==> |otp[i]| <= 1
    }

    constructor()
      ensures Valid() && Initial() && redirect.None?
    {
      step := 1;
      phoneNumber := "";
      error := "";
      submitted := false;
      otp := EmptyOtp();
      redirect := None;
    }

    predicate Initial()
      reads this
    {
      step == 1 && phoneNumber == "" && otp == EmptyOtp() && error == "" && !submitted
    }

    method SetPhoneNumber(value: string)
      modifies this
      ensures phoneNumber == value
      ensures step == old(step) && otp == old(otp) && error == old(error) && submitted == old(submitted)
      ensures redirect == old(redirect)
    {
      phoneNumber := value;
    }

    /** `handleNext`. Step 1 moves to step 2 only for a non-empty valid number and
        otherwise sets the matching error; step 2 succeeds only when the six cells
        join to six characters, that is, when every cell is filled. */
    method HandleNext()
      requires Valid()
      modifies this
      ensures Valid() && phoneNumber == old(phoneNumber) && otp == old(otp)
      ensures old(step) == 1 ==>
        && redirect == old(redirect) && submitted == old(submitted)
        && (old(phoneNumber) == "" ==> step == 1 && error == EnterPhone)
        && (old(phoneNumber) != "" && !ValidPhoneNumber(old(phoneNumber)) ==> step == 1 && error == InvalidPhone)
        && (old(phoneNumber) != "" && ValidPhoneNumber(old(phoneNumber)) ==> step == 2 && error == "")
      ensures old(step) == 2 ==>
        && step == 2
        && ((forall i :: 0 <= i < 6 ==> otp[i] != "") <==> submitted && redirect == Some(UserPage) && error == "")
        && (!(forall i :: 0 <= i < 6 ==> otp[i] != "") ==>
              error == InvalidOtp && submitted == old(submitted) && redirect == old(redirect))
      ensures old(step) != 1 && old(step) != 2 ==>
        step == old(step) && error == old(error) && submitted == old(submitted) && redirect == old(redirect)
    {
      if step == 1 {
        if phoneNumber == "" {
          error := EnterPhone;
          return;
        }
        if !ValidPhoneNumber(phoneNumber) {
          error := InvalidPhone;
          return;
        }
        error := "";
        step := 2;
      } else if step == 2 {
        var otpValue := Join(otp);
        JoinLength(otp);
        if |otpValue| != 6 {
          error := InvalidOtp;
          return;
        } else {
          redirect := Some(UserPage);
        }
        error := "";
        submitted := true;
      }
    }

    method HandleBack()
      modifies this
      ensures step == 1 && error == ""
      ensures phoneNumber == old(phoneNumber) && otp == old(otp) && submitted == old(submitted)
      ensures redirect == old(redirect)
    {
      step := 1;
      error := "";
    }

    method HandleReset()
      modifies this
      ensures Valid() && Initial() && redirect == old(redirect)
    {
      step := 1;
      phoneNumber := "";
      otp := EmptyOtp();
      error := "";
      submitted := false;
    }

    /** `handleOtpChange`: only the last character typed is kept, in that cell only. */
    method HandleOtpChange(index: nat, value: string)
      requires Valid() && index < 6
      modifies this
      ensures Valid()
      ensures otp == old(otp)[index := KeepLast(value)]
      ensures |value| >= 1 ==> otp[index] == [value[|value| - 1]]
      ensures forall i :: 0 <= i < 6 && i != index ==> otp[i] == old(otp)[i]
      ensures step == old(step) && phoneNumber == old(phoneNumber) && error == old(error)
      ensures submitted == old(submitted) && redirect == old(redirect)
    {
      var v := value;
      if |v| > 1 {
        v := v[|v| - 1..];
      }
      otp := otp[index := v];
    }
  }
}
