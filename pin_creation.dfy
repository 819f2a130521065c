/** Choosing a six-digit PIN: two rows of six one-character cells, the PIN and its
    confirmation; on submit the PIN becomes the account password. The password update
    is an input. */
module PinCreation {
  import opened Text

  const InvalidPin: string := "Please enter a valid 6-digit PIN"
  const PinsDiffer: string := "PINs do not match. Please try again."
  const SetPinFailed: string := "Failed to set PIN. Please try again."
  const Unexpected: string := "An unexpected error occurred. Please try again."

  /** How `supabase.auth.updateUser` ends: success, an error carrying a message, or an
      exception. */
  datatype UpdateResult = Updated | UpdateError(message: string) | Threw

  predicate Filled(cells: seq<string>)
  {
    forall i :: 0 <= i < |cells| ==> cells[i] != ""
  }

  class Form {
    var pin: seq<string>
    var confirmPin: seq<string>
    var error: string
    var loading: bool
    var success: bool
    /** The password last given to the account, if any. */
    var password: Option<string>

    /** Six cells per row, each empty or one digit. */
    predicate Valid()
      reads this
    {
      && |pin| == 6 && |confirmPin| == 6
      && (forall i :: 0 <= i < 6 ==> |pin[i]| <= 1 && AllDigits(pin[i]))
      && (forall i :: 0 <= i < 6 ==> |confirmPin[i]| <= 1 && AllDigits(confirmPin[i]))
    }

    constructor()
      ensures Valid() && error == "" && !loading && !success && password.None?
      ensures pin == ["", "", "", "", "", ""] && confirmPin == ["", "", "", "", "", ""]
    {
      pin := ["", "", "", "", "", ""];
      confirmPin := ["", "", "", "", "", ""];
      error := "";
      loading := false;
      success := false;
      password := None;
    }

    /** The submit button: disabled while loading or while any cell is empty. */
    predicate SubmitDisabled()
      reads this
    {
      loading || !Filled(pin) || !Filled(confirmPin)
    }

    /** `handlePinChange`: the last character typed is kept; anything but a digit
        leaves both rows alone; otherwise that cell of the chosen row alone changes
        (an empty value clears the cell). */
    method HandlePinChange(index: nat, value: string, isConfirm: bool)
      requires Valid() && index < 6
      modifies this
      ensures Valid()
      ensures !AllDigits(KeepLast(value)) ==> pin == old(pin) && confirmPin == old(confirmPin)
      ensures AllDigits(KeepLast(value)) && !isConfirm ==>
                pin == old(pin)[index := KeepLast(value)] && confirmPin == old(confirmPin)
      ensures AllDigits(KeepLast(value)) && isConfirm ==>
                confirmPin == old(confirmPin)[index := KeepLast(value)] && pin == old(pin)
      ensures error == old(error) && loading == old(loading) && success == old(success)
      ensures password == old(password)
    {
      var v := value;
      if |v| > 1 {
        v := v[|v| - 1..];
      }
      if !AllDigits(v) {
        return;
      }
      if isConfirm {
        confirmPin := confirmPin[index := v];
      } else {
        pin := pin[index := v];
      }
    }

    /** `handleSubmit`: a PIN that does not join to six characters, then a
        confirmation that differs, is refused with its message; otherwise the joined
        PIN is sent as the new password. Loading is off again at the end. */
    method HandleSubmit(result: UpdateResult)
      requires Valid()
      modifies this
      ensures Valid() && pin == old(pin) && confirmPin == old(confirmPin) && !loading
      ensures !Filled(pin) ==> error == InvalidPin && success == old(success) && password == old(password)
      ensures Filled(pin) && Join(pin) != Join(confirmPin) ==>
                error == PinsDiffer && success == old(success) && password == old(password)
      ensures Filled(pin) && Join(pin) == Join(confirmPin) ==>
        && (result.Updated? ==> success && error == "" && password == Some(Join(pin)))
        && (result.UpdateError? ==>
              && success == old(success) && password == old(password)
              && error == (if result.message != "" then result.message else SetPinFailed))
        && (result.Threw? ==> success == old(success) && password == old(password) && error == Unexpected)
    {
      loading := true;
      error := "";
      var pinValue, confirmValue := Join(pin), Join(confirmPin);
      JoinLength(pin);
      if |pinValue| != 6 {
        error := InvalidPin;
        loading := false;
        return;
      }
      if pinValue != confirmValue {
        error := PinsDiffer;
        loading := false;
        return;
      }
      match result {
        case Threw =>
          error := Unexpected;
        case UpdateError(message) =>
          error := if message != "" then message else SetPinFailed;
        case Updated =>
          password := Some(pinValue);
          success := true;
      }
      loading := false;
    }
  }

  /** An enabled submit button means both rows are full, so the length check passes. */
  lemma EnabledSubmitHasSixDigits(f: Form)
    requires f.Valid() && !f.SubmitDisabled()
    ensures |Join(f.pin)| == 6 && |Join(f.confirmPin)| == 6
  {
    JoinLength(f.pin);
    JoinLength(f.confirmPin);
  }
}
