/** The PIN dialog of the confirm step (confirmWithPin,
    js/wallet-app.js:1166-1290): digits are typed on a pad or the keyboard
    up to the length of the expected PIN; a complete wrong entry is cleared
    with an error, a complete right one starts a two-second check after
    which the dialog answers true; cancelling answers false. The overlay's
    look (dots, blur, disabled keys) is not modelled; the two-second timer
    is the TimerFired event. */
module PinEntry {
  import opened Wrappers
  import Text

  /** `pinValue || '123456'`: an absent or empty configured value falls back
      to the default before it is normalised. */
  function ExpectedPin(pinValue: Option<string>): string {
    Text.NormalizePinValue(if pinValue.None? || pinValue.value == "" then Some(Text.DefaultPin) else pinValue)
  }

  /** The fallback adds nothing to normalizePinValue's own: the expected PIN
      is the normalised configured value. */
  lemma ExpectedPinIsNormalized(pinValue: Option<string>)
    ensures ExpectedPin(pinValue) == Text.NormalizePinValue(pinValue)
  {
    if pinValue.None? || pinValue.value == "" {
      assert forall i :: 0 <= i < |Text.DefaultPin| ==> Text.IsDigit(Text.DefaultPin[i]);
      Text.NormalizePinFixpoint(Text.DefaultPin);
    }
  }

  /** `/^[0-9]$/.test(key)`: a keyboard key that is one digit. */
  predicate IsDigitKey(key: string) {
    |key| == 1 && Text.IsDigit(key[0])
  }

  /** `value.slice(0, -1)`: the entry without its last digit, "" for "". */
  function DropLast(v: string): (r: string)
    ensures |v| > 0 ==> |r| == |v| - 1 && r + [v[|v| - 1]] == v
    ensures |v| == 0 ==> r == ""
  {
    if |v| == 0 then "" else v[..|v| - 1]
  }

  class PinPad {
    /** The expected PIN (`PIN`). */
    const pin: string
    /** Whether the page has the overlay elements the dialog needs. */
    const overlay: bool
    /** The digits typed so far (`value`). */
    var value: string
    /** Whether the two-second check runs (`isChecking`); the dialog takes no
        input meanwhile. */
    var checking: bool
    /** Whether the "wrong PIN" message is visible. */
    var errorShown: bool
    /** What the dialog resolved to; None while it is open. Once resolved its
        listeners are removed, so later events change nothing. */
    var result: Option<bool>

    /** The entry never grows past the PIN, the check only runs on the right
        PIN, a resolved dialog no longer checks, a dialog without overlay has
        answered true, and one with an overlay answers true only once the
        right PIN was typed. */
    predicate Valid()
      reads this
    {
      && |pin| > 0 && (forall i :: 0 <= i < |pin| ==> Text.IsDigit(pin[i]))
      && |value| <= |pin|
      && (checking ==> value == pin && result.None?)
      && (!overlay ==> result == Some(true))
      && (overlay && result == Some(true) ==> value == pin)
    }

    /** The dialog as it opens. Without its overlay elements it answers true
        at once (`resolve(true)`). */
    constructor (pinValue: Option<string>, hasOverlay: bool)
      ensures pin == ExpectedPin(pinValue) && overlay == hasOverlay
      ensures value == "" && !checking && !errorShown
      ensures result == (if hasOverlay then None else Some(true))
      ensures Valid()
    {
      pin, overlay := ExpectedPin(pinValue), hasOverlay;
      value := "";
      checking := false;
      errorShown := false;
      result := if hasOverlay then None else Some(true);
    }

    /** trySubmit: a complete wrong entry is cleared and the error shown; a
        complete right one starts the check. */
    method TrySubmit()
      requires Valid() && result.None? && !checking
      modifies this`value, this`checking, this`errorShown
      ensures Valid() && result.None?
      ensures |old(value)| != |pin| ==> value == old(value) && !checking && errorShown == old(errorShown)
      ensures |old(value)| == |pin| && old(value) != pin ==> value == "" && !checking && errorShown
      ensures old(value) == pin ==> value == pin && checking && !errorShown
    {
      if |value| != |pin| {
        return;
      }
      if value != pin {
        value := "";
        errorShown := true;
        return;
      }
      errorShown := false;
      checking := true;
    }

    /** onKey: a pad key with digit `d`. It clears the error, appends the
        digit while the entry is shorter than the PIN and submits a complete
        entry. */
    method PressDigit(d: char)
      requires Valid() && Text.IsDigit(d)
      modifies this`value, this`checking, this`errorShown
      ensures Valid() && result == old(result)
      ensures if old(result).Some? || old(checking) then
                value == old(value) && checking == old(checking) && errorShown == old(errorShown)
              else if |old(value)| >= |pin| then
                value == old(value) && !checking && !errorShown
              else
                var v := old(value) + [d];
                if |v| < |pin| then value == v && !checking && !errorShown
                else if v == pin then value == pin && checking && !errorShown
                else value == "" && !checking && errorShown
    {
      if result.Some? || checking {
        return;
      }
      errorShown := false;
      if |value| >= |pin| {
        return;
      }
      value := value + [d];
      if |value| == |pin| {
        TrySubmit();
      }
    }

    /** onKeydown: a digit key types like the pad (without clearing the
        error first); Backspace removes the last digit; other keys do
        nothing. */
    method KeyDown(key: string)
      requires Valid()
      modifies this`value, this`checking, this`errorShown
      ensures Valid() && result == old(result)
      ensures if old(result).Some? || old(checking) || !(IsDigitKey(key) || key == "Backspace") then
                value == old(value) && checking == old(checking) && errorShown == old(errorShown)
              else if key == "Backspace" then
                value == DropLast(old(value)) && !checking && errorShown == old(errorShown)
              else if |old(value)| >= |pin| then
                value == old(value) && !checking && errorShown == old(errorShown)
              else
                var v := old(value) + key;
                if |v| < |pin| then value == v && !checking && errorShown == old(errorShown)
                else if v == pin then value == pin && checking && !errorShown
                else value == "" && !checking && errorShown
    {
      if result.Some? || checking {
        return;
      }
      if IsDigitKey(key) {
        if |value| < |pin| {
          value := value + key;
          if |value| == |pin| {
            TrySubmit();
          }
        }
      } else if key == "Backspace" {
        value := DropLast(value);
      }
    }

    /** onBack: clears the error and removes the last digit. */
    method Back()
      requires Valid()
      modifies this`value, this`errorShown
      ensures Valid()
      ensures if result.Some? || checking then value == old(value) && errorShown == old(errorShown)
              else value == DropLast(old(value)) && !errorShown
    {
      if result.Some? || checking {
        return;
      }
      errorShown := false;
      value := DropLast(value);
    }

    /** onCancel: closes the dialog with false. */
    method Cancel()
      requires Valid()
      modifies this`result
      ensures Valid()
      ensures result == if old(result).None? && !checking then Some(false) else old(result)
    {
      if result.Some? || checking {
        return;
      }
      result := Some(false);
    }

    /** The end of the two-second check: closes the dialog with true. */
    method TimerFired()
      requires Valid()
      modifies this`checking, this`result
      ensures Valid() && !checking
      ensures result == if old(checking) then Some(true) else old(result)
      ensures result == Some(true) && old(result).None? ==> overlay && value == pin
    {
      if checking {
        checking := false;
        result := Some(true);
      }
    }
  }
}
