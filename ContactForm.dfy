/**
 * The contact form of `form-validation.js`: the email pattern
 * `^[^\s@]+@[^\s@]+\.[^\s@]+$`, the per-field error texts, and the submit
 * rule that resets the form only when both fields pass.
 */
module ContactForm {
  import opened Text

  /** A character the pattern's class `[^\s@]` accepts. */
  predicate Plain(c: char) {
    !IsWhitespace(c) && c != '@'
  }

  predicate AllPlain(s: string) {
    forall k :: 0 <= k < |s| ==> Plain(s[k])
  }

  /**
   * `isValidEmail`: the whole text splits as `A@B.C`, the three parts
   * non-empty runs of `[^\s@]` (`B` and `C` may themselves hold dots).
   */
  predicate IsValidEmail(s: string)
    ensures IsValidEmail(s) ==> 5 <= |s| && Plain(s[0])
  {
    exists i, j :: 0 < i && i + 1 < j && j + 1 < |s| && s[i] == '@' && s[j] == '.' &&
                   AllPlain(s[..i]) && AllPlain(s[i + 1..j]) && AllPlain(s[j + 1..])
  }

  /**
   * The same language described by its shape: no whitespace, exactly one
   * `@`, something before it, and a dot after it that is neither the first
   * character after the `@` nor the last character.
   */
  predicate EmailShape(s: string) {
    && NoWhitespace(s)
    && multiset(s)['@'] == 1
    && exists i, j :: 0 < i && i + 1 < j < |s| - 1 && s[i] == '@' && s[j] == '.'
  }

  /** A text in which no character is `@` counts no `@`. */
  lemma {:induction false} NoAtCounted(s: string)
    requires forall k :: 0 <= k < |s| ==> s[k] != '@'
    ensures multiset(s)['@'] == 0
  {
    if s != [] {
      assert s == [s[0]] + s[1..];
      NoAtCounted(s[1..]);
    }
  }

  /** The count of a character splits at any position. */
  lemma CountSplit(s: string, i: nat)
    requires i < |s|
    ensures multiset(s) == multiset(s[..i]) + multiset([s[i]]) + multiset(s[i + 1..])
  {
    assert s == s[..i] + [s[i]] + s[i + 1..];
  }

  /** Every character of a valid address other than its one `@` is plain. */
  lemma ValidIsShape(s: string)
    requires IsValidEmail(s)
    ensures EmailShape(s)
  {
    var i, j :| 0 < i && i + 1 < j && j + 1 < |s| && s[i] == '@' && s[j] == '.' &&
                AllPlain(s[..i]) && AllPlain(s[i + 1..j]) && AllPlain(s[j + 1..]);
    PartsArePlain(s, i, j);
    OneAt(s, i);
  }

  /** Outside the `@` at `i`, every character of a valid split is plain. */
  lemma PartsArePlain(s: string, i: int, j: int)
    requires 0 < i && i + 1 < j && j + 1 < |s| && s[i] == '@' && s[j] == '.'
    requires AllPlain(s[..i]) && AllPlain(s[i + 1..j]) && AllPlain(s[j + 1..])
    ensures forall k :: 0 <= k < |s| && k != i ==> Plain(s[k])
  {
    var a, b, c := s[..i], s[i + 1..j], s[j + 1..];
    forall k | 0 <= k < |s| && k != i ensures Plain(s[k]) {
      if k < i { assert s[k] == a[k]; }
      else if k < j { assert s[k] == b[k - i - 1]; }
      else if j < k { assert s[k] == c[k - j - 1]; }
    }
  }

  /** A text whose only `@` is at `i` counts exactly one `@`. */
  lemma OneAt(s: string, i: int)
    requires 0 <= i < |s| && s[i] == '@'
    requires forall k :: 0 <= k < |s| && k != i ==> Plain(s[k])
    ensures multiset(s)['@'] == 1
  {
    CountSplit(s, i);
    var before, after := s[..i], s[i + 1..];
    forall k | 0 <= k < |before| ensures before[k] != '@' { assert before[k] == s[k]; }
    forall k | 0 <= k < |after| ensures after[k] != '@' { assert after[k] == s[i + 1 + k]; }
    NoAtCounted(before);
    NoAtCounted(after);
  }

  /** A text of the right shape matches the pattern. */
  lemma ShapeIsValid(s: string)
    requires EmailShape(s)
    ensures IsValidEmail(s)
  {
    var i, j :| 0 < i && i + 1 < j < |s| - 1 && s[i] == '@' && s[j] == '.';
    CountSplit(s, i);
    forall k | 0 <= k < |s| && k != i ensures s[k] != '@' {
    }
    var a, b, c := s[..i], s[i + 1..j], s[j + 1..];
    forall k | 0 <= k < |a| ensures Plain(a[k]) { assert a[k] == s[k]; }
    forall k | 0 <= k < |b| ensures Plain(b[k]) { assert b[k] == s[i + 1 + k]; }
    forall k | 0 <= k < |c| ensures Plain(c[k]) { assert c[k] == s[j + 1 + k]; }
  }

  /** The pattern and the shape accept the same texts. */
  lemma ValidIffShape(s: string)
    ensures IsValidEmail(s) <==> EmailShape(s)
  {
    if IsValidEmail(s) { ValidIsShape(s); }
    if EmailShape(s) { ShapeIsValid(s); }
  }

  /** `a@b.co` passes; `a@.co` (nothing between `@` and the dot) and `a@b.` (nothing after it) do not. */
  lemma Examples()
    ensures IsValidEmail("a@b.co")
    ensures !IsValidEmail("a@.co") && !IsValidEmail("a@b.")
  {
    var s := "a@b.co";
    assert s[..1] == "a" && s[2..3] == "b" && s[4..] == "co";
    assert s[1] == '@' && s[3] == '.';
    assert AllPlain(s[..1]) && AllPlain(s[2..3]) && AllPlain(s[4..]);
  }

  /** The error text for the name: required unless something other than whitespace was typed. */
  function NameMessage(name: string): (m: string)
    ensures m == "" <==> !AllWhitespace(name)
    ensures m != "" ==> m == "Name is required."
  {
    if Trim(name) == "" then "Name is required." else ""
  }

  /**
   * The error text for the email, judged on the trimmed value: required
   * when blank (the pattern is then not consulted), otherwise the format
   * message unless the pattern matches.
   */
  function EmailMessage(email: string): (m: string)
    ensures AllWhitespace(email) ==> m == "Email is required."
    ensures !AllWhitespace(email) ==> (m == "" <==> IsValidEmail(Trim(email)))
    ensures !AllWhitespace(email) && m != "" ==> m == "Please enter a valid email address."
  {
    var t := Trim(email);
    if t == "" then "Email is required."
    else if !IsValidEmail(t) then "Please enter a valid email address."
    else ""
  }

  /** A valid address with whitespace around it is accepted: the check sees it trimmed. */
  lemma PaddedEmailAccepted(w1: string, s: string, w2: string)
    requires AllWhitespace(w1) && AllWhitespace(w2) && IsValidEmail(s)
    ensures EmailMessage(w1 + s + w2) == ""
  {
    ValidIsShape(s);
    assert IsTrimmed(s);
    TrimPadded(w1, s, w2);
  }

  /** `validateForm()`'s verdict for the given raw values. */
  predicate Accepts(name: string, email: string) {
    NameMessage(name) == "" && EmailMessage(email) == ""
  }

  /** The form is accepted exactly when a name is typed and the trimmed email has the right shape. */
  lemma AcceptsIff(name: string, email: string)
    ensures Accepts(name, email) <==> !AllWhitespace(name) && EmailShape(Trim(email))
  {
    ValidIffShape(Trim(email));
  }

  /** The two inputs and the two error spans. */
  class Contact {
    var nameValue: string
    var emailValue: string
    var nameError: string
    var emailError: string
    /** The values `form.reset()` restores. */
    const nameDefault: string
    const emailDefault: string

    constructor (nameDefault: string, emailDefault: string)
      ensures nameValue == nameDefault && emailValue == emailDefault
      ensures nameError == "" && emailError == ""
      ensures this.nameDefault == nameDefault && this.emailDefault == emailDefault
    {
      this.nameDefault := nameDefault;
      this.emailDefault := emailDefault;
      nameValue, emailValue := nameDefault, emailDefault;
      nameError, emailError := "", "";
    }

    /**
     * `validateForm`: both fields are always checked, each error span gets
     * its field's message, and the result is true exactly when both are empty.
     */
    method ValidateForm() returns (isValid: bool)
      modifies this`nameError, this`emailError
      ensures nameError == NameMessage(nameValue) && emailError == EmailMessage(emailValue)
      ensures isValid <==> nameError == "" && emailError == ""
      ensures isValid <==> Accepts(nameValue, emailValue)
    {
      isValid := true;
      if Trim(nameValue) == "" {
        nameError := "Name is required.";
        isValid := false;
      } else {
        nameError := "";
      }
      if Trim(emailValue) == "" {
        emailError := "Email is required.";
        isValid := false;
      } else if !IsValidEmail(Trim(emailValue)) {
        emailError := "Please enter a valid email address.";
        isValid := false;
      } else {
        emailError := "";
      }
    }

    /** The submit handler: validate, and reset the inputs only on success. */
    method Submit() returns (accepted: bool)
      modifies this`nameValue, this`emailValue, this`nameError, this`emailError
      ensures accepted <==> Accepts(old(nameValue), old(emailValue))
      ensures nameError == NameMessage(old(nameValue)) && emailError == EmailMessage(old(emailValue))
      ensures accepted ==> nameValue == nameDefault && emailValue == emailDefault
      ensures !accepted ==> nameValue == old(nameValue) && emailValue == old(emailValue)
    {
      accepted := ValidateForm();
      if accepted {
        nameValue, emailValue := nameDefault, emailDefault;
      }
    }
  }
}
