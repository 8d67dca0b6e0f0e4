/** The phone-number pattern of the lead form,
    `^\+\d{1,3} \(\d{3}\) \d{3}-\d{2}-\d{2}$`, written as a predicate over
    characters. A template character `#` stands for one `\d` (an ASCII digit,
    as `\d` means without the regular expression's `u` flag); every other
    template character stands for itself. */
module PhonePattern {
  import opened JsText

  /** The template placeholder for one digit slot. */
  const Slot: char := '#'

  /** `s` has the template's length, a digit under every slot and the
      template's own character everywhere else. */
  predicate FitsTemplate(s: string, template: string)
  {
    && |s| == |template|
    && forall i :: 0 <= i < |s| ==>
         if template[i] == Slot then IsDigit(s[i]) else s[i] == template[i]
  }

  /** Everything after the country code: ` \(\d{3}\) \d{3}-\d{2}-\d{2}`. */
  const SubscriberTemplate: string := " (###) ###-##-##"

  /** `s` matches the pattern with a country code of exactly `d` digits. */
  predicate MatchesWithCode(s: string, d: nat)
  {
    && 1 + d <= |s|
    && s[0] == '+'
    && AllDigits(s[1..1 + d])
    && FitsTemplate(s[1 + d..], SubscriberTemplate)
  }

  /** The whole pattern: `\d{1,3}` allows one, two or three code digits. */
  predicate MatchesPhone(s: string)
  {
    MatchesWithCode(s, 1) || MatchesWithCode(s, 2) || MatchesWithCode(s, 3)
  }

  /** Checks a string against a template, character by character. */
  method MatchTemplate(s: string, template: string) returns (ok: bool)
    ensures ok <==> FitsTemplate(s, template)
  {
    if |s| != |template| {
      return false;
    }
    var i := 0;
    while i < |s|
      invariant 0 <= i <= |s|
      invariant forall k :: 0 <= k < i ==>
                  if template[k] == Slot then IsDigit(s[k]) else s[k] == template[k]
    {
      if template[i] == Slot {
        if !IsDigit(s[i]) {
          return false;
        }
      } else if s[i] != template[i] {
        return false;
      }
      i := i + 1;
    }
    return true;
  }

  /** Recognises the phone pattern the way the regular expression engine
      does: a `+`, the run of code digits (one to three of them), then the
      fixed subscriber part. */
  method RecognizePhone(s: string) returns (ok: bool)
    ensures ok <==> MatchesPhone(s)
  {
    if |s| == 0 || s[0] != '+' {
      return false;
    }
    var d := 0;
    while 1 + d < |s| && d < 4 && IsDigit(s[1 + d])
      invariant 0 <= d <= 4 && 1 + d <= |s|
      invariant AllDigits(s[1..1 + d])
    {
      assert s[1..1 + d + 1] == s[1..1 + d] + [s[1 + d]];
      d := d + 1;
    }
    // The run of code digits ends at index 1 + d: the string ends there, the
    // character there is not a digit, or there are already four digits.
    if d < 1 || d > 3 {
      NoOtherCodeLength(s, d);
      return false;
    }
    ok := MatchTemplate(s[1 + d..], SubscriberTemplate);
    if !ok {
      NoOtherCodeLength(s, d);
    }
  }

  /** Once the code digit run has been measured as `d`, no other code length
      can match: the subscriber part starts with a space, which is not a digit. */
  lemma NoOtherCodeLength(s: string, d: nat)
    requires 1 + d <= |s| && d <= 4
    requires AllDigits(s[1..1 + d])
    requires 1 + d == |s| || d == 4 || !IsDigit(s[1 + d])
    ensures forall e :: 1 <= e <= 3 && e != d ==> !MatchesWithCode(s, e)
  {
    forall e | 1 <= e <= 3 && e != d
      ensures !MatchesWithCode(s, e)
    {
      if e < d {
        assert s[1..1 + d][e] == s[1 + e];
      } else if 1 + d < |s| {
        assert 1 + e > |s| || s[1..1 + e][d] == s[1 + d];
      }
    }
  }

  /** Every accepted phone is 18 to 20 characters long: 17 plus its one to three code digits. */
  lemma PhoneLength(s: string)
    requires MatchesPhone(s)
    ensures 18 <= |s| <= 20
    ensures exists d :: 1 <= d <= 3 && |s| == 17 + d && MatchesWithCode(s, d)
  {
    if MatchesWithCode(s, 1) {
      assert MatchesWithCode(s, 1) && |s| == 17 + 1;
    } else if MatchesWithCode(s, 2) {
      assert MatchesWithCode(s, 2) && |s| == 17 + 2;
    } else {
      assert MatchesWithCode(s, 3) && |s| == 17 + 3;
    }
  }

  /** A typical number, +7 (999) 123-45-67, is accepted. */
  lemma SampleNumberMatches()
    ensures MatchesPhone("+7 (999) 123-45-67")
  {
    var s := "+7 (999) 123-45-67";
    var tail := " (999) 123-45-67";
    assert s == "+7" + tail;
    assert s[1..2] == "7" && s[2..] == tail;
    assert FitsTemplate(tail, SubscriberTemplate);
    assert MatchesWithCode(s, 1);
  }

  /** Without the space after the country code the number is rejected. */
  lemma MissingSpaceRejected()
    ensures !MatchesPhone("+7(999) 123-45-67")
  {
    var s := "+7(999) 123-45-67";
    assert s[2] == '(';
    assert s[2..][0] != SubscriberTemplate[0];
  }
}
