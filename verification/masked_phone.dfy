/** How the input masks relate to the form's phone pattern: a number typed
    through a mask and prefixed with `+`, the country code and a space passes
    the pattern only when the mask is the default one. */
module MaskedPhone {
  import opened JsText
  import opened PhonePattern
  import opened PhoneMask

  /** The string a user ends up with: `+`, the country code digits, a space,
      then the mask filled with the subscriber digits. */
  function Dialled(countryCode: string, mask: string, digits: string): (s: string)
    requires |digits| == SlotCount(mask)
    ensures |s| == |countryCode| + |mask| + 2
  {
    "+" + countryCode + " " + Fill(mask, digits)
  }

  /** A dialled number can match the pattern only if its mask is fifteen
      characters long: the run of code digits ends at the space, which fixes
      the code length and so the total length. */
  lemma {:induction false} MatchNeedsFifteenCharMask(countryCode: string, mask: string, digits: string)
    requires 1 <= |countryCode| <= 3 && AllDigits(countryCode)
    requires |digits| == SlotCount(mask)
    requires MatchesPhone(Dialled(countryCode, mask, digits))
    ensures |mask| == 15
  {
    var s := Dialled(countryCode, mask, digits);
    var d := |countryCode|;
    assert s[1..1 + d] == countryCode;
    assert s[1 + d] == ' ';
    NoOtherCodeLength(s, d);
    assert MatchesWithCode(s, d);
  }

  /** A literal character in front of both string and template keeps the fit. */
  lemma FitsBehindLiteral(c: char, s: string, template: string)
    requires c != Slot && FitsTemplate(s, template)
    ensures FitsTemplate([c] + s, [c] + template)
  {
    assert forall i :: 0 < i <= |s| ==> ([c] + s)[i] == s[i - 1] && ([c] + template)[i] == template[i - 1];
  }

  /** The phone pattern's subscriber part is a space followed by the default mask. */
  lemma SubscriberIsSpacedDefault()
    ensures SubscriberTemplate == [' '] + DefaultMask
  {
  }

  /** The default mask filled with digits, behind any one- to three-digit
      code, always matches the pattern. */
  lemma DefaultMaskMatches(countryCode: string, digits: string)
    requires 1 <= |countryCode| <= 3 && AllDigits(countryCode)
    requires AllDigits(digits) && |digits| == SlotCount(DefaultMask)
    ensures MatchesPhone(Dialled(countryCode, DefaultMask, digits))
  {
    SubscriberIsSpacedDefault();
    SpacedTemplateMatches(countryCode, DefaultMask, digits);
  }

  /** The same for any template that follows the pattern's leading space. */
  lemma SpacedTemplateMatches(countryCode: string, mask: string, digits: string)
    requires 1 <= |countryCode| <= 3 && AllDigits(countryCode)
    requires AllDigits(digits) && |digits| == SlotCount(mask)
    requires SubscriberTemplate == [' '] + mask
    ensures MatchesPhone(Dialled(countryCode, mask, digits))
  {
    var s := Dialled(countryCode, mask, digits);
    var filled := Fill(mask, digits);
    var d := |countryCode|;
    assert s[1..1 + d] == countryCode;
    assert s[1 + d..] == [' '] + filled;
    FitsBehindLiteral(' ', filled, mask);
    assert MatchesWithCode(s, d);
  }

  /** Among the five masks only the default `(###) ###-##-##` can produce a
      number the phone pattern accepts, and it always does. */
  lemma OnlyDefaultMaskMatches(code: int, countryCode: string, digits: string)
    requires 1 <= |countryCode| <= 3 && AllDigits(countryCode)
    requires AllDigits(digits) && |digits| == SlotCount(MaskFor(code))
    ensures MatchesPhone(Dialled(countryCode, MaskFor(code), digits)) <==> MaskFor(code) == DefaultMask
  {
    MaskLengths(code);
    if MaskFor(code) == DefaultMask {
      DefaultMaskMatches(countryCode, digits);
    } else if MatchesPhone(Dialled(countryCode, MaskFor(code), digits)) {
      MatchNeedsFifteenCharMask(countryCode, MaskFor(code), digits);
    }
  }
}
