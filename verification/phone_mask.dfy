/** The phone input mask chosen from a country calling code. A mask is a
    display template: `#` is one digit slot, every other character is a
    literal shown as is. */
module PhoneMask {
  import opened JsText
  import opened PhonePattern

  const NanpMask: string := "###-###-####"
  const ArmeniaMask: string := "##-###-##-##"
  const TwoDigitAreaMask: string := "(##) ###-##-##"
  const CentralAsiaMask: string := "###-###-##-##"
  const DefaultMask: string := "(###) ###-##-##"

  /** The calling codes with an entry of their own; every other code gets the default mask. */
  const ListedCodes: set<int> := {1, 62, 91, 374, 375, 998, 992, 994, 995, 996}

  /** The characters a mask may contain. */
  predicate IsMaskChar(c: char)
  {
    c == Slot || c == '-' || c == '(' || c == ')' || c == ' '
  }

  /** Number of digit slots in a template. */
  function SlotCount(mask: string): nat
  {
    multiset(mask)[Slot]
  }

  /** The mask for a calling code: an exact match on the listed codes,
      otherwise the default. Total: any integer, negative or zero included,
      yields a mask. */
  function MaskFor(code: int): (mask: string)
    ensures code !in ListedCodes <==> mask == DefaultMask
  {
    match code
    case 1 | 62 | 91 => NanpMask
    case 374 => ArmeniaMask
    case 375 | 998 => TwoDigitAreaMask
    case 992 | 994 | 995 | 996 => CentralAsiaMask
    case _ => DefaultMask
  }

  /** Every mask uses only mask characters; the masks for 374, 375 and 998
      have nine digit slots and all others have ten. */
  lemma MaskShape(code: int)
    ensures WellFormedMask(MaskFor(code))
    ensures SlotCount(MaskFor(code)) == if code in {374, 375, 998} then 9 else 10
  {
    if code in {1, 62, 91} {
      NanpMaskChars();
      NanpMaskSlots();
    } else if code == 374 {
      ArmeniaMaskChars();
      ArmeniaMaskSlots();
    } else if code in {375, 998} {
      TwoDigitAreaMaskChars();
      TwoDigitAreaMaskSlots();
    } else if code in {992, 994, 995, 996} {
      CentralAsiaMaskChars();
      CentralAsiaMaskSlots();
    } else {
      DefaultMaskChars();
      DefaultMaskSlots();
    }
  }

  /** Only mask characters. */
  predicate WellFormedMask(mask: string)
  {
    forall i :: 0 <= i < |mask| ==> IsMaskChar(mask[i])
  }

  // The shape of each template, one fact per lemma to keep each proof small.

  lemma NanpMaskChars()
    ensures WellFormedMask(NanpMask)
  {
  }

  lemma NanpMaskSlots()
    ensures SlotCount(NanpMask) == 10
  {
  }

  lemma ArmeniaMaskChars()
    ensures WellFormedMask(ArmeniaMask)
  {
  }

  lemma ArmeniaMaskSlots()
    ensures SlotCount(ArmeniaMask) == 9
  {
  }

  lemma TwoDigitAreaMaskChars()
    ensures WellFormedMask(TwoDigitAreaMask)
  {
  }

  lemma TwoDigitAreaMaskSlots()
    ensures SlotCount(TwoDigitAreaMask) == 9
  {
  }

  lemma CentralAsiaMaskChars()
    ensures WellFormedMask(CentralAsiaMask)
  {
  }

  lemma CentralAsiaMaskSlots()
    ensures SlotCount(CentralAsiaMask) == 10
  {
  }

  lemma DefaultMaskChars()
    ensures WellFormedMask(DefaultMask)
  {
  }

  lemma DefaultMaskSlots()
    ensures SlotCount(DefaultMask) == 10
  {
  }

  /** The table, entry by entry. */
  lemma MaskTable()
    ensures MaskFor(1) == NanpMask && MaskFor(62) == NanpMask && MaskFor(91) == NanpMask
    ensures MaskFor(374) == ArmeniaMask
    ensures MaskFor(375) == TwoDigitAreaMask && MaskFor(998) == TwoDigitAreaMask
    ensures MaskFor(992) == CentralAsiaMask && MaskFor(994) == CentralAsiaMask
    ensures MaskFor(995) == CentralAsiaMask && MaskFor(996) == CentralAsiaMask
    ensures MaskFor(7) == DefaultMask && MaskFor(0) == DefaultMask && MaskFor(-1) == DefaultMask
  {
  }

  /** Every mask is one of the five templates, and the template's length
      tells which of them it is. */
  lemma MaskLengths(code: int)
    ensures MaskFor(code) in {NanpMask, ArmeniaMask, TwoDigitAreaMask, CentralAsiaMask, DefaultMask}
    ensures |MaskFor(code)| == 15 <==> MaskFor(code) == DefaultMask
  {
  }

  /** Fills the slots of `mask`, left to right, with `digits`. */
  function Fill(mask: string, digits: string): (s: string)
    requires |digits| == SlotCount(mask)
    ensures |s| == |mask|
    ensures AllDigits(digits) ==> FitsTemplate(s, mask)
  {
    if |mask| == 0 then ""
    else
      assert mask == [mask[0]] + mask[1..];
      if mask[0] == Slot then [digits[0]] + Fill(mask[1..], digits[1..])
      else [mask[0]] + Fill(mask[1..], digits)
  }

  /** Reads back, left to right, the characters of `s` that sit under the
      slots of `mask`. */
  function SlotDigits(s: string, mask: string): (digits: string)
    requires |s| == |mask|
    ensures |digits| == SlotCount(mask)
  {
    if |mask| == 0 then ""
    else
      assert mask == [mask[0]] + mask[1..];
      (if mask[0] == Slot then [s[0]] else []) + SlotDigits(s[1..], mask[1..])
  }

  /** Filling puts the k-th digit in the k-th slot: reading the slots of a
      filled mask back gives the digits in order. */
  lemma {:induction false} FillRoundTrip(mask: string, digits: string)
    requires |digits| == SlotCount(mask)
    ensures SlotDigits(Fill(mask, digits), mask) == digits
  {
    if |mask| > 0 {
      assert mask == [mask[0]] + mask[1..];
      var s := Fill(mask, digits);
      if mask[0] == Slot {
        var rest := Fill(mask[1..], digits[1..]);
        FillRoundTrip(mask[1..], digits[1..]);
        assert s == [digits[0]] + rest && s[0] == digits[0] && s[1..] == rest;
        assert SlotDigits(s, mask) == [digits[0]] + SlotDigits(rest, mask[1..]);
        assert [digits[0]] + digits[1..] == digits;
      } else {
        var rest := Fill(mask[1..], digits);
        FillRoundTrip(mask[1..], digits);
        assert s == [mask[0]] + rest && s[1..] == rest;
        assert SlotDigits(s, mask) == [] + SlotDigits(rest, mask[1..]);
      }
    }
  }

  /** Filling leaves every position that is not a slot as the mask has it. */
  lemma {:induction false} FillKeepsLiterals(mask: string, digits: string, i: nat)
    requires |digits| == SlotCount(mask)
    requires i < |mask| && mask[i] != Slot
    ensures Fill(mask, digits)[i] == mask[i]
  {
    assert mask == [mask[0]] + mask[1..];
    if i > 0 {
      if mask[0] == Slot {
        FillKeepsLiterals(mask[1..], digits[1..], i - 1);
      } else {
        FillKeepsLiterals(mask[1..], digits, i - 1);
      }
    }
  }
}

