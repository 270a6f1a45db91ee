/** A contact that is sent on again and again: printed, parsed, printed, parsed. */
module Forwarding {
  import opened Text
  import opened PhoneNumbers
  import opened VCard
  import opened Contacts

  /** One hop: the contact as the receiver sees it. A contact without a printable phone is not sent. */
  function Forward(c: Contact): Option<Contact>
  {
    var messages := Printed(c);
    if |messages| == 0 then None
    else
      var card := Parsed(messages[0].vcard);
      Some(Contact(card.name, card.phones))
  }

  predicate DigitPhone(p: Phone) { p.number != "" && AllDigits(p.number) && AllDigits(p.waId) }

  predicate DigitPhones(phones: seq<Phone>) { forall k :: 0 <= k < |phones| ==> DigitPhone(phones[k]) }

  function ToggledPhone(p: Phone): Phone { Phone(NinthDigit(p.number, true), NinthDigit(p.waId, true)) }

  function ToggledPhones(phones: seq<Phone>): seq<Phone>
  {
    seq(|phones|, k requires 0 <= k < |phones| => ToggledPhone(phones[k]))
  }

  // ---- phones become digits

  lemma CarriedDigits(p: Phone)
    ensures DigitPhones(Carried(p))
  {
    NinthDigitKeepsDigits(Digits(p.number), true);
    NinthDigitKeepsDigits(Digits(p.waId), true);
  }

  lemma AllCarriedDigits(phones: seq<Phone>)
    ensures DigitPhones(AllCarried(phones))
  {
    if |phones| > 0 {
      CarriedDigits(phones[0]);
      AllCarriedDigits(phones[1..]);
    }
  }

  lemma NoWaIdInDigits(d: string)
    requires AllDigits(d)
    ensures !Contains(ToLower(d), "waid=")
  {
    var low := ToLower(d);
    assert forall i :: 0 <= i < |d| ==> low[i] == d[i] && low[i] != 'w';
    forall i ensures !OccursAt(low, "waid=", i) {
      if 0 <= i < |low| {
        NoOccurrenceWithoutW(low, i);
      }
    }
  }

  /** Digits are always safe to print, and are carried with their ninth digit toggled. */
  lemma DigitPhoneCarried(p: Phone)
    requires DigitPhone(p)
    ensures Printable(p) && CleanPhone(p) && Carried(p) == [ToggledPhone(p)] && DigitPhone(ToggledPhone(p))
  {
    TrimOfDigits(p.number);
    TrimOfDigits(p.waId);
    NoWaIdInDigits(p.number);
    DigitsOfDigits(p.number);
    DigitsOfDigits(p.waId);
    NinthDigitKeepsDigits(p.number, true);
    NinthDigitKeepsDigits(p.waId, true);
  }

  lemma ToggledHead(phones: seq<Phone>)
    requires |phones| > 0
    ensures ToggledPhones(phones) == [ToggledPhone(phones[0])] + ToggledPhones(phones[1..])
  {
  }

  lemma {:induction false} DigitPhonesCarried(phones: seq<Phone>)
    requires DigitPhones(phones)
    ensures AllCarried(phones) == ToggledPhones(phones) && DigitPhones(ToggledPhones(phones))
    ensures |TelLines(phones)| == |phones|
    ensures forall k :: 0 <= k < |phones| ==> CleanPhone(phones[k])
  {
    if |phones| > 0 {
      var head, rest := phones[0], phones[1..];
      DigitPhoneCarried(head);
      DigitPhonesCarried(rest);
      ToggledHead(phones);
      assert AllCarried(phones) == [ToggledPhone(head)] + ToggledPhones(rest);
      assert TelLines(phones) == [TelLine(head)] + TelLines(rest);
      forall k | 0 <= k < |phones| ensures CleanPhone(phones[k]) {
        assert k > 0 ==> phones[k] == rest[k - 1];
      }
    }
  }

  // ---- one hop

  /** One hop of a clean contact carries its phones and leaves a clean contact of digits. */
  lemma OneHop(c: Contact)
    requires Clean(c) && |TelLines(c.phones)| > 0
    ensures Forward(c).Some?
    ensures Forward(c).value.phones == AllCarried(c.phones) && DigitPhones(Forward(c).value.phones)
    ensures Clean(Forward(c).value)
  {
    RoundTrip(c);
    AllCarriedDigits(c.phones);
    DigitPhonesCarried(AllCarried(c.phones));
    DisplayNameShape(c.name);
    FormatNameOnOneLine(DisplayName(c.name));
    TrimKeepsOut(FormatName(DisplayName(c.name)), '\n');
    TrimKeepsOut(Trim(FormatName(DisplayName(c.name))), '\n');
  }

  lemma HopOfDigits(c: Contact)
    requires Clean(c) && DigitPhones(c.phones) && |c.phones| > 0
    ensures Forward(c).Some? && Clean(Forward(c).value)
    ensures Forward(c).value.phones == ToggledPhones(c.phones)
    ensures DigitPhones(Forward(c).value.phones) && |Forward(c).value.phones| > 0
  {
    DigitPhonesCarried(c.phones);
    OneHop(c);
  }

  // ---- many hops

  /** A contact left without any digits after its first hop is never sent again. */
  lemma DigitlessContactStops(c: Contact)
    requires Clean(c) && |TelLines(c.phones)| > 0 && AllCarried(c.phones) == []
    ensures Forward(c).Some? && Forward(Forward(c).value).None?
  {
    OneHop(c);
  }

  /** From the first hop on the phones alternate: the third hop shows what the first one showed,
      with as many phones in the same order. */
  lemma ForwardingHasPeriodTwo(c: Contact)
    requires Clean(c) && |TelLines(c.phones)| > 0 && AllCarried(c.phones) != []
    ensures var first := Forward(c).value;
            && Forward(c).Some? && Forward(first).Some? && Forward(Forward(first).value).Some?
            && Forward(Forward(first).value).value.phones == first.phones
  {
    OneHop(c);
    var first := Forward(c).value;
    HopOfDigits(first);
    var second := Forward(first).value;
    HopOfDigits(second);
    CarriedThrice(c.phones);
  }

  lemma CarriedTwiceMore(p: Phone)
    ensures forall k :: 0 <= k < |Carried(p)| ==> ToggledPhone(ToggledPhone(Carried(p)[k])) == Carried(p)[k]
  {
    ThriceIsOnce(Digits(p.number));
    ThriceIsOnce(Digits(p.waId));
  }

  lemma CarriedThrice(phones: seq<Phone>)
    ensures ToggledPhones(ToggledPhones(AllCarried(phones))) == AllCarried(phones)
  {
    var all := AllCarried(phones);
    EachCarriedTwiceMore(phones);
    forall k | 0 <= k < |all| ensures ToggledPhones(ToggledPhones(all))[k] == all[k] {
    }
  }

  lemma EachCarriedTwiceMore(phones: seq<Phone>)
    ensures forall k :: 0 <= k < |AllCarried(phones)| ==>
              ToggledPhone(ToggledPhone(AllCarried(phones)[k])) == AllCarried(phones)[k]
  {
    if |phones| > 0 {
      CarriedTwiceMore(phones[0]);
      EachCarriedTwiceMore(phones[1..]);
    }
  }

  /** Numbers that two hops restore: all but the long mobiles whose eight remaining digits do not
      begin with 6 to 9. */
  predicate Restored(x: string) { !(LongMobile(x) && !('6' <= x[5] <= '9')) }

  /** Two hops give a contact its phones back exactly when they are digits and each string is one
      that two hops restore. */
  lemma TwoHopsRestore(c: Contact)
    requires Clean(c) && |TelLines(c.phones)| > 0
    ensures Forward(c).Some?
    ensures Forward(Forward(c).value).Some? && Forward(Forward(c).value).value.phones == c.phones <==>
            && DigitPhones(c.phones)
            && forall k :: 0 <= k < |c.phones| ==> Restored(c.phones[k].number) && Restored(c.phones[k].waId)
  {
    OneHop(c);
    var first := Forward(c).value;
    if DigitPhones(c.phones) {
      DigitPhonesCarried(c.phones);
      HopOfDigits(c);
      HopOfDigits(first);
      RestoredPhones(c.phones);
    } else if Forward(first).Some? {
      OneHop(first);
    }
  }

  lemma ToggleTwice(p: Phone)
    ensures ToggledPhone(ToggledPhone(p)) == p <==> Restored(p.number) && Restored(p.waId)
  {
    NinthDigitTwice(p.number);
    NinthDigitTwice(p.waId);
  }

  lemma RestoredPhones(phones: seq<Phone>)
    ensures ToggledPhones(ToggledPhones(phones)) == phones <==>
            forall k :: 0 <= k < |phones| ==> Restored(phones[k].number) && Restored(phones[k].waId)
  {
    forall k | 0 <= k < |phones|
      ensures ToggledPhones(ToggledPhones(phones))[k] == phones[k] <==>
              Restored(phones[k].number) && Restored(phones[k].waId)
    {
      ToggleTwice(phones[k]);
    }
  }

  /** Neither spelling of a mobile number. */
  predicate Settled(x: string) { !LongMobile(x) && !ShortMobile(x) }

  lemma ToggleSettled(p: Phone)
    ensures ToggledPhone(p) == p <==> Settled(p.number) && Settled(p.waId)
  {
    NinthDigitFixed(p.number);
    NinthDigitFixed(p.waId);
  }

  /** One hop already leaves the phones as they are exactly when they are digits and none is a mobile
      number. */
  lemma OneHopRestores(c: Contact)
    requires Clean(c) && |TelLines(c.phones)| > 0
    ensures Forward(c).Some?
    ensures Forward(c).value.phones == c.phones <==>
            && DigitPhones(c.phones)
            && forall k :: 0 <= k < |c.phones| ==> Settled(c.phones[k].number) && Settled(c.phones[k].waId)
  {
    OneHop(c);
    if DigitPhones(c.phones) {
      DigitPhonesCarried(c.phones);
      SettledPhones(c.phones);
    }
  }

  lemma SettledPhones(phones: seq<Phone>)
    ensures ToggledPhones(phones) == phones <==>
            forall k :: 0 <= k < |phones| ==> Settled(phones[k].number) && Settled(phones[k].waId)
  {
    forall k | 0 <= k < |phones|
      ensures ToggledPhones(phones)[k] == phones[k] <==> Settled(phones[k].number) && Settled(phones[k].waId)
    {
      ToggleSettled(phones[k]);
    }
  }

  /** A mobile number changes its spelling on the first hop. */
  lemma OneHopDropsTheNine(c: Contact, number: string)
    requires Clean(c) && number == "5511987654321" && c.phones == [Phone(number, "")]
    ensures Forward(c).Some? && Forward(c).value.phones == [Phone(NinthDigit(number, true), "")]
    ensures NinthDigit(number, true) == "551187654321"
  {
    NineIsDropped(number);
    HopOfDigits(c);
    assert ToggledPhones(c.phones) == [ToggledPhone(c.phones[0])];
  }

  lemma NineIsDropped(number: string)
    requires number == "5511987654321"
    ensures AllDigits(number) && NinthDigit(number, true) == "551187654321" && NinthDigit("", true) == ""
  {
    NinthDigitCases(number, true);
    assert DropNinth(number) == "551187654321";
  }
}
