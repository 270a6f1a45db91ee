/** Phone digits and the Brazilian ninth digit, which the adapter adds or drops in two places. */
module PhoneNumbers {
  import opened Text

  predicate IsDigit(c: char) { '0' <= c <= '9' }

  predicate AllDigits(s: string) { forall i :: 0 <= i < |s| ==> IsDigit(s[i]) }

  /** The digits of a text, in order. */
  function Digits(s: string): (d: string)
    ensures AllDigits(d)
  {
    if |s| == 0 then "" else if IsDigit(s[0]) then [s[0]] + Digits(s[1..]) else Digits(s[1..])
  }

  lemma {:induction false} DigitsAppend(a: string, b: string)
    ensures Digits(a + b) == Digits(a) + Digits(b)
  {
    if |a| == 0 {
      assert a + b == b;
    } else {
      assert (a + b)[1..] == a[1..] + b;
      DigitsAppend(a[1..], b);
    }
  }

  lemma {:induction false} DigitsOfDigits(s: string)
    requires AllDigits(s)
    ensures Digits(s) == s
  {
    if |s| > 0 {
      DigitsOfDigits(s[1..]);
    }
  }

  lemma NoDigits(s: string)
    requires forall i :: 0 <= i < |s| ==> !IsDigit(s[i])
    ensures Digits(s) == ""
  {
  }

  lemma DigitsOfTrim(s: string)
    ensures Digits(Trim(s)) == Digits(s)
  {
    var left, right := TrimSplits(s);
    DigitsAppend(left + Trim(s), right);
    DigitsAppend(left, Trim(s));
    NoDigits(left);
    NoDigits(right);
  }

  /** `digitsOnly`, the loop over the text. */
  method DigitsOnly(s: string) returns (d: string)
    ensures d == Digits(s)
  {
    d := "";
    for i := 0 to |s|
      invariant d == Digits(s[..i])
    {
      DigitsAppend(s[..i], [s[i]]);
      assert s[..i + 1] == s[..i] + [s[i]];
      if IsDigit(s[i]) {
        d := d + [s[i]];
      }
    }
    assert s[..|s|] == s;
  }

  // ---- the ninth digit

  /** `jidToPhoneNumberDigits`. */
  function NinthDigit(number: string, retry: bool): string
  {
    if |number| < 4 then number
    else if number[..2] != "55" then number
    else
      var area, subs := number[2..4], number[4..];
      if |subs| == 9 && subs[0] == '9' then "55" + area + subs[1..]
      else if |subs| == 8 && '6' <= subs[0] <= '9' && retry then "55" + area + "9" + subs
      else number
  }

  /** 55, an area code, and a subscriber of the given length. */
  predicate Brazilian(x: string, subscriber: nat) { |x| == 4 + subscriber && x[..2] == "55" }

  /** A Brazilian mobile with the ninth digit / without it. */
  predicate LongMobile(x: string) { Brazilian(x, 9) && x[4] == '9' }

  predicate ShortMobile(x: string) { Brazilian(x, 8) && '6' <= x[4] <= '9' }

  function DropNinth(x: string): string
    requires |x| > 4
  {
    x[..4] + x[5..]
  }

  function AddNinth(x: string): string
    requires |x| >= 4
  {
    x[..4] + "9" + x[4..]
  }

  lemma NinthDigitCases(x: string, retry: bool)
    ensures NinthDigit(x, retry) ==
            if LongMobile(x) then DropNinth(x) else if ShortMobile(x) && retry then AddNinth(x) else x
  {
    if Brazilian(x, 9) || Brazilian(x, 8) {
      assert x[..4] == "55" + x[2..4];
    }
  }

  /** Applying the map a third time adds nothing to applying it once. */
  lemma ThriceIsOnce(x: string)
    ensures NinthDigit(NinthDigit(NinthDigit(x, true), true), true) == NinthDigit(x, true)
  {
    NinthDigitTwice(x);
    var y := NinthDigit(x, true);
    NinthDigitCases(x, true);
    NinthDigitCases(y, true);
    if LongMobile(x) && !('6' <= x[5] <= '9') {
      assert !ShortMobile(y) && !LongMobile(y);
    }
  }

  /** The map swaps the two spellings of a mobile number: it is undone by itself exactly unless a
      ninth digit was dropped from a subscriber that then no longer looks mobile. */
  lemma NinthDigitTwice(x: string)
    ensures NinthDigit(NinthDigit(x, true), true) == x <==> !(LongMobile(x) && !('6' <= x[5] <= '9'))
  {
    var y := NinthDigit(x, true);
    NinthDigitCases(x, true);
    NinthDigitCases(y, true);
    if LongMobile(x) {
      assert y[..2] == x[..2] && y[4..] == x[5..];
      if ShortMobile(y) {
        assert AddNinth(y) == x;
      } else {
        assert |NinthDigit(y, true)| == 12;
      }
    } else if ShortMobile(x) {
      assert y[4] == '9' && y[..2] == x[..2];
      assert DropNinth(y) == x;
    }
  }

  /** The map changes a number exactly when it is a mobile in one of the two spellings. */
  lemma NinthDigitFixed(x: string)
    ensures NinthDigit(x, true) == x <==> !LongMobile(x) && !ShortMobile(x)
  {
    NinthDigitCases(x, true);
  }

  /** Without insertion the map is a normal form, and the map with insertion never leaves the
      class of numbers that share it. */
  lemma DroppingIsNormalForm(x: string)
    ensures NinthDigit(NinthDigit(x, false), false) == NinthDigit(x, false)
    ensures NinthDigit(NinthDigit(x, true), false) == NinthDigit(x, false)
  {
    var y, z := NinthDigit(x, true), NinthDigit(x, false);
    NinthDigitCases(x, true);
    NinthDigitCases(x, false);
    NinthDigitCases(y, false);
    NinthDigitCases(z, false);
    if LongMobile(x) {
      assert |y| == 12;
    } else if ShortMobile(x) {
      assert y[4] == '9' && y[..2] == x[..2];
      assert DropNinth(y) == x;
    }
  }

  lemma NinthDigitKeepsDigits(x: string, retry: bool)
    requires AllDigits(x)
    ensures AllDigits(NinthDigit(x, retry))
    ensures NinthDigit(x, retry) == "" <==> x == ""
  {
    NinthDigitCases(x, retry);
  }

  /** The parser applies the map only to numbers of two or more digits that begin with 55; the
      guard never matters. Nor does the length guard of `phoneNumberToJIDDigits`. */
  lemma GuardsAreRedundant(d: string)
    ensures (if |d| >= 2 && "55" <= d then NinthDigit(d, true) else d) == NinthDigit(d, true)
    ensures (if |d| < 3 then d else NinthDigit(d, true)) == NinthDigit(d, true)
  {
  }

  /** `phoneNumberToJIDDigits`: the user part's digits, ninth digit toggled. */
  function PhoneNumberToJIDDigits(value: string): string
  {
    var input := Trim(value);
    var i := IndexAny(input, "@:");
    var number := Digits(if i >= 0 then input[..i] else input);
    if |number| < 3 then number else NinthDigit(number, true)
  }

  predicate Separator(c: char) { c == '@' || c == ':' }

  /** Surrounding whitespace does not move the first separator relative to the text. */
  lemma SeparatorWithin(left: string, input: string, right: string, p: nat)
    requires AllSpace(left) && AllSpace(right)
    requires var value := left + input + right;
             p < |value| && Separator(value[p]) && forall k :: 0 <= k < p ==> !Separator(value[k])
    ensures |left| <= p < |left| + |input|
    ensures IndexAny(input, "@:") == p - |left|
    ensures (left + input + right)[..p] == left + input[..p - |left|]
  {
    var value := left + input + right;
    assert forall k :: 0 <= k < |value| && (k < |left| || k >= |left| + |input|) ==> IsSpace(value[k]);
    var q := p - |left|;
    assert input[q] in "@:";
    forall k | 0 <= k < q ensures input[k] !in "@:" {
      assert value[|left| + k] == input[k] && !Separator(value[|left| + k]);
    }
  }

  /** However a number is punctuated and whatever server or device follows it, only its digits
      count. */
  lemma JIDDigitsOfFormattedNumber(user: string, suffix: string)
    requires forall k :: 0 <= k < |user| ==> !Separator(user[k])
    requires suffix == "" || Separator(suffix[0])
    ensures PhoneNumberToJIDDigits(user + suffix) == NinthDigit(Digits(user), true)
  {
    if suffix == "" {
      assert user + suffix == user;
      JIDDigitsOfBareNumber(user);
    } else {
      JIDDigitsOfAddress(user, suffix, user + suffix);
    }
  }

  lemma JIDDigitsOfBareNumber(user: string)
    requires forall k :: 0 <= k < |user| ==> !Separator(user[k])
    ensures PhoneNumberToJIDDigits(user) == NinthDigit(Digits(user), true)
  {
    var left, right := TrimSplits(user);
    NoSeparatorWithin(left, Trim(user), right);
    DigitsOfTrim(user);
  }

  lemma JIDDigitsOfAddress(user: string, suffix: string, value: string)
    requires forall k :: 0 <= k < |user| ==> !Separator(user[k])
    requires suffix != "" && Separator(suffix[0]) && value == user + suffix
    ensures PhoneNumberToJIDDigits(value) == NinthDigit(Digits(user), true)
  {
    var left, right := TrimSplits(value);
    SeparatorWithin(left, Trim(value), right, |user|);
    DigitsBeforeSeparator(left, Trim(value), right, user);
  }

  lemma NoSeparatorWithin(left: string, input: string, right: string)
    requires forall k :: 0 <= k < |left + input + right| ==> !Separator((left + input + right)[k])
    ensures IndexAny(input, "@:") == -1
  {
    forall k | 0 <= k < |input| ensures input[k] !in "@:" {
      assert (left + input + right)[|left| + k] == input[k];
    }
  }

  lemma DigitsBeforeSeparator(left: string, input: string, right: string, user: string)
    requires AllSpace(left) && |left| <= |user| <= |left| + |input|
    requires (left + input + right)[..|user|] == user == left + input[..|user| - |left|]
    ensures Digits(input[..|user| - |left|]) == Digits(user)
  {
    DigitsAppend(left, input[..|user| - |left|]);
    NoDigits(left);
  }

  // ---- the candidates of the resolver

  /** `candidatesBR` in closed form: the number and, where the rule applies, its other spelling. */
  function CandidatesBR(pn: string): seq<string>
  {
    if !("+55" <= pn) || |pn| < 13 then [pn]
    else if pn[5] != '9' then [pn, pn[..5] + "9" + pn[5..]]
    else if |pn| >= 14 then [pn, pn[..5] + pn[6..]]
    else [pn]
  }

  /** The loop of the source over the three spellings, with its set of seen ones. */
  method ComputeCandidatesBR(pn: string) returns (out: seq<string>)
    ensures out == CandidatesBR(pn)
  {
    if !("+55" <= pn) || |pn| < 5 {
      return [pn];
    }
    var rest := pn[3..];
    if |rest| < 10 {
      return [pn];
    }
    var ddd, local := rest[..2], rest[2..];
    assert pn[..5] == "+55" + ddd && pn[5..] == local;
    var with9 := pn;
    if !("9" <= local) {
      with9 := "+55" + ddd + "9" + local;
    }
    var without9 := pn;
    if "9" <= local && |local| >= 9 {
      without9 := "+55" + ddd + local[1..];
    }
    assert with9 != pn ==> |with9| == |pn| + 1;
    assert without9 != pn ==> |without9| == |pn| - 1 && with9 == pn;
    var spellings := [pn, with9, without9];
    var seen: set<string> := {};
    out := [];
    for i := 0 to 3
      invariant forall s :: s in seen <==> s in out
      invariant i == 1 ==> out == [pn]
      invariant i == 0 ==> out == []
      invariant i == 2 ==> out == if with9 != pn then [pn, with9] else [pn]
      invariant i == 3 ==> out == if with9 != pn then [pn, with9] else if without9 != pn then [pn, without9] else [pn]
    {
      var n := spellings[i];
      if n !in seen {
        seen := seen + {n};
        out := out + [n];
      }
    }
    assert with9 != pn <==> pn[5] != '9';
    assert without9 != pn <==> pn[5] == '9' && |pn| >= 14;
  }

  /** The list starts with its input, has no duplicates and at most two entries. */
  lemma CandidatesShape(pn: string)
    ensures var c := CandidatesBR(pn);
            1 <= |c| <= 2 && c[0] == pn && (|c| == 2 ==> c[1] != pn)
  {
  }

  /** Being a candidate is mutual except where dropping the ninth digit leaves a number that
      begins with a nine again. */
  lemma CandidatesMutual(pn: string, c: string)
    requires c in CandidatesBR(pn)
    ensures pn in CandidatesBR(c) <==> !(c != pn && |c| < |pn| && pn[6] == '9')
  {
    if c != pn {
      assert "+55" <= pn && |pn| >= 13;
      assert c == CandidatesBR(pn)[1];
      assert c[..5] == pn[..5] && c[..3] == pn[..3];
      if |c| > |pn| {
        assert c[..5] + c[6..] == pn;
      } else if pn[6] != '9' {
        assert pn == pn[..5] + [pn[5]] + pn[6..];
        assert c[..5] + "9" + c[5..] == pn;
      }
    }
  }

  /** The two implementations of the ninth-digit rule agree: the toggled number is one of the
      resolver's candidates, except precisely for 55, an area code and eight digits that begin
      with a nine. */
  lemma ImplementationsAgree(d: string)
    requires AllDigits(d)
    ensures "+" + NinthDigit(d, true) in CandidatesBR("+" + d) <==> !(Brazilian(d, 8) && d[4] == '9')
  {
    var pn := "+" + d;
    var y := "+" + NinthDigit(d, true);
    NinthDigitCases(d, true);
    assert "+55" <= pn <==> "55" <= d by {
      assert pn[1..] == d;
      if "55" <= d {
        assert pn[..3] == "+" + d[..2];
      }
    }
    if LongMobile(d) {
      assert y == pn[..5] + pn[6..];
    } else if ShortMobile(d) {
      assert |y| == |pn| + 1;
      if d[4] != '9' {
        assert y == pn[..5] + "9" + pn[5..];
      }
    } else {
      assert y == pn;
    }
  }

  /** A number of the exceptional family: the sender adds a nine that the resolver does not try. */
  lemma ToggledNumberIsNoCandidate(d: string)
    requires d == "551191234567"
    ensures NinthDigit(d, true) == "5511991234567" && CandidatesBR("+" + d) == ["+" + d]
    ensures "+" + NinthDigit(d, true) !in CandidatesBR("+" + d)
  {
    NinthDigitCases(d, true);
    assert AddNinth(d) == "5511991234567";
  }

  lemma TenDigits(c: char)
    ensures IsDigit(c) <==> c in "0123456789"
  {
  }

  lemma {:induction false} NoDigitsExactly(s: string)
    ensures Digits(s) == "" <==> forall k :: 0 <= k < |s| ==> !('0' <= s[k] <= '9')
  {
    if |s| > 0 {
      NoDigitsExactly(s[1..]);
      if Digits(s) == "" {
        forall k | 0 <= k < |s| ensures !('0' <= s[k] <= '9') {
          assert k > 0 ==> s[k] == s[1..][k - 1];
        }
      } else if !IsDigit(s[0]) {
        var k :| 0 <= k < |s[1..]| && '0' <= s[1..][k] <= '9';
        assert s[k + 1] == s[1..][k];
      }
    }
  }

  /** A second candidate differs from the number by one nine after `+55` and the area code: it is
      inserted where the local part does not begin with one, and dropped where it does. Ten digits
      after the country code are needed, eleven for dropping. */
  lemma SecondCandidate(area: string, local: string)
    requires |area| == 2
    ensures var pn := "+55" + area + local;
            CandidatesBR(pn) == if |local| < 8 then [pn]
                                else if local[0] != '9' then [pn, "+55" + area + "9" + local]
                                else if |local| == 8 then [pn]
                                else [pn, "+55" + area + local[1..]]
  {
    var pn := "+55" + area + local;
    assert pn[..5] == "+55" + area && pn[5..] == local;
    assert pn[..3] == "+55";
    if |local| > 0 {
      assert pn[6..] == local[1..];
    }
  }

  /** Numbers of other countries, and shorter ones, are tried as they are. */
  lemma NoSecondCandidate(pn: string)
    requires !("+55" <= pn) || |pn| < 13
    ensures CandidatesBR(pn) == [pn]
  {
  }
}
