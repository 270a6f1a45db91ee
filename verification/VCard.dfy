/** Reading contact cards: the line parser of the adapter and what it makes of a text. */
module VCard {
  import opened Text
  import opened PhoneNumbers

  /** A phone with its WhatsApp id, "" if it has none. */
  datatype Phone = Phone(number: string, waId: string)

  datatype Card = Card(name: string, phones: seq<Phone>)

  datatype Line = Ignored | Formatted(n: string) | FullName(fn: string) | Tel(phone: Phone)

  // ---- one line

  /** The display form of an N value, `Family;Given;...`: "Given Family" where both are there. */
  function FormatName(raw: string): string
  {
    var parts := Split(raw, ';');
    var family := if |parts| > 1 then Trim(parts[0]) else "";
    var given := if |parts| > 1 then Trim(parts[1]) else Trim(parts[0]);
    if given != "" && family != "" then Trim(given + " " + family)
    else if given != "" then given
    else if family != "" then family
    else raw
  }

  /** What follows the last colon. */
  function TelValue(s: string): string
  {
    var c := LastIndex(s, ':');
    if c >= 0 && c + 1 < |s| then Trim(s[c + 1..]) else ""
  }

  /** The `waid=` parameter, up to the next semicolon or colon. */
  function TelWaId(s: string): string
  {
    var i := IndexOf(ToLower(s), "waid=");
    if i < 0 then ""
    else
      var rest := s[i + 5..];
      var j := IndexAny(rest, ";:");
      if j >= 0 then Trim(rest[..j]) else Trim(rest)
  }

  function Toggled(digits: string): string
  {
    if |digits| >= 2 && "55" <= digits then NinthDigit(digits, true) else digits
  }

  /** A phone is kept if its number or its id has a digit; the id stands in for a missing number. */
  function KeepPhone(number: string, waId: string): Line
  {
    var n, w := Toggled(Digits(number)), Toggled(Digits(waId));
    var shown := if Trim(n) == "" && Trim(w) != "" then w else n;
    if Trim(shown) == "" then Ignored else Tel(Phone(shown, w))
  }

  function Property(upper: string): string
  {
    var k := IndexOf(upper, ":");
    if k >= 0 then upper[..k] else upper
  }

  function ReadLine(line: string): Line
  {
    var s := Trim(line);
    if s == "" then Ignored
    else if "N:" <= ToUpper(s) then Formatted(FormatName(Trim(s[2..])))
    else if "FN:" <= ToUpper(s) then FullName(Trim(s[3..]))
    else if Contains(Property(ToUpper(s)), "TEL") then KeepPhone(TelValue(s), TelWaId(s))
    else Ignored
  }

  // ---- a text

  function PhonesOf(lines: seq<string>): seq<Phone>
  {
    if |lines| == 0 then []
    else
      var line := ReadLine(lines[0]);
      (if line.Tel? then [line.phone] else []) + PhonesOf(lines[1..])
  }

  /** The last FN value, `before` if there is none. */
  function LastFN(lines: seq<string>, before: string): string
  {
    if |lines| == 0 then before
    else
      var line := ReadLine(lines[0]);
      LastFN(lines[1..], if line.FullName? then line.fn else before)
  }

  function LastN(lines: seq<string>, before: string): string
  {
    if |lines| == 0 then before
    else
      var line := ReadLine(lines[0]);
      LastN(lines[1..], if line.Formatted? then line.n else before)
  }

  function Parsed(text: string): Card
  {
    var lines := Split(text, '\n');
    var fn := Trim(LastFN(lines, ""));
    Card(if fn == "" then Trim(LastN(lines, "")) else fn, PhonesOf(lines))
  }

  // ---- the loop of the source

  lemma {:induction false} PhonesOfAppend(a: seq<string>, b: seq<string>)
    ensures PhonesOf(a + b) == PhonesOf(a) + PhonesOf(b)
  {
    if |a| == 0 {
      assert a + b == b;
    } else {
      assert (a + b)[1..] == a[1..] + b;
      PhonesOfAppend(a[1..], b);
      var line := ReadLine(a[0]);
      var kept := if line.Tel? then [line.phone] else [];
      assert (kept + PhonesOf(a[1..])) + PhonesOf(b) == kept + (PhonesOf(a[1..]) + PhonesOf(b));
    }
  }

  lemma {:induction false} LastFNAppend(a: seq<string>, b: seq<string>, before: string)
    ensures LastFN(a + b, before) == LastFN(b, LastFN(a, before))
  {
    if |a| == 0 {
      assert a + b == b;
    } else {
      assert (a + b)[1..] == a[1..] + b;
      LastFNAppend(a[1..], b, if ReadLine(a[0]).FullName? then ReadLine(a[0]).fn else before);
    }
  }

  lemma {:induction false} LastNAppend(a: seq<string>, b: seq<string>, before: string)
    ensures LastN(a + b, before) == LastN(b, LastN(a, before))
  {
    if |a| == 0 {
      assert a + b == b;
    } else {
      assert (a + b)[1..] == a[1..] + b;
      LastNAppend(a[1..], b, if ReadLine(a[0]).Formatted? then ReadLine(a[0]).n else before);
    }
  }

  lemma OneMoreLine(lines: seq<string>, i: nat)
    requires i < |lines|
    ensures var line := ReadLine(lines[i]);
            && PhonesOf(lines[..i + 1]) == PhonesOf(lines[..i]) + (if line.Tel? then [line.phone] else [])
            && LastFN(lines[..i + 1], "") == (if line.FullName? then line.fn else LastFN(lines[..i], ""))
            && LastN(lines[..i + 1], "") == (if line.Formatted? then line.n else LastN(lines[..i], ""))
  {
    assert lines[..i + 1] == lines[..i] + [lines[i]];
    PhonesOfAppend(lines[..i], [lines[i]]);
    LastFNAppend(lines[..i], [lines[i]], "");
    LastNAppend(lines[..i], [lines[i]], "");
  }

  /** A blank text has nothing but ignored lines, so the early return agrees with the loop. */
  lemma BlankText(text: string)
    requires Trim(text) == ""
    ensures Parsed(text) == Card("", [])
  {
    var left, right := TrimSplits(text);
    BlankLines(text, Split(text, '\n'));
  }

  lemma TrimOfSpace(s: string)
    requires AllSpace(s)
    ensures TrimLeft(s) == "" && Trim(s) == ""
  {
    if |s| > 0 {
      TrimOfSpace(s[1..]);
    }
  }

  lemma {:induction false} SplitOfSpace(s: string)
    requires AllSpace(s)
    ensures forall k :: 0 <= k < |Split(s, '\n')| ==> AllSpace(Split(s, '\n')[k])
  {
    if |s| > 0 {
      SplitOfSpace(s[1..]);
    }
  }

  lemma BlankLines(text: string, lines: seq<string>)
    requires AllSpace(text) && lines == Split(text, '\n')
    ensures PhonesOf(lines) == [] && LastFN(lines, "") == "" && LastN(lines, "") == ""
  {
    SplitOfSpace(text);
    IgnoredLines(lines);
  }

  lemma IgnoredLines(lines: seq<string>)
    requires forall k :: 0 <= k < |lines| ==> AllSpace(lines[k])
    ensures PhonesOf(lines) == [] && LastFN(lines, "") == "" && LastN(lines, "") == ""
  {
    if |lines| > 0 {
      TrimOfSpace(lines[0]);
      IgnoredLines(lines[1..]);
    }
  }

  method ParseVCard(text: string) returns (card: Card)
    ensures card == Parsed(text)
  {
    if Trim(text) == "" {
      BlankText(text);
      return Card("", []);
    }
    var fn, nFormatted := "", "";
    var phones: seq<Phone> := [];
    var lines := Split(text, '\n');
    for i := 0 to |lines|
      invariant fn == LastFN(lines[..i], "") && nFormatted == LastN(lines[..i], "")
      invariant phones == PhonesOf(lines[..i])
    {
      OneMoreLine(lines, i);
      var s := Trim(lines[i]);
      if s == "" {
        continue;
      }
      if "N:" <= ToUpper(s) {
        nFormatted := ReadName(Trim(s[2..]));
        continue;
      }
      if "FN:" <= ToUpper(s) {
        fn := Trim(s[3..]);
        continue;
      }
      var upper := ToUpper(s);
      var prop := upper;
      var k := IndexOf(upper, ":");
      if k >= 0 {
        prop := upper[..k];
      }
      if Contains(prop, "TEL") {
        var kept := ReadTel(s);
        phones := phones + kept;
      }
    }
    assert lines[..|lines|] == lines;
    var name := Trim(fn);
    if name == "" {
      name := Trim(nFormatted);
    }
    card := Card(name, phones);
  }

  /** The N branch of the loop. */
  method ReadName(raw: string) returns (formatted: string)
    ensures formatted == FormatName(raw)
  {
    var parts := Split(raw, ';');
    var given, family := "", "";
    if |parts| > 1 {
      family := Trim(parts[0]);
      given := Trim(parts[1]);
    } else if |parts| == 1 {
      given := Trim(parts[0]);
    }
    if given != "" && family != "" {
      formatted := Trim(given + " " + family);
    } else if given != "" {
      formatted := given;
    } else if family != "" {
      formatted := family;
    } else {
      formatted := raw;
    }
  }

  /** The TEL branch of the loop: the phone it appends, if any. */
  method ReadTel(s: string) returns (kept: seq<Phone>)
    ensures var line := KeepPhone(TelValue(s), TelWaId(s)); kept == if line.Tel? then [line.phone] else []
  {
    var c := LastIndex(s, ':');
    var phone := "";
    if c >= 0 && c + 1 < |s| {
      phone := Trim(s[c + 1..]);
    }
    assert phone == TelValue(s);
    var waid := ReadWaId(s);
    kept := Normalise(phone, waid);
  }

  /** The `waid=` parameter of the TEL branch. */
  method ReadWaId(s: string) returns (waid: string)
    ensures waid == TelWaId(s)
  {
    waid := "";
    var i := IndexOf(ToLower(s), "waid=");
    if i >= 0 {
      var rest := s[i + 5..];
      var j := IndexAny(rest, ";:");
      if j >= 0 {
        waid := Trim(rest[..j]);
      } else {
        waid := Trim(rest);
      }
    }
  }

  /** The end of the TEL branch: digits, ninth digit, fallback to the id, empty lines skipped. */
  method Normalise(phone: string, waid: string) returns (kept: seq<Phone>)
    ensures var line := KeepPhone(phone, waid); kept == if line.Tel? then [line.phone] else []
  {
    var dPhone := DigitsOnly(phone);
    var dWAID := DigitsOnly(waid);
    if |dPhone| >= 2 && "55" <= dPhone {
      dPhone := NinthDigit(dPhone, true);
    }
    if |dWAID| >= 2 && "55" <= dWAID {
      dWAID := NinthDigit(dWAID, true);
    }
    if Trim(dPhone) == "" && Trim(dWAID) != "" {
      dPhone := dWAID;
    }
    if Trim(dPhone) == "" {
      return [];
    }
    kept := [Phone(dPhone, dWAID)];
  }

  // ---- promises

  /** The parser works line by line: the phones of two texts joined by a newline are the phones of
      the first and then of the second; the name is the last FN if it is not blank and otherwise
      the last N, over both. */
  lemma ParserIsCompositional(a: string, b: string)
    ensures var la, lb := Split(a, '\n'), Split(b, '\n');
            var both := Parsed(a + "\n" + b);
            && both.phones == Parsed(a).phones + Parsed(b).phones
            && var fn := Trim(LastFN(lb, LastFN(la, "")));
               both.name == if fn != "" then fn else Trim(LastN(lb, LastN(la, "")))
  {
    SplitAppend(a, b, '\n');
    PhonesOfAppend(Split(a, '\n'), Split(b, '\n'));
    LastFNAppend(Split(a, '\n'), Split(b, '\n'), "");
    LastNAppend(Split(a, '\n'), Split(b, '\n'), "");
  }

  /** If a text has an FN line, nothing before its last one matters for the full name. */
  lemma {:induction false} LaterNameWins(lines: seq<string>, before: string, i: nat)
    requires i < |lines| && ReadLine(lines[i]).FullName?
    requires forall k :: i < k < |lines| ==> !ReadLine(lines[k]).FullName?
    ensures LastFN(lines, before) == ReadLine(lines[i]).fn
  {
    var line := ReadLine(lines[0]);
    var next := if line.FullName? then line.fn else before;
    if i == 0 {
      NoMoreFN(lines[1..], next);
    } else {
      LaterNameWins(lines[1..], next, i - 1);
    }
  }

  lemma NoMoreFN(lines: seq<string>, before: string)
    requires forall k :: 0 <= k < |lines| ==> !ReadLine(lines[k]).FullName?
    ensures LastFN(lines, before) == before
  {
  }

  /** If a text has an N line, nothing before its last one matters for the N name. */
  lemma {:induction false} LaterNWins(lines: seq<string>, before: string, i: nat)
    requires i < |lines| && ReadLine(lines[i]).Formatted?
    requires forall k :: i < k < |lines| ==> !ReadLine(lines[k]).Formatted?
    ensures LastN(lines, before) == ReadLine(lines[i]).n
  {
    var line := ReadLine(lines[0]);
    var next := if line.Formatted? then line.n else before;
    if i == 0 {
      NoMoreN(lines[1..], next);
    } else {
      LaterNWins(lines[1..], next, i - 1);
    }
  }

  lemma NoMoreN(lines: seq<string>, before: string)
    requires forall k :: 0 <= k < |lines| ==> !ReadLine(lines[k]).Formatted?
    ensures LastN(lines, before) == before
  {
  }

  lemma ToggledIsNinthDigit(d: string)
    ensures Toggled(d) == NinthDigit(d, true)
  {
    GuardsAreRedundant(d);
  }

  lemma TrimOfDigits(d: string)
    requires AllDigits(d)
    ensures Trim(d) == d
  {
    TrimOfTrimmed(d);
  }

  /** The digits, toggled, of a phone and its id; the blank test never sees anything but digits. */
  lemma KeepPhoneCases(number: string, waId: string)
    ensures var n, w := NinthDigit(Digits(number), true), NinthDigit(Digits(waId), true);
            KeepPhone(number, waId)
            == if n != "" then Tel(Phone(n, w)) else if w != "" then Tel(Phone(w, w)) else Ignored
    ensures KeepPhone(number, waId).Ignored? <==> Digits(number) == "" && Digits(waId) == ""
  {
    ToggledIsNinthDigit(Digits(number));
    ToggledIsNinthDigit(Digits(waId));
    NinthDigitKeepsDigits(Digits(number), true);
    NinthDigitKeepsDigits(Digits(waId), true);
    TrimOfDigits(NinthDigit(Digits(number), true));
    TrimOfDigits(NinthDigit(Digits(waId), true));
  }

  /** The name is shown as it was written exactly when it has no semicolon, or when both of its
      first two components are blank. */
  lemma FormatNameKeeps(raw: string)
    requires Trimmed(raw)
    ensures ';' in raw ==> |Split(raw, ';')| > 1
    ensures FormatName(raw) == raw <==>
            (';' !in raw || (Trim(Split(raw, ';')[0]) == "" && Trim(Split(raw, ';')[1]) == ""))
  {
    var parts := Split(raw, ';');
    JoinOfSplit(raw, ';');
    TrimOfTrimmed(raw);
    if |parts| > 1 {
      var family, given := Trim(parts[0]), Trim(parts[1]);
      var l0, r0 := TrimSplits(parts[0]);
      var l1, r1 := TrimSplits(parts[1]);
      assert ';' in raw by { assert raw[|parts[0]|] == ';'; }
      assert ';' !in family by { assert parts[0] == l0 + family + r0; }
      assert ';' !in given by { assert parts[1] == l1 + given + r1; }
      if given != "" && family != "" {
        var l, r := TrimSplits(given + " " + family);
        assert ';' !in given + " " + family;
        assert ';' !in FormatName(raw);
      }
    }
  }

  lemma PartsOfName(family: string, given: string, rest: string)
    requires ';' !in family && ';' !in given && (rest == "" || rest[0] == ';')
    ensures var parts := Split(family + ";" + given + rest, ';');
            |parts| > 1 && parts[0] == family && parts[1] == given
  {
    var tail := given + rest;
    assert family + ";" + given + rest == family + [';'] + tail;
    SplitAppend(family, tail, ';');
    SplitOfPlain(family, ';');
    SplitOfPlain(given, ';');
    if rest == "" {
      assert tail == given;
    } else {
      assert tail == given + [';'] + rest[1..];
      SplitAppend(given, rest[1..], ';');
    }
  }

  /** RFC 2426 section 3.1.2: family name first, given name second. */
  lemma FormatNameSwaps(family: string, given: string, rest: string)
    requires family != "" && given != "" && Trimmed(family) && Trimmed(given)
    requires ';' !in family && ';' !in given && (rest == "" || rest[0] == ';')
    ensures FormatName(family + ";" + given + rest) == given + " " + family
  {
    PartsOfName(family, given, rest);
    TrimOfTrimmed(family);
    TrimOfTrimmed(given);
    TrimOfTrimmed(given + " " + family);
  }

  // ---- telephone lines

  /** The property of a line is what precedes its first colon. */
  lemma PropertyOfLine(prop: string, value: string)
    requires ':' !in prop
    ensures Property(ToUpper(prop + ":" + value)) == ToUpper(prop)
  {
    var s := prop + ":" + value;
    var upper := ToUpper(s);
    assert forall k :: 0 <= k < |prop| ==> upper[k] == UpperChar(prop[k]) && upper[k] != ':';
    assert upper[|prop|] == ':';
    assert upper[|prop|..|prop| + 1] == ":";
    assert OccursAt(upper, ":", |prop|);
    forall k | 0 <= k < |prop| ensures !OccursAt(upper, ":", k) {
      assert upper[k..k + 1][0] == upper[k];
    }
    assert IndexOf(upper, ":") == |prop|;
  }

  lemma ValueOfLine(prop: string, value: string)
    requires ':' !in value
    ensures TelValue(prop + ":" + value) == Trim(value)
  {
    var s := prop + ":" + value;
    assert s[|prop|] == ':';
    assert forall k :: |prop| < k < |s| ==> s[k] == value[k - |prop| - 1];
    assert LastIndex(s, ':') == |prop|;
    assert s[|prop| + 1..] == value;
  }

  /** A property that mentions TEL is not N or FN. */
  lemma TelIsNoName(prop: string, value: string)
    requires ':' !in prop && Contains(ToUpper(prop), "TEL")
    ensures !("N:" <= ToUpper(prop + ":" + value)) && !("FN:" <= ToUpper(prop + ":" + value))
  {
    var i := IndexOf(ToUpper(prop), "TEL");
    assert OccursAt(ToUpper(prop), "TEL", i) && |prop| >= 3;
    var upper := ToUpper(prop + ":" + value);
    assert upper[1] == UpperChar(prop[1]) && upper[2] == UpperChar(prop[2]);
    assert prop[1] != ':' && prop[2] != ':';
  }

  /** Every line whose property mentions TEL, with or without a group prefix such as `item1.` and
      in any case, is read as a phone: what follows its last colon, and the `waid=` parameter. */
  lemma TelLineMeaning(line: string, prop: string, middle: string, value: string)
    requires Trim(line) == prop + middle + ":" + value && ':' !in prop && ':' !in value
    requires middle == "" || middle[0] == ':'
    requires Contains(ToUpper(prop), "TEL")
    ensures ReadLine(line) == KeepPhone(Trim(value), TelWaId(Trim(line)))
  {
    var s := Trim(line);
    var rest := if middle == "" then value else middle[1..] + ":" + value;
    assert s == prop + ":" + rest && s == (prop + middle) + ":" + value;
    PropertyOfLine(prop, rest);
    TelIsNoName(prop, rest);
    ValueOfLine(prop + middle, value);
  }

  lemma LineWithoutColon(s: string)
    requires ':' !in s
    ensures Property(ToUpper(s)) == ToUpper(s) && !("N:" <= ToUpper(s)) && !("FN:" <= ToUpper(s))
  {
    var upper := ToUpper(s);
    assert forall k :: 0 <= k < |upper| ==> upper[k] == UpperChar(s[k]) && upper[k] != ':';
    forall k ensures !OccursAt(upper, ":", k) {
      if 0 <= k < |upper| {
        assert upper[k..k + 1][0] == upper[k];
      }
    }
    assert |upper| > 1 ==> upper[1] != ':';
    assert |upper| > 2 ==> upper[2] != ':';
  }

  /** Without a colon there is only the `waid=` parameter. */
  lemma TelLineWithoutColon(line: string, s: string)
    requires s == Trim(line) && ':' !in s && Contains(ToUpper(s), "TEL")
    ensures ReadLine(line) == KeepPhone("", TelWaId(s))
  {
    LineWithoutColon(s);
    assert TelValue(s) == "";
  }

  /** The `waid=` parameter ends at the next semicolon or colon, or with the line. */
  lemma WaIdParameter(before: string, mark: string, waId: string, rest: string)
    requires ToLower(mark) == "waid=" && IndexOf(ToLower(before + mark + waId + rest), "waid=") == |before|
    requires ':' !in waId && ';' !in waId && (rest == "" || rest[0] == ':' || rest[0] == ';')
    ensures TelWaId(before + mark + waId + rest) == Trim(waId)
  {
    var s := before + mark + waId + rest;
    var tail := waId + rest;
    assert |mark| == |ToLower(mark)| == 5;
    AfterPrefix(before + mark, tail);
    assert s == (before + mark) + tail;
    FirstDelimiter(waId, rest);
  }

  lemma AfterPrefix(a: string, b: string)
    ensures (a + b)[|a|..] == b
  {
  }

  /** Without the parameter there is no id. */
  lemma NoWaIdParameter(s: string)
    requires !Contains(ToLower(s), "waid=")
    ensures TelWaId(s) == ""
  {
  }

  lemma FirstDelimiter(waId: string, rest: string)
    requires ':' !in waId && ';' !in waId && (rest == "" || rest[0] == ':' || rest[0] == ';')
    ensures var j := IndexAny(waId + rest, ";:");
            if rest == "" then j == -1 && waId + rest == waId else j == |waId| && (waId + rest)[..j] == waId
  {
    var tail := waId + rest;
    assert forall k :: 0 <= k < |waId| ==> tail[k] == waId[k] && tail[k] !in ";:";
    if rest != "" {
      assert tail[|waId|] == rest[0] && tail[|waId|] in ";:";
    }
  }

  // ---- name lines

  /** A line that says FN, in any case, and what it says. */
  predicate SaysFN(line: string) { |Trim(line)| >= 3 && ToUpper(Trim(line)[..3]) == "FN:" }

  function FNValue(line: string): string
    requires SaysFN(line)
  {
    Trim(Trim(line)[3..])
  }

  /** A line that says N, and what it says. */
  predicate SaysN(line: string) { |Trim(line)| >= 2 && ToUpper(Trim(line)[..2]) == "N:" }

  function NValue(line: string): string
    requires SaysN(line)
  {
    FormatName(Trim(Trim(line)[2..]))
  }

  lemma UpperPrefix(s: string, n: nat)
    requires n <= |s|
    ensures ToUpper(s)[..n] == ToUpper(s[..n])
  {
  }

  lemma FNLineMeaning(line: string)
    ensures ReadLine(line).FullName? <==> SaysFN(line)
    ensures SaysFN(line) ==> ReadLine(line) == FullName(FNValue(line))
  {
    var s := Trim(line);
    if |s| >= 3 {
      UpperPrefix(s, 3);
      if SaysFN(line) {
        assert ToUpper(s)[0] == ToUpper(s)[..3][0] == 'F';
        assert "FN:" <= ToUpper(s);
      }
    }
  }

  lemma NLineMeaning(line: string)
    ensures ReadLine(line).Formatted? <==> SaysN(line)
    ensures SaysN(line) ==> ReadLine(line) == Formatted(NValue(line))
  {
    var s := Trim(line);
    if |s| >= 2 {
      UpperPrefix(s, 2);
    }
  }

  /** On the text of a line: `FN:`, in any case, and a text is that text trimmed. */
  lemma FNLineText(line: string, head: string, value: string)
    requires Trim(line) == head + value && |head| == 3 && ToUpper(head) == "FN:"
    ensures SaysFN(line) && ReadLine(line) == FullName(Trim(value))
  {
    assert Trim(line)[..3] == head && Trim(line)[3..] == value;
    FNLineMeaning(line);
  }

  lemma NLineText(line: string, head: string, value: string)
    requires Trim(line) == head + value && |head| == 2 && ToUpper(head) == "N:"
    ensures SaysN(line) && ReadLine(line) == Formatted(FormatName(Trim(value)))
  {
    assert Trim(line)[..2] == head && Trim(line)[2..] == value;
    NLineMeaning(line);
  }

  /** A text whose last FN line, the i-th line, says something has that name, whatever its N lines
      say. */
  lemma TextNamedByFN(text: string, i: nat)
    requires i < |Split(text, '\n')| && SaysFN(Split(text, '\n')[i]) && FNValue(Split(text, '\n')[i]) != ""
    requires forall k :: i < k < |Split(text, '\n')| ==> !SaysFN(Split(text, '\n')[k])
    ensures Parsed(text).name == FNValue(Split(text, '\n')[i])
  {
    var lines := Split(text, '\n');
    forall k | i <= k < |lines| ensures ReadLine(lines[k]).FullName? <==> SaysFN(lines[k]) {
      FNLineMeaning(lines[k]);
    }
    FNLineMeaning(lines[i]);
    LaterNameWins(lines, "", i);
    var left, right := TrimSplits(Trim(lines[i])[3..]);
    TrimOfTrimmed(FNValue(lines[i]));
  }

  /** The last of the FN lines, if there is one. */
  lemma {:induction false} LastFNLine(lines: seq<string>) returns (m: nat)
    requires exists k :: 0 <= k < |lines| && SaysFN(lines[k])
    ensures m < |lines| && SaysFN(lines[m]) && forall k :: m < k < |lines| ==> !SaysFN(lines[k])
  {
    if SaysFN(lines[|lines| - 1]) {
      m := |lines| - 1;
    } else {
      m := LastFNLine(lines[..|lines| - 1]);
    }
  }

  lemma NoFullName(lines: seq<string>)
    requires forall m :: 0 <= m < |lines| && SaysFN(lines[m]) && (forall k :: m < k < |lines| ==> !SaysFN(lines[k]))
               ==> FNValue(lines[m]) == ""
    ensures LastFN(lines, "") == ""
  {
    forall k | 0 <= k < |lines|
      ensures ReadLine(lines[k]).FullName? <==> SaysFN(lines[k])
      ensures SaysFN(lines[k]) ==> ReadLine(lines[k]) == FullName(FNValue(lines[k]))
    {
      FNLineMeaning(lines[k]);
    }
    if exists k :: 0 <= k < |lines| && SaysFN(lines[k]) {
      var m := LastFNLine(lines);
      LaterNameWins(lines, "", m);
    } else {
      NoMoreFN(lines, "");
    }
  }

  /** A text whose last FN line says nothing, or that has none, has the name that its last N line
      says. */
  lemma TextNamedByN(text: string, i: nat)
    requires forall m :: 0 <= m < |Split(text, '\n')| && SaysFN(Split(text, '\n')[m])
                         && (forall k :: m < k < |Split(text, '\n')| ==> !SaysFN(Split(text, '\n')[k]))
               ==> FNValue(Split(text, '\n')[m]) == ""
    requires i < |Split(text, '\n')| && SaysN(Split(text, '\n')[i])
    requires forall k :: i < k < |Split(text, '\n')| ==> !SaysN(Split(text, '\n')[k])
    ensures Parsed(text).name == Trim(NValue(Split(text, '\n')[i]))
  {
    var lines := Split(text, '\n');
    forall k | 0 <= k < |lines| ensures ReadLine(lines[k]).Formatted? <==> SaysN(lines[k]) {
      NLineMeaning(lines[k]);
    }
    NLineMeaning(lines[i]);
    NoFullName(lines);
    TrimOfTrimmed("");
    LaterNWins(lines, "", i);
  }

  /** Such a line: `FN:Maria` says Maria. */
  lemma FNMaria(text: string)
    requires text == "FN:Maria"
    ensures Parsed(text).name == "Maria"
  {
    TrimOfTrimmed(text);
    assert '\n' !in text;
    SplitOfPlain(text, '\n');
    var head, value := "FN:", "Maria";
    assert text == head + value;
    FNHead(head);
    FNLineText(text, head, value);
    assert Trim(text)[3..] == value;
    TrimOfTrimmed(value);
    TextNamedByFN(text, 0);
  }

  lemma FNHead(head: string)
    requires head == "FN:"
    ensures ToUpper(head) == "FN:"
  {
    assert ToUpper(head) == [UpperChar(head[0]), UpperChar(head[1]), UpperChar(head[2])];
  }

  /** A line with any other property is neither a name nor a phone. */
  lemma OtherLineIgnored(line: string, prop: string, rest: string)
    requires Trim(line) == prop + rest && ':' !in prop && (rest == "" || rest[0] == ':')
    requires rest != "" ==> ToUpper(prop) != "N" && ToUpper(prop) != "FN"
    requires !Contains(ToUpper(prop), "TEL")
    ensures ReadLine(line).Ignored?
  {
    var s := Trim(line);
    if rest == "" {
      assert s == prop;
      LineWithoutColon(s);
    } else {
      assert s == prop + ":" + rest[1..];
      PropertyOfLine(prop, rest[1..]);
      NameProperty(prop, rest[1..]);
    }
  }

  lemma NameProperty(prop: string, value: string)
    requires ':' !in prop
    ensures "N:" <= ToUpper(prop + ":" + value) <==> ToUpper(prop) == "N"
    ensures "FN:" <= ToUpper(prop + ":" + value) <==> ToUpper(prop) == "FN"
  {
    var upper := ToUpper(prop + ":" + value);
    assert upper[|prop|] == ':';
    assert forall k :: 0 <= k < |prop| ==> upper[k] == UpperChar(prop[k]) == ToUpper(prop)[k] && upper[k] != ':';
    assert upper[..|prop|] == ToUpper(prop);
    assert upper[..|prop| + 1] == ToUpper(prop) + ":";
    if "N:" <= upper {
      assert upper[1] == ':' && |prop| == 1;
      assert upper[..2] == "N:";
    }
    if "FN:" <= upper {
      assert upper[2] == ':' && upper[0] == 'F' && upper[1] == 'N' && |prop| == 2;
      assert upper[..3] == "FN:";
    }
  }

  /** An N value component by component: the given name before the family name, one of them if the
      other is blank. */
  lemma FormatNameByParts(family: string, given: string, rest: string)
    requires ';' !in family && ';' !in given && (rest == "" || rest[0] == ';')
    requires Trim(family) != "" || Trim(given) != ""
    ensures FormatName(family + ";" + given + rest)
         == if Trim(family) == "" then Trim(given)
            else if Trim(given) == "" then Trim(family)
            else Trim(given) + " " + Trim(family)
  {
    PartsOfName(family, given, rest);
    var l0, r0 := TrimSplits(family);
    var l1, r1 := TrimSplits(given);
    if Trim(family) != "" && Trim(given) != "" {
      TrimOfTrimmed(Trim(given) + " " + Trim(family));
    }
  }
}
