/** Sending contact cards, and what survives when they are read back: the printer of `Send`
    against the parser of VCard. */
module Contacts {
  import opened Text
  import opened PhoneNumbers
  import opened VCard

  datatype Contact = Contact(name: string, phones: seq<Phone>)

  datatype ContactMessage = ContactMessage(displayName: string, vcard: string)

  datatype ContactsMessage = Message(displayName: string, contacts: seq<ContactMessage>) | NoContacts | NoValidPhones

  // ---- the printer

  function DisplayName(name: string): string { if Trim(name) == "" then "Contact" else Trim(name) }

  predicate Printable(p: Phone) { Trim(p.number) != "" }

  const TEL := "TEL;type=CELL;type=VOICE"

  /** A TEL line up to its last colon. */
  function TelHead(waId: string): string
  {
    if Trim(waId) != "" then TEL + ";waid=" + Trim(waId) else TEL
  }

  function TelLine(p: Phone): string { TelHead(p.waId) + ":" + Trim(p.number) }

  function TelLines(phones: seq<Phone>): seq<string>
  {
    if |phones| == 0 then []
    else (if Printable(phones[0]) then [TelLine(phones[0])] else []) + TelLines(phones[1..])
  }

  function CardText(begin: string, version: string, n: string, body: string, end: string): string
  {
    begin + "\n" + (version + "\n" + (n + "\n" + (body + "\n" + end)))
  }

  function VCardText(name: string, telLines: seq<string>): string
  {
    CardText("BEGIN:VCARD", "VERSION:3.0", "N:" + name, Join(telLines, '\n'), "END:VCARD")
  }

  function Printed(c: Contact): seq<ContactMessage>
  {
    var lines := TelLines(c.phones);
    if |lines| == 0 then [] else [ContactMessage(DisplayName(c.name), VCardText(DisplayName(c.name), lines))]
  }

  function AllPrinted(contacts: seq<Contact>): seq<ContactMessage>
  {
    if |contacts| == 0 then [] else Printed(contacts[0]) + AllPrinted(contacts[1..])
  }

  lemma TelLinesAppend(a: seq<Phone>, b: seq<Phone>)
    ensures TelLines(a + b) == TelLines(a) + TelLines(b)
  {
    if |a| == 0 {
      assert a + b == b;
    } else {
      assert (a + b)[1..] == a[1..] + b;
      TelLinesAppend(a[1..], b);
    }
  }

  lemma AllPrintedAppend(a: seq<Contact>, b: seq<Contact>)
    ensures AllPrinted(a + b) == AllPrinted(a) + AllPrinted(b)
  {
    if |a| == 0 {
      assert a + b == b;
    } else {
      assert (a + b)[1..] == a[1..] + b;
      AllPrintedAppend(a[1..], b);
    }
  }

  /** The inner loop of the `contacts` branch. */
  method BuildTelLines(phones: seq<Phone>) returns (telLines: seq<string>)
    ensures telLines == TelLines(phones)
  {
    telLines := [];
    for i := 0 to |phones|
      invariant telLines == TelLines(phones[..i])
    {
      TelLinesAppend(phones[..i], [phones[i]]);
      assert phones[..i + 1] == phones[..i] + [phones[i]];
      var phone := Trim(phones[i].number);
      var waid := Trim(phones[i].waId);
      if phone == "" {
        continue;
      }
      if waid != "" {
        telLines := telLines + [TEL + ";waid=" + waid + ":" + phone];
      } else {
        telLines := telLines + [TEL + ":" + phone];
      }
      assert TelLines([phones[i]]) == [TelLine(phones[i])];
    }
    assert phones[..|phones|] == phones;
  }

  /** The `contacts` branch: the cards of every contact with a phone; the name shown for the
      message is the first contact's even when that contact has no card. */
  method BuildContacts(contacts: seq<Contact>) returns (message: ContactsMessage)
    ensures message == if |contacts| == 0 then NoContacts
                       else if |AllPrinted(contacts)| == 0 then NoValidPhones
                       else Message(if Trim(contacts[0].name) == "" then "Contact" else Trim(contacts[0].name),
                                    AllPrinted(contacts))
  {
    if |contacts| == 0 {
      return NoContacts;
    }
    var displayName := "";
    var cards: seq<ContactMessage> := [];
    for i := 0 to |contacts|
      invariant i > 0 ==> displayName == DisplayName(contacts[0].name)
      invariant cards == AllPrinted(contacts[..i])
    {
      AllPrintedAppend(contacts[..i], [contacts[i]]);
      assert contacts[..i + 1] == contacts[..i] + [contacts[i]];
      var name := Trim(contacts[i].name);
      if name == "" {
        name := "Contact";
      }
      if i == 0 {
        displayName := name;
      }
      var telLines := BuildTelLines(contacts[i].phones);
      if |telLines| == 0 {
        continue;
      }
      cards := cards + [ContactMessage(name, VCardText(name, telLines))];
    }
    assert contacts[..|contacts|] == contacts;
    if |cards| == 0 {
      return NoValidPhones;
    }
    message := Message(displayName, cards);
  }

  // ---- what can be printed without being misread

  /** The number has no colon or newline and cannot be taken for an id parameter; the id has no
      delimiter. Nothing is asked of a phone that is not printed. */
  predicate CleanPhone(p: Phone)
  {
    Printable(p) ==>
      && ':' !in Trim(p.number) && '\n' !in Trim(p.number)
      && ':' !in Trim(p.waId) && ';' !in Trim(p.waId) && '\n' !in Trim(p.waId)
      && (Trim(p.waId) == "" ==> !Contains(ToLower(Trim(p.number)), "waid="))
  }

  predicate Clean(c: Contact)
  {
    '\n' !in Trim(c.name) && forall k :: 0 <= k < |c.phones| ==> CleanPhone(c.phones[k])
  }

  /** What a phone becomes: its digits and the digits of its id, ninth digits toggled. */
  function Carried(p: Phone): seq<Phone>
  {
    if !Printable(p) then []
    else
      var n, w := NinthDigit(Digits(p.number), true), NinthDigit(Digits(p.waId), true);
      if n != "" then [Phone(n, w)] else if w != "" then [Phone(w, w)] else []
  }

  function AllCarried(phones: seq<Phone>): seq<Phone>
  {
    if |phones| == 0 then [] else Carried(phones[0]) + AllCarried(phones[1..])
  }

  // ---- one TEL line

  lemma NoOccurrenceWithoutW(s: string, i: int)
    requires 0 <= i < |s| && s[i] != 'w'
    ensures !OccursAt(s, "waid=", i)
  {
    if i + 5 <= |s| {
      assert s[i..i + 5][0] == s[i];
    }
  }

  lemma TelHasNoW(head: string)
    requires head == TEL
    ensures |head| == 24 && forall i :: 0 <= i < 24 ==> LowerChar(head[i]) != 'w' && head[i] != ':' && head[i] != '\n'
    ensures head[0] == 'T' && "TEL" <= head
  {
    assert head[0] == 'T' && head[1] == 'E' && head[2] == 'L' && head[3] == ';';
    assert head[4] == 't' && head[5] == 'y' && head[6] == 'p' && head[7] == 'e';
    assert head[8] == '=' && head[9] == 'C' && head[10] == 'E' && head[11] == 'L';
    assert head[12] == 'L' && head[13] == ';' && head[14] == 't' && head[15] == 'y';
    assert head[16] == 'p' && head[17] == 'e' && head[18] == '=' && head[19] == 'V';
    assert head[20] == 'O' && head[21] == 'I' && head[22] == 'C' && head[23] == 'E';
    assert head[..3] == "TEL";
  }

  /** The first `waid=` of a line that starts with TEL and a delimiter cannot lie before the
      delimiter. */
  lemma NoWaIdInHead(head: string, rest: string, i: int)
    requires head == TEL && rest != "" && (rest[0] == ';' || rest[0] == ':') && 0 <= i < 25
    ensures !OccursAt(ToLower(head + rest), "waid=", i)
  {
    TelHasNoW(head);
    var low := ToLower(head + rest);
    assert low[i] == LowerChar((head + rest)[i]);
    NoOccurrenceWithoutW(low, i);
  }

  lemma WaIdAt(before: string, rest: string, low: string)
    requires low == ToLower(before + "waid=" + rest)
    ensures OccursAt(low, "waid=", |before|)
  {
    var s, k := before + "waid=" + rest, |before|;
    assert s[k] == 'w' && s[k + 1] == 'a' && s[k + 2] == 'i' && s[k + 3] == 'd' && s[k + 4] == '=';
    assert low[k] == 'w' && low[k + 1] == 'a' && low[k + 2] == 'i' && low[k + 3] == 'd' && low[k + 4] == '=';
    assert low[k..k + 5] == "waid=";
  }

  lemma WaIdOfLine(head: string, waId: string, number: string)
    requires head == TEL && Trimmed(waId) && ':' !in waId && ';' !in waId
    ensures TelWaId(head + ";waid=" + waId + ":" + number) == waId
  {
    TelHasNoW(head);
    var s := head + ";waid=" + waId + ":" + number;
    var before := head + ";";
    assert s == before + "waid=" + waId + (":" + number);
    assert s == head + (";waid=" + waId + ":" + number);
    var low := ToLower(s);
    forall i | 0 <= i < 25 ensures !OccursAt(low, "waid=", i) {
      NoWaIdInHead(head, ";waid=" + waId + ":" + number, i);
    }
    WaIdAt(before, waId + ":" + number, low);
    WaIdMark("waid=");
    WaIdParameter(before, "waid=", waId, ":" + number);
    TrimOfTrimmed(waId);
  }

  lemma NoWaIdInLine(head: string, number: string)
    requires head == TEL && !Contains(ToLower(number), "waid=")
    ensures TelWaId(head + ":" + number) == ""
  {
    var s := head + ":" + number;
    var low := ToLower(s);
    assert s == head + (":" + number) && |head| == 24;
    forall i | 0 <= i < |s| ensures !OccursAt(low, "waid=", i) {
      if i < 25 {
        NoWaIdInHead(head, ":" + number, i);
      } else {
        assert !OccursAt(ToLower(number), "waid=", i - 25);
        if i + 5 <= |s| {
          assert low[i..i + 5] == ToLower(number)[i - 25..i - 20];
        }
      }
    }
  }

  lemma TrimmedTrim(s: string)
    ensures Trimmed(Trim(s))
  {
    var left, right := TrimSplits(s);
  }

  lemma HeadIsClean(waId: string)
    requires ':' !in Trim(waId) && '\n' !in Trim(waId)
    ensures var head := TelHead(waId); ':' !in head && '\n' !in head && head != "" && head[0] == 'T'
    ensures Contains(ToUpper(TelHead(waId)), "TEL")
  {
    TelHasNoW(TEL);
    var head := TelHead(waId);
    assert head[0] == 'T' && head[1] == 'E' && head[2] == 'L';
    assert ToUpper(head)[0..3] == "TEL";
    assert OccursAt(ToUpper(head), "TEL", 0);
  }

  lemma WaIdReadsBack(p: Phone)
    requires Printable(p) && CleanPhone(p)
    ensures TelWaId(TelLine(p)) == Trim(p.waId)
  {
    TrimmedTrim(p.waId);
    if Trim(p.waId) != "" {
      WaIdOfLine(TEL, Trim(p.waId), Trim(p.number));
    } else {
      NoWaIdInLine(TEL, Trim(p.number));
    }
  }

  lemma WaIdMark(mark: string)
    requires mark == "waid="
    ensures ToLower(mark) == "waid="
  {
    assert ToLower(mark) == [LowerChar(mark[0]), LowerChar(mark[1]), LowerChar(mark[2]), LowerChar(mark[3]),
                             LowerChar(mark[4])];
  }

  /** Reading a printed TEL line yields what its phone carries. */
  lemma TelLineReadsBack(p: Phone)
    requires Printable(p) && CleanPhone(p)
    ensures '\n' !in TelLine(p)
    ensures var line := ReadLine(TelLine(p)); Carried(p) == if line.Tel? then [line.phone] else []
  {
    TrimmedTrim(p.number);
    HeadIsClean(p.waId);
    var s := TelLine(p);
    assert s[0] == 'T' && s[|s| - 1] == Trim(p.number)[|Trim(p.number)| - 1];
    TrimOfTrimmed(s);
    TelLineMeaning(s, TelHead(p.waId), "", Trim(p.number));
    TrimOfTrimmed(Trim(p.number));
    WaIdReadsBack(p);
    KeepPhoneCases(Trim(p.number), Trim(p.waId));
    DigitsOfTrim(p.number);
    DigitsOfTrim(p.waId);
  }

  lemma {:induction false} TelLinesReadBack(phones: seq<Phone>)
    requires forall k :: 0 <= k < |phones| ==> CleanPhone(phones[k])
    ensures PhonesOf(TelLines(phones)) == AllCarried(phones)
    ensures forall k :: 0 <= k < |TelLines(phones)| ==> '\n' !in TelLines(phones)[k]
    ensures LastFN(TelLines(phones), "") == ""
    ensures forall before :: LastN(TelLines(phones), before) == before
  {
    if |phones| > 0 {
      TelLinesReadBack(phones[1..]);
      var first := if Printable(phones[0]) then [TelLine(phones[0])] else [];
      var rest := TelLines(phones[1..]);
      PhonesOfAppend(first, rest);
      if Printable(phones[0]) {
        TelLineReadsBack(phones[0]);
        TelLineIsNoName(phones[0]);
        assert first[1..] == [] && (first + rest)[1..] == rest;
      } else {
        assert first + rest == rest;
      }
    }
  }

  lemma TelLineIsNoName(p: Phone)
    requires Printable(p)
    ensures !ReadLine(TelLine(p)).FullName? && !ReadLine(TelLine(p)).Formatted?
  {
    TrimmedTrim(p.number);
    var s := TelLine(p);
    assert s[0] == 'T' && s[|s| - 1] == Trim(p.number)[|Trim(p.number)| - 1];
    TrimOfTrimmed(s);
    assert ToUpper(s)[0] == 'T';
  }

  // ---- a whole card

  /** A line whose property, of k capital letters and no T, cannot be read as a name or a phone. */
  predicate PlainProperty(line: string, k: nat)
  {
    && k + 1 < |line| && line[k] == ':' && Trimmed(line) && line[0] in "BVE" && '\n' !in line
    && forall i :: 0 <= i < k ==> line[i] != ':' && 'A' <= line[i] <= 'Z' && line[i] != 'T'
  }

  lemma PlainBegin()
    ensures PlainProperty("BEGIN:VCARD", 5)
  {
  }

  lemma PlainVersion()
    ensures PlainProperty("VERSION:3.0", 7)
  {
  }

  lemma PlainEnd()
    ensures PlainProperty("END:VCARD", 3)
  {
  }

  lemma PlainLineIgnored(line: string, k: nat)
    requires PlainProperty(line, k)
    ensures ReadLine(line).Ignored?
  {
    TrimOfTrimmed(line);
    var upper := ToUpper(line);
    assert upper[0] == line[0];
    assert upper[k..k + 1] == ":";
    assert OccursAt(upper, ":", k);
    var prop := Property(upper);
    assert |prop| <= k && prop <= upper;
    assert forall i :: 0 <= i < |prop| ==> prop[i] == line[i] && prop[i] != 'T';
    NoTelWithoutT(prop);
  }

  lemma NoTelWithoutT(prop: string)
    requires 'T' !in prop
    ensures !Contains(prop, "TEL")
  {
    forall i ensures !OccursAt(prop, "TEL", i) {
      if 0 <= i && i + 3 <= |prop| {
        assert prop[i..i + 3][0] == prop[i] && "TEL"[0] == 'T';
      }
    }
  }

  lemma NameLine(name: string)
    requires name != "" && Trimmed(name)
    ensures ReadLine("N:" + name) == Formatted(FormatName(name))
  {
    var s := "N:" + name;
    assert s[|s| - 1] == name[|name| - 1];
    TrimOfTrimmed(s);
    assert ToUpper(s)[..2] == "N:";
    assert s[2..] == name;
    TrimOfTrimmed(name);
  }

  lemma FirstLine(line: string, rest: string)
    requires '\n' !in line
    ensures Split(line + "\n" + rest, '\n') == [line] + Split(rest, '\n')
  {
    SplitAppend(line, rest, '\n');
    SplitOfPlain(line, '\n');
  }

  lemma LastLine(body: string, line: string)
    requires '\n' !in line
    ensures Split(body + "\n" + line, '\n') == Split(body, '\n') + [line]
  {
    SplitAppend(body, line, '\n');
    SplitOfPlain(line, '\n');
  }

  lemma DisplayNameShape(name: string)
    requires '\n' !in Trim(name)
    ensures var n := DisplayName(name); n != "" && Trimmed(n) && '\n' !in n
  {
    TrimmedTrim(name);
  }

  lemma CardContents(begin: string, version: string, end: string, n: string, name: string, telLines: seq<string>)
    requires ReadLine(begin).Ignored? && ReadLine(version).Ignored? && ReadLine(end).Ignored?
    requires ReadLine(n) == Formatted(name)
    requires LastFN(telLines, "") == "" && forall before :: LastN(telLines, before) == before
    ensures var lines := [begin, version, n] + telLines + [end];
            PhonesOf(lines) == PhonesOf(telLines) && LastFN(lines, "") == "" && LastN(lines, "") == name
  {
    var head := [begin, version, n];
    HeadContents(begin, version, n, name);
    assert [end][1..] == [];
    PhonesOfAppend(head + telLines, [end]);
    PhonesOfAppend(head, telLines);
    LastFNAppend(head + telLines, [end], "");
    LastFNAppend(head, telLines, "");
    LastNAppend(head + telLines, [end], "");
    LastNAppend(head, telLines, "");
  }

  lemma HeadContents(begin: string, version: string, n: string, name: string)
    requires ReadLine(begin).Ignored? && ReadLine(version).Ignored? && ReadLine(n) == Formatted(name)
    ensures var head := [begin, version, n];
            PhonesOf(head) == [] && LastFN(head, "") == "" && LastN(head, "") == name
  {
    OneLine(n);
    IgnoredFirst(version, [n]);
    IgnoredFirst(begin, [version] + [n]);
    assert [begin, version, n] == [begin] + ([version] + [n]);
  }

  lemma OneLine(line: string)
    ensures var l := ReadLine(line);
            && PhonesOf([line]) == (if l.Tel? then [l.phone] else [])
            && LastFN([line], "") == (if l.FullName? then l.fn else "")
            && LastN([line], "") == (if l.Formatted? then l.n else "")
  {
    assert [line][1..] == [];
  }

  lemma IgnoredFirst(line: string, rest: seq<string>)
    requires ReadLine(line).Ignored?
    ensures PhonesOf([line] + rest) == PhonesOf(rest)
    ensures LastFN([line] + rest, "") == LastFN(rest, "") && LastN([line] + rest, "") == LastN(rest, "")
  {
    assert ([line] + rest)[1..] == rest;
  }

  lemma CardLines(begin: string, version: string, end: string, n: string, telLines: seq<string>)
    requires '\n' !in begin && '\n' !in version && '\n' !in end && '\n' !in n
    requires |telLines| > 0 && forall k :: 0 <= k < |telLines| ==> '\n' !in telLines[k]
    ensures Split(CardText(begin, version, n, Join(telLines, '\n'), end), '\n')
         == [begin, version, n] + telLines + [end]
  {
    SplitOfJoin(telLines, '\n');
    LinesOfCard(begin, version, n, Join(telLines, '\n'), end, telLines);
  }

  lemma LinesOfCard(begin: string, version: string, n: string, body: string, end: string, telLines: seq<string>)
    requires '\n' !in begin && '\n' !in version && '\n' !in end && '\n' !in n && Split(body, '\n') == telLines
    ensures Split(CardText(begin, version, n, body, end), '\n') == [begin, version, n] + telLines + [end]
  {
    LastLine(body, end);
    FirstLine(n, body + "\n" + end);
    TwoFirstLines(begin, version, n + "\n" + (body + "\n" + end));
    assert [begin, version, n] + telLines + [end] == [begin, version] + ([n] + (telLines + [end]));
  }

  lemma TwoFirstLines(a: string, b: string, rest: string)
    requires '\n' !in a && '\n' !in b
    ensures Split(a + "\n" + (b + "\n" + rest), '\n') == [a, b] + Split(rest, '\n')
  {
    FirstLine(b, rest);
    FirstLine(a, b + "\n" + rest);
    assert [a, b] + Split(rest, '\n') == [a] + ([b] + Split(rest, '\n'));
  }

  /** A card is read back from its name and its TEL lines; its other three lines are ignored. */
  lemma CardReadsBack(begin: string, version: string, end: string, name: string, telLines: seq<string>)
    requires PlainProperty(begin, 5) && PlainProperty(version, 7) && PlainProperty(end, 3)
    requires name != "" && Trimmed(name) && '\n' !in name
    requires |telLines| > 0 && forall k :: 0 <= k < |telLines| ==> '\n' !in telLines[k]
    requires LastFN(telLines, "") == "" && forall before :: LastN(telLines, before) == before
    ensures Parsed(CardText(begin, version, "N:" + name, Join(telLines, '\n'), end))
         == Card(Trim(FormatName(name)), PhonesOf(telLines))
  {
    PlainLineIgnored(begin, 5);
    PlainLineIgnored(version, 7);
    PlainLineIgnored(end, 3);
    CardLines(begin, version, end, "N:" + name, telLines);
    NameLine(name);
    CardContents(begin, version, end, "N:" + name, FormatName(name), telLines);
    TrimOfTrimmed("");
  }

  /** The round trip: a contact that is printed and parsed again comes back with its display name
      (components reordered as N values are) and, in order, what each of its phones carries. */
  lemma RoundTrip(c: Contact)
    requires Clean(c) && |TelLines(c.phones)| > 0
    ensures |Printed(c)| == 1
    ensures Parsed(Printed(c)[0].vcard) == Card(Trim(FormatName(DisplayName(c.name))), AllCarried(c.phones))
  {
    DisplayNameShape(c.name);
    TelLinesReadBack(c.phones);
    PlainBegin();
    PlainVersion();
    PlainEnd();
    CardReadsBack("BEGIN:VCARD", "VERSION:3.0", "END:VCARD", DisplayName(c.name), TelLines(c.phones));
  }

  /** The cards a receiver reads from a message. */
  function Received(messages: seq<ContactMessage>): seq<Card>
  {
    seq(|messages|, k requires 0 <= k < |messages| => Parsed(messages[k].vcard))
  }

  /** What contacts carry: a card for each that has a printable phone. */
  function Cards(contacts: seq<Contact>): seq<Card>
  {
    if |contacts| == 0 then []
    else
      var c := contacts[0];
      (if |TelLines(c.phones)| == 0 then [] else [Card(Trim(FormatName(DisplayName(c.name))), AllCarried(c.phones))])
        + Cards(contacts[1..])
  }

  lemma {:induction false} ReceivedAppend(a: seq<ContactMessage>, b: seq<ContactMessage>)
    ensures Received(a + b) == Received(a) + Received(b)
  {
    if |a| == 0 {
      assert a + b == b;
    } else {
      assert (a + b)[1..] == a[1..] + b;
      ReceivedAppend(a[1..], b);
    }
  }

  /** The round trip of a whole message: every card is read back, in order, none added or lost. */
  lemma {:induction false} MessageRoundTrip(contacts: seq<Contact>)
    requires forall k :: 0 <= k < |contacts| ==> Clean(contacts[k])
    ensures Received(AllPrinted(contacts)) == Cards(contacts)
  {
    if |contacts| > 0 {
      MessageRoundTrip(contacts[1..]);
      ReceivedAppend(Printed(contacts[0]), AllPrinted(contacts[1..]));
      if |TelLines(contacts[0].phones)| > 0 {
        RoundTrip(contacts[0]);
      }
    }
  }

  // ---- names stay on one line

  lemma TrimKeepsOut(s: string, c: char)
    requires c !in s
    ensures c !in Trim(s)
  {
    var left, right := TrimSplits(s);
  }

  lemma {:induction false} SplitKeepsOut(s: string, sep: char, c: char)
    requires c !in s
    ensures forall k :: 0 <= k < |Split(s, sep)| ==> c !in Split(s, sep)[k]
  {
    if |s| > 0 {
      SplitKeepsOut(s[1..], sep, c);
    }
  }

  lemma FormatNameOnOneLine(raw: string)
    requires '\n' !in raw
    ensures '\n' !in FormatName(raw)
  {
    var parts := Split(raw, ';');
    SplitKeepsOut(raw, ';', '\n');
    TrimKeepsOut(parts[0], '\n');
    if |parts| > 1 {
      TrimKeepsOut(parts[1], '\n');
      TrimKeepsOut(Trim(parts[1]) + " " + Trim(parts[0]), '\n');
    }
  }

  lemma {:induction false} NamesOnOneLine(lines: seq<string>, fn: string, n: string)
    requires forall k :: 0 <= k < |lines| ==> '\n' !in lines[k]
    requires '\n' !in fn && '\n' !in n
    ensures '\n' !in LastFN(lines, fn) && '\n' !in LastN(lines, n)
  {
    if |lines| > 0 {
      var s := Trim(lines[0]);
      TrimKeepsOut(lines[0], '\n');
      if "N:" <= ToUpper(s) {
        TrimKeepsOut(s[2..], '\n');
        FormatNameOnOneLine(Trim(s[2..]));
      } else if "FN:" <= ToUpper(s) {
        TrimKeepsOut(s[3..], '\n');
      }
      var line := ReadLine(lines[0]);
      NamesOnOneLine(lines[1..], if line.FullName? then line.fn else fn, if line.Formatted? then line.n else n);
    }
  }

  /** No text makes the parser return a name with a line break. */
  lemma ParsedNameOnOneLine(text: string)
    ensures '\n' !in Parsed(text).name
  {
    var lines := Split(text, '\n');
    NamesOnOneLine(lines, "", "");
    TrimKeepsOut(LastFN(lines, ""), '\n');
    TrimKeepsOut(LastN(lines, ""), '\n');
  }

  predicate FirstComponentsBlank(name: string)
  {
    var parts := Split(name, ';');
    |parts| > 1 && Trim(parts[0]) == "" && Trim(parts[1]) == ""
  }

  /** The name survives the round trip exactly when it has no line break and no semicolon, or at
      least nothing in its first two semicolon-separated components. */
  lemma NameSurvives(c: Contact)
    requires |TelLines(c.phones)| > 0 && forall k :: 0 <= k < |c.phones| ==> CleanPhone(c.phones[k])
    ensures Parsed(Printed(c)[0].vcard).name == DisplayName(c.name) <==>
            '\n' !in Trim(c.name) && (';' !in Trim(c.name) || FirstComponentsBlank(Trim(c.name)))
  {
    var name := DisplayName(c.name);
    if '\n' in Trim(c.name) {
      ParsedNameOnOneLine(Printed(c)[0].vcard);
    } else {
      RoundTrip(c);
      DisplayNameShape(c.name);
      FormatNameKeeps(name);
      if FormatName(name) == name {
        TrimOfTrimmed(name);
      } else {
        TrimmedFormatName(name);
      }
    }
  }

  lemma TrimmedFormatName(raw: string)
    requires Trimmed(raw)
    ensures Trim(FormatName(raw)) == FormatName(raw)
  {
    var parts := Split(raw, ';');
    TrimmedTrim(parts[0]);
    if |parts| > 1 {
      TrimmedTrim(parts[1]);
      TrimmedTrim(Trim(parts[1]) + " " + Trim(parts[0]));
    }
    TrimOfTrimmed(FormatName(raw));
  }

  /** The names that do not survive: `Family;Given` comes back as `Given Family`. */
  lemma NameComesBackSwapped(c: Contact, family: string, given: string)
    requires Clean(c) && |TelLines(c.phones)| > 0 && c.name == family + ";" + given
    requires family != "" && given != "" && Trimmed(family) && Trimmed(given) && ';' !in family && ';' !in given
    ensures Parsed(Printed(c)[0].vcard).name == given + " " + family
  {
    TrimOfTrimmed(c.name);
    RoundTrip(c);
    assert c.name == family + ";" + given + "";
    FormatNameSwaps(family, given, "");
    TrimOfTrimmed(given + " " + family);
  }

  /** The shortest: `a;b` comes back as `b a`. */
  lemma SemicolonSwapsName(c: Contact, family: string, given: string)
    requires family == "a" && given == "b" && c.name == family + ";" + given && Clean(c) && |TelLines(c.phones)| > 0
    ensures Parsed(Printed(c)[0].vcard).name == given + " " + family == "b a"
  {
    NameComesBackSwapped(c, family, given);
  }

  /** The text of a card, and the name shown with it. */
  lemma PrintedCard(c: Contact)
    requires |TelLines(c.phones)| > 0
    ensures var name := if Trim(c.name) == "" then "Contact" else Trim(c.name);
            && |Printed(c)| == 1 && Printed(c)[0].displayName == name
            && Printed(c)[0].vcard == "BEGIN:VCARD\nVERSION:3.0\nN:" + name + "\n" + Join(TelLines(c.phones), '\n')
                                      + "\nEND:VCARD"
  {
    var name, body := DisplayName(c.name), Join(TelLines(c.phones), '\n');
    CardTextParts("BEGIN:VCARD", "VERSION:3.0", name, body, "END:VCARD", "BEGIN:VCARD\nVERSION:3.0\nN:", "\nEND:VCARD");
  }

  lemma CardTextParts(begin: string, version: string, name: string, body: string, end: string,
                      head: string, foot: string)
    requires head == begin + "\n" + version + "\nN:" && foot == "\n" + end
    ensures CardText(begin, version, "N:" + name, body, end) == head + name + "\n" + body + foot
  {
    var newLine, n := "\n", "N:";
    assert "\nN:" == newLine + n;
    assert CardText(begin, version, n + name, body, end)
        == begin + newLine + version + newLine + n + name + newLine + body + newLine + end;
  }

  /** The TEL lines: type parameters, the id if there is one, and the number; blank numbers are left
      out. */
  lemma PrintedPhone(p: Phone, number: string, waId: string)
    requires number == Trim(p.number) && waId == Trim(p.waId)
    ensures TelLines([p]) == if number == "" then []
                             else if waId == "" then ["TEL;type=CELL;type=VOICE:" + number]
                             else ["TEL;type=CELL;type=VOICE;waid=" + waId + ":" + number]
  {
    assert [p][1..] == [];
    var tel, waid := TEL, ";waid=";
    assert tel + ":" == "TEL;type=CELL;type=VOICE:" && tel + waid == "TEL;type=CELL;type=VOICE;waid=";
    assert tel + waid + waId + ":" + number == TelHead(p.waId) + ":" + number || number == "" || waId == "";
  }
}
