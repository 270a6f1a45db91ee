/** WhatsApp addresses, `user@server`. */
module Jid {
  import opened Text

  datatype JID = JID(user: string, server: string)

  const USER_SERVER := "s.whatsapp.net"
  const LID_SERVER := "lid"
  const EMPTY := JID("", "")

  function Print(j: JID): string { if j.user != "" then j.user + "@" + j.server else j.server }

  /** A user part with an agent or a device (a dot or a colon) is not read here. */
  function ParseJID(s: string): Option<JID>
  {
    var parts := Split(s, '@');
    if |parts| == 1 then Some(JID("", parts[0]))
    else if '.' in parts[0] || ':' in parts[0] then None
    else Some(JID(parts[0], parts[1]))
  }

  /** Printed with a single `@` at most. */
  predicate OneAt(j: JID) { '@' !in j.user && '@' !in j.server }

  predicate Plain(j: JID) { OneAt(j) && '.' !in j.user && ':' !in j.user }

  /** A printed address is read back as it was if its user is plain, and otherwise not at all. */
  lemma ParseOfPrint(j: JID)
    requires OneAt(j)
    ensures ParseJID(Print(j)) == if Plain(j) then Some(j) else None
  {
    if j.user == "" {
      SplitOfPlain(j.server, '@');
    } else {
      SplitAppend(j.user, j.server, '@');
      SplitOfPlain(j.user, '@');
      SplitOfPlain(j.server, '@');
    }
  }

  /** An address with an `@` in its user is read back as another one, if at all. */
  lemma ParsesToItselfExactly(j: JID)
    requires '@' !in j.server
    ensures ParseJID(Print(j)) == Some(j) <==> Plain(j)
  {
    if '@' !in j.user {
      ParseOfPrint(j);
    }
  }

  lemma ParsesToFirstTwo(a: string, b: string, server: string)
    requires a != "" && Plain(JID(a, b))
    ensures ParseJID(Print(JID(a + "@" + b, server))) == Some(JID(a, b))
  {
    var rest := b + "@" + server;
    assert a + "@" + b + "@" + server == a + ['@'] + rest && rest == b + ['@'] + server;
    SplitAppend(a, rest, '@');
    SplitAppend(b, server, '@');
    SplitOfPlain(a, '@');
    SplitOfPlain(b, '@');
  }

  /** How an address is written: a plain user, an `@` and its server. */
  lemma WrittenAddress(user: string, server: string)
    requires user != "" && Plain(JID(user, server))
    ensures Print(JID(user, server)) == user + "@" + server
    ensures ParseJID(user + "@" + server) == Some(JID(user, server))
    ensures '@' !in server ==> ParseJID(server) == Some(JID("", server))
    ensures JID(user, USER_SERVER).server == "s.whatsapp.net" && LID_SERVER == "lid"
  {
    ParseOfPrint(JID(user, server));
    SplitOfPlain(server, '@');
  }
}
