/**
 * The client-direction vocabulary (`ClientCommand`): the verbs a client
 * sends, a case-sensitive parser and a renderer that prints the variant name.
 */
module ClientCommands {
  import opened Wrappers

  datatype ClientCommand =
    | SEND | SUBSCRIBE | UNSUBSCRIBE | BEGIN | COMMIT | ABORT | ACK | NACK
    | DISCONNECT | CONNECT | STOMP

  /** True of the non-empty strings made of the letters `A` to `Z` only. */
  predicate IsUpperWord(s: string)
  {
    |s| > 0 && forall i | 0 <= i < |s| :: 'A' <= s[i] <= 'Z'
  }

  /** `Display::fmt`: the variant's identifier, as the derived `Debug` prints it. */
  function Render(c: ClientCommand): (r: string)
    ensures IsUpperWord(r)
  {
    match c
    case SEND => "SEND"
    case SUBSCRIBE => "SUBSCRIBE"
    case UNSUBSCRIBE => "UNSUBSCRIBE"
    case BEGIN => "BEGIN"
    case COMMIT => "COMMIT"
    case ABORT => "ABORT"
    case ACK => "ACK"
    case NACK => "NACK"
    case DISCONNECT => "DISCONNECT"
    case CONNECT => "CONNECT"
    case STOMP => "STOMP"
  }

  /** The error text `from_str` formats for a string it does not recognise. */
  function ParseError(s: string): string
  {
    "'" + s + "' is not a valid value for ClientCommand"
  }

  /**
   * `FromStr::from_str`: an exact, case-sensitive match. COMMIT has no arm,
   * so `"COMMIT"` falls through to the error case like any other string.
   */
  function FromStr(s: string): (r: Result<ClientCommand, string>)
    ensures r.Ok? ==> Render(r.value) == s && r.value != COMMIT
    ensures r.Err? ==> r.error == ParseError(s)
  {
    match s
    case "SEND" => Ok(SEND)
    case "SUBSCRIBE" => Ok(SUBSCRIBE)
    case "UNSUBSCRIBE" => Ok(UNSUBSCRIBE)
    case "BEGIN" => Ok(BEGIN)
    case "ABORT" => Ok(ABORT)
    case "ACK" => Ok(ACK)
    case "NACK" => Ok(NACK)
    case "DISCONNECT" => Ok(DISCONNECT)
    case "CONNECT" => Ok(CONNECT)
    case "STOMP" => Ok(STOMP)
    case _ => Err(ParseError(s))
  }

  /** Parsing the rendering gives back the variant, for every variant but COMMIT. */
  lemma ParseRender(c: ClientCommand)
    requires c != COMMIT
    ensures FromStr(Render(c)) == Ok(c)
  {
    match c
    case SEND =>
    case SUBSCRIBE =>
    case UNSUBSCRIBE =>
    case BEGIN =>
    case ABORT =>
    case ACK =>
    case NACK =>
    case DISCONNECT =>
    case CONNECT =>
    case STOMP =>
  }

  /** COMMIT is a variant and renders as `"COMMIT"`, yet that string is rejected. */
  lemma CommitNotParsed()
    ensures Render(COMMIT) == "COMMIT"
    ensures FromStr(Render(COMMIT)) == Err(ParseError("COMMIT"))
  {
  }

  /** A string is accepted exactly when it is the rendering of a variant other than COMMIT. */
  lemma AcceptedIff(s: string)
    ensures FromStr(s).Ok? <==> exists c :: c != COMMIT && Render(c) == s
  {
    if c :| c != COMMIT && Render(c) == s {
      ParseRender(c);
    }
  }

  /** Distinct accepted strings give distinct variants. */
  lemma FromStrInjective(s1: string, s2: string)
    requires FromStr(s1).Ok? && FromStr(s2).Ok?
    requires FromStr(s1) == FromStr(s2)
    ensures s1 == s2
  {
  }

  /** The server-direction verbs, and case variants of client verbs, are rejected. */
  lemma RejectsServerVerbsAndCase()
    ensures FromStr("CONNECTED") == Err(ParseError("CONNECTED"))
    ensures FromStr("MESSAGE") == Err(ParseError("MESSAGE"))
    ensures FromStr("RECEIPT") == Err(ParseError("RECEIPT"))
    ensures FromStr("ERROR") == Err(ParseError("ERROR"))
    ensures FromStr("connect") == Err(ParseError("connect"))
    ensures FromStr("CONNECT ") == Err(ParseError("CONNECT "))
  {
  }

  /**
   * The evidently intended parser: the same match with the missing
   * `"COMMIT"` arm added.
   */
  function FromStrWithCommit(s: string): (r: Result<ClientCommand, string>)
    ensures r.Ok? ==> Render(r.value) == s
    ensures r.Err? ==> r.error == ParseError(s)
    ensures s != "COMMIT" ==> r == FromStr(s)
  {
    if s == "COMMIT" then Ok(COMMIT) else FromStr(s)
  }

  /** With the missing arm, parsing inverts rendering for every variant. */
  lemma ParseRenderWithCommit(c: ClientCommand)
    ensures FromStrWithCommit(Render(c)) == Ok(c)
  {
    if c != COMMIT {
      ParseRender(c);
    }
  }
}
