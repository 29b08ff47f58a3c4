/**
 * The server-direction vocabulary (`ServerCommand`): the verbs a server
 * sends and a case-sensitive parser. The source gives this enum no
 * `Display`, so it has no renderer; `Name` below is the variant's identifier,
 * used only to state what the parser accepts.
 */
module ServerCommands {
  import opened Wrappers

  datatype ServerCommand = CONNECTED | MESSAGE | RECEIPT | ERROR

  /** The identifier of a variant, as written in the enum. */
  function Name(c: ServerCommand): string
  {
    match c
    case CONNECTED => "CONNECTED"
    case MESSAGE => "MESSAGE"
    case RECEIPT => "RECEIPT"
    case ERROR => "ERROR"
  }

  /** The error text `from_str` formats for a string it does not recognise. */
  function ParseError(s: string): string
  {
    "'" + s + "' is not a valid value for ServerCommand"
  }

  /** `FromStr::from_str`: an exact, case-sensitive match against the four verbs. */
  function FromStr(s: string): (r: Result<ServerCommand, string>)
    ensures r.Ok? ==> Name(r.value) == s
    ensures r.Err? ==> r.error == ParseError(s)
  {
    match s
    case "CONNECTED" => Ok(CONNECTED)
    case "MESSAGE" => Ok(MESSAGE)
    case "RECEIPT" => Ok(RECEIPT)
    case "ERROR" => Ok(ERROR)
    case _ => Err(ParseError(s))
  }

  /**
   * Successful parses are a bijection onto the enum: every variant is
   * produced by its own name and by no other string.
   */
  lemma FromStrBijective(c: ServerCommand, s: string)
    ensures FromStr(Name(c)) == Ok(c)
    ensures FromStr(s) == Ok(c) <==> s == Name(c)
  {
    match c
    case CONNECTED =>
    case MESSAGE =>
    case RECEIPT =>
    case ERROR =>
  }

  /** Client-direction verbs and case variants are rejected. */
  lemma RejectsClientVerbsAndCase()
    ensures FromStr("SEND") == Err(ParseError("SEND"))
    ensures FromStr("CONNECT") == Err(ParseError("CONNECT"))
    ensures FromStr("COMMIT") == Err(ParseError("COMMIT"))
    ensures FromStr("message") == Err(ParseError("message"))
    ensures FromStr(" ERROR") == Err(ParseError(" ERROR"))
  {
  }
}
