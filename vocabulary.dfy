/**
 * How the three vocabularies relate: the unified `Command` parser accepts
 * exactly the strings that the client or the server parser accepts, and no
 * string is accepted by both direction-specific parsers.
 */
module Vocabulary {
  import Commands
  import ClientCommands
  import ServerCommands

  /** The unified vocabulary is the disjoint union of the two directions. */
  lemma UnionOfDirections(s: string)
    ensures Commands.FromStr(s).Ok? <==> ClientCommands.FromStr(s).Ok? || ServerCommands.FromStr(s).Ok?
    ensures !(ClientCommands.FromStr(s).Ok? && ServerCommands.FromStr(s).Ok?)
  {
  }

  /** The two direction-specific renderers agree with the unified one on shared verbs. */
  lemma ClientRenderAgrees(c: ClientCommands.ClientCommand)
    ensures exists u :: Commands.Render(u) == ClientCommands.Render(c)
  {
    match c
    case SEND => assert Commands.Render(Commands.SEND) == ClientCommands.Render(c);
    case SUBSCRIBE => assert Commands.Render(Commands.SUBSCRIBE) == ClientCommands.Render(c);
    case UNSUBSCRIBE => assert Commands.Render(Commands.UNSUBSCRIBE) == ClientCommands.Render(c);
    case BEGIN => assert Commands.Render(Commands.BEGIN) == ClientCommands.Render(c);
    case COMMIT => assert Commands.Render(Commands.COMMIT) == ClientCommands.Render(c);
    case ABORT => assert Commands.Render(Commands.ABORT) == ClientCommands.Render(c);
    case ACK => assert Commands.Render(Commands.ACK) == ClientCommands.Render(c);
    case NACK => assert Commands.Render(Commands.NACK) == ClientCommands.Render(c);
    case DISCONNECT => assert Commands.Render(Commands.DISCONNECT) == ClientCommands.Render(c);
    case CONNECT => assert Commands.Render(Commands.CONNECT) == ClientCommands.Render(c);
    case STOMP => assert Commands.Render(Commands.STOMP) == ClientCommands.Render(c);
  }
}
