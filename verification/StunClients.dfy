/**
  The rendezvous client: the two messages it sends to the server, and what a received
  datagram does in each connection state.
 */
module StunClients {
  import opened Wrappers
  import opened Utf8
  import opened Addresses
  import opened StunCodec

  datatype ConnectionState = NoConnection | StunServerWait | PeerConnectionEstablished

  /** `receiving` turns false when an exception ends the receive thread. */
  datatype Client = Client(
    id: string,
    dest: string,
    state: ConnectionState,
    destination: Option<(string, int)>,
    transactions: map<nat, MessageType>,
    receiving: bool)

  function NewClient(id: string, dest: string): Client {
    Client(id, dest, NoConnection, None, map[], true)
  }

  function IdIndication(id: string, draw: nat): Message {
    Message(Some(Indication), Some(draw), id)
  }

  function PeerRequest(dest: string, draw: nat): Message {
    Message(Some(Request), Some(draw), dest)
  }

  /** Both messages are generated, then the client waits for the server. */
  function Started(c: Client, indicationId: nat, requestId: nat): Client {
    c.(transactions := c.transactions[indicationId := Indication][requestId := Request], state := StunServerWait)
  }

  /** The message answers a request of this client. */
  predicate AnswersRequest(c: Client, m: Message) {
    && m.transactionId.Some? && m.transactionId.value in c.transactions
    && c.transactions[m.transactionId.value] == Request
  }

  /** One turn of the receive thread. */
  function Received(c: Client, buffer: bytes): Client {
    if !c.receiving then c
    else
      match c.state
      case NoConnection => c
      case StunServerWait =>
        (match DecodeMessage(buffer)
         case None => c.(receiving := false)
         case Some(m) =>
           if AnswersRequest(c, m) && m.messageType == Some(SuccessResponse) then
             match ParseAddress(m.payload)
             case None => c.(receiving := false)
             case Some(address) => c.(destination := Some(address), state := PeerConnectionEstablished)
           else c)
      case PeerConnectionEstablished =>
        if Decode(buffer) == None then c.(receiving := false) else c
  }

  class StunClient {
    const id: string
    const destPeerId: string
    var connectionState: ConnectionState
    var destination: Option<(string, int)>
    var transactions: map<nat, MessageType>
    var receiving: bool

    function View(): Client
      reads this
    {
      Client(id, destPeerId, connectionState, destination, transactions, receiving)
    }

    constructor (id: string, dest: string)
      ensures View() == NewClient(id, dest)
    {
      this.id, destPeerId := id, dest;
      connectionState, destination, transactions, receiving := NoConnection, None, map[], true;
    }

    /** The start of `__send_thread`: both messages, and the new state; None where encoding raises. */
    method Start(indicationId: nat, requestId: nat) returns (im: Option<bytes>, rm: Option<bytes>)
      modifies this`transactions, this`connectionState
      ensures im == EncodeMessage(IdIndication(id, indicationId))
      ensures rm == EncodeMessage(PeerRequest(destPeerId, requestId))
      ensures im.Some? && rm.Some? ==> View() == Started(old(View()), indicationId, requestId)
    {
      transactions := transactions[indicationId := Indication];
      im := EncodeMessage(IdIndication(id, indicationId));
      rm := EncodeMessage(PeerRequest(destPeerId, requestId));
      if im == None {
        return;
      }
      transactions := transactions[requestId := Request];
      if rm == None {
        return;
      }
      connectionState := StunServerWait;
    }

    method Receive(buffer: bytes)
      requires receiving
      modifies this`connectionState, this`destination, this`receiving
      ensures View() == Received(old(View()), buffer)
    {
      if connectionState == StunServerWait {
        var rm := DecodeMessage(buffer);
        if rm == None {
          receiving := false;
          return;
        }
        var rmId := rm.value.transactionId;
        if rmId.Some? && rmId.value in transactions && transactions[rmId.value] == Request {
          if rm.value.messageType == Some(SuccessResponse) {
            var address := ParseAddress(rm.value.payload);
            if address == None {
              receiving := false;
              return;
            }
            destination := address;
            connectionState := PeerConnectionEstablished;
          }
        }
      } else if connectionState == PeerConnectionEstablished {
        if Decode(buffer) == None {
          receiving := false;
        }
      }
    }
  }

  /** The datagram is a success response with the id of a request of this client. */
  predicate IsAnswer(c: Client, buffer: bytes) {
    DecodeMessage(buffer).Some?
    && var m := DecodeMessage(buffer).value;
       && m.messageType == Some(SuccessResponse)
       && exists id :: id in c.transactions && c.transactions[id] == Request && m.transactionId == Some(id)
  }

  /** What a datagram does to a waiting client, each case exactly when: it stops on one that does
      not decode and on an answer that holds no address, connects on an answer that holds one,
      to that address, and is left alone by every other, indications among them. */
  lemma WaitingIff(c: Client, buffer: bytes)
    requires c.receiving && c.state == StunServerWait
    ensures var t := Received(c, buffer);
            && (!t.receiving <==>
                  DecodeMessage(buffer) == None
                  || (IsAnswer(c, buffer) && ParseAddress(DecodeMessage(buffer).value.payload) == None))
            && (t.state == PeerConnectionEstablished <==>
                  IsAnswer(c, buffer) && ParseAddress(DecodeMessage(buffer).value.payload).Some?)
            && (t.state == PeerConnectionEstablished ==>
                  && t == c.(destination := t.destination, state := PeerConnectionEstablished)
                  && t.destination == ParseAddress(DecodeMessage(buffer).value.payload))
            && (t.state != PeerConnectionEstablished ==> t == c.(receiving := t.receiving))
  {
    hide DecodeMessage, ParseAddress;
  }

  /** A client in another state: connected, it stops exactly on bytes that are not text; before it
      waits and after it stopped nothing changes it. */
  lemma NotWaitingIff(c: Client, buffer: bytes)
    requires !c.receiving || c.state != StunServerWait
    ensures Received(c, buffer)
            == c.(receiving := c.receiving && (c.state == PeerConnectionEstablished ==> Decode(buffer).Some?))
  {
    hide Decode, DecodeMessage;
  }
}
