/** The bus wrapper: correlation, addressing, and what a client makes of an answer. */
module MessageBus {
  import opened Wrappers
  import opened Messages

  /** A message object; its meta data can be overwritten even through a constant reference. */
  class Message {
    var meta: Meta
    var userData: string

    function View(): Packet
      reads this
    {
      Packet(meta, userData)
    }

    constructor (p: Packet)
      ensures View() == p
    {
      meta, userData := p.meta, p.userData;
    }
  }

  /** The meta data a request leaves with. */
  function Addressed(m: Meta, actor: string, freshId: string): Meta {
    m.(correlationId := if m.correlationId == "" then freshId else m.correlationId, from := actor)
  }

  /** The meta data an answer leaves with. */
  function Answering(m: Meta, req: Meta): Meta {
    m.(correlationId := req.correlationId, to := req.from, from := req.to)
  }

  /** What the client gets for the bus's reply to its request. */
  function ClientResult(reply: Expected<Wire>): Expected<Packet> {
    match reply
    case Err(text) => Err(text)
    case Ok(w) =>
      var p := FromWire(w);
      if p.meta.status == StatusError then Err(p.userData) else Ok(p)
  }

  class Bus {
    const actorName: string
    ghost var requested: seq<Wire>  // what was handed to the bus, in order
    ghost var replied: seq<Wire>

    constructor (actorName: string)
      ensures this.actorName == actorName && requested == [] && replied == []
    {
      this.actorName, requested, replied := actorName, [], [];
    }

    /** `freshId` is the id that would be generated; `reply` is how the request on the bus ends: a
        message, or the text of an exception. */
    method Send(msg: Message, freshId: string, reply: Expected<Wire>) returns (r: Expected<Packet>)
      modifies this, msg`meta
      ensures msg.meta == Addressed(old(msg.meta), actorName, freshId)
      ensures requested == old(requested) + [ToWire(msg.View())] && replied == old(replied)
      ensures msg.meta.correlationId ==
        if old(msg.meta).correlationId == "" then freshId else old(msg.meta).correlationId
      ensures msg.meta.from == actorName
      ensures msg.meta == old(msg.meta).(correlationId := msg.meta.correlationId, from := actorName)
      ensures r == ClientResult(reply)
      ensures reply.Err? ==> r == Err(reply.error)
      ensures reply.Ok? ==>
        var p := FromWire(reply.value);
        r == if p.meta.status == StatusError then Err(p.userData) else Ok(p)
      ensures freshId != "" ==> msg.meta.correlationId != ""
    {
      if msg.meta.correlationId == "" {
        msg.meta := msg.meta.(correlationId := freshId);
      }
      msg.meta := msg.meta.(from := actorName);
      requested := requested + [ToWire(msg.View())];
      if reply.Err? {
        return Err(reply.error);
      }
      var m := FromWire(reply.value);
      if m.meta.status == StatusError {
        return Err(m.userData);
      }
      return Ok(m);
    }

    /** `posted` tells whether the bus took the reply or threw; either way it is handed over once. */
    method Reply(req: Message, answ: Message, posted: Expected<()>) returns (r: Expected<()>)
      requires req != answ
      modifies this, answ`meta
      ensures answ.meta == Answering(old(answ.meta), req.meta)
      ensures answ.meta.correlationId == req.meta.correlationId
      ensures answ.meta.to == req.meta.from && answ.meta.from == req.meta.to
      ensures answ.meta.status == old(answ.meta).status && answ.userData == old(answ.userData)
      ensures replied == old(replied) + [ToWire(answ.View())] && requested == old(requested)
      ensures r == posted
    {
      answ.meta := answ.meta.(correlationId := req.meta.correlationId);
      answ.meta := answ.meta.(to := req.meta.from);
      answ.meta := answ.meta.(from := req.meta.to);
      replied := replied + [ToWire(answ.View())];
      return posted;
    }
  }
}
