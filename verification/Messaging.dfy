/**
 Handlers of a topic and the fate of a message: dispatched to every handler that can decode it, then
 acknowledged or handed back, once, whatever the handlers do.
 */
module Messaging {
  type Topic = string

  type Payload = seq<int>

  datatype Outcome = Handled | Rejected | Panicked

  // A handler as its adapter sees it: whether the payload decodes to its message type, and what becomes of
  // handling it.
  datatype Handler = Handler(name: string, decodes: Payload -> bool, handle: Payload -> Outcome)

  type Handlers = map<string, Handler>

  // The first handler that panics ends the dispatch; nothing else does.
  datatype Dispatched = Done | Failed(errors: nat) | Panic

  ghost predicate Ran(h: Handler, payload: Payload, outcome: Outcome) {
    h.decodes(payload) && h.handle(payload) == outcome
  }

  // The handlers, among those asked, that handle the message with an error.
  ghost function Rejecting(handlers: Handlers, asked: set<string>, payload: Payload): set<string>
    requires asked <= handlers.Keys
  {
    set name | name in asked && Ran(handlers[name], payload, Outcome.Rejected)
  }

  lemma AskingOneMore(handlers: Handlers, asked: set<string>, payload: Payload, name: string)
    requires asked <= handlers.Keys && name in handlers && name !in asked
    ensures |Rejecting(handlers, asked + {name}, payload)| ==
      |Rejecting(handlers, asked, payload)| + if Ran(handlers[name], payload, Outcome.Rejected) then 1 else 0
  {
    var before := Rejecting(handlers, asked, payload);
    assert Rejecting(handlers, asked + {name}, payload) ==
      if Ran(handlers[name], payload, Outcome.Rejected) then before + {name} else before;
  }

  lemma AskingNobody(handlers: Handlers, payload: Payload)
    ensures Rejecting(handlers, {}, payload) == {}
  {
  }

  // Every handler that can decode the message handles it, and there is at least one handler.
  ghost predicate Settles(handlers: Handlers, payload: Payload) {
    && handlers != map[]
    && forall name :: name in handlers && handlers[name].decodes(payload) ==> handlers[name].handle(payload) == Handled
  }

  lemma RejectionUnsettles(handlers: Handlers, payload: Payload)
    requires Rejecting(handlers, handlers.Keys, payload) != {}
    ensures !Settles(handlers, payload)
  {
    var name :| name in Rejecting(handlers, handlers.Keys, payload);
    assert handlers[name].decodes(payload);
  }

  // With one handler, which can decode the message, that handler decides.
  lemma SoleHandlerDecides(h: Handler, payload: Payload)
    requires h.decodes(payload)
    ensures Settles(map[h.name := h], payload) <==> h.handle(payload) == Handled
  {
    assert h.name in map[h.name := h];
  }

  datatype Answer = Ack | Nack

  // A message on loan from a queue, and the answers the queue has had for it.
  class BackMessage {
    const payload: Payload
    var answers: seq<Answer>

    constructor (payload: Payload)
      ensures this.payload == payload && answers == []
    {
      this.payload := payload;
      answers := [];
    }

    method Ack()
      modifies this
      ensures answers == old(answers) + [Answer.Ack]
    {
      answers := answers + [Answer.Ack];
    }

    method Nack()
      modifies this
      ensures answers == old(answers) + [Answer.Nack]
    {
      answers := answers + [Answer.Nack];
    }
  }

  class TopicHandler {
    var handlers: map<Topic, Handlers>

    constructor ()
      ensures handlers == map[]
    {
      handlers := map[];
    }

    function HandlersOf(topic: Topic): Handlers
      reads this
    {
      if topic in handlers then handlers[topic] else map[]
    }

    // A name can be registered once per topic; a second registration panics and changes nothing.
    method Register(topic: Topic, h: Handler) returns (panicked: bool)
      modifies this
      ensures panicked <==> h.name in old(HandlersOf(topic))
      ensures var before := old(HandlersOf(topic));
        HandlersOf(topic) == before[h.name := if panicked then before[h.name] else h]
      ensures forall t :: t != topic ==> HandlersOf(t) == old(HandlersOf(t))
    {
      if topic !in handlers {
        handlers := handlers[topic := map[]];
      }
      if h.name in handlers[topic] {
        return true;
      }
      handlers := handlers[topic := handlers[topic][h.name := h]];
      return false;
    }

    // The handlers run in whatever order the map yields them. seen are those that were asked.
    method Dispatch(topic: Topic, payload: Payload) returns (r: Dispatched, ghost seen: set<string>)
      ensures r.Done? <==> Settles(HandlersOf(topic), payload)
      ensures seen <= HandlersOf(topic).Keys
      ensures !r.Panic? ==> seen == HandlersOf(topic).Keys
      ensures r.Panic? ==> exists name :: name in seen && Ran(HandlersOf(topic)[name], payload, Panicked)
      ensures r.Failed? && HandlersOf(topic) != map[] ==>
        r.errors == |Rejecting(HandlersOf(topic), HandlersOf(topic).Keys, payload)| > 0
    {
      hide Rejecting;
      var hs := HandlersOf(topic);
      seen := {};
      if hs == map[] {
        return Failed(1), seen;
      }
      AskingNobody(hs, payload);
      var errs := 0;
      var left := hs.Keys;
      while left != {}
        invariant left <= hs.Keys && seen == hs.Keys - left
        invariant forall name :: name in seen ==> !Ran(hs[name], payload, Panicked)
        invariant errs == |Rejecting(hs, seen, payload)|
        invariant errs == 0 ==>
          forall name :: name in seen && hs[name].decodes(payload) ==> hs[name].handle(payload) == Handled
        decreases left
      {
        var name :| name in left;
        left := left - {name};
        AskingOneMore(hs, seen, payload, name);
        seen := seen + {name};
        var h := hs[name];
        if !h.decodes(payload) {
          continue;
        }
        match h.handle(payload) {
          case Handled =>
          case Rejected =>
            errs := errs + 1;
          case Panicked =>
            return Panic, seen;
        }
      }
      assert seen == hs.Keys;
      if errs > 0 {
        RejectionUnsettles(hs, payload);
        return Failed(errs), seen;
      }
      return Done, seen;
    }

    // Exactly one answer reaches the queue: an ack if every handler that can decode the message handled it,
    // a nack otherwise, a recovered panic included.
    method SafeProcessMessage(topic: Topic, m: BackMessage)
      modifies m
      ensures m.answers == old(m.answers) + [if Settles(HandlersOf(topic), m.payload) then Answer.Ack else Answer.Nack]
    {
      var r, _ := Dispatch(topic, m.payload);
      match r
      case Panic => m.Nack();
      case Failed(_) => m.Nack();
      case Done => m.Ack();
    }
  }
}
