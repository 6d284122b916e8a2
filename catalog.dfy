/**
 * The localization catalog: the `messages` array of the catalog file, its two lookups
 * (`some` by id and `find` by translation), the retry loop that draws a fresh id, and the
 * in-place `push` of a new message.
 */
module Catalog {
  import opened Wrappers

  /** One catalog entry, `{ id, translation }`. */
  datatype Message = Message(id: string, translation: string)

  /** `messages.some(message => message.id === id)` */
  function HasId(messages: seq<Message>, id: string): (b: bool)
    ensures b <==> exists i :: 0 <= i < |messages| && messages[i].id == id
  {
    if messages == [] then false
    else messages[0].id == id || HasId(messages[1..], id)
  }

  /** The ids are pairwise distinct. */
  ghost predicate UniqueIds(messages: seq<Message>) {
    forall i, j :: 0 <= i < j < |messages| ==> messages[i].id != messages[j].id
  }

  /** `messages.find(message => message.translation === t)`, as the index of the message
      found: the first one whose translation is t, or None when there is none. */
  function FindByTranslation(messages: seq<Message>, t: string): (r: Option<nat>)
    ensures r.Some? ==> r.value < |messages| && messages[r.value].translation == t
    ensures r.Some? ==> forall j :: 0 <= j < r.value ==> messages[j].translation != t
    ensures r.None? <==> forall j :: 0 <= j < |messages| ==> messages[j].translation != t
  {
    if messages == [] then None
    else if messages[0].translation == t then Some(0)
    else
      match FindByTranslation(messages[1..], t)
      case None => None
      case Some(j) => Some(j + 1)
  }

  /** The index of the first draw that no message has as its id, or |draws| when every
      draw supplied is taken. */
  function FirstFreshDraw(messages: seq<Message>, draws: seq<string>): (k: nat)
    ensures k <= |draws|
  {
    if draws == [] then 0
    else if !HasId(messages, draws[0]) then 0
    else 1 + FirstFreshDraw(messages, draws[1..])
  }

  /** FirstFreshDraw stops at the first draw that is free: every draw before it is an id
      already in the catalog, and the one it stops at, if any, is not. */
  lemma {:induction false} FirstFreshDrawIsFirst(messages: seq<Message>, draws: seq<string>)
    ensures forall j :: 0 <= j < FirstFreshDraw(messages, draws) ==> HasId(messages, draws[j])
    ensures FirstFreshDraw(messages, draws) < |draws| ==>
      !HasId(messages, draws[FirstFreshDraw(messages, draws)])
    decreases |draws|
  {
    if draws != [] && HasId(messages, draws[0]) {
      var rest := draws[1..];
      FirstFreshDrawIsFirst(messages, rest);
      forall j | 1 <= j < FirstFreshDraw(messages, draws)
        ensures HasId(messages, draws[j])
      {
        assert draws[j] == rest[j - 1];
      }
    }
  }

  /** The id the retry loop settles on: the first draw is the candidate, and a new one is
      drawn for as long as some message already has the candidate as its id. None when every
      draw supplied is taken. */
  function FreshId(messages: seq<Message>, draws: seq<string>): Option<string>
  {
    var k := FirstFreshDraw(messages, draws);
    if k < |draws| then Some(draws[k]) else None
  }

  /** The id the retry loop settles on is one of the draws, and no message has it. */
  lemma FreshIdIsFresh(messages: seq<Message>, draws: seq<string>)
    ensures FreshId(messages, draws).Some? ==>
      && FreshId(messages, draws).value in draws
      && forall i :: 0 <= i < |messages| ==> messages[i].id != FreshId(messages, draws).value
    ensures FreshId(messages, draws).None? ==>
      forall j :: 0 <= j < |draws| ==> HasId(messages, draws[j])
  {
    FirstFreshDrawIsFirst(messages, draws);
  }

  /** The retry loop: take the first draw as the candidate, and draw again while some message
      has the candidate as its id. The loop gives up, with None, when the draws run out. */
  method AllocateId(messages: seq<Message>, draws: seq<string>) returns (id: Option<string>)
    ensures id == FreshId(messages, draws)
    ensures id.Some? ==> !HasId(messages, id.value)
  {
    if |draws| == 0 {
      return None;
    }
    var k := 0;
    var candidate := draws[0];
    FirstFreshDrawIsFirst(messages, draws);
    while HasId(messages, candidate)
      invariant 0 <= k < |draws| && candidate == draws[k]
      invariant k <= FirstFreshDraw(messages, draws)
      decreases |draws| - k
    {
      if k + 1 == |draws| {
        return None;
      }
      k := k + 1;
      candidate := draws[k];
    }
    id := Some(candidate);
  }

  /** Appending a message whose id no message has keeps the ids pairwise distinct. */
  lemma AppendFreshKeepsUniqueIds(messages: seq<Message>, m: Message)
    requires UniqueIds(messages)
    requires !HasId(messages, m.id)
    ensures UniqueIds(messages + [m])
  {
    var s := messages + [m];
    forall i, j | 0 <= i < j < |s| ensures s[i].id != s[j].id {
      if j == |messages| {
        assert s[i] == messages[i];
      } else {
        assert s[i] == messages[i] && s[j] == messages[j];
      }
    }
  }

  /** The catalog as the handler holds it after parsing the file: `jsonContent.messages`,
      an array that `push` extends in place. */
  class Store {
    var messages: seq<Message>

    constructor(messages: seq<Message>)
      ensures this.messages == messages
    {
      this.messages := messages;
    }

    /** `jsonContent.messages.push(m)` */
    method Push(m: Message)
      modifies this
      ensures messages == old(messages) + [m]
    {
      messages := messages + [m];
    }
  }
}
