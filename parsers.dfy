/** `get_entities` of parsers.py: extracting the entity values from a classifier response. */
module Parsers {
  import opened Wrappers
  import opened PyText

  /** One classified intent of a response, best first. */
  datatype Intent = Intent(intent: string, confidence: real)

  /** One extracted entity: its type and its matched text. */
  datatype Entity = Entity(entity: string, value: string)

  /** The part of a classifier response `get_entities` reads. */
  datatype Response = Response(intents: seq<Intent>, entities: seq<Entity>)

  /** `get_entities(response, intent)`: the entity values, lower-cased and in order, when the
      best intent is `intent`; RuntimeError when it is another; IndexError when there is none. */
  function GetEntities(response: Response, intent: string): (r: Result<seq<string>>)
    ensures response.intents == [] ==> r == Err(IndexError)
    ensures response.intents != [] && response.intents[0].intent != intent ==>
              r == Err(RuntimeError("Non-matching intents"))
    ensures response.intents != [] && response.intents[0].intent == intent ==>
              r.Ok? && |r.value| == |response.entities|
  {
    if response.intents == [] then Err(IndexError)
    else if response.intents[0].intent == intent then
      Ok(seq(|response.entities|, i requires 0 <= i < |response.entities| => Lower(response.entities[i].value)))
    else Err(RuntimeError("Non-matching intents"))
  }

  lemma LowerIdempotent(s: string)
    ensures Lower(Lower(s)) == Lower(s)
  {
    assert forall i :: 0 <= i < |s| ==> LowerChar(LowerChar(s[i])) == LowerChar(s[i]);
  }

  /** On a matching intent, the i-th result is the i-th entity's value ignoring case, and it is
      already in lower case. */
  lemma GetEntitiesValues(response: Response, intent: string, i: nat)
    requires response.intents != [] && response.intents[0].intent == intent
    requires i < |response.entities|
    ensures GetEntities(response, intent).Ok?
    ensures Lower(GetEntities(response, intent).value[i]) == Lower(response.entities[i].value)
    ensures Lower(GetEntities(response, intent).value[i]) == GetEntities(response, intent).value[i]
  {
    LowerIdempotent(response.entities[i].value);
  }

  /** Only the best intent is consulted: the lower-ranked ones never change the result. */
  lemma GetEntitiesReadsFirstIntentOnly(response: Response, others: seq<Intent>, intent: string)
    requires response.intents != []
    ensures GetEntities(Response([response.intents[0]] + others, response.entities), intent)
            == GetEntities(response, intent)
  {
  }
}
