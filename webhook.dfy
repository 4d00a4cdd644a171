/** The Discord webhook message (send_to_discord, main.py:46-57). The POST and
    its outcome are not modelled: the relay ignores whether delivery worked. */
module Webhook {
  const BotName: string := "Memos Bot"

  datatype Payload = Payload(content: string, username: string, avatarUrl: string)

  /** The JSON body posted for one relayed text. */
  function MakePayload(avatarUrl: string, content: string): Payload
  {
    Payload(content, BotName, avatarUrl)
  }

  /** The bodies posted for a sequence of relayed texts, in order. */
  function Payloads(avatarUrl: string, texts: seq<string>): (ps: seq<Payload>)
    ensures |ps| == |texts|
    ensures forall i :: 0 <= i < |texts| ==> ps[i].content == texts[i]
  {
    seq(|texts|, i requires 0 <= i < |texts| => MakePayload(avatarUrl, texts[i]))
  }

  /** Every message carries the bot's name and the configured avatar. */
  lemma EveryPayloadSigned(avatarUrl: string, texts: seq<string>)
    ensures forall p :: p in Payloads(avatarUrl, texts) ==> p.username == "Memos Bot" && p.avatarUrl == avatarUrl
  {
  }
}
