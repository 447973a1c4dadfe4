/** The vocabulary shared by the relay server and its browser client: the stored
    message record, the events each side emits, and the display-name fallback
    both sides apply with JavaScript's `||`. */
module Protocol {

  datatype Option<T> = None | Some(value: T)

  /** The name used for a socket that never announced one. */
  const Anonymous: string := "An\U{F4}nimo"

  /** JavaScript truthiness of a string-or-absent value: absent and "" are falsy. */
  predicate Truthy(v: Option<string>) {
    v.Some? && v.value != ""
  }

  /** `v || "Anônimo"`: the value itself when truthy, the default otherwise.
      The result is always a non-empty name. */
  function OrAnonymous(v: Option<string>): (name: string)
    ensures name != ""
    ensures Truthy(v) <==> (v.Some? && name == v.value)
    ensures !Truthy(v) ==> name == Anonymous
  {
    if Truthy(v) then v.value else Anonymous
  }

  /** One entry of the stored history, also the payload of a live chat message.
      `time` is the ISO timestamp the server stamps; it is opaque here. */
  datatype Message = Message(username: string, text: string, time: string)

  /** What the server emits to a socket. */
  datatype ServerEvent =
    | LoadMessages(history: seq<Message>)
    | SystemMessage(notice: string)
    | ChatMessage(message: Message)

  /** What the client emits to the server. The join payload may be any value
      the client sends; absent stands for undefined or null. */
  datatype ClientEvent =
    | Join(username: Option<string>)
    | Chat(text: string)
}
