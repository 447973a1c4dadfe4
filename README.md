# chatonline relay, modelled in Dafny

chatonline is a single-room chat relay. A Node server (`server.js`) accepts
socket.io connections, replays the stored history from `messages.json` to each
new socket, tells the other sockets when someone joins or leaves, stores each
chat message and relays it to every socket. A browser client (`public/client.js`)
trims what the user typed, joins with a name (or "Anônimo"), sends the message,
and escapes `&`, `<` and `>` before it inserts names and texts as HTML.

The project has three modules:

- `Protocol` (`protocol.dfy`) holds what both sides share: the stored `Message`
  record `{username, text, time}`, the events each side emits, and the
  `value || "Anônimo"` fallback that both files use.
- `ChatServer` (`server.dfy`) models the server as a class `Relay` with one
  method per socket handler. Node runs handlers one at a time, so each method
  is one atomic step. The state is:
  - the connected sockets, each with its optional `socket.data.username`;
  - the history that `messages.json` holds when it can be read back, kept as
    a sequence;
  - the outbox of every socket that ever connected, meaning the events emitted
    to it, in order.

  `socket.emit`, `socket.broadcast.emit` and `io.emit` all become "append this
  event to the outbox of this set of sockets" (`Deliver`). Each file read and
  each file write gets a success flag from the caller. A failed read yields
  `[]`. A failed write is modelled as leaving the history unchanged. A write
  that fails after emptying the file shows up only through later reads
  failing.
- `ChatClient` (`client.dfy`) models JavaScript's `trim`; `escapeHtml` as its
  three chained global replacements; the markup built for each message; the
  name chosen by `joinChatIfNeeded`; and what one submit emits.

The `Relay` invariant `Valid()` says four things:
- every connected socket has an outbox;
- a username, once set, is never empty;
- each outbox begins with the history delivery;
- no outbox ever holds a second history delivery.

Two consequences of the code that the model makes explicit:

- `OnChatMessage` re-reads the file before appending. If that read fails and
  the write succeeds, the file ends up holding only the new message. The
  earlier history is lost. Its ensures states this case.
- The client joins again before every message it sends (`OneJoinPerChat`). So
  the other sockets see one "entrou no chat." notice per message sent.

## Model

| member | source | states |
|---|---|---|
| `Protocol.OrAnonymous` | server.js:49 | the fallback to "Anônimo": never empty; the value itself exactly when it is truthy (present and not ""), otherwise "Anônimo" |
| `ChatServer.LoadHistory` | server.js:20-28 | a successful read yields the whole stored history; a failed read or parse yields the empty sequence |
| `ChatServer.Deliver` | server.js:70 | emitting to a set of sockets appends the event once, at the end, to each target's outbox; every other outbox is unchanged, and no outbox is added or removed |
| `ChatServer.JoinNotice` | server.js:50 | the join notice is the name followed by " entrou no chat.", so it starts with the name and is 16 characters longer |
| `ChatServer.LeaveNotice` | server.js:75 | the leave notice is the name followed by " saiu do chat.", so it starts with the name and is 14 characters longer |
| `ChatServer.NoticesDistinct` | server.js:50-75 | no join notice equals any leave notice, whatever the two names, and each notice determines the name it carries |
| `ChatServer.Relay.constructor` | server.js:14-17 | the server starts with no sockets, no outboxes and the given file contents, and satisfies the invariant |
| `ChatServer.Relay.OnConnection` | server.js:42-46 | the new socket alone gets one `loadMessages` event with the loaded history (all of it, or `[]` on a failed read); it has no username; the outboxes of other sockets and the file are unchanged; the invariant is kept |
| `ChatServer.Relay.OnJoin` | server.js:48-51 | the username becomes the payload, or "Anônimo" when the payload is falsy, also on a repeated join; every other connected socket gets "<name> entrou no chat." and the sender gets nothing; disconnected sockets and the file are unchanged |
| `ChatServer.Relay.OnChatMessage` | server.js:53-71 | the record is the socket's username, or "Anônimo" if it never joined, plus the text as received and the given time; with a good read and write the file gains exactly that record at its end and nothing before it changes; a failed write is modelled as leaving the history unchanged; a failed read with a good write leaves only the new record; in every case that same record goes to every connected socket, the sender included |
| `ChatServer.Relay.OnDisconnect` | server.js:73-77 | the socket leaves the connected set; if it had a username, each remaining socket gets "<name> saiu do chat."; if it never joined, no outbox changes at all |
| `ChatClient.LeadingEnd` | public/client.js:32 | the index where the leading whitespace ends: everything before it is whitespace and the character there is not |
| `ChatClient.TrailingStart` | public/client.js:32 | the index where the trailing whitespace starts, not below the given bound: everything from it on is whitespace and the character before it is not |
| `ChatClient.Trim` | public/client.js:32 | `trim()` is a contiguous slice of the input with only whitespace dropped on either side; it is empty exactly when the input is all whitespace, and otherwise starts and ends with a non-whitespace character |
| `ChatClient.TrimIdempotent` | public/client.js:26 | trimming a trimmed string changes nothing |
| `ChatClient.ReplaceAll` | public/client.js:64-66 | one `.replace(/c/g, rep)` call: every character of the result is a character of the input other than `c`, or a character of `rep`; with `c` absent from the input it changes nothing (`ReplaceAllAbsent`) and it distributes over concatenation (`ReplaceAllAppend`) |
| `ChatClient.EscapeHtml` | public/client.js:63-67 | the three chained replacements, `&` first; the result contains no `<` and no `>`; the lemmas below give its per-character form, its length, its inverse and its fixed points |
| `ChatClient.EscapeHtmlIsPerChar` | public/client.js:63-67 | the three chained replacements equal the per-character map `&`→`&amp;`, `<`→`&lt;`, `>`→`&gt;`, with every other character kept in place and in order |
| `ChatClient.EscapeHtmlOfChar` | public/client.js:64-66 | escaping a one-character string gives that character's entity, or the character itself |
| `ChatClient.EscapeHtmlLength` | public/client.js:64-66 | the output length is the input length plus 4 per `&`, 3 per `<` and 3 per `>` |
| `ChatClient.EscapeHtmlPlain` | public/client.js:63-67 | text with no `&`, `<` or `>` is returned unchanged |
| `ChatClient.EscapeHtmlSpecials` | public/client.js:64-66 | no double escaping: `"<"` becomes exactly `"&lt;"`, `">"` becomes `"&gt;"` and `"&"` becomes `"&amp;"` |
| `ChatClient.AmpersandLastDoubleEscapes` | public/client.js:64-65 | a documented example, not a property of the code: the other order, `<` first and `&` after, would turn `"<"` into `"&amp;lt;"`; this is why the code replaces `&` first |
| `ChatClient.EscapeHtmlRoundTrip` | public/client.js:64-66 | reading `&amp;`, `&lt;` and `&gt;` back into their characters recovers the original text |
| `ChatClient.EscapeHtmlInjective` | public/client.js:63-67 | two different texts never escape to the same markup |
| `ChatClient.MessageHtml` | public/client.js:11-17 | the markup built for a history entry or a live message, with the username and text escaped; it has exactly the two `<` of the client's own `strong` tags plus any in the time, so the username and text add none |
| `ChatClient.JoinName` | public/client.js:25-28 | the join name is never empty: the trimmed name box when that is not all whitespace, otherwise "Anônimo" |
| `ChatClient.ServerKeepsJoinName` | public/client.js:27 | the server's own fallback never changes a name this client sends |
| `ChatClient.Submit` | public/client.js:30-36 | a message box that is all whitespace emits nothing, not even a join; otherwise the client emits exactly a join with the join name, then the trimmed text |
| `ChatClient.JoinPrecedesEveryChat` | public/client.js:33-36 | over any run of submits, every chat message emitted comes right after a join, and its text is non-empty with no whitespace at either end |
| `ChatClient.Emitted` | public/client.js:30-36 | the events emitted over a run of submits, one `Submit` after another; the stream has even length with joins exactly at the even positions and chat messages at the odd ones |
| `ChatClient.OneJoinPerChat` | public/client.js:35-36 | over any run of submits, the client emits as many joins as chat messages |
| `ChatClient.SubmitBalanced` | public/client.js:35-36 | one submit emits as many joins as chat messages |

## Left out

- Express static serving, `http.createServer`, `server.listen` and the `PORT`
  lookup (server.js:12-14, 40, 80-81): these are process and transport setup.
- socket.io itself: connection ids, rooms, acknowledgements and reconnection.
  Socket ids come from the caller and are assumed never reused. The handlers
  require the socket to be connected, which socket.io guarantees.
- The bytes of `messages.json` and `JSON.parse`/`JSON.stringify`: the file is
  a sequence of records, and each read and each write is a success flag. A
  file that parses to something other than an array is not modelled.
- `console.log` and `console.error` (server.js:25, 35, 43): logging only.
- `new Date().toISOString()` (server.js:57): the timestamp is a parameter of
  `OnChatMessage`, kept opaque.
- `formatTime`/`toLocaleTimeString` (public/client.js:58-61): these depend on
  the clock and the locale. `MessageHtml` takes the formatted time as a string.
- DOM work: `addMessage`, `addSystemMessage`, `innerHTML`, `textContent`,
  `scrollTop`, clearing the input and `focus` (public/client.js:38-56). The
  `forEach` over loaded messages (public/client.js:9-13) is also left out; it
  only renders each entry, as `MessageHtml` describes.
- Payloads that are not strings: a number or object sent as a join name or
  chat text. The join payload is a string or absent (undefined/null); chat
  text is a string, stored and relayed as received.
- OnChatMessage: a failed write is modelled as leaving the history unchanged.
  `fs.writeFileSync` (server.js:33) empties the file before writing, so a
  write that fails part-way leaves an empty or partial file. The model does
  not represent that file. It shows up only as later reads failing, which
  the free `readOk` flag of each later call already allows.
- Strings are sequences of Unicode scalar values, while JavaScript strings
  are sequences of UTF-16 code units. Lone surrogates cannot be represented,
  and lengths count characters, not code units. No proved property depends
  on this: `&`, `<`, `>` and every whitespace character `trim` removes are
  single code units, so `EscapeHtmlIsPerChar` and `EscapeHtmlLength` hold in
  either unit.
- `ChatClient.IsSpace`: it uses the whitespace set of the ECMAScript standard
  (WhiteSpace and LineTerminator, with the Unicode Zs category as of
  Unicode 15), written out as a list. A later Unicode revision that adds a
  Zs character is not tracked.
