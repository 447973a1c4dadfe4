/** The relay server's socket handlers as one state machine. Node runs one
    handler at a time, so each handler is one atomic step of class `Relay`.
    socket.io is reduced to "append an event to the outbox of these sockets"
    and messages.json to a sequence whose reads and writes may fail. */
module ChatServer {
  import opened Protocol

  type SocketId = nat

  /** The notice other sockets see when a socket announces `name`: it starts
      with the name, which can be read back from it. */
  function JoinNotice(name: string): (notice: string)
    ensures |notice| == |name| + 16 && notice[..|name|] == name
  {
    name + " entrou no chat."
  }

  /** The notice other sockets see when a named socket leaves: it starts
      with the name, which can be read back from it. */
  function LeaveNotice(name: string): (notice: string)
    ensures |notice| == |name| + 14 && notice[..|name|] == name
  {
    name + " saiu do chat."
  }

  /** A join notice and a leave notice never coincide, whatever the two names,
      and each names exactly one user. */
  lemma NoticesDistinct(a: string, b: string)
    ensures JoinNotice(a) != LeaveNotice(b)
    ensures JoinNotice(a) == JoinNotice(b) ==> a == b
    ensures LeaveNotice(a) == LeaveNotice(b) ==> a == b
  {
    // Fourteen characters from the end, a join notice has the 'n' of
    // "entrou" and a leave notice the space before "saiu".
    var j, l := JoinNotice(a), LeaveNotice(b);
    assert j[|j| - 14] == 'n';
    assert l[|l| - 14] == ' ';
  }

  /** What loadMessages() returns: the stored file, or [] when reading or
      parsing it fails. */
  function LoadHistory(stored: seq<Message>, readOk: bool): (history: seq<Message>)
    ensures readOk ==> history == stored
    ensures !readOk ==> history == []
  {
    if readOk then stored else []
  }

  /** Emitting `e` to the sockets in `targets`: each target's outbox gains `e`
      once, at its end; every other outbox is left as it was, and no outbox
      appears or disappears. */
  function Deliver(outbox: map<SocketId, seq<ServerEvent>>, targets: set<SocketId>, e: ServerEvent)
    : (r: map<SocketId, seq<ServerEvent>>)
    ensures r.Keys == outbox.Keys
    ensures forall k :: k in outbox && k in targets ==> r[k] == outbox[k] + [e]
    ensures forall k :: k in outbox && k !in targets ==> r[k] == outbox[k]
  {
    map k | k in outbox :: if k in targets then outbox[k] + [e] else outbox[k]
  }

  class Relay {
    /** The connected sockets, each with its `socket.data.username`
        (absent until the socket joins). */
    var sessions: map<SocketId, Option<string>>
    /** The history as messages.json holds it when it can be read back. A
        write that fails after emptying the file is not represented here; it
        shows up only through later reads failing. */
    var stored: seq<Message>
    /** Every event emitted to each socket that ever connected, in order. */
    var outbox: map<SocketId, seq<ServerEvent>>

    /** Every connected socket has an outbox; a username, once set, is never
        empty; each outbox starts with the one history delivery it ever gets. */
    ghost predicate Valid()
      reads this
    {
      sessions.Keys <= outbox.Keys &&
      (forall k :: k in sessions && sessions[k].Some? ==> sessions[k].value != "") &&
      (forall k :: k in outbox ==> |outbox[k]| > 0 && outbox[k][0].LoadMessages?) &&
      (forall k, j :: k in outbox && 0 < j < |outbox[k]| ==> !outbox[k][j].LoadMessages?)
    }

    /** The server starts with no sockets and whatever messages.json holds. */
    constructor (initial: seq<Message>)
      ensures Valid()
      ensures sessions == map[] && outbox == map[] && stored == initial
    {
      sessions := map[];
      stored := initial;
      outbox := map[];
    }

    /** `io.on("connection")`: the new socket, and it alone, receives the
        loaded history; it starts without a username. */
    method OnConnection(id: SocketId, readOk: bool)
      requires Valid()
      requires id !in outbox
      modifies this
      ensures Valid()
      ensures sessions == old(sessions)[id := None]
      ensures stored == old(stored)
      ensures outbox == old(outbox)[id := [LoadMessages(LoadHistory(old(stored), readOk))]]
      ensures forall k :: k in old(outbox) ==> outbox[k] == old(outbox[k])
    {
      outbox := outbox[id := [LoadMessages(LoadHistory(stored, readOk))]];
      sessions := sessions[id := None];
    }

    /** `socket.on("join")`: the username becomes `username || "Anônimo"`
        (also on a repeated join), and every other connected socket, never
        the sender, is told that this name entered. */
    method OnJoin(id: SocketId, username: Option<string>)
      requires Valid()
      requires id in sessions
      modifies this
      ensures Valid()
      ensures sessions == old(sessions)[id := Some(OrAnonymous(username))]
      ensures stored == old(stored)
      ensures outbox.Keys == old(outbox).Keys
      ensures outbox[id] == old(outbox[id])
      ensures forall k :: k in old(sessions) && k != id ==>
                outbox[k] == old(outbox[k]) + [SystemMessage(JoinNotice(OrAnonymous(username)))]
      ensures forall k :: k in old(outbox) && k !in old(sessions) ==> outbox[k] == old(outbox[k])
    {
      var name := OrAnonymous(username);
      sessions := sessions[id := Some(name)];
      outbox := Deliver(outbox, sessions.Keys - {id}, SystemMessage(JoinNotice(name)));
    }

    /** `socket.on("chatMessage")`: builds the record from the socket's name
        (or "Anônimo"), the text as received and `time`; reloads the history,
        appends the record and writes the result back (a failed write is
        modelled as leaving the history unchanged); then emits that same
        record to every connected socket, the sender included, whether or not
        the write succeeded. */
    method OnChatMessage(id: SocketId, text: string, time: string, readOk: bool, writeOk: bool)
      requires Valid()
      requires id in sessions
      modifies this
      ensures Valid()
      ensures sessions == old(sessions)
      ensures var record := Message(OrAnonymous(old(sessions[id])), text, time);
              && stored == (if writeOk then LoadHistory(old(stored), readOk) + [record] else old(stored))
              && outbox.Keys == old(outbox).Keys
              && (forall k :: k in old(sessions) ==> outbox[k] == old(outbox[k]) + [ChatMessage(record)])
      ensures forall k :: k in old(outbox) && k !in old(sessions) ==> outbox[k] == old(outbox[k])
      ensures readOk && writeOk ==>
                |stored| == |old(stored)| + 1 && stored[..|old(stored)|] == old(stored) &&
                stored[|old(stored)|].text == text
      ensures !readOk && writeOk ==> |stored| == 1 && stored[0].text == text
    {
      var record := Message(OrAnonymous(sessions[id]), text, time);
      var messages := LoadHistory(stored, readOk);
      messages := messages + [record];
      if writeOk {
        stored := messages;
      }
      outbox := Deliver(outbox, sessions.Keys, ChatMessage(record));
    }

    /** `socket.on("disconnect")`: the socket is gone; only if it had a
        username do the remaining sockets hear that it left. */
    method OnDisconnect(id: SocketId)
      requires Valid()
      requires id in sessions
      modifies this
      ensures Valid()
      ensures sessions == old(sessions) - {id}
      ensures stored == old(stored)
      ensures outbox.Keys == old(outbox).Keys
      ensures outbox[id] == old(outbox[id])
      ensures forall k :: k in old(sessions) && k != id ==>
                outbox[k] == old(outbox[k]) +
                  (if Truthy(old(sessions[id])) then [SystemMessage(LeaveNotice(old(sessions[id]).value))] else [])
      ensures !Truthy(old(sessions[id])) ==> outbox == old(outbox)
      ensures forall k :: k in old(outbox) && k !in old(sessions) ==> outbox[k] == old(outbox[k])
    {
      var username := sessions[id];
      sessions := sessions - {id};
      if Truthy(username) {
        outbox := Deliver(outbox, sessions.Keys, SystemMessage(LeaveNotice(username.value)));
      }
    }
  }
}
