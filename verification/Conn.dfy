/** network/tcp_net/conn.go: the connection object itself, each method proved against the window and
    outbox models, and service.go's token-check handler over two connections. */
module Conn {
  import opened ByteOrder
  import opened Messages
  import opened Prelude
  import Outbox
  import SendWindow

  datatype SendResult = Sent | ConnectionClosed | SendQueueFull

  class Conn {
    const sessionId: int
    var playerGuid: int
    var isClosed: bool
    var connected: bool                // conn != nil
    var cancelled: bool                // ctx, which both loops watch
    var sendQueue: seq<Item>
    var pendingMessages: seq<Item>
    var serverAck: int
    var hasBeenSentNum: int
    var clientAck: int
    var written: seq<Bytes>            // the buffers the socket took
    var torn: Option<Bytes>            // what it took of one that failed
    var later: seq<Bytes>              // the buffers it took after that

    ghost function Window(): SendWindow.Window
      reads this
    {
      SendWindow.Window(pendingMessages, serverAck, hasBeenSentNum, clientAck)
    }

    constructor (sessionId: int)
      ensures this.sessionId == sessionId && Window() == SendWindow.EMPTY && sendQueue == [] && written == []
      ensures connected && !isClosed && !cancelled && torn == None
    {
      this.sessionId := sessionId;
      playerGuid, isClosed, connected, cancelled := 0, false, true, false;
      sendQueue, pendingMessages, written := [], [], [];
      serverAck, hasBeenSentNum, clientAck := 0, 0, 0;
      torn, later := None, [];
    }

    /** The connection as the writer sees it while its loop holds these locals. */
    ghost function State(batch: Bytes, running: bool): Outbox.Box
      reads this
    {
      Outbox.Box(sendQueue, batch, written, running, torn, later, isClosed)
    }

    /** The buffers the socket took whole, before and after one that failed. */
    ghost function WrittenWhole(): seq<Bytes>
      reads this
    {
      if torn == None then written else written + later
    }

    /** The message AsyncSend builds around its argument. */
    function Envelope(data: int): Item
      reads this
    {
      Message(ServerProto(data, playerGuid, clientAck, MESSAGE_TYPE, 0, 0, PROTO_TYPE_PROTO, PROTO_TYPE_PROTO))
    }

    /** A message is recorded and counted even when the queue is full: resume can still replay it. */
    method AsyncSend(data: int) returns (r: SendResult)
      modifies `pendingMessages, `hasBeenSentNum, `sendQueue
      ensures old(isClosed) ==> r == ConnectionClosed && Window() == old(Window()) && sendQueue == old(sendQueue)
      ensures !old(isClosed) ==>
                && pendingMessages == old(pendingMessages)
                     + [Message(ServerProto(data, old(playerGuid), old(clientAck), 3, 0, 0, 1, 1))]
                && hasBeenSentNum == old(hasBeenSentNum) + 1
                && Window() == SendWindow.Count(SendWindow.Push(old(Window()), old(Envelope(data))))
                && sendQueue == Offer(old(sendQueue), old(Envelope(data)))
                && r == if |old(sendQueue)| < QUEUE_SIZE then Sent else SendQueueFull
    {
      if isClosed {
        return ConnectionClosed;
      }
      var msgData := Envelope(data);
      PushToPendingMessages(msgData);
      IncHasBeenSendCount();
      if |sendQueue| < QUEUE_SIZE {
        sendQueue := sendQueue + [msgData];
        r := Sent;
      } else {
        r := SendQueueFull;
      }
    }

    method PushToPendingMessages(msgData: Item)
      modifies `pendingMessages
      ensures Window() == SendWindow.Push(old(Window()), msgData)
    {
      pendingMessages := pendingMessages + [msgData];
    }

    method IncHasBeenSendCount()
      modifies `hasBeenSentNum
      ensures Window() == SendWindow.Count(old(Window()))
    {
      hasBeenSentNum := hasBeenSentNum + 1;
    }

    method IncClientAck()
      modifies `clientAck
      ensures clientAck == old(clientAck) + 1 && Window() == SendWindow.IncClientAck(old(Window()))
    {
      clientAck := clientAck + 1;
    }

    method SetServerAck(ack: int)
      modifies `serverAck
      ensures serverAck == ack && Window() == SendWindow.SetServerAck(old(Window()), ack)
    {
      serverAck := ack;
    }

    method CheckServerAck(ack: int) returns (ok: bool)
      ensures ok == SendWindow.CheckServerAck(Window(), ack)
    {
      if ack > clientAck {
        return false;
      }
      if ack > serverAck {
        var needRemoveNum := ack - serverAck;
        if |pendingMessages| < needRemoveNum {
          return false;
        }
      }
      ok := true;
    }

    method UpdateServerAck(ack: int)
      modifies `pendingMessages, `serverAck
      ensures Window() == SendWindow.UpdateServerAck(old(Window()), ack)
    {
      if hasBeenSentNum >= ack && ack > serverAck {
        var needRemoveNum := ack - serverAck;
        if needRemoveNum <= |pendingMessages| {
          pendingMessages := pendingMessages[needRemoveNum..];
          serverAck := ack;
        }
      }
    }

    method ProcessPendingMessages()
      modifies `sendQueue
      ensures sendQueue == SendWindow.Replay(old(sendQueue), pendingMessages)
    {
      var messages := pendingMessages;
      var i := 0;
      while i < |messages|
        invariant i <= |messages|
        invariant SendWindow.Replay(old(sendQueue), messages) == SendWindow.Replay(sendQueue, messages[i..])
      {
        if |sendQueue| >= QUEUE_SIZE {
          return;
        }
        assert messages[i..][1..] == messages[i + 1..];
        sendQueue := sendQueue + [messages[i]];
        i := i + 1;
      }
    }

    method Write(data: Bytes, answer: Outbox.Answer) returns (ok: bool)
      modifies `written, `torn, `later
      ensures ok <==> answer.Written?
      ensures if ok then torn == old(torn) else torn.Some?
      ensures forall batch, running :: State(batch, running) == Outbox.Write(old(State(batch, running)), data, answer)
    {
      ok := answer.Written?;
      if ok {
        written := written + [data];
      } else {
        torn, later := Some(if answer.sent <= |data| then data[..answer.sent] else data), [];
      }
    }

    /** The bytes of a write by a goroutine other than the writer's. */
    method Sync(data: Bytes)
      modifies `written, `later
      ensures written == if torn == None then old(written) + [data] else old(written)
      ensures later == if torn == None then old(later) else old(later) + [data]
    {
      if torn == None {
        written := written + [data];
      } else {
        later := later + [data];
      }
    }

    method SyncSend(data: Bytes)
      modifies `written, `later
      ensures WrittenWhole() == if connected then old(WrittenWhole()) + [data] else old(WrittenWhole())
      ensures torn == None ==> later == old(later)
      ensures torn != None ==> written == old(written)
    {
      if connected {
        Sync(data);
      }
    }

    /** The first call stops both loops and gives up the socket; later ones do nothing. */
    method Close()
      modifies `isClosed, `connected, `cancelled
      ensures isClosed
      ensures !old(isClosed) ==> cancelled && !connected
      ensures old(isClosed) ==> cancelled == old(cancelled) && connected == old(connected)
    {
      if isClosed {
        return;
      }
      isClosed := true;
      cancelled := true;
      if connected {
        connected := false;
      }
    }

    /** One event: a branch of the writer's select, or what another goroutine does. A failed write closes
        the connection and ends the loop. */
    method Turn(batch: Bytes, inLoop: bool, event: Outbox.Event, pack: Outbox.Packer)
      returns (rest: Bytes, running: bool)
      requires Outbox.Sound(State(batch, inLoop)) && Outbox.Enabled(State(batch, inLoop), event)
      modifies `sendQueue, `written, `torn, `later, `isClosed, `connected, `cancelled
      ensures State(rest, running) == Outbox.Step(old(State(batch, inLoop)), event, pack)
      ensures Outbox.Sound(State(rest, running))
      ensures ClosedProperly(old(isClosed), old(connected), old(cancelled))
    {
      rest, running := batch, inLoop;
      match event {
        case Offered(item) =>
          sendQueue := Offer(sendQueue, item);
        case Synced(data) =>
          Sync(data);
        case Receive(meanwhile, flush, own) =>
          var item := sendQueue[0];
          sendQueue := sendQueue[1..];
          rest, running := AddToBatch(batch, Assemble(pack, item), meanwhile, flush, own);
          if !running {
            Close();
          }
        case Tick(flush) =>
          rest, running := Flush(batch, flush);
          if !running {
            Close();
          }
        case Done(flush) =>
          rest, running := Flush(batch, flush);
          running := false;
      }
    }

    /** If the connection was closed since these values, both loops were told and the socket is gone. */
    ghost predicate ClosedProperly(wasClosed: bool, wasConnected: bool, wasCancelled: bool)
      reads this
    {
      if isClosed && !wasClosed then cancelled && !connected
      else isClosed == wasClosed && cancelled == wasCancelled && connected == wasConnected
    }

    /** The writer goroutine, on a schedule of what its select picks, what the socket answers and what
        others do meanwhile. It returns what is left of the batch, and whether it is still in its loop. */
    method BatchWriteLoop(schedule: seq<Outbox.Event>, pack: Outbox.Packer) returns (batch: Bytes, running: bool)
      requires torn == None && Outbox.Schedule(State([], true), schedule, pack)
      modifies `sendQueue, `written, `torn, `later, `isClosed, `connected, `cancelled
      ensures State(batch, running) == Outbox.Run(old(State([], true)), schedule, pack)
      ensures ClosedProperly(old(isClosed), old(connected), old(cancelled))
    {
      batch, running := [], true;
      var i := 0;
      while i < |schedule|
        invariant i <= |schedule|
        invariant Outbox.Sound(State(batch, running)) && Outbox.Schedule(State(batch, running), schedule[i..], pack)
        invariant Outbox.Run(old(State([], true)), schedule, pack) == Outbox.Run(State(batch, running), schedule[i..], pack)
        invariant ClosedProperly(old(isClosed), old(connected), old(cancelled))
      {
        var event := schedule[i];
        assert schedule[i..][1..] == schedule[i + 1..];
        batch, running := Turn(batch, running, event, pack);
        i := i + 1;
      }
    }

    method Flush(batch: Bytes, answer: Outbox.Answer) returns (rest: Bytes, ok: bool)
      requires torn == None
      modifies `written, `torn, `later
      ensures ok <==> torn == None
      ensures State(rest, true) == Outbox.Flush(old(State(batch, true)), answer)
    {
      rest, ok := batch, true;
      if |batch| > 0 {
        ok := Write(batch, answer);
        if ok {
          rest := [];
        }
      }
    }

    /** One received item. `meanwhile` is what SyncSend calls get onto the socket before this turn's
        own data does. */
    method AddToBatch(batch: Bytes, assembled: Option<Bytes>, meanwhile: seq<Bytes>,
                      flush: Outbox.Answer, own: Outbox.Answer)
      returns (rest: Bytes, ok: bool)
      requires torn == None
      modifies `written, `torn, `later
      ensures ok <==> torn == None
      ensures State(rest, true) == Outbox.AddToBatch(old(State(batch, true)), assembled, meanwhile, flush, own)
    {
      rest, ok := batch, true;
      if assembled == None {
        written := written + meanwhile;
      } else if |batch| + |assembled.value| >= Outbox.BATCH_SIZE {
        rest, ok := Flush(batch, flush);
        if ok {
          written := written + meanwhile;
          ok := Write(assembled.value, own);
        }
      } else {
        written := written + meanwhile;
        rest := batch + assembled.value;
      }
    }
  }

  /** network/tcp_net/server.go: the connections on file, by session id. */
  class Server {
    var activeConns: map<int, Conn>
    var connCount: int

    constructor ()
      ensures activeConns == map[] && connCount == 0
    {
      activeConns, connCount := map[], 0;
    }

    method GetConn(guid: int) returns (conn: Conn?)
      ensures conn == if guid in activeConns then activeConns[guid] else null
    {
      conn := if guid in activeConns then activeConns[guid] else null;
    }

    /** The count goes up even when the session was on file already. */
    method AddConn(conn: Conn)
      modifies this
      ensures activeConns == old(activeConns)[conn.sessionId := conn] && connCount == old(connCount) + 1
    {
      activeConns := activeConns[conn.sessionId := conn];
      connCount := connCount + 1;
    }
  }

  /** service.go, handleTokenCheck, once the token and the server are there. `current` is the connection
      the message came in on, and `reply` the packet made of a session id and a client's count. */
  method HandleTokenCheck(server: Server, guid: int, current: Conn, ack: int, reply: (int, int) -> Bytes)
    returns (ok: bool)
    modifies server, (if guid in server.activeConns then {server.activeConns[guid]} else {}), current
    ensures guid !in old(server.activeConns) ==>
              && ok && server.activeConns == old(server.activeConns)[current.sessionId := current]
              && server.connCount == old(server.connCount) + 1
              && current.Window() == old(current.Window()) && current.sendQueue == old(current.sendQueue)
              && current.WrittenWhole() == old(current.WrittenWhole())
                 + (if old(current.connected) then [reply(current.sessionId, current.clientAck)] else [])
    ensures guid in old(server.activeConns) ==>
              && server.activeConns == old(server.activeConns) && server.connCount == old(server.connCount)
              && ok == old(SendWindow.CheckServerAck(server.activeConns[guid].Window(), ack))
    ensures guid in old(server.activeConns) && ok ==>
              var conn := server.activeConns[guid];
              && conn.Window() == SendWindow.Resumed(old(server.activeConns[guid].Window()), conn == current, ack)
              && conn.serverAck == ack
              && conn.hasBeenSentNum == old(server.activeConns[guid].hasBeenSentNum)
              && conn.clientAck == old(server.activeConns[guid].clientAck)
              && (conn != current ==> conn.pendingMessages == old(server.activeConns[guid].pendingMessages))
              && conn.sendQueue == SendWindow.Replay(old(server.activeConns[guid].sendQueue), conn.pendingMessages)
              && conn.WrittenWhole() == old(server.activeConns[guid].WrittenWhole())
                 + (if old(server.activeConns[guid].connected) then [reply(current.sessionId, conn.clientAck)] else [])
              && (conn != current ==>
                    && current.Window() == SendWindow.UpdateServerAck(old(current.Window()), ack)
                    && current.sendQueue == old(current.sendQueue) && current.WrittenWhole() == old(current.WrittenWhole()))
    ensures guid in old(server.activeConns) && !ok ==>
              var conn := server.activeConns[guid];
              && conn.isClosed && (!old(server.activeConns[guid].isClosed) ==> conn.cancelled && !conn.connected)
              && conn.Window() == old(server.activeConns[guid].Window())
              && conn.sendQueue == old(server.activeConns[guid].sendQueue)
              && conn.WrittenWhole() == old(server.activeConns[guid].WrittenWhole())
              && current.Window() == old(current.Window()) && current.sendQueue == old(current.sendQueue)
              && current.WrittenWhole() == old(current.WrittenWhole())
    ensures forall c | c in old(server.activeConns).Values && c != current &&
                       (guid in old(server.activeConns) ==> c != old(server.activeConns)[guid]) ::
              unchanged(c)
  {
    var conn := server.GetConn(guid);
    if conn != null {
      ok := conn.CheckServerAck(ack);
      if !ok {
        conn.Close();
        return;
      }
      current.UpdateServerAck(ack);
      conn.SetServerAck(ack);
      conn.ProcessPendingMessages();
    } else {
      server.AddConn(current);
      conn := current;
    }
    conn.SyncSend(reply(current.sessionId, conn.clientAck));
    ok := true;
  }

  /** handleLogicMessage. */
  method HandleLogicMessage(conn: Conn, ack: int)
    modifies conn
    ensures conn.clientAck == old(conn.clientAck) + 1
    ensures conn.Window() == SendWindow.UpdateServerAck(SendWindow.IncClientAck(old(conn.Window())), ack)
    ensures conn.sendQueue == old(conn.sendQueue)
  {
    conn.IncClientAck();
    conn.UpdateServerAck(ack);
  }
}
