/**
 * The relay server's registry and fan-out (cmd/server.go). Every connection
 * has a `Client` record holding its outgoing queue, a buffered channel of
 * capacity 10; `broadcast` appends a message to every queue except the
 * sender's, and the writer of each connection empties its queue onto the
 * socket, one line per message. Connections are identified by a number,
 * and each registry operation runs as one atomic step, as the mutex makes it.
 */
module Server {

  import opened Wrappers
  import Lines
  import Seqs

  /** Identity of a `net.Conn`. */
  type Conn = nat

  /** Capacity of the channel `make(chan string, 10)`. */
  const QueueCapacity := 10

  /** `Client`: the connection and the messages waiting in its channel, oldest first. */
  datatype Client = Client(conn: Conn, ch: seq<string>)

  type Clients = map<Conn, Client>

  /** Every entry is filed under its own connection and no channel holds more than it can buffer. */
  predicate WellFormed(clients: Clients)
  {
    forall c :: c in clients ==> clients[c].conn == c && |clients[c].ch| <= QueueCapacity
  }

  /** Every channel other than the sender's can take `k` more messages without blocking. */
  predicate HasRoom(clients: Clients, sender: Conn, k: nat)
  {
    forall c :: c in clients && c != sender ==> |clients[c].ch| + k <= QueueCapacity
  }

  /** The registry after `clients[conn] = &Client{conn, make(chan string, 10)}`. */
  function Registered(clients: Clients, conn: Conn): Clients
  {
    clients[conn := Client(conn, [])]
  }

  /** The registry after `delete(clients, conn)`. */
  function Removed(clients: Clients, conn: Conn): Clients
  {
    clients - {conn}
  }

  /** The registry after `broadcast(message, sender)`. */
  function Broadcasted(clients: Clients, message: string, sender: Conn): Clients
  {
    map c | c in clients :: if c == sender then clients[c] else clients[c].(ch := clients[c].ch + [message])
  }

  /** Registering adds one entry with an empty queue and leaves every other entry as it was. */
  lemma RegisteredEffect(clients: Clients, conn: Conn)
    ensures Registered(clients, conn).Keys == clients.Keys + {conn}
    ensures Registered(clients, conn)[conn] == Client(conn, [])
    ensures forall c :: c in clients && c != conn ==> Registered(clients, conn)[c] == clients[c]
    ensures conn !in clients ==> |Registered(clients, conn)| == |clients| + 1
    ensures WellFormed(clients) ==> WellFormed(Registered(clients, conn))
  {
    if conn !in clients {
      assert Registered(clients, conn).Keys == clients.Keys + {conn};
      assert |clients.Keys + {conn}| == |clients.Keys| + 1;
    }
  }

  /** Deleting removes the one entry and leaves every other entry as it was. */
  lemma RemovedEffect(clients: Clients, conn: Conn)
    ensures Removed(clients, conn).Keys == clients.Keys - {conn}
    ensures forall c :: c in clients && c != conn ==> Removed(clients, conn)[c] == clients[c]
    ensures WellFormed(clients) ==> WellFormed(Removed(clients, conn))
  {
  }

  /** Registering a new connection and deleting it again restores the registry. */
  lemma RemovedRegistered(clients: Clients, conn: Conn)
    requires conn !in clients
    ensures Removed(Registered(clients, conn), conn) == clients
  {
    RegisteredEffect(clients, conn);
    RemovedEffect(Registered(clients, conn), conn);
  }

  /**
   * A broadcast keeps the set of connections and the sender's queue, puts the
   * message verbatim at the end of every other queue, and keeps the registry
   * well formed when those queues have room.
   */
  lemma BroadcastedEffect(clients: Clients, message: string, sender: Conn)
    ensures Broadcasted(clients, message, sender).Keys == clients.Keys
    ensures sender in clients ==> Broadcasted(clients, message, sender)[sender] == clients[sender]
    ensures forall c :: c in clients && c != sender ==>
      Broadcasted(clients, message, sender)[c] == clients[c].(ch := clients[c].ch + [message])
    ensures WellFormed(clients) && HasRoom(clients, sender, 1) ==> WellFormed(Broadcasted(clients, message, sender))
  {
  }

  /** One `broadcast(message, sender)` call. */
  datatype Post = Post(message: string, sender: Conn)

  /** The registry after the broadcasts of `log`, in order. */
  function Delivered(clients: Clients, log: seq<Post>): Clients
    decreases |log|
  {
    if log == [] then clients
    else
      var last := log[|log| - 1];
      Broadcasted(Delivered(clients, log[..|log| - 1]), last.message, last.sender)
  }

  /** The messages of `log` that `c` receives, that is those it did not send itself, in order. */
  function Inbox(log: seq<Post>, c: Conn): seq<string>
    decreases |log|
  {
    if log == [] then []
    else
      var last := log[|log| - 1];
      Inbox(log[..|log| - 1], c) + (if last.sender == c then [] else [last.message])
  }

  /**
   * FIFO per recipient: after any interleaving of broadcasts, each registered
   * connection's queue is its old contents followed by the messages others
   * sent, in the order they were sent; no connection appears or disappears.
   */
  lemma {:induction false} DeliveredInOrder(clients: Clients, log: seq<Post>)
    ensures Delivered(clients, log).Keys == clients.Keys
    ensures forall c :: c in clients ==> Delivered(clients, log)[c] == clients[c].(ch := clients[c].ch + Inbox(log, c))
    decreases |log|
  {
    if log == [] {
      forall c | c in clients
        ensures Delivered(clients, log)[c] == clients[c].(ch := clients[c].ch + Inbox(log, c))
      {
        Seqs.ConcatEmpty(clients[c].ch);
      }
    } else {
      var init := log[..|log| - 1];
      var last := log[|log| - 1];
      var before := Delivered(clients, init);
      DeliveredInOrder(clients, init);
      BroadcastedEffect(before, last.message, last.sender);
      forall c | c in clients
        ensures Delivered(clients, log)[c] == clients[c].(ch := clients[c].ch + Inbox(log, c))
      {
        var extra := if last.sender == c then [] else [last.message];
        assert Inbox(log, c) == Inbox(init, c) + extra;
        Seqs.ConcatAssoc(clients[c].ch, Inbox(init, c), extra);
        if last.sender == c {
          Seqs.ConcatEmpty(clients[c].ch + Inbox(init, c));
        }
      }
    }
  }

  /** The broadcasts one connection makes of the lines it reads. */
  function Posts(msgs: seq<string>, sender: Conn): seq<Post>
  {
    seq(|msgs|, i requires 0 <= i < |msgs| => Post(msgs[i], sender))
  }

  /** Of one sender's broadcasts, everyone else receives all of them and the sender none. */
  lemma {:induction false} InboxOfPosts(msgs: seq<string>, sender: Conn, c: Conn)
    ensures Inbox(Posts(msgs, sender), c) == if c == sender then [] else msgs
    decreases |msgs|
  {
    if msgs != [] {
      var init := msgs[..|msgs| - 1];
      assert Posts(msgs, sender)[..|msgs| - 1] == Posts(init, sender);
      InboxOfPosts(init, sender, c);
      if c == sender {
        Seqs.ConcatEmpty(Inbox(Posts(init, sender), c));
      } else {
        assert msgs == init + [msgs[|msgs| - 1]];
      }
    }
  }

  /**
   * The effect of one whole connection: once it has registered, relayed the
   * lines `msgs` and unregistered, every other connection's queue has those
   * lines appended verbatim and in order, and only its own entry is gone.
   */
  lemma SessionEffect(clients: Clients, conn: Conn, msgs: seq<string>)
    ensures var after := Removed(Delivered(Registered(clients, conn), Posts(msgs, conn)), conn);
      after.Keys == clients.Keys - {conn} &&
      forall c :: c in clients && c != conn ==> after[c] == clients[c].(ch := clients[c].ch + msgs)
  {
    var reg := Registered(clients, conn);
    RegisteredEffect(clients, conn);
    DeliveredInOrder(reg, Posts(msgs, conn));
    RemovedEffect(Delivered(reg, Posts(msgs, conn)), conn);
    forall c | c in clients && c != conn
      ensures Inbox(Posts(msgs, conn), c) == msgs
    {
      InboxOfPosts(msgs, conn, c);
    }
  }

  /** The global `clients` map. */
  class Registry {
    var clients: Clients

    ghost predicate Valid()
      reads this
    {
      WellFormed(clients)
    }

    constructor ()
      ensures Valid() && clients == map[]
    {
      clients := map[];
    }

    /** The registration at the start of `handleConnection`. */
    method Register(conn: Conn)
      requires Valid()
      modifies this
      ensures Valid()
      ensures clients == Registered(old(clients), conn)
    {
      clients := clients[conn := Client(conn, [])];
      RegisteredEffect(old(clients), conn);
    }

    /** The deletion once the connection's input has ended. */
    method Unregister(conn: Conn)
      requires Valid()
      modifies this
      ensures Valid()
      ensures clients == Removed(old(clients), conn)
    {
      clients := clients - {conn};
      RemovedEffect(old(clients), conn);
    }

    /**
     * `broadcast`: visits the registered connections in an arbitrary order and
     * puts the message on each queue but the sender's. A send to a full channel
     * would block, so every recipient must have room.
     */
    method Broadcast(message: string, sender: Conn)
      requires Valid() && HasRoom(clients, sender, 1)
      modifies this
      ensures Valid()
      ensures clients == Broadcasted(old(clients), message, sender)
    {
      ghost var start := clients;
      var pending := clients.Keys;
      while pending != {}
        invariant pending <= start.Keys
        invariant clients.Keys == start.Keys
        invariant forall c :: c in clients ==>
          clients[c] == if c in pending || c == sender then start[c] else start[c].(ch := start[c].ch + [message])
        decreases pending
      {
        var c :| c in pending;
        if c != sender {
          var client := clients[c];
          clients := clients[c := client.(ch := client.ch + [message])];
        }
        pending := pending - {c};
      }
      BroadcastedEffect(start, message, sender);
    }

    /**
     * One iteration of the writer goroutine: takes the oldest message off the
     * queue and returns the line written to the socket, the message and one
     * '\n'. Nothing happens when the queue is empty or the entry is gone.
     */
    method WriteNext(conn: Conn) returns (line: Option<string>)
      requires Valid()
      modifies this
      ensures Valid()
      ensures conn in old(clients) && old(clients)[conn].ch != [] ==>
        line == Some(Lines.Frame(old(clients)[conn].ch[0])) &&
        clients == old(clients)[conn := old(clients)[conn].(ch := old(clients)[conn].ch[1..])]
      ensures !(conn in old(clients) && old(clients)[conn].ch != []) ==> line == None && clients == old(clients)
    {
      if conn in clients && clients[conn].ch != [] {
        var client := clients[conn];
        clients := clients[conn := client.(ch := client.ch[1..])];
        line := Some(Lines.Frame(client.ch[0]));
      } else {
        line := None;
      }
    }

    /**
     * The writer goroutine run until the queue is empty: what it writes is the
     * queued messages, oldest first, each on its own line.
     */
    method Flush(conn: Conn) returns (written: string)
      requires Valid()
      modifies this
      ensures Valid()
      ensures conn in old(clients) ==>
        written == Lines.Join(old(clients)[conn].ch) &&
        clients == old(clients)[conn := old(clients)[conn].(ch := [])]
      ensures conn !in old(clients) ==> written == "" && clients == old(clients)
    {
      ghost var start := clients;
      written := "";
      if conn !in clients {
        return;
      }
      ghost var total := Lines.Join(start[conn].ch);
      while clients[conn].ch != []
        invariant Valid()
        invariant conn in clients
        invariant clients == start[conn := start[conn].(ch := clients[conn].ch)]
        invariant total == written + Lines.Join(clients[conn].ch)
        decreases |clients[conn].ch|
      {
        ghost var queue := clients[conn].ch;
        ghost var before := written;
        var line := WriteNext(conn);
        written := written + line.value;
        assert queue == [queue[0]] + queue[1..];
        Lines.JoinCons(queue[0], queue[1..]);
        Seqs.ConcatAssoc(before, Lines.Frame(queue[0]), Lines.Join(queue[1..]));
      }
    }

    /**
     * `handleConnection` for a connection whose client sends `input`: register,
     * broadcast every line the scanner reads, then unregister. The messages its
     * writer would send in the meantime are not taken off the queues here.
     */
    method HandleConnection(conn: Conn, input: string)
      requires Valid() && HasRoom(clients, conn, |Lines.ScanLines(input)|)
      modifies this
      ensures Valid()
      ensures clients == Removed(Delivered(Registered(old(clients), conn), Posts(Lines.ScanLines(input), conn)), conn)
    {
      Register(conn);
      ghost var reg := clients;
      var msgs := Lines.ScanLines(input);
      var i := 0;
      while i < |msgs|
        invariant 0 <= i <= |msgs|
        invariant Valid()
        invariant clients == Delivered(reg, Posts(msgs[..i], conn))
        invariant clients.Keys == reg.Keys && clients[conn] == reg[conn]
        invariant forall c :: c in clients && c != conn ==> |clients[c].ch| + |msgs| - i <= QueueCapacity
      {
        ghost var before := clients;
        Broadcast(msgs[i], conn);
        BroadcastedEffect(before, msgs[i], conn);
        assert Posts(msgs[..i + 1], conn)[..i] == Posts(msgs[..i], conn);
        i := i + 1;
      }
      assert msgs[..i] == msgs;
      Unregister(conn);
    }
  }
}
