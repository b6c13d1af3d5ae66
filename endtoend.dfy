/**
 * Two clients that share a passphrase talk through the relay: what one types
 * is encrypted, framed, relayed verbatim to the other's queue, written to the
 * other's socket and decrypted there, so the other shows exactly the lines
 * typed, trimmed and in order, while the sender's own queue receives nothing.
 */
module EndToEnd {

  import opened Text
  import Lines
  import Client
  import Server
  import Seqs

  /** The relay hands the sender's frames to the scanner unchanged: each is one whole line. */
  lemma RelayScansFrames(events: seq<Client.InputEvent>, g: Client.Aead, env: Client.Env)
    ensures Lines.ScanLines(Lines.Join(Client.Outbound(events, g, env, 0))) == Client.Outbound(events, g, env, 0)
  {
    var frames := Client.Outbound(events, g, env, 0);
    Client.OutboundIsEncodingText(events, g, env, 0);
    forall k | 0 <= k < |frames|
      ensures Lines.Transparent(frames[k])
    {
      Client.EncodingTextIsTransparent(frames[k]);
    }
    Lines.ScanLinesJoin(frames);
  }

  /**
   * The sender `alice` connects, sends what the send loop writes for `events`
   * and disconnects; the listener `bob`, whose queue was empty, then holds the
   * frames in order, and decoding what its writer sends recovers every line
   * `alice` submitted. `alice`'s own queue stays empty throughout.
   */
  lemma Conversation(clients: Server.Clients, alice: Server.Conn, bob: Server.Conn,
                     events: seq<Client.InputEvent>, g: Client.Aead, env: Client.Env)
    requires Client.OpenInvertsSeal(g) && Client.Reliable(env, g, events, 0)
    requires bob in clients && bob != alice && clients[bob].ch == []
    ensures var frames := Lines.ScanLines(Lines.Join(Client.Outbound(events, g, env, 0)));
      var during := Server.Delivered(Server.Registered(clients, alice), Server.Posts(frames, alice));
      var after := Server.Removed(during, alice);
      alice in during && during[alice].ch == [] &&
      bob in after &&
      after[bob].ch == Client.Outbound(events, g, env, 0) &&
      Client.Inbound(Lines.Join(after[bob].ch), g) == Client.Utf8All(Client.Submitted(events, 0))
  {
    var frames := Client.Outbound(events, g, env, 0);
    RelayScansFrames(events, g, env);
    var reg := Server.Registered(clients, alice);
    Server.RegisteredEffect(clients, alice);
    Server.DeliveredInOrder(reg, Server.Posts(frames, alice));
    Server.InboxOfPosts(frames, alice, alice);
    Seqs.ConcatEmpty(reg[alice].ch);
    Server.SessionEffect(clients, alice, frames);
    Seqs.ConcatEmpty(frames);
    Client.OutboundDelivers(events, g, env, 0);
  }

  /**
   * Two peers, each building its cipher with `cipherOf` from the key its own
   * typed passphrase derives: when both typed the same passphrase `p`, padded
   * with any white space, the listener `bob` holds the sender's cipher and
   * shows every line `alice` submitted.
   */
  lemma SharedPassphrase(clients: Server.Clients, alice: Server.Conn, bob: Server.Conn,
                         events: seq<Client.InputEvent>, env: Client.Env,
                         sha256: Bytes -> Client.Digest, cipherOf: Bytes -> Client.Aead,
                         p: string, a1: string, b1: string, a2: string, b2: string)
    requires AllSpace(a1) && AllSpace(b1) && AllSpace(a2) && AllSpace(b2)
    requires p == [] || (!IsSpace(p[0]) && !IsSpace(p[|p| - 1]))
    requires Client.OpenInvertsSeal(cipherOf(Client.SessionKey(sha256, a1 + p + b1)))
    requires Client.Reliable(env, cipherOf(Client.SessionKey(sha256, a1 + p + b1)), events, 0)
    requires bob in clients && bob != alice && clients[bob].ch == []
    ensures var sending := cipherOf(Client.SessionKey(sha256, a1 + p + b1));
      var listening := cipherOf(Client.SessionKey(sha256, a2 + p + b2));
      var frames := Lines.ScanLines(Lines.Join(Client.Outbound(events, sending, env, 0)));
      var after := Server.Removed(Server.Delivered(Server.Registered(clients, alice), Server.Posts(frames, alice)), alice);
      bob in after && Client.Inbound(Lines.Join(after[bob].ch), listening) == Client.Utf8All(Client.Submitted(events, 0))
  {
    var sending := cipherOf(Client.SessionKey(sha256, a1 + p + b1));
    Client.SessionKeyIgnoresPadding(sha256, a1, p, b1);
    Client.SessionKeyIgnoresPadding(sha256, a2, p, b2);
    assert cipherOf(Client.SessionKey(sha256, a2 + p + b2)) == sending;
    Conversation(clients, alice, bob, events, sending, env);
  }

  /**
   * The same conversation run through the model's loops: the send loop, the
   * relay's connection handler, the listener's writer and its receive loop.
   */
  method Relay(registry: Server.Registry, alice: Server.Conn, bob: Server.Conn,
               events: seq<Client.InputEvent>, g: Client.Aead, env: Client.Env) returns (shown: seq<Bytes>)
    requires Client.OpenInvertsSeal(g) && Client.Reliable(env, g, events, 0)
    requires registry.Valid() && Server.HasRoom(registry.clients, alice, |Client.Outbound(events, g, env, 0)|)
    requires bob in registry.clients && bob != alice && registry.clients[bob].ch == []
    modifies registry
    ensures registry.Valid()
    ensures registry.clients == Server.Removed(Server.Delivered(Server.Registered(old(registry.clients), alice),
      Server.Posts(Client.Outbound(events, g, env, 0), alice)), alice)[bob := old(registry.clients)[bob]]
    ensures shown == Client.Utf8All(Client.Submitted(events, 0))
  {
    var wire := Client.SendLoop(events, g, env);
    RelayScansFrames(events, g, env);
    ghost var before := registry.clients;
    registry.HandleConnection(alice, wire);
    Conversation(before, alice, bob, events, g, env);
    var received := registry.Flush(bob);
    shown := Client.ReceiveLoop(received, g);
  }
}
