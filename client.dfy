/**
 * The chat client (cmd/client.go): key derivation, the encrypted and
 * Base64-encoded wire frame, the send loop that turns typed lines into
 * frames, and the receive loop that turns frames back into messages.
 *
 * SHA-256 and AES-GCM are library code outside this model. They enter as
 * parameters: `sha256` is any function yielding 32-byte digests, and an
 * `Aead` value stands for the `cipher.AEAD` built from the derived key.
 * Where a property needs the cipher to be correct, it assumes
 * OpenInvertsSeal of it as a hypothesis.
 */
module Client {

  import opened Wrappers
  import opened Text
  import Base64
  import Lines
  import Seqs

  /** `sha256.Size`. */
  const DigestSize := 32

  type Digest = d: Bytes | |d| == DigestSize witness seq(DigestSize, i => 0)

  /** The error values the codec can return. */
  datatype Error =
    | RandomFailed         // io.ReadFull could not fill the nonce from the random source
    | CorruptInput         // base64.CorruptInputError
    | CiphertextTooShort   // "ciphertext too short"
    | AuthenticationFailed // the error of gcm.Open

  /**
   * A `cipher.AEAD` with no additional data: `seal(nonce, p)` is the
   * ciphertext and tag `Seal` appends, `open(nonce, c)` the plaintext
   * `Open` returns, or None when authentication fails.
   */
  datatype Aead = Aead(
    nonceSize: nat,
    seal: (Bytes, Bytes) -> Bytes,
    open: (Bytes, Bytes) -> Option<Bytes>)

  /** The correctness hypothesis on the cipher: opening what was sealed under the same nonce returns it. */
  ghost predicate OpenInvertsSeal(g: Aead)
  {
    forall nonce: Bytes, p: Bytes :: |nonce| == g.nonceSize ==> g.open(nonce, g.seal(nonce, p)) == Some(p)
  }

  /** `deriveKey`: the SHA-256 digest of the passphrase's UTF-8 bytes. */
  function DeriveKey(sha256: Bytes -> Digest, passphrase: string): (key: Bytes)
    ensures |key| == DigestSize
  {
    sha256(Utf8(passphrase))
  }

  /**
   * The key `main` derives from the passphrase it reads, which it trims
   * first: white space typed around the passphrase does not change the key.
   */
  function SessionKey(sha256: Bytes -> Digest, typed: string): (key: Bytes)
    ensures |key| == DigestSize
  {
    DeriveKey(sha256, TrimSpace(typed))
  }

  /** Two peers typing the same passphrase, padded differently with white space, derive the same key. */
  lemma SessionKeyIgnoresPadding(sha256: Bytes -> Digest, a: string, passphrase: string, b: string)
    requires AllSpace(a) && AllSpace(b)
    requires passphrase == [] || (!IsSpace(passphrase[0]) && !IsSpace(passphrase[|passphrase| - 1]))
    ensures SessionKey(sha256, a + passphrase + b) == DeriveKey(sha256, passphrase)
  {
    TrimSpaceOfPadded(a, passphrase, b);
  }

  /**
   * `encrypt`. `random` is what `rand.Reader` yields before it stops; the
   * nonce is its first `nonceSize` bytes, as `io.ReadFull` reads them.
   */
  function Encrypt(plaintext: Bytes, g: Aead, random: Bytes): (r: Result<string, Error>)
    ensures r.Ok? <==> g.nonceSize <= |random|
    ensures r.Err? ==> r.error == RandomFailed
  {
    if |random| < g.nonceSize then
      Err(RandomFailed)
    else
      var nonce := random[..g.nonceSize];
      Ok(Base64.Encode(nonce + g.seal(nonce, plaintext)))
  }

  /** A frame is Base64 text: alphabet characters and padding only. */
  lemma EncryptIsEncodingText(plaintext: Bytes, g: Aead, random: Bytes)
    requires g.nonceSize <= |random|
    ensures Base64.IsEncodingText(Encrypt(plaintext, g, random).value)
  {
    var nonce := random[..g.nonceSize];
    var text := Base64.Encode(nonce + g.seal(nonce, plaintext));
    assert Base64.IsEncodingText(text);
  }

  /** The frame layout: the Base64 text of `encrypt` decodes to the nonce followed by the sealed plaintext. */
  lemma EncryptLayout(plaintext: Bytes, g: Aead, random: Bytes)
    requires g.nonceSize <= |random|
    ensures var nonce := random[..g.nonceSize];
      Base64.Decode(Encrypt(plaintext, g, random).value) == Ok(nonce + g.seal(nonce, plaintext))
  {
    var nonce := random[..g.nonceSize];
    Base64.DecodeEncode(nonce + g.seal(nonce, plaintext));
  }

  /** The split `decrypt` makes: the first `n` bytes are the nonce. */
  function SplitNonce(raw: Bytes, n: nat): (parts: (Bytes, Bytes))
    requires n <= |raw|
    ensures parts.0 + parts.1 == raw && |parts.0| == n
  {
    (raw[..n], raw[n..])
  }

  /** `decrypt`: Base64-decode, reject frames shorter than a nonce, split, and open. */
  function Decrypt(encoded: string, g: Aead): (r: Result<Bytes, Error>)
  {
    match Base64.Decode(encoded)
    case Err(_) => Err(CorruptInput)
    case Ok(raw) =>
      if |raw| < g.nonceSize then Err(CiphertextTooShort)
      else
        var (nonce, sealed) := SplitNonce(raw, g.nonceSize);
        match g.open(nonce, sealed)
        case None => Err(AuthenticationFailed)
        case Some(p) => Ok(p)
  }

  /**
   * The three outcomes of `decrypt`: invalid Base64 is CorruptInput, a frame
   * shorter than a nonce is CiphertextTooShort, and a plaintext is returned
   * only when `Open` authenticates the tail under the leading nonce.
   */
  lemma DecryptOutcome(encoded: string, g: Aead)
    ensures Base64.Decode(encoded).Err? ==> Decrypt(encoded, g) == Err(CorruptInput)
    ensures Base64.Decode(encoded).Ok? && |Base64.Decode(encoded).value| < g.nonceSize ==>
      Decrypt(encoded, g) == Err(CiphertextTooShort)
    ensures Decrypt(encoded, g).Ok? ==>
      var raw := Base64.Decode(encoded).value;
      Base64.Decode(encoded).Ok? && g.nonceSize <= |raw| &&
      g.open(raw[..g.nonceSize], raw[g.nonceSize..]) == Some(Decrypt(encoded, g).value)
  {
  }

  /** Round trip: with a correct cipher, `decrypt(encrypt(p))` returns `p` for every nonce drawn. */
  lemma RoundTrip(plaintext: Bytes, g: Aead, random: Bytes)
    requires OpenInvertsSeal(g)
    requires g.nonceSize <= |random|
    ensures Decrypt(Encrypt(plaintext, g, random).value, g) == Ok(plaintext)
  {
    var nonce := random[..g.nonceSize];
    var sealed := g.seal(nonce, plaintext);
    EncryptLayout(plaintext, g, random);
    assert (nonce + sealed)[..g.nonceSize] == nonce;
    assert (nonce + sealed)[g.nonceSize..] == sealed;
  }

  /** A line holding a character outside Base64, other than a line break, is rejected before any decryption. */
  lemma DecryptRejectsForeign(encoded: string, i: nat, g: Aead)
    requires i < |encoded| && !Base64.IsEncodingChar(encoded[i])
    requires encoded[i] != '\n' && encoded[i] != '\r'
    ensures Decrypt(encoded, g) == Err(CorruptInput)
  {
    Base64.DecodeRejectsForeign(encoded, i);
  }

  /** Base64 text contains no line break, so the '\n' appended by the send loop is its only delimiter. */
  lemma EncodingTextIsTransparent(s: string)
    requires Base64.IsEncodingText(s)
    ensures Lines.Transparent(s)
    ensures s == [] || (!IsSpace(s[0]) && !IsSpace(s[|s| - 1]))
  {
    assert forall i :: 0 <= i < |s| ==> s[i] != '\n' && !IsSpace(s[i]) by {
      forall i | 0 <= i < |s| ensures s[i] != '\n' && !IsSpace(s[i]) {
        assert Base64.IsEncodingChar(s[i]);
      }
    }
  }

  // ---------------------------------------------------------------------------
  // The send loop of main

  /** What one call of `chatRl.Readline()` returns. */
  datatype InputEvent =
    | Line(text: string)   // a line of input
    | Interrupt            // readline.ErrInterrupt (Ctrl-C): ignored
    | Closed               // any other error, such as end of input: the loop ends

  /**
   * The outside world as the send loop sees it at event `i`: the bytes the
   * random source yields for that iteration's nonce, and whether the socket
   * write succeeds.
   */
  datatype Env = Env(entropy: nat -> Bytes, writeOk: nat -> bool)

  /** Every remaining iteration draws a full nonce and writes successfully. */
  ghost predicate Reliable(env: Env, g: Aead, events: seq<InputEvent>, from: nat)
  {
    forall i :: from <= i < |events| ==> g.nonceSize <= |env.entropy(i)| && env.writeOk(i)
  }

  /**
   * What iteration `i` of the send loop writes, as frames each followed on
   * the wire by one '\n': nothing for an interrupt, for input that is empty
   * after trimming, or when the nonce draw or the write fails.
   */
  function Step(events: seq<InputEvent>, g: Aead, env: Env, i: nat): seq<string>
    requires i < |events|
  {
    match events[i]
    case Closed => []
    case Interrupt => []
    case Line(t) =>
      var text := TrimSpace(t);
      if text == [] then []
      else match Encrypt(Utf8(text), g, env.entropy(i))
        case Err(_) => []
        case Ok(frame) => if env.writeOk(i) then [frame] else []
  }

  /** The frames the send loop writes while handling `events[from..]`; it stops at the end of input. */
  function Outbound(events: seq<InputEvent>, g: Aead, env: Env, from: nat): seq<string>
    decreases |events| - from
  {
    if from >= |events| || events[from].Closed? then []
    else Step(events, g, env, from) + Outbound(events, g, env, from + 1)
  }

  /** The text a user submits with one input event: its trimmed line, unless that is empty. */
  function Typed(e: InputEvent): (texts: seq<string>)
    ensures |texts| <= 1
    ensures forall t :: t in texts ==> t != [] && TrimSpace(t) == t
  {
    match e
    case Line(t) =>
      TrimSpaceIdempotent(t);
      if TrimSpace(t) == [] then [] else [TrimSpace(t)]
    case _ => []
  }

  /** The texts the user submits with `events[from..]`, up to the end of input. */
  function Submitted(events: seq<InputEvent>, from: nat): seq<string>
    decreases |events| - from
  {
    if from >= |events| || events[from].Closed? then []
    else Typed(events[from]) + Submitted(events, from + 1)
  }

  /** The byte strings of a sequence of texts. */
  function Utf8All(texts: seq<string>): (bs: seq<Bytes>)
    ensures |bs| == |texts|
    ensures forall k :: 0 <= k < |texts| ==> bs[k] == Utf8(texts[k])
  {
    if texts == [] then [] else [Utf8(texts[0])] + Utf8All(texts[1..])
  }

  /** The output from iteration `i` on is what iteration `i` writes, then the output of the rest. */
  lemma OutboundUnfold(events: seq<InputEvent>, g: Aead, env: Env, i: nat)
    requires i < |events| && !events[i].Closed?
    ensures Lines.Join(Outbound(events, g, env, i)) ==
      Lines.Join(Step(events, g, env, i)) + Lines.Join(Outbound(events, g, env, i + 1))
  {
    Lines.JoinAppend(Step(events, g, env, i), Outbound(events, g, env, i + 1));
  }

  /**
   * One iteration of the send loop for an input line: trim it, skip it when
   * blank, encrypt it, skip it when no nonce could be drawn, and write it
   * with its '\n'; a failed write sends nothing. Returns what reached the socket.
   */
  method SendOne(events: seq<InputEvent>, g: Aead, env: Env, i: nat) returns (sent: string)
    requires i < |events|
    ensures sent == Lines.Join(Step(events, g, env, i))
  {
    sent := "";
    if !events[i].Line? {
      return;
    }
    var text := TrimSpace(events[i].text);
    if text == [] {
      return;
    }
    var encrypted := Encrypt(Utf8(text), g, env.entropy(i));
    if encrypted.Err? {
      return;
    }
    if !env.writeOk(i) {
      return;
    }
    sent := Lines.Frame(encrypted.value);
    Lines.JoinOne(encrypted.value);
  }

  /**
   * The send loop of `main`: reads events until the first read error other
   * than an interrupt and writes what each iteration sends. The bytes put on
   * the socket are the frames of Outbound, one after another.
   */
  method SendLoop(events: seq<InputEvent>, g: Aead, env: Env) returns (wire: string)
    ensures wire == Lines.Join(Outbound(events, g, env, 0))
  {
    wire := "";
    var i := 0;
    ghost var total := Lines.Join(Outbound(events, g, env, 0));
    while i < |events|
      invariant 0 <= i <= |events|
      invariant total == wire + Lines.Join(Outbound(events, g, env, i))
    {
      if events[i].Closed? {
        break;
      }
      var sent := SendOne(events, g, env, i);
      ghost var written := wire;
      wire := wire + sent;
      ghost var rest := Lines.Join(Outbound(events, g, env, i + 1));
      OutboundUnfold(events, g, env, i);
      Seqs.ConcatAssoc(written, sent, rest);
      i := i + 1;
    }
  }

  /** Every frame the send loop writes is Base64 text, so it holds no '\n' of its own. */
  lemma {:induction false} OutboundIsEncodingText(events: seq<InputEvent>, g: Aead, env: Env, from: nat)
    ensures forall f :: f in Outbound(events, g, env, from) ==> Base64.IsEncodingText(f)
    decreases |events| - from
  {
    if from < |events| && !events[from].Closed? {
      OutboundIsEncodingText(events, g, env, from + 1);
      var e := events[from];
      if e.Line? && g.nonceSize <= |env.entropy(from)| {
        EncryptIsEncodingText(Utf8(TrimSpace(e.text)), g, env.entropy(from));
      }
    }
  }

  /**
   * Whatever the cipher, an iteration writes something exactly when its input
   * is a line that is not blank after trimming, the nonce draw succeeds and
   * the write succeeds; what it writes is then the one frame of that line.
   */
  lemma StepSendsOnlyText(events: seq<InputEvent>, g: Aead, env: Env, i: nat)
    requires i < |events|
    ensures Step(events, g, env, i) != [] <==>
      events[i].Line? && TrimSpace(events[i].text) != [] && g.nonceSize <= |env.entropy(i)| && env.writeOk(i)
    ensures Step(events, g, env, i) != [] ==>
      Step(events, g, env, i) == [Encrypt(Utf8(TrimSpace(events[i].text)), g, env.entropy(i)).value]
  {
  }

  /** With a correct cipher every frame one iteration writes decrypts to its trimmed, non-empty input. */
  lemma StepDecrypts(events: seq<InputEvent>, g: Aead, env: Env, i: nat)
    requires OpenInvertsSeal(g)
    requires i < |events|
    ensures forall f :: f in Step(events, g, env, i) ==>
      events[i].Line? && TrimSpace(events[i].text) != [] &&
      Decrypt(f, g) == Ok(Utf8(TrimSpace(events[i].text)))
  {
    if events[i].Line? {
      var text := TrimSpace(events[i].text);
      var random := env.entropy(i);
      if text != [] && g.nonceSize <= |random| {
        RoundTrip(Utf8(text), g, random);
        var frame := Encrypt(Utf8(text), g, random).value;
        assert Step(events, g, env, i) == if env.writeOk(i) then [frame] else [];
      } else {
        assert Step(events, g, env, i) == [];
      }
    } else {
      assert Step(events, g, env, i) == [];
    }
  }

  /**
   * The send loop never transmits input that is empty after trimming: with
   * a correct cipher every frame decrypts to a non-empty message.
   */
  lemma {:induction false} OutboundNeverEmpty(events: seq<InputEvent>, g: Aead, env: Env, from: nat)
    requires OpenInvertsSeal(g)
    ensures forall f :: f in Outbound(events, g, env, from) ==>
      Decrypt(f, g).Ok? && Decrypt(f, g).value != []
    decreases |events| - from
  {
    if from < |events| && !events[from].Closed? {
      OutboundNeverEmpty(events, g, env, from + 1);
      StepDecrypts(events, g, env, from);
    }
  }

  // ---------------------------------------------------------------------------
  // The receive loop of main

  /**
   * The messages the receive loop renders for the bytes `stream` arriving
   * from the relay: each line read with ReadString is trimmed and decrypted;
   * a line that fails to decrypt is skipped; an unterminated remainder ends
   * the loop.
   */
  function Inbound(stream: string, g: Aead): seq<Bytes>
    decreases |stream|
  {
    match Lines.NextLine(stream)
    case None => []
    case Some((line, rest)) => Rendered(line, g) + Inbound(rest, g)
  }

  /** What the receive loop renders for one line read: its decryption, or nothing when that fails. */
  function Rendered(line: string, g: Aead): seq<Bytes>
  {
    match Decrypt(TrimSpace(line), g)
    case Ok(p) => [p]
    case Err(_) => []
  }

  /** One iteration of the receive loop: the first line read is rendered, then the rest of the stream. */
  lemma InboundStep(stream: string, rest: string, shown: seq<Bytes>, g: Aead)
    requires shown + Inbound(rest, g) == Inbound(stream, g)
    requires Lines.NextLine(rest).Some?
    ensures var (line, remaining) := Lines.NextLine(rest).value;
      |remaining| < |rest| && (shown + Rendered(line, g)) + Inbound(remaining, g) == Inbound(stream, g)
  {
    var (line, remaining) := Lines.NextLine(rest).value;
    assert Inbound(rest, g) == Rendered(line, g) + Inbound(remaining, g);
    Seqs.ConcatAssoc(shown, Rendered(line, g), Inbound(remaining, g));
  }

  /** The receive goroutine: read a line, trim, decrypt, render; skip what fails; stop when reading fails. */
  method ReceiveLoop(stream: string, g: Aead) returns (shown: seq<Bytes>)
    ensures shown == Inbound(stream, g)
  {
    shown := [];
    var rest := stream;
    Seqs.ConcatEmpty(Inbound(stream, g));
    while true
      invariant shown + Inbound(rest, g) == Inbound(stream, g)
      decreases |rest|
    {
      var next := Lines.NextLine(rest);
      if next.None? {
        break;
      }
      var (line, remaining) := next.value;
      InboundStep(stream, rest, shown, g);
      var decrypted := Decrypt(TrimSpace(line), g);
      if decrypted.Ok? {
        shown := shown + [decrypted.value];
        assert Rendered(line, g) == [decrypted.value];
      } else {
        assert Rendered(line, g) == [];
        Seqs.ConcatEmpty(shown);
      }
      rest := remaining;
    }
  }

  /** Receiving one framed Base64 line renders what that frame decrypts to, then the rest. */
  lemma InboundFrame(frame: string, rest: string, g: Aead)
    requires Base64.IsEncodingText(frame)
    ensures Inbound(Lines.Frame(frame) + rest, g) == Rendered(frame, g) + Inbound(rest, g)
  {
    var line := Lines.Frame(frame);
    EncodingTextIsTransparent(frame);
    Lines.NextLineOfFrame(frame, rest);
    assert Inbound(line + rest, g) == Rendered(line, g) + Inbound(rest, g);
    TrimNewlineTerminated(frame);
    TrimOfUnpadded(frame);
    assert TrimSpace(line) == TrimSpace(frame);
  }

  /** Receiving two runs of frames one after the other renders the two results one after the other. */
  lemma {:induction false} InboundJoinAppend(a: seq<string>, b: seq<string>, g: Aead)
    requires forall f :: f in a ==> Base64.IsEncodingText(f)
    ensures Inbound(Lines.Join(a + b), g) == Inbound(Lines.Join(a), g) + Inbound(Lines.Join(b), g)
  {
    if a == [] {
      Seqs.ConcatEmpty(b);
      assert Inbound(Lines.Join(a), g) == [];
      Seqs.ConcatEmpty(Inbound(Lines.Join(b), g));
    } else {
      var f := a[0];
      Seqs.ConsParts(f, a[1..]);
      assert a == [f] + a[1..];
      Seqs.ConcatAssoc([f], a[1..], b);
      Lines.JoinCons(f, a[1..] + b);
      Lines.JoinCons(f, a[1..]);
      InboundFrame(f, Lines.Join(a[1..] + b), g);
      InboundFrame(f, Lines.Join(a[1..]), g);
      InboundJoinAppend(a[1..], b, g);
      Seqs.ConcatAssoc(Rendered(f, g), Inbound(Lines.Join(a[1..]), g), Inbound(Lines.Join(b), g));
    }
  }

  lemma {:induction false} Utf8AllAppend(a: seq<string>, b: seq<string>)
    ensures Utf8All(a + b) == Utf8All(a) + Utf8All(b)
  {
    if a == [] {
      Seqs.ConcatEmpty(b);
      Seqs.ConcatEmpty(Utf8All(b));
    } else {
      Seqs.ConsParts(a[0], a[1..]);
      assert a == [a[0]] + a[1..];
      Seqs.ConcatAssoc([a[0]], a[1..], b);
      Seqs.ConsParts(a[0], a[1..] + b);
      Utf8AllAppend(a[1..], b);
      Seqs.ConcatAssoc([Utf8(a[0])], Utf8All(a[1..]), Utf8All(b));
    }
  }

  /** One reliable iteration: the peer renders the UTF-8 bytes of the text it submitted, if any. */
  lemma StepDelivers(events: seq<InputEvent>, g: Aead, env: Env, i: nat)
    requires OpenInvertsSeal(g)
    requires i < |events| && g.nonceSize <= |env.entropy(i)| && env.writeOk(i)
    ensures Inbound(Lines.Join(Step(events, g, env, i)), g) == Utf8All(Typed(events[i]))
  {
    if events[i].Line? && TrimSpace(events[i].text) != [] {
      var text := TrimSpace(events[i].text);
      var frame := Encrypt(Utf8(text), g, env.entropy(i)).value;
      assert Step(events, g, env, i) == [frame];
      assert Typed(events[i]) == [text];
      Lines.JoinCons(frame, []);
      Seqs.ConcatEmpty(Lines.Frame(frame));
      assert Lines.Join([frame]) == Lines.Frame(frame) + "";
      RoundTrip(Utf8(text), g, env.entropy(i));
      InboundFrame(frame, "", g);
      assert Inbound("", g) == [];
      EncodingTextIsTransparent(frame);
      TrimOfUnpadded(frame);
      assert Rendered(frame, g) == [Utf8(text)];
      Seqs.ConcatEmpty([Utf8(text)]);
      Seqs.ConsParts(text, []);
      Seqs.ConcatEmpty([text]);
      assert Utf8All([text]) == [Utf8(text)] + Utf8All([]);
    } else {
      assert Step(events, g, env, i) == [];
      assert Typed(events[i]) == [];
    }
  }

  /**
   * Send loop to receive loop: when every nonce draw and write succeeds and
   * the cipher is correct, a peer reading the frames renders exactly the
   * UTF-8 bytes of the submitted lines, in order.
   */
  lemma {:induction false} OutboundDelivers(events: seq<InputEvent>, g: Aead, env: Env, from: nat)
    requires OpenInvertsSeal(g)
    requires Reliable(env, g, events, from)
    ensures Inbound(Lines.Join(Outbound(events, g, env, from)), g) == Utf8All(Submitted(events, from))
    decreases |events| - from
  {
    if from < |events| && !events[from].Closed? {
      var step := Step(events, g, env, from);
      var rest := Outbound(events, g, env, from + 1);
      OutboundDelivers(events, g, env, from + 1);
      OutboundIsEncodingText(events, g, env, from);
      assert forall f :: f in step ==> f in Outbound(events, g, env, from);
      InboundJoinAppend(step, rest, g);
      StepDelivers(events, g, env, from);
      Utf8AllAppend(Typed(events[from]), Submitted(events, from + 1));
    }
  }
}
