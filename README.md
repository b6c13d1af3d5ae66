# GoTalk relay and client, modelled in Dafny

GoTalk is an end-to-end encrypted terminal chat. Clients that share a passphrase
connect to a relay server. The server forwards every line it reads from one
connection to the queues of all other connections. It never reads or changes
a message.

Each client derives an AES-256 key as the SHA-256 digest of the trimmed
passphrase. It seals every non-empty trimmed input line with AES-GCM under a
fresh random nonce, and sends `base64(nonce ‖ sealed)` followed by `'\n'`. For
every line it receives, it trims it, decodes the Base64, splits off the nonce,
opens the rest and shows the plaintext. It skips lines that fail.

This project models those two programs and proves what they promise:

- `text.dfy` covers Go's `strings.TrimSpace`, `unicode.IsSpace` and `[]byte(s)` as UTF-8.
- `base64.dfy` covers `base64.StdEncoding`, including its skipping of `'\r'`/`'\n'` and its strict padding.
- `lines.dfy` covers the newline framing, `bufio.Reader.ReadString('\n')` and `bufio.ScanLines`.
- `client.dfy` covers `deriveKey`, `encrypt`, `decrypt`, the send loop and the receive loop of `main`.
- `server.dfy` covers the `Client` record, the `clients` registry as a class, `handleConnection`, `broadcast` and the writer.
- `endtoend.dfy` covers a full conversation: one client's typed lines reach the other client unchanged.

SHA-256 and AES-GCM are not implemented. They enter as parameters:

- `sha256` is any function that yields 32-byte digests.
- An `Aead` value stands for a `cipher.AEAD`: a nonce size, a `seal` function and an `open` function.

Any property that depends on the cipher being correct takes `OpenInvertsSeal(g)` as a hypothesis. The random source also enters as a parameter: the bytes it yields before stopping. So does the success of each socket write.

## Model

| member | source | states |
|---|---|---|
| Text.IsSpace | cmd/client.go:105 | Definition: `unicode.IsSpace`, the Unicode White_Space characters (tab to carriage return, space, U+0085, U+00A0, U+1680, U+2000 to U+200A, U+2028, U+2029, U+202F, U+205F, U+3000). |
| Text.TrimLeft | cmd/client.go:105 | The result is a suffix of the input that does not start with white space, and everything removed in front of it is white space. |
| Text.TrimRight | cmd/client.go:105 | The result is a prefix of the input that does not end with white space, and everything removed after it is white space. |
| Text.TrimSpace | cmd/client.go:127 | The result neither starts nor ends with white space. It is empty exactly when the input is all white space (Unicode White_Space, as `unicode.IsSpace`). |
| Text.TrimSpaceInfix | cmd/client.go:105 | The result is a contiguous piece of the input that starts right after the leading white space. |
| Text.TrimSpaceOfPadded | cmd/client.go:72 | White space of any length around a string that does not start or end with white space is removed exactly, and nothing else is. |
| Text.TrimSpaceIdempotent | cmd/client.go:127 | Trimming twice gives the same result as trimming once. |
| Text.EncodeRune | cmd/client.go:131 | One character becomes 1 to 4 UTF-8 bytes. It is 1 byte exactly for ASCII. |
| Text.Utf8 | cmd/client.go:23 | `[]byte(s)` is between `len(s)` and 4·`len(s)` bytes long. |
| Text.Utf8Append | cmd/client.go:131 | UTF-8 encoding distributes over concatenation. |
| Base64.CharOf | cmd/client.go:34 | Each 6-bit value maps to an alphabet character, and `ValueOf` maps it back. |
| Base64.CharOfValueOf | cmd/client.go:39 | `ValueOf` and `CharOf` are inverse on the alphabet. |
| Base64.Encode | cmd/client.go:34 | `EncodeToString` output has length 4·⌈n/3⌉ and contains only alphabet characters and `=`. |
| Base64.StripNewlines | cmd/client.go:39 | The decoder's skipping of line breaks: the result holds no `'\r'` or `'\n'` and is no longer than the input. `StripNewlinesKeeps` shows every other character is kept. |
| Base64.DecodeLast | cmd/client.go:39 | Definition: the final quantum is four alphabet characters, or two or three followed by `==` or `=`. Anything else is CorruptInput. |
| Base64.DecodeQuanta | cmd/client.go:39 | Definition: newline-free text decodes one 4-character quantum at a time, with padding allowed only in the last one. `DecodeQuantaEncode`, `DecodeQuantaChars` and `DecodeQuantaLength` state its properties. |
| Base64.Decode | cmd/client.go:39 | Definition: `DecodeString` drops line breaks, then decodes the quanta. `DecodeEncode` and `DecodeRejectsForeign` state its properties. |
| Base64.DecodeEncode | cmd/client.go:34-39 | Round trip: `DecodeString(EncodeToString(b))` returns `b` without error. |
| Base64.DecodeQuantaEncode | cmd/client.go:34-39 | The same round trip without line breaks, proved one 3-byte group at a time. |
| Base64.DecodeRejectsForeign | cmd/client.go:39-42 | Any input containing a character that is not alphabet, `=`, `'\r'` or `'\n'` fails. The error is CorruptInput, the only decoding error there is. |
| Base64.DecodeQuantaChars | cmd/client.go:39 | Text that decodes successfully contains only alphabet characters and padding. |
| Base64.DecodeQuantaLength | cmd/client.go:39 | Text that decodes successfully has a length that is a multiple of 4 once line breaks are removed. |
| Lines.Frame | cmd/server.go:35 | A written line is the message followed by exactly one `'\n'`. |
| Lines.Join | cmd/server.go:34-35 | Definition: the bytes a writer sends for a run of messages, each message followed by one `'\n'`. `JoinAppend`, `JoinSnoc` and `ScanLinesJoin` state its properties. |
| Lines.JoinAppend | cmd/client.go:136 | Writing two runs of messages one after the other writes their frames one after the other. |
| Lines.JoinSnoc | cmd/server.go:34-35 | Writing one more message at the end adds exactly its frame at the end. |
| Lines.NextLine | cmd/client.go:100 | `ReadString('\n')` gives the text up to and including the first `'\n'` plus the remainder. It fails exactly when no `'\n'` is left. |
| Lines.NextLineOfFrame | cmd/client.go:100 | Reading a framed newline-free message returns exactly that frame, and the rest of the stream is left untouched. |
| Lines.DropCR | cmd/server.go:40-41 | A scanned token loses one trailing `'\r'` whenever it ends in one, and nothing else. |
| Lines.ScanLines | cmd/server.go:39-41 | Definition: the tokens `bufio.ScanLines` yields, that is each line without its `'\n'` or a `'\r'` before it, then a non-empty unterminated remainder. `ScanLinesJoin` states its property. |
| Lines.ScanLinesJoin | cmd/server.go:39-41 | Scanning what a writer sent returns the messages sent, verbatim and in order, when none contains `'\n'` or ends in `'\r'`. |
| Client.DeriveKey | cmd/client.go:21-25 | The key is a 32-byte SHA-256 digest of the passphrase's UTF-8 bytes. |
| Client.SessionKey | cmd/client.go:72-75 | `main` derives a 32-byte key from the trimmed passphrase. |
| Client.SessionKeyIgnoresPadding | cmd/client.go:68-75 | White space typed around the passphrase does not change the derived key. |
| Client.Encrypt | cmd/client.go:27-35 | It succeeds exactly when the random source yields a full nonce. Otherwise it fails with `RandomFailed`, the error of `io.ReadFull`. |
| Client.EncryptIsEncodingText | cmd/client.go:34 | A frame `encrypt` returns contains only Base64 alphabet characters and `=`. |
| Client.EncryptLayout | cmd/client.go:29-34 | The frame decodes to the nonce followed by `Seal`'s output, as `Seal(nonce, nonce, …)` lays it out. |
| Client.SplitNonce | cmd/client.go:47 | The first nonce-size bytes are the nonce, and the rest is the ciphertext. Together they are the whole input. |
| Client.Decrypt | cmd/client.go:37-49 | Definition: Base64-decode, reject frames shorter than a nonce, split off the nonce and open the rest. `DecryptOutcome`, `RoundTrip` and `DecryptRejectsForeign` state its properties. |
| Client.DecryptOutcome | cmd/client.go:37-49 | Bad Base64 gives CorruptInput. A frame shorter than a nonce gives "ciphertext too short". A plaintext is returned only if `Open` authenticates the tail under the leading nonce. |
| Client.RoundTrip | cmd/client.go:27-49 | With a correct cipher, `decrypt(encrypt(p))` returns `p` whatever nonce was drawn. |
| Client.DecryptRejectsForeign | cmd/client.go:38-42 | A line with a non-Base64 character, other than a line break, is rejected before `Open` runs. |
| Client.EncodingTextIsTransparent | cmd/client.go:136 | A frame has no `'\n'`, does not end in `'\r'`, and has no white space at either end, so the appended `'\n'` is its only delimiter. |
| Client.Typed | cmd/client.go:127-130 | An input line submits at most one text. That text is non-empty and already trimmed. |
| Client.Submitted | cmd/client.go:118-130 | Definition: the trimmed non-empty lines the user enters, up to the first read error other than an interrupt. `OutboundDelivers` states what the peer shows of them. |
| Client.Utf8All | cmd/client.go:131 | `[]byte(text)` for each submitted text: one byte string per text, the k-th being the UTF-8 encoding of the k-th text. |
| Client.Step | cmd/client.go:119-140 | Definition: one iteration of the send loop writes the frame of the trimmed line, or nothing on an interrupt, a blank line, a failed nonce draw or a failed write. `SendOne` and `StepDecrypts` state its properties. |
| Client.Outbound | cmd/client.go:118-141 | Definition: the frames the send loop writes, iteration after iteration, until the first read error other than an interrupt. `SendLoop`, `OutboundIsEncodingText` and `OutboundDelivers` state its properties. |
| Client.SendOne | cmd/client.go:127-140 | One iteration sends the frame `Step` describes. Inputs that are not lines, blank lines, failed nonce draws and failed writes send nothing, which takes the `continue` paths. A sent frame is the encrypted text plus one `'\n'`. |
| Client.OutboundUnfold | cmd/client.go:118-141 | The output from an iteration on is what that iteration sends, followed by the output of the later iterations. |
| Client.SendLoop | cmd/client.go:117-141 | The bytes written are the frames of the `Outbound` function, one after another. Interrupts, empty lines, nonce failures and write failures are skipped, and the loop ends at the first other read error. |
| Client.OutboundIsEncodingText | cmd/client.go:131-136 | Every frame the send loop writes is Base64 text. |
| Client.StepSendsOnlyText | cmd/client.go:119-140 | Whatever the cipher, an iteration writes something exactly when its input is a line that is not blank after trimming, the nonce draw succeeds and the write succeeds. It then writes the one frame `encrypt` returns for that line. |
| Client.StepDecrypts | cmd/client.go:127-136 | With a correct cipher, a frame written for an input line decrypts to that line's trimmed UTF-8 bytes, which are non-empty. |
| Client.OutboundNeverEmpty | cmd/client.go:127-136 | With a correct cipher, every frame the send loop writes decrypts to a non-empty message. |
| Client.Rendered | cmd/client.go:105-112 | Definition: one line read is trimmed and decrypted, and it shows its plaintext or nothing when decryption fails. |
| Client.Inbound | cmd/client.go:97-114 | Definition: the messages the receive loop shows for a stream, one `ReadString` line at a time, until no `'\n'` is left. `ReceiveLoop` and `InboundJoinAppend` state its properties. |
| Client.InboundStep | cmd/client.go:99-114 | Handling one more line in the receive loop moves it from the stream to the displayed messages, and the stream gets shorter. |
| Client.ReceiveLoop | cmd/client.go:96-115 | The messages shown are those of the `Inbound` function: each `'\n'`-terminated line is trimmed and decrypted, failures are skipped, and an unterminated remainder ends the loop. |
| Client.InboundFrame | cmd/client.go:100-106 | A frame followed by `'\n'` is read as exactly one line, and it decrypts without trimming changing it. |
| Client.InboundJoinAppend | cmd/client.go:98-114 | Reading two batches of frames shows the first batch's messages, then the second's. |
| Client.Utf8AllAppend | cmd/client.go:131 | Encoding lists of texts distributes over concatenation. |
| Client.StepDelivers | cmd/client.go:127-140 | With a correct cipher and a successful draw and write, the line an input produces is read back as that input's trimmed UTF-8 text. |
| Client.OutboundDelivers | cmd/client.go:117-141 | With a correct cipher, reliable randomness and reliable writes, the receive loop shows exactly the lines the user submitted, trimmed, in order, with empty ones dropped. |
| Server.Registered | cmd/server.go:24-30 | Definition: `clients[conn]` becomes a record for `conn` with an empty queue. `RegisteredEffect` states its effect. |
| Server.Removed | cmd/server.go:45-47 | Definition: `delete(clients, conn)`. `RemovedEffect` states its effect. |
| Server.Broadcasted | cmd/server.go:51-59 | Definition: every queue but the sender's gets the message at its end. `BroadcastedEffect` states its effect. |
| Server.Delivered | cmd/server.go:40-42 | Definition: the registry after a run of broadcasts, one after another. `DeliveredInOrder` states its effect. |
| Server.Inbox | cmd/server.go:54-56 | Definition: the messages of a run of broadcasts that a connection is sent, those it did not send itself, in order. |
| Server.RegisteredEffect | cmd/server.go:24-30 | Registering adds the connection with an empty queue and keeps every other entry. A fresh connection adds exactly one entry. Well-formedness is preserved. |
| Server.RemovedEffect | cmd/server.go:45-47 | Deleting removes that entry only and keeps every other entry. Well-formedness is preserved. |
| Server.RemovedRegistered | cmd/server.go:28-47 | Registering a new connection and then deleting it restores the registry. |
| Server.BroadcastedEffect | cmd/server.go:50-59 | The set of connections is unchanged, the sender's queue is unchanged, and every other queue has the message appended verbatim. Queue bounds hold when there was room. |
| Server.DeliveredInOrder | cmd/server.go:54-57 | FIFO for any interleaving of broadcasts: every queue is its old content followed by the other senders' messages in sending order. No entry appears or disappears. |
| Server.Posts | cmd/server.go:40-42 | Definition: the `broadcast(msg, conn)` calls the scanner loop makes, one per scanned line, in order. `InboxOfPosts` and `SessionEffect` state what they deliver. |
| Server.InboxOfPosts | cmd/server.go:55 | Of one sender's broadcasts, every other connection receives all of them and the sender receives none. |
| Server.SessionEffect | cmd/server.go:22-48 | After a whole connection, every other queue has that connection's lines appended verbatim and in order, and only its own entry is gone. |
| Server.Registry.constructor | cmd/server.go:16-19 | The registry starts empty. |
| Server.Registry.Register | cmd/server.go:24-30 | The registry becomes `Registered(old, conn)` and stays well formed. |
| Server.Registry.Unregister | cmd/server.go:45-47 | The registry becomes `Removed(old, conn)` and stays well formed. |
| Server.Registry.Broadcast | cmd/server.go:51-59 | The loop over the registered connections, in any order, leaves the registry equal to `Broadcasted(old, message, sender)`. |
| Server.Registry.WriteNext | cmd/server.go:34-35 | The oldest queued message is taken off the queue and written as that message plus `'\n'`. Nothing happens when the queue is empty. |
| Server.Registry.Flush | cmd/server.go:33-37 | Draining a queue writes its messages oldest first, one line each, and leaves the queue empty and every other entry as it was. |
| Server.Registry.HandleConnection | cmd/server.go:22-48 | Registering, broadcasting every scanned line and unregistering leaves the registry equal to the `Delivered` fold of those lines minus the connection's own entry. |
| EndToEnd.RelayScansFrames | cmd/server.go:39-42 | The relay's scanner hands over the client's frames unchanged and in order. |
| EndToEnd.Conversation | cmd/server.go:39-57 | The listener's queue holds exactly the sender's frames. The sender's own queue gets nothing. Decoding what the listener's writer sends recovers every line the sender submitted. |
| EndToEnd.SharedPassphrase | cmd/client.go:68-83 | Two peers that typed the same passphrase with any white space around it build the same cipher from their keys, so the listener shows every line the sender submitted. |
| EndToEnd.Relay | cmd/client.go:96-141 | The send loop, the relay's connection handler, the listener's writer and its receive loop together show exactly the submitted lines. Afterwards the sender's entry is gone, the listener's queue is drained, and every other queue holds the sender's frames appended in order. |

## Left out

- TCP dial, listen and accept (cmd/client.go:57, cmd/server.go:61-75) are I/O. The socket streams appear as strings.
- The passphrase and chat prompts, the coloured output and the `os.Exit`/`log.Fatal`/`log.Println` paths (cmd/client.go:52-55, 64-94, 101-104, 108, 133, 138) are terminal UI and process control. A read error in the receive loop ends the modelled loop.
- SHA-256 and AES-GCM are foreign library code. They are parameters, and cipher correctness is the hypothesis `OpenInvertsSeal`. `aes.NewCipher` and `cipher.NewGCM` cannot fail on a 32-byte key, so their error paths are not modelled. `EndToEnd.SharedPassphrase` takes the construction of the cipher from a key as a parameter `cipherOf`.
- `crypto/rand` is randomness. It is modelled as a byte stream per iteration that may end early (`Env.entropy`). A draw that cannot fill the nonce is the single error `RandomFailed`, whatever error the real reader reports. Nonce freshness and uniqueness are not stated.
- Socket writes either succeed or fail as a whole (`Env.writeOk`). A partial write is not modelled.
- Goroutines, `sync.Mutex` and channel blocking are concurrency. Each registry operation is one atomic step, and the writer runs only when `Flush` or `WriteNext` is called.
- Server.Registry.Broadcast: a send to a full channel blocks in the source until the writer drains it. The model requires room in every recipient queue instead, so the blocking wait is not captured.
- Server.Registry.HandleConnection: requires room for all of its lines at once, because no writer runs while it executes.
- EndToEnd.Relay: requires every other queue, the listener's included, to have room for the whole conversation at once. With an empty listener queue it is limited to 10 frames. The source has no such limit, because each writer goroutine drains its channel meanwhile. The `Conversation` lemma states the same outcome for conversations of any length, on the functions rather than through the loops.
- Server.Registry.Unregister: the source's writer goroutine keeps the `Client` pointer and can still drain its channel after deletion. The model keeps the queue inside the registry entry, so pending messages disappear with the entry.
- The source never closes `client.ch`, so the writer goroutine of a departed connection waits forever and nothing makes it stop. The model has no such goroutine, and it does not claim the writer terminates.
- `bufio.Scanner`'s 64 KiB token limit and its error on overlong lines are not modelled. `Lines.ScanLines` accepts lines of any length.
- `Client.Decrypt`: the byte offset carried by `base64.CorruptInputError` is dropped, and all decoding failures are `CorruptInput`.
- Strings are sequences of Unicode scalar values, so Go strings holding invalid UTF-8 cannot be written down. `string(decrypted)` is shown as the plaintext bytes themselves.
- The `Sprintf` formatting of a shown message (cmd/client.go:112) is display only. `ReceiveLoop` returns the plaintexts.
- The relay's `net.Conn` identities are natural numbers. The listener accepting a new connection is not modelled.
