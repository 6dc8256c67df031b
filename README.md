# LAN messenger core, modelled in Dafny

This project models the networking core of a small LAN messenger. Peers find
each other by UDP broadcast and exchange JSON messages over TCP. Three source
files make up the core, and each has a counterpart here:

- `src/core/protocol.py` → `protocol.dfy`, with `json.dfy` and `utf8.dfy`
  underneath. This is the message envelope: seven message types and a
  four-field `Message` record. `to_json`/`from_json` convert it to and from
  JSON text, and `to_bytes`/`from_bytes` carry that text as UTF-8.
  - `utf8.dfy` models UTF-8 as section 3 of RFC 3629 defines it.
  - `json.dfy` models JSON as section 2 of RFC 8259 defines it, the way
    Python's `json.dumps` writes it and `json.loads` reads it. That includes
    the default `ensure_ascii` escaping and the rule that a repeated key
    keeps its last value.
- `src/core/network.py` → `network.dfy`. This is the TCP side:
  - the frame a sender writes: a 4-byte big-endian length, then the body;
  - the messages `send_message` and `send_file_offer` build;
  - the per-connection reader `_handle_client`. It reads a prefix, gathers
    the body, decodes it, stamps the peer address on it, and routes it either
    to `on_message` or to the `FILE_DATA` handler;
  - the `start`/`stop` lifecycle.

  A connection is a byte stream with a schedule of grants, which stands for
  the transport's segmentation: each `recv(n)` returns at most `n` bytes.
  `NetworkManager` is a class: `HandleClient` runs the handler's loop on a
  `Socket` object and appends each message passed to `on_message` to
  `received`.
- `src/core/discovery.py` → `discovery.dfy`. This is the presence table of
  `PeerDiscovery`: two dictionaries (address to last-seen time, address to
  name) plus the insertion order that `items()` follows.
  - `HandleDiscovery` is the upsert of `_handle_discovery`.
  - `Cleanup` is one sweep of `_cleanup_loop`, written as the source's two
    loops.
  - `Listen` is one pass of `_listen_loop`.
  - `Start`/`Stop` follow the source's lifecycle.

  Callbacks are returned as the events they would fire. Time is an integer
  count of milliseconds, so the expiry threshold `DISCOVERY_INTERVAL * 3` is
  6000.

Every stateful method is proved against a pure function of the old state:
`Session` for the connection handler, and `Discover` and `Sweep` for the
presence table. The properties are lemmas about those functions.

The model follows the code as written, including these behaviours:

- A heartbeat from a known peer overwrites its stored name as well as its
  timestamp (`src/core/discovery.py:99`).
- Every decoded type except `FILE_DATA` goes to `on_message`, including
  `FILE_OFFER`, `FILE_ACCEPT`, `FILE_REJECT` and `FILE_END`
  (`src/core/network.py:73-76`).
- The handler for `FILE_DATA` is not inert. It raises when the payload is not
  an object, or has no string `data` member that Latin-1 can encode. That
  exception ends the connection (`src/core/network.py:86-87`, `Network.Route`).
- The length prefix is read with a single `recv(4)`, not a loop. A short read
  is taken as the whole prefix (`src/core/network.py:53`). See "Findings".
- `from_json` does not check field types. The sender name, sender address and
  payload can be any JSON value, so they are `Json` in the model.

## Model

| member | source | states |
|---|---|---|
| Utf8.EncodeChar | src/core/protocol.py:42-44 | one to four octets per character; the first octet is ASCII exactly when there is one octet; the others are continuation octets |
| Utf8.DecodeChar | src/core/protocol.py:46-48 | a character decoded from the head of the input re-encodes to exactly the octets it consumed (only shortest forms are accepted) |
| Utf8.Encode | src/core/protocol.py:42-44 | `encode("utf-8")` writes between one and four octets per character |
| Utf8.Decode | src/core/protocol.py:46-48 | text that `decode("utf-8")` accepts has between a quarter of the octets and all of them as characters |
| Utf8.DecodeEncode | src/core/protocol.py:42-48 | strict UTF-8 decoding of an encoded string gives the string back |
| Utf8.EncodeDecode | src/core/protocol.py:46-48 | any octets the strict decoder accepts are the encoding of the text it returns |
| Utf8.DecodeIffEncode | src/core/protocol.py:42-48 | decoding `bs` to `s` holds exactly when `s` encodes to `bs` (the codec is a bijection) |
| Utf8.EncodeAscii | src/core/protocol.py:42-44 | ASCII text encodes to one octet per character, each equal to the character's code |
| Json.Lookup | src/core/protocol.py:38-40 | a key lookup finds a value exactly when some member has that key, and the value is that member's |
| Json.Upsert | src/core/protocol.py:38 | a dict assignment: the key now maps to the new value, every other key keeps its lookup, distinct keys stay distinct, and a new key is appended |
| Json.Collapse | src/core/protocol.py:38 | building a dict from parsed pairs: each key takes the value of its last occurrence, otherwise the accumulator's, and keys stay distinct |
| Json.CollapseDistinct | src/core/protocol.py:38 | pairs whose keys are already distinct are kept as they are |
| Json.SerializeAscii | src/core/protocol.py:34 | with the default `ensure_ascii`, the text written contains only ASCII characters |
| Json.Serialize | src/core/protocol.py:34 | `json.dumps` writes non-empty text whose first character tells the kind of value: `[` an array, `{` an object, `"` a string, a digit or `-` an integer |
| Json.ParseSerialize | src/core/protocol.py:34-38 | parsing the serialised text of any value whose objects have distinct keys gives that value back |
| Json.ParseWellFormed | src/core/protocol.py:38 | `json.loads` builds dicts: every object it returns, at any depth, has distinct keys |
| Protocol.TypeOf | src/core/protocol.py:14-21 | a string names a member exactly when that member's value is the string; otherwise no member has it |
| Protocol.SevenTypes | src/core/protocol.py:14-21 | the enumeration lists every type, seven in all, with pairwise distinct values |
| Protocol.TypeOfValue | src/core/protocol.py:14-21 | `MessageType(s)` returns `t` exactly when `t`'s value is `s` |
| Protocol.UnexpectedKey | src/core/protocol.py:40 | no key is reported exactly when every key is one of the four fields; a reported key is present and is not a field |
| Protocol.FromValue | src/core/protocol.py:36-40 | a decoded value becomes a message exactly when it is an object with a known type, both sender fields and no other key; the fields are read from the object, payload defaults to null, and a missing type is reported as such |
| Protocol.FromValueWellFormed | src/core/protocol.py:36-40 | a message built from a value whose objects have distinct keys has the same property in every field |
| Protocol.ToJson | src/core/protocol.py:30-34 | `to_json` writes a JSON object, in ASCII only |
| Protocol.FromJson | src/core/protocol.py:36-40 | text that is not JSON is reported as invalid JSON |
| Protocol.ToBytes | src/core/protocol.py:42-44 | `to_bytes` is the UTF-8 encoding of `to_json`, one byte per character |
| Protocol.FromBytes | src/core/protocol.py:46-48 | bytes that are not UTF-8 are reported as invalid UTF-8 |
| Protocol.FromBytesWellFormed | src/core/protocol.py:46-48 | every message `from_bytes` returns has distinct keys in every object it holds |
| Protocol.ToJsonShape | src/core/protocol.py:30-34 | the text parses back to the four keys in declaration order, with the type written as its value |
| Protocol.FromJsonToJson | src/core/protocol.py:30-40 | `from_json(to_json(m)) == m` |
| Protocol.FromBytesToBytes | src/core/protocol.py:42-48 | `from_bytes(to_bytes(m)) == m` |
| Protocol.ToBytesIsUtf8 | src/core/protocol.py:42-44 | the bytes decode to the JSON text, and no other bytes do |
| Protocol.ToBytesAscii | src/core/protocol.py:30-44 | the bytes are the characters of the JSON text one for one, all below 0x80, so the frame length is the text length |
| Protocol.FromBytesAccepts | src/core/protocol.py:46-48 | `from_bytes` succeeds exactly on UTF-8 text of an acceptable JSON object; invalid UTF-8 is reported as such |
| Network.LengthPrefix | src/core/network.py:123 | the prefix is four bytes |
| Network.PrefixRoundTrip | src/core/network.py:123 | reading the prefix big-endian, as the receiver does at line 57, gives back every length below 2^32 |
| Network.PrefixOfValue | src/core/network.py:57 | any four bytes are the prefix of the length they decode to, which is below 2^32 |
| Network.BigEndianFour | src/core/network.py:57 | the big-endian value of four bytes, written out |
| Network.Frame | src/core/network.py:122-125 | a frame exists exactly when the body is shorter than 2^32 bytes (otherwise an overflow error); it is the prefix stating the body length, followed by the body |
| Network.SendToPeer | src/core/network.py:117-129 | the three failures, each exactly when it happens: connect fails; else the body needs more than four length bytes; else `sendall`/`close` fail. On success the bytes written are a prefix stating the body length followed by `to_bytes` of the message, which `from_bytes` turns back into the message |
| Network.RecvOn | src/core/network.py:53-62 | `recv(n)` returns a prefix of the unread bytes of at most `n` bytes, and returns nothing only at end of stream |
| Network.WholePrefixRead | src/core/network.py:53 | when the next `recv` is not cut below four bytes and four bytes are waiting, `recv(4)` returns all four |
| Network.ReadBody | src/core/network.py:59-65 | the body loop gathers at most `msg_len` bytes |
| Network.ReadBodyTakes | src/core/network.py:59-65 | under every segmentation, the body loop takes exactly the next `msg_len` bytes, or all that remain when fewer do |
| Network.Route | src/core/network.py:70-76 | a routed message carries the peer address as `sender_ip`; it goes to `on_message` exactly when it is not `FILE_DATA` |
| Network.RouteDecodes | src/core/network.py:70-95 | a body is passed on exactly when it decodes and, for `FILE_DATA`, the file handler accepts its payload; what is passed on is the decoded message with the peer address |
| Network.FrameStep | src/core/network.py:57-76 | one frame delivers only messages from the peer; it ends the connection only on a short body or a rejected body; a short body means the stream is exhausted |
| Network.Step | src/core/network.py:51-76 | one pass of the loop: a pass that continues consumes bytes and delivers only messages from the peer; the loop never stops by itself; end of stream and a short body leave nothing unread |
| Network.Session | src/core/network.py:48-81 | the handler's loop only consumes the stream: what is left unread at the end is no more than what there was |
| Network.SessionFromPeer | src/core/network.py:49-76 | every message handed to `on_message` carries the socket peer address and none is `FILE_DATA` |
| Network.SessionEnds | src/core/network.py:51-68 | the loop ends only at end of stream, on a short body or on a rejected body; the first two leave nothing unread |
| Network.StepAtEnd | src/core/network.py:53-55 | an empty prefix read ends the connection |
| Network.PrefixThenBody | src/core/network.py:53-68 | a prefix that arrives whole (always, when gathered), followed by its body, routes exactly that body and leaves the rest of the stream; the body reads may be cut to any size |
| Network.FrameReads | src/core/network.py:53-65 | a whole prefix reads as the body length, and the body loop then takes exactly the body |
| Network.PrefixComesWhole | src/core/network.py:53 | the prefix read takes exactly the next four bytes when the first `recv` is not cut below four, or when the prefix is gathered |
| Network.BodyComesWhole | src/core/network.py:59-65 | with at least `msg_len` bytes waiting, the body loop takes exactly the next `msg_len` bytes under every segmentation |
| Network.SessionOfFrames | src/core/network.py:51-76 | frames written back to back are decoded and dispatched one by one, in stream order, up to the first rejected body; with the prefix gathered under every segmentation, as written when each pass's `recv(4)` returns four bytes (body reads may be cut to any size) |
| Network.OneFramePrefixWhole | src/core/network.py:53 | a single frame whose first `recv` is not cut below four bytes meets the handler's need for a whole prefix on every pass |
| Network.TruncatedFrame | src/core/network.py:60-68 | a frame cut short by the peer closing is neither decoded nor dispatched |
| Network.EmptyBodyRejected | src/core/network.py:70 | an empty body does not decode |
| Network.SplitPrefixLosesMessage | src/core/network.py:53-57 | when `recv(4)` returns two bytes, a body shorter than 65536 bytes is taken as empty, the connection fails, and the message is lost although routing it would deliver it |
| Network.MessageArrives | src/core/network.py:117-125 | a message sent over its own connection reaches `on_message` unchanged except for the sender address, when the receiver's first `recv` is not cut below four bytes |
| Network.TextMessage | src/core/network.py:98-103 | the message `send_message` builds is a TEXT message that survives `to_bytes` and `from_bytes` |
| Network.TextMessageArrives | src/core/network.py:97-104 | what `send_message` writes arrives as the TEXT message it built |
| Network.FileOfferMessage | src/core/network.py:109-114 | the message `send_file_offer` builds is a FILE_OFFER message that survives `to_bytes` and `from_bytes` |
| Network.FileOfferArrives | src/core/network.py:106-115 | what `send_file_offer` writes arrives as the FILE_OFFER message it built |
| Network.Socket.Recv | src/core/network.py:53 | the socket's state moves as `recv` on the byte stream says |
| Network.NetworkManager.constructor | src/core/network.py:10-17 | not running, no server socket, no message received |
| Network.NetworkManager.Start | src/core/network.py:19-30 | the server socket is opened; `running` stays set, and the accept loop starts, only when the bind succeeds |
| Network.NetworkManager.Stop | src/core/network.py:32-36 | clears `running` and closes the server socket |
| Network.NetworkManager.SendMessage | src/core/network.py:97-104 | fails exactly when the connect fails, the body is too long, or the write fails, in that order; otherwise the frame's prefix states the body length and the body decodes to the TEXT message with payload `{"text": message}` and an empty sender address |
| Network.NetworkManager.SendFileOffer | src/core/network.py:106-115 | the same three failures, and otherwise a frame whose body decodes to the FILE_OFFER message with payload `{"filename", "filesize"}` |
| Network.NetworkManager.GatherBody | src/core/network.py:59-65 | the body loop's result and the socket's new state are those of `ReadBody` |
| Network.NetworkManager.ReadPrefix | src/core/network.py:53 | the prefix read takes what one `recv(4)` returns (as written), or gathers until four bytes or end of stream (corrected) |
| Network.NetworkManager.ServeFrame | src/core/network.py:52-76 | one pass of the handler, with either prefix read, moves the socket as `Step` does, and appends to `received` exactly the messages that `Step` delivers |
| Network.NetworkManager.ServeBody | src/core/network.py:59-76 | after the prefix, the body loop, the length check and the routing move the socket as `FrameStep` does and append to `received` exactly what it delivers |
| Network.NetworkManager.ServeNext | src/core/network.py:51-76 | one pass of the loop as written, accounted against the whole session: either the session ends here with its outcome, or the stream shrinks and `received` grows by what the pass delivers, the rest being the session of what remains |
| Network.NetworkManager.HandleClient | src/core/network.py:48-81 | while running: `received` grows by exactly the messages of `Session`, in order, and the outcome and remaining stream are `Session`'s; when not running, nothing is read |
| Discovery.Discover | src/core/discovery.py:89-102 | a heartbeat keeps the table valid: both dictionaries have the same keys, and the order lists each key once |
| Discovery.StaleIps | src/core/discovery.py:108-111 | the scan collects exactly the addresses whose entry is older than 6000 ms, in table order, without repeats |
| Discovery.Drop | src/core/discovery.py:114 | deleting a key removes exactly that key from the iteration order and keeps it repeat-free |
| Discovery.ForgetAllRemoves | src/core/discovery.py:113-116 | the deleting loop removes exactly the listed addresses from both dictionaries and from the order; every remaining entry is unchanged |
| Discovery.LostAll | src/core/discovery.py:117 | one lost event per removed address, in order |
| Discovery.Sweep | src/core/discovery.py:104-117 | every lost event names an address that was known, had been silent for more than 6000 ms, and is gone after the sweep |
| Discovery.DiscoverNew | src/core/discovery.py:95-102 | a heartbeat from a new address adds it to both dictionaries with time `now` and its name, appends it to the order, and fires the discovered callback exactly once |
| Discovery.DiscoverKnown | src/core/discovery.py:96-101 | a heartbeat from a known address sets its time to `now`, overwrites its name, keeps its place, and fires nothing |
| Discovery.DiscoverOthers | src/core/discovery.py:98-99 | a heartbeat does not touch any other address's entry |
| Discovery.SweepRemovesExpired | src/core/discovery.py:107-116 | a sweep keeps the table valid and removes exactly the addresses with `now - last_seen > 6000`; the others keep their time and name |
| Discovery.SweepReportsLost | src/core/discovery.py:113-117 | the lost callback fires once for each removed address and for no retained one |
| Discovery.RediscoveredAfterLost | src/core/discovery.py:96-114 | an address removed by a sweep is new again, so its next heartbeat fires the discovered callback once more |
| Discovery.StaysWhileHeard | src/core/discovery.py:95-111 | an address heard within the last 6000 ms survives a sweep and is not announced again |
| Discovery.Heartbeat | src/core/discovery.py:55-60 | the heartbeat is a DISCOVERY message carrying our name, and it survives `to_bytes` and `from_bytes` |
| Discovery.Heard | src/core/discovery.py:70-79 | a datagram that fits the 4096-byte buffer is recorded exactly when it decodes to a DISCOVERY message, and it contributes that message's name |
| Discovery.HeartbeatHeard | src/core/discovery.py:52-79 | a heartbeat that fits the 4096-byte buffer is recorded with its sender's name, whatever `sender_ip` it claims |
| Discovery.OtherTypesIgnored | src/core/discovery.py:76-79 | a message of any other type leaves the table alone |
| Discovery.PeerDiscovery.constructor | src/core/discovery.py:9-18 | not running, no loops, an empty table |
| Discovery.PeerDiscovery.Start | src/core/discovery.py:20-42 | both sockets are created; when the bind fails, `running` is cleared and no loop starts; otherwise three loops start |
| Discovery.PeerDiscovery.Stop | src/core/discovery.py:44-50 | clears `running` and closes both sockets; the table is untouched |
| Discovery.PeerDiscovery.HandleDiscovery | src/core/discovery.py:89-102 | the new table and the callbacks fired are those of `Discover`, and the table stays valid |
| Discovery.PeerDiscovery.CollectStale | src/core/discovery.py:107-111 | the first loop builds exactly `StaleIps` of the table |
| Discovery.PeerDiscovery.ForgetEach | src/core/discovery.py:113-117 | given known addresses without repeats (`del` raises on a missing key), the second loop leaves the table of `ForgetAll` and fires one lost callback per address |
| Discovery.PeerDiscovery.DeleteOne | src/core/discovery.py:114-116 | one pass deletes a known address from both dictionaries and from the order, as `Forget` says |
| Discovery.PeerDiscovery.Cleanup | src/core/discovery.py:104-117 | one sweep leaves the table, and fires the callbacks, of `Sweep`, and the table stays valid |
| Discovery.PeerDiscovery.Listen | src/core/discovery.py:67-87 | a datagram that is not a DISCOVERY message leaves the table unchanged and fires nothing; a DISCOVERY message is recorded under the UDP source address, as `Discover` says; the table stays valid |

## Left out

- Sockets, threads, `time.sleep` and logging are not modelled. A connection is a byte stream with a segmentation schedule. Each loop is modelled as one call per pass. The accept loop (`src/core/network.py:38-46`) is not modelled: each accepted connection is one `HandleClient` call.
- The broadcast loop (`src/core/discovery.py:52-65`) is modelled only as the message it sends (`Discovery.Heartbeat`). The `sendto` to `BROADCAST_IP` and the 2-second sleep are not modelled.
- The cleanup loop's 5-second sleep and the float clock are not modelled. `time.time()` becomes an integer millisecond `now` passed to each operation.
- Concurrency is not modelled. The source shares the presence table between the listen and cleanup threads without a lock, and another thread can clear `running` mid-connection. The model treats each call as atomic.
- Network.NetworkManager.HandleClient: the model does not cover `on_message` raising an exception. That would end the connection, but the callback is code outside this core. `sock.close()` in `finally` is not modelled either.
- Network.NetworkManager.SendMessage and Network.NetworkManager.SendFileOffer: the target address is reduced to whether `connect` succeeds, and `sendall` and `close` to whether the write succeeds. The part of a frame already sent when `sendall` fails is not modelled. `os.path.basename` and `os.path.getsize` are replaced by parameters.
- `active_transfers`, `on_file_progress` and the body of `_handle_file_data` after its two lookups are not modelled. Nothing in the source uses them.
- Json.Parse: numbers with a fraction or exponent, and `NaN`/`Infinity`, are rejected. `json.loads` accepts them as floats, which this model does not have. A `\u` escape of a lone surrogate is also rejected, because a Dafny `char` cannot hold one.
- Json.Parse: CPython 3.11 and later refuse to convert an integer of more than 4300 digits (`ValueError`), and deeply nested arrays or objects exhaust the recursion limit (`RecursionError`). The model has neither limit, so it accepts a connection body or a datagram the source drops.
- Json.Serialize: the same two limits apply when writing; the model writes any value.
- Python's exception types are merged into the `DecodeError` and `HandlerError` cases. The handler treats them all alike: the connection ends.
- The self-broadcast filter is not modelled, because the source does not implement one (`src/core/discovery.py:73-74`).

## Findings

| source | as written | input that shows it | evidently intended | confidence | as-written member | corrected member |
|---|---|---|---|---|---|---|
| src/core/network.py:53 | a single `sock.recv(4)` is taken as the whole length prefix, even when the transport returns fewer than four bytes | a frame for a body shorter than 65536 bytes, on a connection whose first `recv` returns only the two leading zero bytes of the prefix: the length reads as 0, the empty body fails to decode, and the connection is dropped with the message lost | read the prefix in a loop until four bytes arrive or the peer closes, as the body loop does (`PrefixRead.Gathered`) | not executed | Network.SplitPrefixLosesMessage | Network.SessionOfFrames |

`Network.NetworkManager.HandleClient` models the handler as written. The
corrected prefix read is `PrefixRead.Gathered`. `Network.Step`,
`Network.Session` and `Network.NetworkManager.ServeFrame` accept either read.
With the prefix gathered, `Network.SessionOfFrames` delivers every frame under
every segmentation. As written, it needs each pass's `recv(4)` to return four
bytes; the body reads may still be cut to any size.
