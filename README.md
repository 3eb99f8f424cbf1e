# GP command client of the alphaJET printer, modelled in Dafny

The printer is driven over TCP with "GP" commands: an XML-like envelope
`<GP>…</GP>` terminated by CR LF. `send_gp_command` frames a command body,
sends it, and reads the reply until the printer closes the connection or a
read times out. It then decodes the bytes as ASCII and drops anything else.
`parse_gp_response` locates the first `<GP` and the last `</GP>` in that
reply, cuts the block out, parses it as XML and returns the root's immediate
children as a dictionary of tag to text.

The model has one module per concern:

- `PyStr` (`pystr.dfy`): the Python string primitives the client relies on.
  These are `isspace` with its full set of whitespace characters, `strip`,
  `startswith`, `find`, `rfind` and slicing with Python's bound clamping.
- `Ascii` (`ascii.dfy`): `encode('ascii')` and `decode('ascii', errors='ignore')`.
  Encoding fails on the first character above 127 and reports its position.
  Decoding drops every byte above 127.
- `Framing` (`framing.dfy`): body normalisation and the payload bytes.
- `Transport` (`transport.dfy`): the receive loop as a `while` method over a
  scripted socket, and `send_gp_command` as a whole.
- `Extractor` (`extractor.dfy`): envelope location, the slice, and the dictionary.
- `Client` (`client.dfy`): end-to-end properties and two sample replies. The
  demo's status query (alphajet_net.py:109) is in `Framing`.

The socket is a script: a sequence of `recv` outcomes. Each outcome is either
`Received(chunk)` or `TimedOut`, and an empty chunk means the peer closed the
connection, exactly as the code tests `not chunk`. Once a script is used up,
no further data arrives, so the next read times out. The read count therefore
counts `recv` calls, including that final timed-out call. The XML parser
`ET.fromstring` is a parameter `XmlParser`: given a fragment, it returns the
root's children (tag and optional text), or `None` for a parse error.

Behaviour of the code that callers should know:

- Both failure paths of `parse_gp_response` return `{}`: a missing marker and
  a parse error cannot be told apart.
- An element without text maps to `None`.
- The opening marker searched for is the prefix `<GP`. The framing check,
  however, uses the exact prefix `<GP>`.

## Model

| member | source | states |
|---|---|---|
| PyStr.IsSpace | alphajet_net.py:30 | Python 3's `str.isspace` set of 29 code points, which `strip()` removes; no contract of its own, relied on by `Strip` and `StripUnique` |
| PyStr.StartsWith | alphajet_net.py:31 | `startswith`, the exact-prefix test; no contract of its own, the test `NormalizeCases` and `NormalizeWrapsOtherGpForms` are stated with |
| PyStr.Strip | alphajet_net.py:30 | `strip()` yields a slice of the body with only whitespace outside it and no whitespace at either edge |
| PyStr.StripUnique | alphajet_net.py:30 | any slice with whitespace-only outside and non-space edges is the strip, so the characterisation determines it |
| PyStr.StripIdempotent | alphajet_net.py:30 | stripping a stripped string changes nothing |
| PyStr.Find | alphajet_net.py:60 | `find` gives -1 exactly when the pattern is absent, else an occurrence with none before it |
| PyStr.RFind | alphajet_net.py:61 | `rfind` gives -1 exactly when the pattern is absent, else an occurrence with none after it |
| PyStr.Slice | alphajet_net.py:66 | Python slicing: the in-range slice when start ≤ stop, empty when stop ≤ start |
| Ascii.EncodeAscii | alphajet_net.py:33 | `encode('ascii')` succeeds exactly on all-ASCII text, giving one byte per character with the same code; otherwise it fails at the first non-ASCII position |
| Ascii.EncodesTo | alphajet_net.py:33 | a byte string with the same codes as the text is its encoding |
| Ascii.DecodeAsciiIgnore | alphajet_net.py:50 | the decoded text is never longer than the buffer and is all ASCII |
| Ascii.DecodeConcat | alphajet_net.py:50 | decoding a concatenation is concatenating the decodings, so the kept bytes stay in order |
| Ascii.DecodeLength | alphajet_net.py:50 | the decoded length is the number of bytes below 128 |
| Ascii.DecodeDropsHighByte | alphajet_net.py:50 | a byte of 128 or more anywhere in the buffer leaves the text unchanged |
| Ascii.DecodeAllAscii | alphajet_net.py:50 | an all-ASCII buffer decodes losslessly, one character per byte |
| Ascii.EncodeDecodeRoundTrip | alphajet_net.py:33 | decoding the encoding of encodable text gives the text back |
| Framing.Normalize | alphajet_net.py:30-32 | the normalised body always starts with `<GP>` and has no surrounding whitespace |
| Framing.NormalizeCases | alphajet_net.py:30-32 | the stripped body passes unchanged if and only if it starts with `<GP>`; otherwise it becomes `<GP>` + stripped + `</GP>` |
| Framing.NormalizeIdempotent | alphajet_net.py:30-32 | normalising a normalised body returns it unchanged, so a body is never wrapped twice |
| Framing.NormalizeWrapsTrimmed | alphajet_net.py:31-32 | a trimmed body not starting with `<GP>` is enclosed as it is |
| Framing.NormalizeWrapsOtherGpForms | alphajet_net.py:31-32 | a trimmed body opening with `<GP` but not `<GP>`, such as `<GP/>` or `<GP x="1">`, fails the exact-prefix test and is enclosed once more |
| Framing.NormalizeKeepsUnclosedBody | alphajet_net.py:30-31 | a trimmed body starting with `<GP>` is sent unchanged, whether or not it ends with `</GP>` |
| Framing.Frame | alphajet_net.py:33 | the payload is the normalised body's bytes followed by exactly CR LF, of length \|normalised\| + 2, and decodes back to the normalised body; non-ASCII bodies fail at the first non-ASCII character, with every earlier one ASCII |
| Framing.FrameOfEncodable | alphajet_net.py:33 | an encodable body is framed as its encoding followed by CR LF |
| Framing.FrameIgnoresStrippedSpace | alphajet_net.py:30-33 | framing succeeds whenever the stripped body is ASCII, whatever whitespace, even non-ASCII, surrounds it |
| Framing.FrameIgnoresIdeographicSpace | alphajet_net.py:30-33 | an ideographic space (U+3000) before an ASCII body is stripped and does not make the encoder fail |
| Framing.FrameStatusQuery | alphajet_net.py:109 | the demo's `<STATUS/>` goes on the wire as the bytes of `<GP><STATUS/></GP>` CR LF |
| Transport.Collected | alphajet_net.py:39-47 | specification of the loop's buffer; no contract of its own, stated by `CollectedChunksThenEnd`, `CollectedAllChunks` and `CollectedBounded` |
| Transport.Consumed | alphajet_net.py:40-47 | specification of the number of `recv` calls; no contract of its own, determined by `ConsumedStopsAtEnd` |
| Transport.ReceiveAll | alphajet_net.py:39-47 | the loop's buffer is the bytes delivered before the first close or timeout, and it makes exactly `Consumed(script)` `recv` calls |
| Transport.SendGpCommand | alphajet_net.py:25-51 | a non-encodable body fails before any read; otherwise the payload is `Frame(body)` and the text is the permissive decoding of the collected bytes |
| Transport.ConsumedStopsAtEnd | alphajet_net.py:40-47 | the loop reads every outcome up to and including the first close or timeout and none after; without one it reads the whole script and makes one more call, which times out |
| Transport.CollectedChunksThenEnd | alphajet_net.py:39-47 | chunks followed by a close or timeout yield their in-order concatenation whatever comes after, and exactly one more read than there are chunks |
| Transport.CollectedAllChunks | alphajet_net.py:39-47 | a script that never ends the stream delivers all its chunks, after one `recv` call per chunk plus the final timed-out one |
| Transport.TimeoutLikeClose | alphajet_net.py:46-47 | a timeout yields the same reply as the peer closing; it is not an error |
| Transport.CollectedBounded | alphajet_net.py:42 | with chunks of at most 4096 bytes the reply holds at most 4096 bytes per read |
| Transport.RawIsDecodedChunks | alphajet_net.py:45-50 | decoding the joined buffer equals joining the decoded chunks, so the split across reads does not matter |
| Extractor.Fragment | alphajet_net.py:60-66 | there is no fragment exactly when `<GP` or `</GP>` is absent from the reply |
| Extractor.ToDict | alphajet_net.py:69 | the dictionary comprehension; no contract of its own, stated by `ToDictKeys` and `ToDictLast` |
| Extractor.ParseGpResponse | alphajet_net.py:54-72 | a non-empty result only ever comes from a located fragment the parser accepted, and is the dictionary of its children; `ParseNotFound`, `ParseMalformed` and `ParseIgnoresNoise` state the rest |
| Extractor.ToDictKeys | alphajet_net.py:69 | the dictionary's keys are exactly the tags of the root's children |
| Extractor.ToDictLast | alphajet_net.py:69 | each tag maps to the text of the last child carrying it |
| Extractor.ParseNotFound | alphajet_net.py:60-64 | a reply lacking `<GP` or `</GP>` gives `{}` |
| Extractor.ParseMalformed | alphajet_net.py:67-72 | a fragment the XML parser rejects gives `{}` |
| Extractor.ParseDependsOnlyOnFragment | alphajet_net.py:66-69 | replies with the same fragment give the same dictionary |
| Extractor.MarkersDisjoint | alphajet_net.py:60-61 | an occurrence of `<GP` and one of `</GP>` never overlap |
| Extractor.FragmentShape | alphajet_net.py:60-66 | if the last `</GP>` follows the first `<GP`, the fragment runs from one through the other, starting with `<GP` and ending with `</GP>`; if it precedes it, the fragment is empty |
| Extractor.ParseReversedMarkers | alphajet_net.py:60-72 | a `</GP>` only before the first `<GP` yields an empty fragment and hence `{}` |
| Extractor.FragmentIgnoresNoise | alphajet_net.py:55-66 | a block with no `<GP` before it and no `</GP>` after it is cut out exactly |
| Extractor.NoOpenBeforeBlock | alphajet_net.py:60 | `find` cannot land before such a block, even on a `<GP` straddling its start |
| Extractor.NoCloseAfterBlock | alphajet_net.py:61 | `rfind` cannot land after such a block's closing tag, even on a `</GP>` straddling its end |
| Extractor.ParseIgnoresNoise | alphajet_net.py:54-72 | a block surrounded by such noise parses to the dictionary of the block's children |
| Extractor.TwoBlocksMerge | alphajet_net.py:60-66 | two complete blocks in one reply merge into one fragment spanning both |
| Client.ReplySurvivesFragmentation | alphajet_net.py:39-72 | however the reply is chunked, and whatever follows the close or timeout, a block surrounded by noise parses to its children's dictionary |
| Client.ParseStateReply | alphajet_net.py:54-72 | given a parser that reports the block `<GP><STATE>READY</STATE></GP>` as one child `STATE` with text `READY`, the reply `junk` + that block + `trailing\0` yields `{"STATE": "READY"}`: the noise is cut away and the parser's text passes through unchanged |
| Client.ParseEmptyElement | alphajet_net.py:69 | given a parser that reports `<GP><A>1</A><B></B></GP>` as `A` with text `1` and `B` without text, `B` maps to `None`, not to `""` |
| Client.DuplicateTagKeepsLast | alphajet_net.py:69 | a repeated tag keeps the text of its last occurrence |

## Left out

- Socket lifecycle (alphajet_net.py:35-38): creating, connecting, sending and
  closing the socket are operating-system I/O. The model covers what is sent
  and the receive loop over a scripted socket. It does not model the socket
  being closed on every path, or a connection failure.
- The `timeout` argument (alphajet_net.py:25, :36) is a float that only the
  operating system uses. Timeouts appear in the model as `TimedOut` outcomes.
- Replies that neither close nor go idle are outside the model: the script is
  finite, so `ReceiveAll` always ends. The loop at alphajet_net.py:40-47 has no
  overall deadline and no size cap. A peer that sends at least one byte inside
  every timeout window keeps `send_gp_command` reading forever, and the buffer
  grows without bound.
- `Fields` is a `map`, so it loses the insertion order of Python's `dict`,
  in which the demo prints the fields (alphajet_net.py:112). Nothing in the
  client depends on that order.
- Exceptions from `recv` other than a timeout, such as a reset connection,
  propagate out of `send_gp_command`. The script has no such outcome.
- XML well-formedness (`ET.fromstring`, alphajet_net.py:68) is a foreign
  library. It is the `XmlParser` parameter, so no property of real XML parsing
  is proved. `ParseReversedMarkers` assumes that the parser rejects the empty
  string.
- The diagnostic `print` calls (alphajet_net.py:63, :71) and the `__main__`
  demo (alphajet_net.py:106-119) print output only. The demo's status query
  appears as `FrameStatusQuery`.
- FTP upload and download (alphajet_net.py:75-103) are thin wrappers over
  `ftplib` and the file system.
- txtmentesmentes.py and alphajetcontroller.py are not part of this model.
  They are PyQt5 user interface code, barcode rendering and file writing, with
  no protocol logic.
- The receive buffer is a `bytearray` extended in place. The model keeps it as
  a sequence variable that the loop reassigns, so aliasing of the buffer is not
  modelled; nothing else holds a reference to it.
