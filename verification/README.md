# Edimax cloud client: a verified model of the protocol engine

This project models in Dafny the protocol engine of EdiManager, a command-line client for Edimax smart plugs and cameras. The client never talks to a device directly. It does three things:

- It asks the Edimax cloud over UDP where the device is. The cloud answers with a status code and the address of a relay.
- It opens a TCP session to that relay. Over it, it sends plug commands in "Pnv" envelopes (a text header declaring the payload length, then the encrypted payload).
- For a camera, it fetches HTTP responses that the relay frames with a 12-byte binary preamble, and serves them to a local browser as a small proxy.

Everything on the wire goes through a rotation cipher.

The model is functional. Bytes are `bv8`, text is `seq<char>`, and sockets become sequences of read outcomes:

- a TCP stream is a sequence of chunks and faults;
- a UDP exchange is a reply or a loss;
- a reconnect round records whether the request completed and, if not, whether the new probe and the new connection worked.

C# `null` is `Option`. An exception is `Result.Failure` or `None`, whichever the source does with it at the point where it is caught. XML parsing, MD5, Base64 and the device exchange behind the proxy are function-typed parameters.

Modules, in dependency order:

| module | file | what it models |
|---|---|---|
| `Wrappers` | wrappers.dfy | `Option` and `Result` |
| `Text` | text.dfy | UTF-8 encoding, UTF-16 `Length`, per-byte decoding, `int.Parse`, `Trim`, `Split`, `Join`, `IndexOf`, `Replace`, `PadLeft` |
| `Cipher` | cipher.dfy | `Encrypt` and `Decrypt` |
| `Framing` | framing.dfy | the two `ReadBytes` readers over a stream of chunks |
| `Decoders` | decoders.dfy | `GetCodeDescription`, `ExplainSchedule`, the weekly schedule text |
| `Wire` | wire.dfy | the Pnv envelope, the Pnv reply reader, the relay handshake, the UDP probe datagram, the MD5 hex text |
| `Tunnel` | tunnel.dfy | the 12-byte preamble and the parse of a tunnelled HTTP response |
| `Discovery` | discovery.dfy | the UDP retry loop and the device descriptor built from the reply |
| `Reconnect` | reconnect.dfy | the relay reconnect loop and its attempt counter |
| `Proxy` | proxy.dfy | the local web proxy: request reading, URL rewriting, cache header injection, writing the response back |
| `Control` | control.dfy | the decisions of `EdimaxCloudRequest`: whether to connect, which plug commands are sent, the toggle, the access gate, the image outcome, the daily history |

Four behaviours of the code are easy to misread, and the model keeps each of them:

- **Decrypt round trip.** `Decrypt` reads the rotation off the first byte, so it recovers the rotation only when the plaintext starts with `<` (0x3C). `Cipher.RoundTrip` requires that. `Cipher.RecoveredRotation` gives the rotation actually recovered otherwise. Every message the client builds starts with `<`.
- **Envelope length.** `CreateCommandMessage` declares `command.Length`, which counts UTF-16 units, not UTF-8 bytes. This is the first finding below.
- **Reconnect retries.** The reconnect loop runs until the request completes, and counts only reconnect steps that throw. A probe that fails (`Success=false`) does not count. With the cloud unreachable the loop therefore never gives up (`Reconnect.FailedProbesNeverCount`).
- **Pnv reply header.** The reply reader splits the header on the letter `r` before looking for the `:` (`Wire.DeclaredLength`).

## Model

| member | source | states |
|---|---|---|
| Text.Utf8 | EdiManager/EdimaxUtils.cs:113-116 | `Encoding.UTF8.GetBytes`: never fewer bytes than characters; ASCII text gives one byte per character, each equal to the character's code |
| Text.Utf8Append | EdiManager/EdimaxUtils.cs:113-116 | encoding distributes over concatenation |
| Text.Utf16Length | EdiManager/EdimaxControl.cs:403 | C# `Length` counts UTF-16 units: between one and two per character, exactly one per ASCII character |
| Text.Utf16Append | EdiManager/EdimaxControl.cs:403 | `Length` adds up over concatenation |
| Text.Utf16BelowUtf8 | EdiManager/EdimaxControl.cs:403 | `Length` never exceeds the UTF-8 byte count, and equals it if and only if the text is ASCII |
| Text.Decode | EdiManager/EdimaxControl.cs:315 | `Encoding.UTF8.GetString` on received bytes: one character per byte, exact on every ASCII byte |
| Text.DecodeUtf8 | EdiManager/EdimaxControl.cs:388 | decoding the encoding of ASCII text gives the text back |
| Text.DecodeAppend | EdiManager/EdimaxControl.cs:388 | decoding distributes over concatenation |
| Text.Decimal | EdiManager/EdimaxControl.cs:403 | `ToString()` of a non-negative number: ASCII digits only, a single digit exactly below 10 |
| Text.DigitsValueOfDecimal | EdiManager/EdimaxControl.cs:403 | the digits written for `n` have value `n` |
| Text.IntText | EdiManager/EdimaxControl.cs:491 | `ToString()` of any integer: ASCII, and all digits if and only if the value is non-negative |
| Text.ParseInt32 | EdiManager/EdimaxControl.cs:317 | `int.Parse`: a value it accepts fits in 32 bits; `Text.ParseSigned`, `Text.ParsePlus`, `Text.ParseNulTail` and `Text.ParseRejects` state what it accepts, including NUL characters at the very end |
| Text.ParseSigned | EdiManager/EdimaxControl.cs:316-317 | the text of any integer, between number white space and followed by any run of NUL characters, parses back to that integer if and only if it fits in 32 bits |
| Text.ParsePlus | EdiManager/EdimaxControl.cs:317 | a '+' ahead of the digits is accepted, with the same 32-bit bound and the same white space and trailing NULs |
| Text.ParseRejects | EdiManager/EdimaxControl.cs:317 | a character that is neither number white space, a sign nor a digit makes `int.Parse` throw wherever it stands, unless it is a NUL followed only by NULs |
| Text.ParseNulTail | EdiManager/EdimaxControl.cs:317 | the digits of a 32-bit number followed by NUL characters parse back to the number, as `int.Parse` accepts trailing NULs |
| Text.TrimKeeps | EdiManager/EdimaxControl.cs:316 | every character `Trim` does not drop survives trimming |
| Text.ParseDecimal | EdiManager/EdimaxControl.cs:316-317 | `int.Parse` reads back every 32-bit decimal the client writes |
| Text.Trim | EdiManager/EdimaxControl.cs:316 | `Trim()` never lengthens the text |
| Text.TrimAround | EdiManager/EdimaxControl.cs:316 | trimming removes exactly a dropped prefix and suffix around a core that starts and ends with kept characters |
| Text.TrimNothing | EdiManager/EdimaxControl.cs:316 | text with nothing to drop is unchanged by trimming |
| Text.TrimChar | EdiManager/EdimaxControl.cs:393-394 | `Trim(c)`: the result is a slice of the input with only `c` cut off before and after it, and it neither starts nor ends with `c` |
| Text.TrimCharAfter | EdiManager/EdimaxControl.cs:394 | one trailing `c` after a core that does not start or end with it is removed, and nothing else |
| Text.IndexOf | EdiManager/EdimaxControl.cs:389 | an ordinal search: a found position holds the pattern and no earlier position does; -1 exactly when no position does |
| Text.IndexOfPrefix | EdiManager/EdimaxControl.cs:389 | the first occurrence in a prefix stays the first however the text continues |
| Text.Find | EdiManager/EdimaxControl.cs:316 | the first position of a value: it holds the value and none before it does; -1 exactly when absent |
| Text.Split | EdiManager/EdimaxControl.cs:316 | `Split(sep)`: at least one piece, no piece holds the separator, and text without the separator is one piece |
| Text.JoinSplit | EdiManager/EdimaxControl.cs:172 | joining the pieces of a split with the separator gives the text back |
| Text.SplitJoin | EdiManager/EdimaxControl.cs:172 | splitting a join gives back the parts when none holds the separator |
| Text.SplitAfter | EdiManager/EdimaxControl.cs:316 | a split takes the separator-free prefix as the first piece |
| Text.ReplaceOnlySuffix | EdiManager/EdimaxControl.cs:260 | when the only occurrence of the pattern is a suffix, `Replace` changes just that suffix |
| Text.ReplaceAbsent | EdiManager/EdimaxControl.cs:260 | text without the pattern passes `Replace` unchanged |
| Text.PadLeft | EdiManager/EdimaxUtils.cs:195 | `PadLeft(width, c)`: the width or the original length, whichever is larger; the original text at the end; `c` before it |
| Cipher.EncryptFirst | EdiManager/EdimaxUtils.cs:124-127 | the first encrypted byte is the plaintext byte plus the rotation, modulo 256 |
| Cipher.AddFoldRotates | EdiManager/EdimaxUtils.cs:130-131 | shifting a byte left by at most 8 and adding the two halves of the 16-bit window rotates it left |
| Cipher.OrFoldRotates | EdiManager/EdimaxUtils.cs:104-105 | shifting left by at most 8 and or-ing the two halves rotates it left |
| Cipher.FoldHalvesDisjoint | EdiManager/EdimaxUtils.cs:131 | for shifts up to 8 the two halves share no bit, so the add-fold never exceeds 255 |
| Cipher.EncryptByteRotates | EdiManager/EdimaxUtils.cs:128-132 | for rotations 0 to 8 a later byte is encrypted as its rotation left by `8 - r` |
| Cipher.DecryptByteRotates | EdiManager/EdimaxUtils.cs:102-106 | for rotations 0 to 8 a later byte is decrypted as its rotation left by `r` |
| Cipher.Encrypt | EdiManager/EdimaxUtils.cs:118-138 | `Encrypt(bytes, r)`: as many bytes as the input, the first being the first plaintext byte plus `r` modulo 256 |
| Cipher.EncryptRotates | EdiManager/EdimaxUtils.cs:118-138 | for rotations 0 to 8 every byte after the first is the plaintext byte rotated left by `8 - r` |
| Cipher.EncryptText | EdiManager/EdimaxUtils.cs:113-116 | `Encrypt(string, r)`: one byte per UTF-8 byte of the text, one per character for ASCII |
| Cipher.Decrypt | EdiManager/EdimaxUtils.cs:90-111 | one character per byte, the first always '<'; an empty input leaves the rotation at 0 |
| Cipher.DecryptFrom | EdiManager/EdimaxUtils.cs:94-109 | the decrypt loop: while the rotation is 0 the next byte shows as '<'; a known rotation is never changed |
| Cipher.DecryptFromKnown | EdiManager/EdimaxUtils.cs:102-106 | once the rotation is known, every later byte is decrypted with it |
| Cipher.DecryptShape | EdiManager/EdimaxUtils.cs:94-109 | the leading 0x3C run and the first other byte show as '<'; that byte fixes the rotation as its distance from 0x3C; all later bytes use that rotation; an all-0x3C message leaves it at 0 |
| Cipher.ByteRoundTrip | EdiManager/EdimaxUtils.cs:102-132 | for rotations 1 to 7, decrypting an encrypted later byte gives it back |
| Cipher.RoundTrip | EdiManager/EdimaxUtils.cs:90-138 | a message starting with 0x3C, encrypted with a rotation from 1 to 7, decrypts to the same characters and returns the rotation |
| Cipher.TextRoundTrip | EdiManager/EdimaxUtils.cs:113-116 | ASCII text starting with '<', encrypted with rotation 7, decrypts to itself with rotation 7 |
| Cipher.RecoveredRotation | EdiManager/EdimaxUtils.cs:97-101 | when the first byte is not '<', the rotation recovered is off by that byte's distance from '<'; the right rotation comes back if and only if the first byte is 0x3C |
| Framing.ZeroReads | EdiManager/EdimaxUtils.cs:25-33 | `k` zero-length reads ahead of a stream deliver nothing but count `k` reads |
| Framing.ReadOnce | EdiManager/EdimaxUtils.cs:25 | one `Read`: at most the requested count, taken from the front of the stream; a fault breaks; a fault-free stream always reads; a dense stream delivers data |
| Framing.ReadExactLoop | EdiManager/EdimaxUtils.cs:22-38 | the read loop: on success the bytes are the next `left` bytes of the stream after those already read, and the stream resumes right after them; otherwise a broken connection or a fault |
| Framing.ReadExact | EdiManager/EdimaxUtils.cs:16-41 | `ReadBytes(stream, count)`: exactly `count` bytes, the front of the stream, which continues after them; a negative count fails |
| Framing.ShortStreamBreaks | EdiManager/EdimaxUtils.cs:22-37 | a fault-free stream that ends before enough bytes arrive breaks the connection |
| Framing.DenseStreamSucceeds | EdiManager/EdimaxUtils.cs:22-38 | a stream whose every read delivers data and that holds enough bytes is read in full |
| Framing.DenseRead | EdiManager/EdimaxUtils.cs:16-41 | a dense stream starting with `p` gives its first `n` bytes and stays dense after them |
| Framing.ZeroReadsSkip | EdiManager/EdimaxUtils.cs:30-37 | zero-length reads only advance the counter while it stays within 100 |
| Framing.ZeroReadsBreak | EdiManager/EdimaxUtils.cs:30-37 | zero-length reads that take the counter past 100 break the connection |
| Framing.ZeroReadThreshold | EdiManager/EdimaxUtils.cs:30-37 | `k` zero-length reads then enough data succeed if and only if `k` is at most 100; more break the connection |
| Framing.ChunkStep | EdiManager/EdimaxUtils.cs:28-33 | a read that delivers data resets the zero counter |
| Framing.ProgressResetsZeroCount | EdiManager/EdimaxUtils.cs:30-33 | up to 100 zero reads, data, up to 100 more zero reads and more data still succeed: the counter is per run, not per call |
| Framing.ReadByte | EdiManager/EdimaxUtils.cs:50 | one `ReadByte`: the next available byte, or end of stream or a fault when none is available |
| Framing.ReadUntilLoop | EdiManager/EdimaxUtils.cs:48-70 | the byte loop: on success, the bytes read so far plus the next ones up to the first marker end; on failure, no marker ends anywhere in what was available |
| Framing.ReadUntil | EdiManager/EdimaxUtils.cs:43-74 | `ReadBytes(stream, marker)`: the shortest non-empty prefix of the stream that ends with the marker, with the stream after it; end of stream or a fault when no prefix does |
| Framing.ReadUntilFirstMarker | EdiManager/EdimaxUtils.cs:43-74 | a prefix that ends with its first marker is exactly what the marker read returns |
| Framing.FirstMarkerUnique | EdiManager/EdimaxUtils.cs:58-66 | two prefixes of the same bytes that both end with their first marker are equal |
| Framing.MarkerOnlyAtEnd | EdiManager/EdimaxUtils.cs:58-66 | a body without the marker's first byte shows the marker only at its end |
| Framing.FirstMarkerRead | EdiManager/EdimaxUtils.cs:43-74 | a message ending with its first marker, at the head of a dense stream, is read exactly, and the stream continues after it |
| Decoders.CodeDescription | EdiManager/EdimaxUtils.cs:171-181 | "Offline", "Bad password" and "Online" exactly for "5000", "1120" and "1020"; any other code gives "Unknown code: " followed by the code; never empty |
| Decoders.CodeDescriptionInjective | EdiManager/EdimaxUtils.cs:171-181 | two codes share a description if and only if they are the same text, null counting as empty |
| Decoders.HexDigit | EdiManager/EdimaxUtils.cs:194 | `Convert.ToInt16(c, 16)`: defined exactly on hex digits of either case, with their values |
| Decoders.Binary | EdiManager/EdimaxUtils.cs:195 | `Convert.ToString(n, 2)`: at least one digit, at most four below 16 |
| Decoders.BinaryValueOfBinary | EdiManager/EdimaxUtils.cs:195 | the binary digits of `n` have value `n` |
| Decoders.Nibble | EdiManager/EdimaxUtils.cs:195 | the padded binary form of a hex digit has exactly four bits |
| Decoders.PadZeros | EdiManager/EdimaxUtils.cs:195 | left padding with zeros keeps the value |
| Decoders.NibbleValue | EdiManager/EdimaxUtils.cs:195 | the four bits of a digit have the digit's value |
| Decoders.HexBits | EdiManager/EdimaxUtils.cs:191-196 | the bit string of a hex schedule: four bits per digit |
| Decoders.HexBitsQuad | EdiManager/EdimaxUtils.cs:191-196 | digit `j` expands to the four bits at `4j`, most significant first |
| Decoders.HexBitsDigit | EdiManager/EdimaxUtils.cs:191-196 | the four bits at `4j` have the value of digit `j` |
| Decoders.HexBitAt | EdiManager/EdimaxUtils.cs:191-196 | bit `i` is bit `i % 4` of digit `i / 4` |
| Decoders.ScheduleBinary | EdiManager/EdimaxUtils.cs:191-196 | the bit string exists if and only if every character is a hex digit, and is then four times as long |
| Decoders.ChangesFrom | EdiManager/EdimaxUtils.cs:198-209 | every record is at a change point (the first bit, or a bit that differs from the one before) and gives the bit there |
| Decoders.ChangesStep | EdiManager/EdimaxUtils.cs:203-208 | a bit is a change point if and only if it differs from the state, and only then is a record made |
| Decoders.ChangesComplete | EdiManager/EdimaxUtils.cs:198-209 | no change point is missed |
| Decoders.ChangesAlternate | EdiManager/EdimaxUtils.cs:198-209 | records come in increasing minutes with alternating states, the first differing from the starting state |
| Decoders.ChangesSteady | EdiManager/EdimaxUtils.cs:198-209 | bits that stay at the state produce no record |
| Decoders.ChangesExact | EdiManager/EdimaxUtils.cs:198-209 | the records of a non-empty bit string are exactly its change points in order, the first at minute 0, each with the bit there, alternating ON and OFF |
| Decoders.Records | EdiManager/EdimaxUtils.cs:207 | one text per record, in order |
| Decoders.TimeReadsBack | EdiManager/EdimaxUtils.cs:202 | the time of a record is `hh:mm`, and reading its digits back as hours times 60 plus minutes gives the minute |
| Decoders.Pad2Value | EdiManager/EdimaxUtils.cs:202 | two-digit padding of a number below 100 reads back as the number |
| Decoders.ExplainSchedule | EdiManager/EdimaxUtils.cs:183-213 | null or "" gives "notset"; the conversion fails if and only if some character is not a hex digit, and the failure names such a character |
| Decoders.FirstNonHex | EdiManager/EdimaxUtils.cs:192-194 | the loop throws at the first character that is not a hex digit |
| Decoders.ExplainRecords | EdiManager/EdimaxUtils.cs:183-213 | a hex schedule is explained as the records of the change points of its bits joined by ';', with four bits per digit of the digit's value |
| Decoders.AllOff | EdiManager/EdimaxUtils.cs:183-213 | a schedule of zeros of any length is "00:00=OFF" |
| Decoders.ExplainHasNoSlash | EdiManager/EdimaxUtils.cs:183-213 | no day's explanation contains '/' |
| Decoders.Failing | EdiManager/EdimaxControl.cs:142 | which days of the week have a schedule whose explanation throws |
| Decoders.WeekExplanation | EdiManager/EdimaxControl.cs:136-142 | the week fails if and only if some day fails, and then with the error of the first failing day |
| Decoders.WeekSplits | EdiManager/EdimaxControl.cs:142 | splitting the week text on '/' gives back seven parts, each weekday, ':', and that day's explanation |
| Wire.PnvHeader | EdiManager/EdimaxControl.cs:403 | the envelope header is ASCII and holds no letter 'r' |
| Wire.HeaderBytes | EdiManager/EdimaxControl.cs:403-405 | the header bytes are the lead followed by CR LF CR LF, with no CR in the lead |
| Wire.HeaderFirstMarker | EdiManager/EdimaxControl.cs:403-405 | the header bytes end with CR LF CR LF and show it nowhere earlier |
| Wire.CommandMessageAsWritten | EdiManager/EdimaxControl.cs:400-408 | as written: a header declaring the UTF-16 length, then the encrypted UTF-8 bytes |
| Wire.CommandMessage | EdiManager/EdimaxControl.cs:400-408 | corrected: the header declares the number of payload bytes that follow |
| Wire.AsciiCommandMessage | EdiManager/EdimaxControl.cs:403 | the two agree on every ASCII command |
| Wire.DeclaredLength | EdiManager/EdimaxControl.cs:316-317 | the length a header declares: a 32-bit value, none without a ':' |
| Wire.DeclaredNulTail | EdiManager/EdimaxControl.cs:316-317 | a length field "PnvDataLen: n" followed by NUL characters still declares n |
| Wire.HeaderLength | EdiManager/EdimaxControl.cs:316-317 | the header the client writes declares the length it was given |
| Wire.SplitFirstExcludes | EdiManager/EdimaxControl.cs:316 | a character absent from the text is absent from the first piece of a split |
| Wire.ReceivePnv | EdiManager/EdimaxControl.cs:306-330 | a reply is a header ending at its first CR LF CR LF, a body of the declared length and its decryption, with the stream after them; a failed header read gives no reply |
| Wire.NegativeLengthNoReply | EdiManager/EdimaxControl.cs:317-319 | a negative declared length gives no reply |
| Wire.HeaderRead | EdiManager/EdimaxControl.cs:314 | the marker read returns exactly the envelope header |
| Wire.FrameRead | EdiManager/EdimaxControl.cs:314-321 | a frame declaring `n`, followed by at least `n` bytes, is read as those `n` bytes, with the rest left on the stream |
| Wire.ReceiveSteps | EdiManager/EdimaxControl.cs:314-323 | the reply reader composes header read, length parse, exact read and decryption |
| Wire.PnvRoundTrip | EdiManager/EdimaxControl.cs:306-330 | a command starting with '<', framed by `CommandMessage`, is read back as the characters of its UTF-8 bytes, and the stream continues after the frame |
| Wire.PnvAsciiRoundTrip | EdiManager/EdimaxControl.cs:400-408 | an ASCII command framed as written is read back as itself, the stream continuing after the frame |
| Wire.AsWrittenLeavesSurplus | EdiManager/EdimaxControl.cs:403 | as written, a non-ASCII command declares fewer bytes than it sends, and the surplus stays on the stream |
| Wire.AsWrittenCounterexample | EdiManager/EdimaxControl.cs:403 | the command "<é" declares 2 bytes, sends 3, and leaves 1 behind |
| Wire.HandshakeText | EdiManager/EdimaxControl.cs:296 | the handshake text starts with '<' |
| Wire.Handshake | EdiManager/EdimaxControl.cs:296-300 | the bytes written: one per UTF-8 byte of the handshake text |
| Wire.HandshakeFields | EdiManager/EdimaxControl.cs:296 | split on '&', the handshake gives back "<r", the device id and the relay id followed by CR LF CR LF, when neither id holds '&' |
| Wire.HandshakeDecrypts | EdiManager/EdimaxControl.cs:296-300 | an ASCII handshake decrypts to its text with rotation 7 |
| Wire.HexChar | EdiManager/EdimaxUtils.cs:148 | a lower-case hex digit reads back as its value |
| Wire.Hex2 | EdiManager/EdimaxUtils.cs:148 | `ToString("x2")`: two ASCII hex digits whose value is the byte |
| Wire.HexText | EdiManager/EdimaxUtils.cs:145-151 | two ASCII characters per byte |
| Wire.HexTextAt | EdiManager/EdimaxUtils.cs:146-149 | characters `2i` and `2i+1` are the two digits of byte `i` |
| Wire.HexTextReadsBack | EdiManager/EdimaxUtils.cs:140-153 | the hex text reads back to the digest, byte by byte |
| Wire.Md5Hex | EdiManager/EdimaxUtils.cs:140-153 | `GetMD5`: two ASCII characters per digest byte |
| Wire.UdpRequestText | EdiManager/EdimaxControl.cs:491 | the probe text starts with '<' |
| Wire.UdpRequest | EdiManager/EdimaxControl.cs:487-494 | the datagram carries one byte per UTF-8 byte of the probe text |
| Wire.UdpRequestDecrypts | EdiManager/EdimaxControl.cs:489-494 | for any id, password and timestamp, the device recovers rotation 7 and the probe text from the datagram |
| Tunnel.Val | EdiManager/EdimaxControl.cs:385 | a byte's value, below 256 |
| Tunnel.Unsigned | EdiManager/EdimaxControl.cs:385 | the four length bytes as an unsigned little-endian number fit in 32 bits |
| Tunnel.Signed | EdiManager/EdimaxControl.cs:385 | reading 32 bits as a C# `int` gives a 32-bit value |
| Tunnel.Wrap | EdiManager/EdimaxControl.cs:385 | every 32-bit value has a bit pattern that reads back as it |
| Tunnel.WrapSigned | EdiManager/EdimaxControl.cs:385 | every bit pattern is the pattern of its own reading |
| Tunnel.TunnelLength | EdiManager/EdimaxControl.cs:384-385 | the preamble length is a 32-bit value, negative exactly when the fourth byte has its top bit set |
| Tunnel.LengthBytes | EdiManager/EdimaxControl.cs:385 | four bytes encode a length |
| Tunnel.LengthRoundTrip | EdiManager/EdimaxControl.cs:384-385 | every 32-bit length written as four bytes is read back, whatever follows |
| Tunnel.LengthBytesOf | EdiManager/EdimaxControl.cs:384-385 | every four-byte preamble is the encoding of the length read from it |
| Tunnel.HeaderLines | EdiManager/EdimaxControl.cs:393 | one header line per piece of the split on '\n' |
| Tunnel.FirstStartingAt | EdiManager/EdimaxControl.cs:393 | the position of the first line with the prefix; no earlier line has it; -1 exactly when none does |
| Tunnel.FirstStarting | EdiManager/EdimaxControl.cs:393 | `FirstOrDefault` of the lines with the prefix: the first line that has it, with no earlier line having it; null exactly when no line has it |
| Tunnel.HeaderValue | EdiManager/EdimaxControl.cs:393-394 | the value is null exactly when no header line starts with the name; otherwise it is the text after the last ':' of the first such line, with spaces trimmed, and so holds no ':' |
| Tunnel.BodyStart | EdiManager/EdimaxControl.cs:389 | the cut is 4 past the first CR LF CR LF, or 3 exactly when there is none |
| Tunnel.ParseHeaders | EdiManager/EdimaxControl.cs:392-395 | status and content type from the header block; it fails with no status exactly when the block has no space, and with no content type exactly when there is a space but no Content-Type line |
| Tunnel.ParseHttp | EdiManager/EdimaxControl.cs:388-395 | fails on fewer than 3 bytes; otherwise headers are the decoded bytes through the first CR LF CR LF (or the first 3 when there is none), and the body is the bytes after them |
| Tunnel.ReceiveHttp | EdiManager/EdimaxControl.cs:384-395 | a response read through the tunnel is the parse of the bytes the preamble declares, and the stream continues after them |
| Tunnel.ReceiveLayout | EdiManager/EdimaxControl.cs:384-387 | a preamble, the declared message and a tail are taken apart exactly |
| Tunnel.NegativeLengthFails | EdiManager/EdimaxControl.cs:385-387 | a negative preamble length fails before any parsing |
| Tunnel.TunnelFrame | EdiManager/EdimaxControl.cs:384-387 | a frame is 12 preamble bytes plus the message |
| Tunnel.PreambleRead | EdiManager/EdimaxControl.cs:384-385 | the first read takes the preamble, which declares the message length |
| Tunnel.TunnelRead | EdiManager/EdimaxControl.cs:384-395 | the framing is transparent: a framed message parses exactly as the message alone, and the stream continues after it |
| Tunnel.ParseReply | EdiManager/EdimaxControl.cs:388-395 | a well-formed response parses back to its header block, body, status code and content type |
| Tunnel.ParseCut | EdiManager/EdimaxControl.cs:388-391 | an ASCII header block ending at its first blank line is cut off exactly, whatever body follows |
| Tunnel.HttpRoundTrip | EdiManager/EdimaxControl.cs:372-398 | a response framed by the relay is read back as its header block, body, status and content type, and the stream continues after it |
| Tunnel.StatusToken | EdiManager/EdimaxControl.cs:392 | the second space-separated token of the block is the status code |
| Tunnel.ContentTypeFound | EdiManager/EdimaxControl.cs:393-394 | the content type read from a well-formed block is the one written into it |
| Tunnel.FieldFound | EdiManager/EdimaxControl.cs:393-394 | a field on the line after a first line that is not that field is found and its value read back |
| Tunnel.FieldValue | EdiManager/EdimaxControl.cs:394 | the last ':'-separated piece of a field line, trimmed of spaces, is its value |
| Tunnel.HeaderBlockLines | EdiManager/EdimaxControl.cs:393 | split and trimmed of CR, a two-line block gives back its two lines |
| Tunnel.LineIsNotField | EdiManager/EdimaxControl.cs:393 | a line whose first word has no ':' does not start with a field name |
| Discovery.Answer | EdiManager/EdimaxControl.cs:497-508 | an exchange yields text if and only if a datagram arrived that fits the 2048-byte buffer, with one character per byte |
| Discovery.ProbeFrom | EdiManager/EdimaxControl.cs:419-436 | between 1 and 11 sends; every send but the last failed; an answer is the last send's text; it gives up if and only if the 11th send failed too |
| Discovery.GiveUpExactly | EdiManager/EdimaxControl.cs:419-436 | the probe gives up exactly when the first 11 exchanges all fail, and then it has sent 11 |
| Discovery.ProbeLoop | EdiManager/EdimaxControl.cs:419-436 | the do-while with its attempt counter computes the reference probe |
| Discovery.FirstNamed | EdiManager/EdimaxUtils.cs:157 | the first child with the name: it has the name and no earlier child does; -1 exactly when none does |
| Discovery.XmlValue | EdiManager/EdimaxUtils.cs:155-169 | `GetXmlValue`: the value is the attribute of the first child of that name, null when that child has none whatever later children hold; no such child gives null |
| Discovery.RelayPort | EdiManager/EdimaxControl.cs:451 | the relay port is 0 when absent, otherwise `int.Parse` of the value |
| Discovery.Describe | EdiManager/EdimaxControl.cs:437-476 | success if and only if the reply parses with a numeric or absent relay port; then status, relay address, relay id, port, device address, alias, model, type and product id come from the reply; online if and only if the status is not "5000"; the password is kept if and only if the status is "1070"; any failure gives the all-unset result |
| Discovery.QueryUdp | EdiManager/EdimaxControl.cs:410-477 | giving up yields the failed result; an answer is described |
| Discovery.QueryUdpLoop | EdiManager/EdimaxControl.cs:410-477 | the method computes `QueryUdp` with between 1 and 11 sends, and every unsuccessful result is the failed one |
| Discovery.DescribeReadsBack | EdiManager/EdimaxControl.cs:437-456 | a reply naming relay address, code, relay id and port is read back field by field, online and password following the code |
| Discovery.AbsentPortIsZero | EdiManager/EdimaxControl.cs:451 | without a relay port the probe succeeds with port 0 |
| Reconnect.ThrownStep | EdiManager/EdimaxControl.cs:361-363 | a round adds one to the count exactly when its reconnect step throws |
| Reconnect.ThrownBound | EdiManager/EdimaxControl.cs:361-363 | no more throws than rounds |
| Reconnect.ThrownMonotone | EdiManager/EdimaxControl.cs:339-369 | the counter never goes down |
| Reconnect.RunFrom | EdiManager/EdimaxControl.cs:339-369 | a completed request ends the loop with that round's reply; a fatal end is at a round whose reconnect threw |
| Reconnect.RunFromTrace | EdiManager/EdimaxControl.cs:339-369 | every round before the end dropped its request; the counter is 1 plus the throws so far, within 10 unless fatal, and exactly 11 when fatal |
| Reconnect.WithReconnect | EdiManager/EdimaxControl.cs:332-370 | the do-while with its counter computes the reference loop |
| Reconnect.FatalExactly | EdiManager/EdimaxControl.cs:363-366 | ten throwing reconnects before any completion make the loop fatal, no later than that round |
| Reconnect.FailedProbesNeverCount | EdiManager/EdimaxControl.cs:353-357 | rounds whose probe failed never count, so the loop never gives up on them |
| Reconnect.ZeroThrown | EdiManager/EdimaxControl.cs:353-357 | rounds with failed probes leave the count at 0 |
| Reconnect.CounterBounds | EdiManager/EdimaxControl.cs:339-369 | a completed request leaves the counter between 1 and 10; a fatal end reports 11 attempts after at least 10 rounds |
| Proxy.ParseRequestLine | EdiManager/EdimaxControl.cs:240-242 | verb and URL are the first two words before the first CR; it fails exactly when that line has no space |
| Proxy.ContentLength | EdiManager/EdimaxControl.cs:245 | a 32-bit value; missing exactly when no line starts with "Content-Length:" |
| Proxy.ContentLengthNulTail | EdiManager/EdimaxControl.cs:245 | a Content-Length value of digits followed by NUL characters declares the digits' number |
| Proxy.RequestAfter | EdiManager/EdimaxControl.cs:240-249 | a non-POST keeps its URL and the connection; a POST reads exactly Content-Length bytes and appends them decoded after '?', the connection continuing after them |
| Proxy.ReadRequest | EdiManager/EdimaxControl.cs:238-249 | the header read fails exactly when no CR LF CR LF arrives; otherwise the request is read from the decoded header |
| Proxy.RequestLineRoundTrip | EdiManager/EdimaxControl.cs:240-242 | a request line gives back its verb and URL, whatever follows the first CR |
| Proxy.RequestHeadLine | EdiManager/EdimaxControl.cs:240-242 | the request line of a well-formed header is read back |
| Proxy.ContentLengthRoundTrip | EdiManager/EdimaxControl.cs:245 | the Content-Length of a POST header is read back as the number written |
| Proxy.HeadRead | EdiManager/EdimaxControl.cs:238 | the header read returns exactly the header bytes |
| Proxy.HeadThenRest | EdiManager/EdimaxControl.cs:238-239 | the header is read in full and passed on decoded, the connection right after it |
| Proxy.NonPostRoundTrip | EdiManager/EdimaxControl.cs:238-242 | a non-POST request comes back with its verb and URL, the connection continuing after the header |
| Proxy.PostRoundTrip | EdiManager/EdimaxControl.cs:238-249 | a POST comes back with its URL, '?' and the decoded body of the declared length, the connection continuing after the body |
| Proxy.PostBodyRead | EdiManager/EdimaxControl.cs:243-249 | after a POST header the declared body is read |
| Proxy.DeviceUrl | EdiManager/EdimaxControl.cs:252-253 | a URL changes if and only if it is exactly "/snapshot.cgi"; the result is "/mobile.jpg" exactly for that URL and for "/mobile.jpg" itself |
| Proxy.UrlCommand | EdiManager/EdimaxControl.cs:254 | the URL command starts with '<' |
| Proxy.UrlCommandFramed | EdiManager/EdimaxControl.cs:254 | an ASCII URL and credential give an ASCII command whose envelope as written declares its length correctly |
| Proxy.PostBytesOverrunFrame | EdiManager/EdimaxControl.cs:243-254 | a POST body byte of 0x80 or above makes the envelope as written leave surplus bytes on the relay stream |
| Proxy.CommandHoldsUrl | EdiManager/EdimaxControl.cs:254 | an ASCII command holds an ASCII URL |
| Proxy.WithCaching | EdiManager/EdimaxControl.cs:256-261 | a URL with neither ".js" nor ".css" leaves the headers unchanged |
| Proxy.CachingAddsField | EdiManager/EdimaxControl.cs:256-261 | a cacheable header block ending at its only blank line gains exactly one Cache-Control field, as its last line |
| Proxy.CachingNeedsBlankLine | EdiManager/EdimaxControl.cs:256-261 | a block without a blank line passes unchanged |
| Proxy.JsonIsCacheable | EdiManager/EdimaxControl.cs:256 | the test is a substring test, so ".json" URLs are cached too |
| Proxy.ResponseBytesAsWritten | EdiManager/EdimaxControl.cs:263-264 | as written: the header bytes cut to the UTF-16 length, then the body |
| Proxy.ResponseBytes | EdiManager/EdimaxControl.cs:263-264 | corrected: all the header bytes, then the body |
| Proxy.ResponseAsWrittenAscii | EdiManager/EdimaxControl.cs:263 | the two agree if and only if the headers are ASCII |
| Proxy.ReplacementCodes | EdiManager/EdimaxControl.cs:388 | U+FFFD, which a lone byte 0x80 decodes to, is one UTF-16 unit and three UTF-8 bytes |
| Proxy.InvalidByteDecodes | EdiManager/EdimaxControl.cs:388-390 | a device header holding a lone byte 0x80 decodes with U+FFFD in its place |
| Proxy.InvalidByteCutsBlankLine | EdiManager/EdimaxControl.cs:263-264 | as written, such a header reaches the browser without the CR LF of its blank line, the body directly after the first CR LF |
| Proxy.ResponseReadsBack | EdiManager/EdimaxControl.cs:263-264 | written in full, an ASCII header block reaches the browser cut where the device's reply was cut |
| Proxy.ResponseKeepsBlankLine | EdiManager/EdimaxControl.cs:263-264 | written in full, any header block keeps its CR LF CR LF right before the body |
| Proxy.Serve | EdiManager/EdimaxControl.cs:235-265 | one proxy turn: a failed request read is that failure; otherwise the rewritten URL is sent; the turn fails if and only if the device exchange fails; the browser receives the cached-or-not header bytes cut to the header's UTF-16 length, then the body, which is every header byte when the header is ASCII; the connection continues |
| Proxy.SnapshotServed | EdiManager/EdimaxControl.cs:252-254 | a browser asking for the snapshot gets the device asked for "/mobile.jpg" |
| Control.FamiliesPartition | EdiManager/EdimaxControl.cs:76-187 | every disposition but the probe goes through exactly one of the plug and web sessions |
| Control.PlanFor | EdiManager/EdimaxControl.cs:62-70 | the relay is contacted if and only if the probe succeeded, the relay id is not blank and the disposition is not the probe; a success with a blank id is reported with the code's description |
| Control.FailedProbeFinishes | EdiManager/EdimaxControl.cs:63 | a failed probe never leads to the relay |
| Control.RelayNamedConnects | EdiManager/EdimaxControl.cs:63-70 | a successful probe naming a relay id that is not blank leads to the relay for every disposition but the probe |
| Control.PlugCommand | EdiManager/EdimaxControl.cs:37-45 | every plug command starts with '<' |
| Control.PlugCommandFramed | EdiManager/EdimaxControl.cs:37-45 | a plug command with ASCII kind and body is ASCII, and its envelope as written declares its length correctly |
| Control.TargetState | EdiManager/EdimaxControl.cs:104-118 | a state exactly for On, Off and Toggle, always "ON" or "OFF"; a toggle asks "OFF" if and only if the last state was "ON" |
| Control.ToggleTwice | EdiManager/EdimaxControl.cs:117 | toggling twice from a known state comes back to it |
| Control.SwitchIgnoresState | EdiManager/EdimaxControl.cs:107-114 | On and Off ignore the reported state |
| Control.DocumentText | EdiManager/EdimaxUtils.cs:78-81 | the text handed to the parser exists if and only if the text contains "<SMARTPLUG"; it starts with that marker, is a suffix of the text, and is cut at the first occurrence: no earlier position holds the marker |
| Control.ReadDocument | EdiManager/EdimaxUtils.cs:76-88 | a null text or a cut text the parser rejects throws; no marker gives null; otherwise the parsed document is the cut text |
| Control.DocumentTextIdempotent | EdiManager/EdimaxUtils.cs:76-88 | cutting an already cut document changes nothing |
| Control.CommandText | EdiManager/EdimaxControl.cs:37-45 | every plug request text starts with '<' |
| Control.FollowUp | EdiManager/EdimaxControl.cs:104-169 | there is a follow-up command exactly for dispositions other than PlugInfo |
| Control.RunPlugSession | EdiManager/EdimaxControl.cs:76-184 | the info command is sent first; success if and only if it was answered; a second command exactly when it was answered, its document read did not throw, and more than info was asked; that command is the one the disposition asks for (the toggle from the reported state); the session fails exactly when the info document read throws or the follow-up answer is unusable |
| Control.UnparsableInfoStops | EdiManager/EdimaxControl.cs:80-84 | an info answer whose document the parser rejects ends the session in error after the info command |
| Control.RequestFramed | EdiManager/EdimaxControl.cs:37-45 | every plug request with ASCII text is ASCII, starts with '<' and is framed with its true length |
| Control.PlugSessionFramed | EdiManager/EdimaxControl.cs:76-184 | every command a plug session sends is read back whole by the relay |
| Control.Credentials | EdiManager/EdimaxControl.cs:195 | the user-pass is "admin", ':' and the password |
| Control.SplitCredentials | EdiManager/EdimaxControl.cs:195 | a server splits at the first colon: none without one, otherwise a colon-free user and the rest |
| Control.CredentialsRoundTrip | EdiManager/EdimaxControl.cs:195 | the server recovers "admin" and the password, whatever colons the password holds |
| Control.Gate | EdiManager/EdimaxControl.cs:198-208 | access continues if and only if the status is 200, 301 or 302; then the password is set and nothing else in the descriptor changes |
| Control.GateOverridesProbe | EdiManager/EdimaxControl.cs:198-208 | the gate's result does not depend on the password the probe left in the descriptor |
| Control.ImageResult | EdiManager/EdimaxControl.cs:215-224 | the image is saved exactly for status 200 with an image content type, byte for byte; otherwise a text content type is shown decoded |
| Control.ImageSaved | EdiManager/EdimaxControl.cs:210-220 | an image framed by the relay with status 200 is saved byte for byte |
| Control.Groups | EdiManager/EdimaxControl.cs:172 | consecutive non-empty groups of at most `n`, every group but the last of exactly `n` |
| Control.GroupsConcat | EdiManager/EdimaxControl.cs:172 | the groups hold the values in their original order |
| Control.JoinGroups | EdiManager/EdimaxControl.cs:172 | joining the joined groups joins the values |
| Control.DailyHistory | EdiManager/EdimaxControl.cs:172 | at least one day |
| Control.HistoryRoundTrip | EdiManager/EdimaxControl.cs:172 | joining the days with '-' gives back the history string |
| Control.FullDays | EdiManager/EdimaxControl.cs:172 | every day but the last splits back into exactly 24 hourly values |

## Left out

- Sockets, the listener, receive timeouts and `Thread.Sleep`: streams, exchanges and rounds are supplied as sequences of outcomes. Running out of them is a distinct outcome (`Exhausted`).
- The proxy's endless accept loop (EdiManager/EdimaxControl.cs:231-271): `Proxy.Serve` models one turn, and the per-connection `catch` is its `Failure` result.
- Console output (Output.cs) and the command line (Program.cs): user-interface plumbing with no effect on the protocol.
- XML parsing (`XDocument.Parse`, `Descendants`): the parser and the lookups are parameters. `Discovery.XmlValue` models `GetXmlValue` over the parsed children.
- MD5 (RFC 1321) and Base64: library functions, passed as parameters. Their hex text and UTF-8 input are modelled.
- `double.Parse` of the power telemetry (EdiManager/EdimaxControl.cs:152-156, 173-177): floating point.
- `DateTime.Now`/`UtcNow`: the history range, the probe timestamp and the image file name are parameters.
- `File.WriteAllBytes` (EdiManager/EdimaxControl.cs:218): `Control.ImageResult` says which bytes would be saved.
- Text.Decode: does not model full UTF-8 decoding. A byte of 0x80 or above decodes to U+FFFD, so a multi-byte sequence yields one character per byte. This is exact only for ASCII, which every round trip requires.
- The round trips over streams assume a dense remainder (every later read delivers data). Zero-length reads and faults are covered separately by the `Framing` lemmas.
- Proxy.Serve: the reconnecting device exchange is the parameter `fetch`, not `Reconnect.WithReconnect` itself. The loop's counting is proved on its own.
- Reconnect.WithReconnect: the loop does not model replacing the descriptor and the session after a reconnect.
- Control.RunPlugSession: does not model the values read from the follow-up answers (schedule days, telemetry, history string). They are covered by `Decoders.WeekExplanation` and `Control.DailyHistory`. A null history string, a schedule day that is not hex and a telemetry value that is not a number all throw, and none of them is modelled. `XDocument.Parse` is the parameter `parses`.
- Control.DocumentText: searches for "<SMARTPLUG" ordinally. `string.IndexOf(string)` compares with the current culture, which ignores zero-weight characters such as U+00AD; a marker interrupted by one is found by the code and not by the model.
- Text.IndexOf: an ordinal search. `IndexOf(string)` at EdiManager/EdimaxControl.cs:389 and EdiManager/EdimaxUtils.cs:78 compares with the current culture and skips zero-weight characters, so text holding such characters can match where the model finds nothing. Ordinal and culture-sensitive search agree on the ASCII text the round trips use.
- Tunnel.FirstStarting: an ordinal prefix test. `StartsWith(string)` at EdiManager/EdimaxControl.cs:245 and 393 is culture-sensitive, so a line such as "Content" U+00AD "-Type: x" passes the code's test and not the model's.
- Text.ParseInt32: accepts '-' and '+' as the signs. `int.Parse(string)` takes its signs from the current culture, which may name others.
- Tunnel.ParseHeaders: a response without a Content-Type line fails (`NoContentType`). In the code, the `null` content type throws at line 395, inside the reconnect loop.
- Decoders.Binary: states only the digit-count bounds needed for padding; the value is stated by `Decoders.BinaryValueOfBinary`.

## Findings

| source | as written | input that shows it | evidently intended | confidence | as-written member | corrected member |
|---|---|---|---|---|---|---|
| EdiManager/EdimaxControl.cs:403 | the Pnv header declares `command.Length`, the number of UTF-16 units, while the payload is the encrypted UTF-8 bytes | the command "<é": it declares 2 and sends 3 bytes, so the reader leaves 1 byte on the stream, where the next read takes it for the start of a header | declare the number of payload bytes | not executed | Wire.AsWrittenCounterexample | Wire.PnvRoundTrip |
| EdiManager/EdimaxControl.cs:263 | the proxy writes `headers.Length` bytes of the UTF-8 header bytes, so a header block whose text is not ASCII is cut short. For a valid UTF-8 header the cut is compensated, because line 391 skips `bodyIdx` bytes although `bodyIdx` counts characters. A byte that is not valid UTF-8 is not compensated | a device header of an ASCII line, a lone byte 0x80, then CR LF CR LF: the text holds U+FFFD (one unit, three bytes), so the cut drops the CR LF of the blank line and the body follows the first CR LF | cut the body at the byte length of the header (line 391) and write every header byte (line 263) | not executed | Proxy.InvalidByteCutsBlankLine | Proxy.ResponseKeepsBlankLine |
