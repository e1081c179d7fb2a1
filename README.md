# tplink-homekit: the plug protocol, modelled in Dafny

This project models the part of tplink-homekit that talks to a TP-Link smart
plug over TCP port 9999, and proves properties of that model.

- **Codec** (`codec.dfy`): the frame format. `encrypt` writes the plaintext
  length as a 4-byte big-endian header. It then XORs each plaintext byte with
  a running key. The key starts at 171 and becomes each ciphertext byte as it
  is produced. `decrypt` yields nothing for fewer than 4 bytes. Otherwise it
  skips the header without checking it and undoes the stream. Both are
  `method`s with loops, proved equal to the specification functions
  `Encrypted` and `Decrypted`. The round trip, the layout and the autokey
  relation are proved about those functions. This is an obfuscation, not
  encryption: there is no secret and no integrity check.
- **Bytes** (`bytes.dfy`): Go's `byte` as the integers 0 to 255. XOR is
  computed bit by bit over the eight bits.
- **Protocol** (`protocol.dfy`): the three fixed JSON commands (system
  information, relay on, relay off) and the record read from a reply. It also
  holds `strings.Split` on a space, and the firmware token: the first field of
  the software version.
- **Devices** (`devices.dfy`): the `device` record as a class with its four
  string fields. `Do` performs one exchange: encrypt, write, read until close,
  decrypt. `Info` and `Init` fetch the identity. `On` and `Off` send the relay
  commands. The network and the JSON decoder are parameters. An `Exchange`
  value says how the exchange went. An `Unmarshal` function stands for
  `json.Unmarshal`.

Behaviour of the code worth knowing:

- A reply that is a JSON object (or `null`) without the
  `system.get_sysinfo` keys does not fail. `json.Unmarshal` leaves the
  missing strings empty, so `info` succeeds and stores empty identity
  fields. Other JSON that does not fit the record, such as `42`, `[]` or
  `{"system":5}`, is a decoding error, and `info` returns it.
- A failed `info` leaves the three identity fields as they were, which is
  not necessarily empty: a device queried successfully before keeps its
  earlier identity.
- The firmware token is cut at the first space character only, as
  `strings.Split(sw_ver, " ")[0]` does; a tab or other whitespace does not
  end the token. A version that starts with a space gives the empty token.

## Model

| member | source | states |
|---|---|---|
| Bytes.XorBitsBit | tphk.go:119 | bit j of the bitwise XOR is set exactly when one of the two input bits j is set |
| Bytes.Xor | tphk.go:119 | Go's `key ^ b` on bytes: each of the eight result bits is set exactly when one of the two input bits is set |
| Bytes.XorLaws | tphk.go:136 | XOR on bytes is commutative, 0 is its identity, and a byte XOR itself is 0 |
| Bytes.XorInvolution | tphk.go:119-137 | XOR-ing a byte twice with the same key gives the byte back |
| Codec.Pow256IsPow2 | tphk.go:117 | the range of a k-byte big-endian number, 256^k, is 2^(8k) |
| Codec.BigEndian | tphk.go:117 | the k-byte big-endian encoding of n has k bytes and decodes back to n |
| Codec.BigEndianFromBigEndian | tphk.go:117 | every byte string is the big-endian encoding of exactly one number |
| Codec.PutUint32 | tphk.go:117 | the header of a length below 2^32 has 4 bytes and reads back as that length |
| Codec.PutUint32Uint32 | tphk.go:117 | every 4-byte header is the encoding of the number it reads as |
| Codec.Scramble | tphk.go:118-122 | the encrypt loop emits exactly one byte per plaintext byte |
| Codec.Unscramble | tphk.go:135-139 | the decrypt loop emits exactly one byte per ciphertext byte |
| Codec.Encrypted | tphk.go:112-124 | a frame has 4 + len(x) bytes and its header reads back as len(x) truncated to 32 bits; RoundTrip and EncryptedLayout pin down the payload |
| Codec.Decrypted | tphk.go:126-141 | nothing for fewer than 4 bytes, otherwise one byte per byte after the header; RoundTrip, EncryptDecrypted and DecryptedLayout pin down the bytes |
| Codec.ScrambleSnoc | tphk.go:118-122 | one more plaintext byte appends that byte XOR the last ciphertext byte (or 171 at the start) |
| Codec.UnscrambleSnoc | tphk.go:135-139 | one more ciphertext byte appends that byte XOR the previous ciphertext byte (or 171 at the start) |
| Codec.UnscrambleScramble | tphk.go:112-141 | the decrypt stream undoes the encrypt stream for the same initial key |
| Codec.ScrambleUnscramble | tphk.go:112-141 | the encrypt stream undoes the decrypt stream: every byte string is the ciphertext of exactly one plaintext |
| Codec.ScrambleAutokeyed | tphk.go:114-122 | c[0] = key XOR p[0] and c[i] = c[i-1] XOR p[i] for every later i |
| Codec.AutokeyedUnique | tphk.go:114-122 | the autokey relation has only one solution, the encrypt stream |
| Codec.UnscrambleAt | tphk.go:135-139 | plaintext byte i is ciphertext byte i XOR ciphertext byte i-1 (or the key for i = 0) |
| Codec.RoundTrip | tphk.go:112-141 | decrypt(encrypt(x)) = x for every byte sequence x, the empty one included |
| Codec.EncryptDecrypted | tphk.go:112-141 | encrypt(decrypt(buf)) = buf whenever the header of buf holds the length of the rest |
| Codec.EncryptedLayout | tphk.go:112-124 | a frame has 4 + len(x) bytes; its header reads back as len(x) below 2^32; its payload satisfies the autokey relation from 171 |
| Codec.DecryptedLayout | tphk.go:126-141 | decrypt gives nothing for fewer than 4 bytes, len(buf) - 4 bytes otherwise, byte i being buf[3+i] XOR buf[4+i] (171 XOR buf[4] for i = 0) |
| Codec.DecryptedIgnoresHeader | tphk.go:134 | buffers that differ only in their first four bytes decrypt alike |
| Codec.Encrypt | tphk.go:112-124 | the loop builds the frame: 4 + len(x) bytes, header reading back as len(x) below 2^32, autokeyed payload |
| Codec.Decrypt | tphk.go:126-141 | the loop builds the plaintext: empty for short buffers, otherwise one byte per byte after the header, each from two adjacent ciphertext bytes |
| Protocol.RelayCommandsDifferInState | tphk.go:81-93 | the On and Off commands have the same length and agree everywhere except the state digit, 1 against 0 |
| Protocol.AsciiBytes | tphk.go:50 | converting an ASCII command gives one byte per character, holding its code |
| Protocol.Split | tphk.go:60 | splitting on a space yields at least one field, and no field contains a space |
| Protocol.JoinSplit | tphk.go:60 | joining the fields back with spaces gives the original string |
| Protocol.Firmware | tphk.go:60 | the token is a prefix of the version, holds no space, and ends at the first space or at the end of the version |
| Protocol.FirmwareUnique | tphk.go:60 | any prefix without a space that reaches the end or stops at a space is the token |
| Protocol.FirmwareWithoutSpace | tphk.go:60 | a version without a space (the empty one included) is its own token |
| Protocol.FirmwareOfBuildString | tphk.go:60 | "1.2.3 Build 200101" gives "1.2.3" |
| Devices.Identify | tphk.go:49-57 | info succeeds exactly when the plug replies and the decoder accepts the decrypted reply, and then yields the decoded record; a decoder failure is a JSON error and each transport failure gives its own error |
| Devices.IdentifyEncryptedReply | tphk.go:48-57 | a plug that replies with the encryption of a JSON text has exactly that text decoded |
| Devices.CommandsAreAscii | tphk.go:50 | the three fixed commands are plain ASCII text |
| Devices.Device.constructor | tphk.go:28-33 | a new device has its address and empty identity fields |
| Devices.Device.Do | tphk.go:95-110 | nothing is written if the dial fails; otherwise the encrypted command is written, and it decrypts to the command; each transport failure gives its error; a reply gives its decryption |
| Devices.Device.Info | tphk.go:48-62 | on any error the identity fields are unchanged and the error is returned; on success identifier, alias and firmware token are all set from the reply; the address never changes |
| Devices.Device.Init | tphk.go:35-37 | the same as Info |
| Devices.Device.On | tphk.go:81-86 | the frame written decrypts to the relay-on command; a transport error is reported (logged), and the record is untouched |
| Devices.Device.Off | tphk.go:88-93 | the frame written decrypts to the relay-off command; a transport error is reported (logged), and the record is untouched |

## Left out

- TCP plumbing (`dial`, `conn.Write`, `ioutil.ReadAll`; tphk.go:39-46, 95-110) is network I/O. An `Exchange` parameter says which step failed or which bytes came back. The device address is therefore never used by the model.
- `json.Unmarshal` (tphk.go:54) is a library call. It is the `Unmarshal` parameter: a function from the decrypted bytes to a record or to failure.
- The HomeKit bridge (`Announce`, `hc.NewIPTransport`, `OnTermination`, `t.Start`; tphk.go:64-79, 160-169) is a foreign library driven by callbacks.
- `main` (tphk.go:143-158) is process bootstrap: reading the host list from the environment, building `host:9999` addresses, and skipping hosts whose `Init` fails.
- Logging in `On` and `Off` (tphk.go:84, 91) is a side effect only. The error that would be logged is returned as `logged`. Go also logs `res`, which is always nil on that path, since `do` returns nil with every error (tphk.go:98, 102, 106); nothing else is lost.
- Devices.Device.Do: a partial write is not distinguished from a failed one. Either way Go's `conn.Write` reports an error, which is `WriteFails` here.
- The nil slice that Go's `decrypt` returns for a short buffer, or when nothing follows the header, is the empty sequence here.
