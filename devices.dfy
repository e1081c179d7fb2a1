/** One smart plug: its address, the identity it reports, and the three
    exchanges made with it (system information, relay on, relay off). Each
    exchange opens a connection, writes one encrypted frame, reads until
    the plug closes, and decrypts what it read. The network and the JSON
    decoder are not modelled: they are parameters describing what happened. */
module Devices {

  import opened Bytes
  import opened Codec
  import opened Protocol

  /** The errors Go passes back as `error` values: from dialling, writing,
      reading, or decoding the JSON of a reply. */
  datatype Error = DialError | WriteError | ReadError | JsonError

  datatype Option<+T> = None | Some(value: T)

  datatype Result<+T> = Ok(value: T) | Err(error: Error)

  /** What the network does during one exchange (tphk.go:95-110): the dial
      fails, the write fails, reading fails before the end of the stream, or
      the plug sends the bytes `raw` and closes the connection. */
  datatype Exchange = DialFails | WriteFails | ReadFails | Replies(raw: seq<byte>)

  /** json.Unmarshal into the system-information record: None when the
      bytes are not well-formed JSON or a value has the wrong type (a number
      where `sw_ver` needs a string, say); otherwise the record, whose
      strings stay empty for keys the text lacks, so `{}` and `null` give
      the empty record. */
  type Unmarshal = seq<byte> -> Option<SysInfo>

  /** What `info` obtains from an exchange: the transport's error, the
      decoder's error, or the record decoded from the decrypted reply
      (tphk.go:49-57). */
  function Identify(net: Exchange, unmarshal: Unmarshal): (r: Result<SysInfo>)
    ensures r.Ok? <==> net.Replies? && unmarshal(Decrypted(net.raw)).Some?
    ensures r.Ok? ==> unmarshal(Decrypted(net.raw)) == Some(r.value)
    ensures r.Err? && net.Replies? ==> r.error == JsonError
    ensures net.DialFails? ==> r == Err(DialError)
    ensures net.WriteFails? ==> r == Err(WriteError)
    ensures net.ReadFails? ==> r == Err(ReadError)
  {
    match net
    case DialFails => Err(DialError)
    case WriteFails => Err(WriteError)
    case ReadFails => Err(ReadError)
    case Replies(raw) =>
      match unmarshal(Decrypted(raw))
      case None => Err(JsonError)
      case Some(si) => Ok(si)
  }

  /** A plug that answers with a correctly encrypted JSON text has exactly
      that text decoded: decryption loses nothing on the way. */
  lemma IdentifyEncryptedReply(json: seq<byte>, unmarshal: Unmarshal)
    ensures Identify(Replies(Encrypted(json)), unmarshal) ==
      if unmarshal(json).Some? then Ok(unmarshal(json).value) else Err(JsonError)
  {
    RoundTrip(json);
  }

  lemma CommandsAreAscii()
    ensures forall i :: 0 <= i < |InfoQuery| ==> InfoQuery[i] as int < 128
    ensures forall i :: 0 <= i < |OnCommand| ==> OnCommand[i] as int < 128
    ensures forall i :: 0 <= i < |OffCommand| ==> OffCommand[i] as int < 128
  {
  }

  /** The device record of tphk.go:28-33. */
  class Device {
    var addr: string
    var devId: string
    var alias: string
    var firmware: string

    /** `device{Addr: addr}`: a device with an address and no identity yet. */
    constructor (addr: string)
      ensures this.addr == addr
      ensures devId == "" && alias == "" && firmware == ""
    {
      this.addr := addr;
      devId, alias, firmware := "", "", "";
    }

    /** `do` (tphk.go:95-110): encrypt the command and write it once the
        dial succeeds, then decrypt whatever the plug sent before closing.
        `wire` is what was handed to the connection for writing. */
    method Do(cmd: seq<byte>, net: Exchange) returns (wire: seq<byte>, r: Result<seq<byte>>)
      ensures wire == if net.DialFails? then [] else Encrypted(cmd)
      ensures !net.DialFails? ==> Decrypted(wire) == cmd
      ensures net.DialFails? ==> r == Err(DialError)
      ensures net.WriteFails? ==> r == Err(WriteError)
      ensures net.ReadFails? ==> r == Err(ReadError)
      ensures net.Replies? ==> r.Ok? && r.value == Decrypted(net.raw)
      ensures net.Replies? && |net.raw| < 4 ==> r == Ok([])
    {
      wire := [];
      if net.DialFails? {
        return wire, Err(DialError);
      }
      wire := Encrypt(cmd);
      RoundTrip(cmd);
      if net.WriteFails? {
        return wire, Err(WriteError);
      }
      if net.ReadFails? {
        return wire, Err(ReadError);
      }
      var buf := Decrypt(net.raw);
      r := Ok(buf);
    }

    /** The record after `info` returns `err`: on any error the identity is
        as it was and the error is the exchange's; on success the
        identifier, the alias and the firmware token all come from the
        reply. The address never changes. */
    twostate predicate Informed(net: Exchange, unmarshal: Unmarshal, new err: Option<Error>)
      reads this
    {
      && addr == old(addr)
      && match Identify(net, unmarshal)
        case Err(e) =>
          && err == Some(e)
          && devId == old(devId) && alias == old(alias) && firmware == old(firmware)
        case Ok(si) =>
          && err == None
          && devId == si.deviceId && alias == si.alias && firmware == Firmware(si.swVer)
    }

    /** `info` (tphk.go:48-62): query the system information; on any error
        leave the record as it was, otherwise set the identifier, the alias
        and the firmware token together. The address never changes. */
    method Info(net: Exchange, unmarshal: Unmarshal) returns (wire: seq<byte>, err: Option<Error>)
      modifies this
      ensures wire == if net.DialFails? then [] else Encrypted(AsciiBytes(InfoQuery))
      ensures !net.DialFails? ==> Decrypted(wire) == AsciiBytes(InfoQuery)
      ensures Informed(net, unmarshal, err)
    {
      CommandsAreAscii();
      var buf;
      wire, buf := Do(AsciiBytes(InfoQuery), net);
      if buf.Err? {
        return wire, Some(buf.error);
      }
      var si := unmarshal(buf.value);
      if si.None? {
        return wire, Some(JsonError);
      }
      devId := si.value.deviceId;
      alias := si.value.alias;
      firmware := Firmware(si.value.swVer);
      err := None;
    }

    /** `Init` (tphk.go:35-37) is `info`. */
    method Init(net: Exchange, unmarshal: Unmarshal) returns (wire: seq<byte>, err: Option<Error>)
      modifies this
      ensures wire == if net.DialFails? then [] else Encrypted(AsciiBytes(InfoQuery))
      ensures !net.DialFails? ==> Decrypted(wire) == AsciiBytes(InfoQuery)
      ensures Informed(net, unmarshal, err)
    {
      wire, err := Info(net, unmarshal);
    }

    /** `On` (tphk.go:81-86): send the relay-on command. The reply is not
        read for content; a transport error is only logged, returned here as
        `logged`, and the device record is untouched. */
    method On(net: Exchange) returns (wire: seq<byte>, logged: Option<Error>)
      ensures wire == if net.DialFails? then [] else Encrypted(AsciiBytes(OnCommand))
      ensures !net.DialFails? ==> Decrypted(wire) == AsciiBytes(OnCommand)
      ensures net.DialFails? ==> logged == Some(DialError)
      ensures net.WriteFails? ==> logged == Some(WriteError)
      ensures net.ReadFails? ==> logged == Some(ReadError)
      ensures net.Replies? ==> logged == None
    {
      CommandsAreAscii();
      var res;
      wire, res := Do(AsciiBytes(OnCommand), net);
      logged := if res.Err? then Some(res.error) else None;
    }

    /** `Off` (tphk.go:88-93): as On, with the relay-off command. */
    method Off(net: Exchange) returns (wire: seq<byte>, logged: Option<Error>)
      ensures wire == if net.DialFails? then [] else Encrypted(AsciiBytes(OffCommand))
      ensures !net.DialFails? ==> Decrypted(wire) == AsciiBytes(OffCommand)
      ensures net.DialFails? ==> logged == Some(DialError)
      ensures net.WriteFails? ==> logged == Some(WriteError)
      ensures net.ReadFails? ==> logged == Some(ReadError)
      ensures net.Replies? ==> logged == None
    {
      CommandsAreAscii();
      var res;
      wire, res := Do(AsciiBytes(OffCommand), net);
      logged := if res.Err? then Some(res.error) else None;
    }
  }
}
