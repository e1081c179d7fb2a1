/** The JSON side of the plug's protocol: the fixed command texts, the
    fields read from a system-information reply, and the firmware token
    taken from the software version. */
module Protocol {

  import opened Bytes

  /** The three strings read from `system.get_sysinfo` in a reply
      (tphk.go:18-26). A key missing from the reply leaves its field empty:
      decoding into a Go struct does not fail on a missing key. */
  datatype SysInfo = SysInfo(swVer: string, deviceId: string, alias: string)

  /** The system-information query (tphk.go:50). */
  const InfoQuery: string := "{\"system\":{\"get_sysinfo\":{}}}"

  /** The relay commands of On and Off (tphk.go:82, 89). */
  const OnCommand: string := "{\"system\":{\"set_relay_state\":{\"state\":1}}}"
  const OffCommand: string := "{\"system\":{\"set_relay_state\":{\"state\":0}}}"

  /** Where the state digit stands in a relay command. */
  const StateDigit: nat := 38

  /** On and Off send the same text except for the state digit. */
  lemma RelayCommandsDifferInState()
    ensures |OnCommand| == |OffCommand| == StateDigit + 4
    ensures OnCommand[StateDigit] == '1' && OffCommand[StateDigit] == '0'
    ensures OnCommand[..StateDigit] == OffCommand[..StateDigit]
    ensures OnCommand[StateDigit + 1..] == OffCommand[StateDigit + 1..] == "}}}"
  {
  }

  /** Go's conversion `[]byte(s)` of a text whose characters are all ASCII:
      one byte per character, holding its code. */
  function AsciiBytes(s: string): (b: seq<byte>)
    requires forall i :: 0 <= i < |s| ==> s[i] as int < 128
    ensures |b| == |s|
    ensures forall i :: 0 <= i < |s| ==> b[i] as int == s[i] as int
  {
    seq(|s|, i requires 0 <= i < |s| => s[i] as int as byte)
  }

  /** strings.Split(s, " "): the fields of `s` between single spaces, in
      order; there is always at least one, possibly empty. */
  function Split(s: string): (fields: seq<string>)
    ensures |fields| >= 1
    ensures forall i :: 0 <= i < |fields| ==> ' ' !in fields[i]
    decreases |s|
  {
    if s == [] then [""]
    else if s[0] == ' ' then [""] + Split(s[1..])
    else
      var rest := Split(s[1..]);
      [[s[0]] + rest[0]] + rest[1..]
  }

  /** strings.Join(fields, " "): the empty slice gives the empty string. */
  function Join(fields: seq<string>): string
  {
    if |fields| == 0 then ""
    else if |fields| == 1 then fields[0]
    else fields[0] + " " + Join(fields[1..])
  }

  /** Splitting loses nothing: joining the fields with spaces gives the
      string back. */
  lemma {:induction false} JoinSplit(s: string)
    ensures Join(Split(s)) == s
    decreases |s|
  {
    if s == [] {
    } else if s[0] == ' ' {
      JoinSplit(s[1..]);
      assert [""] + Split(s[1..]) == Split(s);
      assert s == [' '] + s[1..];
    } else {
      var rest := Split(s[1..]);
      JoinSplit(s[1..]);
      if |rest| == 1 {
        assert s == [s[0]] + s[1..];
      } else {
        assert Split(s)[1..] == rest[1..];
        assert Join(rest) == rest[0] + " " + Join(rest[1..]);
        assert s == [s[0]] + rest[0] + " " + Join(rest[1..]);
      }
    }
  }

  /** The firmware token of a software version (tphk.go:60): the first field
      of strings.Split(swVer, " "), that is, the text before the first space,
      or all of it when there is none. */
  function Firmware(swVer: string): (token: string)
    ensures token <= swVer
    ensures ' ' !in token
    ensures |token| < |swVer| ==> swVer[|token|] == ' '
  {
    var fields := Split(swVer);
    JoinSplit(swVer);
    assert |fields| > 1 ==> swVer == fields[0] + " " + Join(fields[1..]);
    fields[0]
  }

  /** The three properties of Firmware determine it: any prefix without a
      space that is all of the string or stops at a space is the token. */
  lemma FirmwareUnique(swVer: string, token: string)
    requires token <= swVer && ' ' !in token
    requires |token| == |swVer| || swVer[|token|] == ' '
    ensures token == Firmware(swVer)
  {
  }

  /** A version without a space is its own token; the empty version gives
      the empty token. */
  lemma FirmwareWithoutSpace(swVer: string)
    requires ' ' !in swVer
    ensures Firmware(swVer) == swVer
  {
    FirmwareUnique(swVer, swVer);
  }

  /** "1.2.3 Build 200101" gives the token "1.2.3". */
  lemma FirmwareOfBuildString()
    ensures Firmware("1.2.3 Build 200101") == "1.2.3"
  {
    var s := "1.2.3 Build 200101";
    assert s[5] == ' ';
    assert s[..5] == "1.2.3";
    FirmwareUnique(s, "1.2.3");
  }
}
