/**
  The command channel between the application and the bootloader: 32 words of RTC memory, the last one a CRC of
  the others. The application (`core_esp8266_eboot_command.cpp`) and the bootloader (`eboot_command.c`) hold the
  same three routines.
*/
module EbootCommand {
  import opened Bytes
  import opened Crc

  const WORDS := 32
  const MAGIC: word := 0xeb00_1000
  const ACTION_COPY_RAW: word := 1
  const ACTION_LOAD_APP: word := 0xffff_ffff

  /** What the bootloader acts on; the magic and the CRC are the channel's own. */
  datatype Command = Command(action: word, args: seq<word>)

  predicate WellFormed(cmd: Command) {
    |cmd.args| == WORDS - 3
  }

  /** The bytes of a run of words, as the byte-wise CRC reads them. */
  function Flat(ws: seq<word>): (s: seq<byte>)
    ensures |s| == 4 * |ws|
  {
    if ws == [] then [] else WordBytes(ws[0]) + Flat(ws[1..])
  }

  function Encode(cmd: Command): (ws: seq<word>)
    requires WellFormed(cmd)
    ensures |ws| == WORDS
  {
    var body := [MAGIC, cmd.action] + cmd.args;
    body + [Crc32(INITIAL, Flat(body))]
  }

  /** The test made by `eboot_command_read`; the magic is compared under the mask 0xfffff000. */
  predicate Accepts(ws: seq<word>)
    requires |ws| == WORDS
  {
    ws[0] - ws[0] % 0x1000 == MAGIC && ws[WORDS - 1] == Crc32(INITIAL, Flat(ws[..WORDS - 1]))
  }

  function Decode(ws: seq<word>): (cmd: Command)
    requires |ws| == WORDS
    ensures WellFormed(cmd)
  {
    Command(ws[1], ws[2..WORDS - 1])
  }

  lemma WrittenCommandIsReadBack(cmd: Command)
    requires WellFormed(cmd)
    ensures Accepts(Encode(cmd)) && Decode(Encode(cmd)) == cmd
  {
    hide Crc32;
    hide Flat;
    var body := [MAGIC, cmd.action] + cmd.args;
    assert Encode(cmd)[..WORDS - 1] == body;
    assert body[2..] == cmd.args;
  }

  /**
    The words of a command: the magic, the action, the arguments, and a CRC of all these. What is read as a command is
    what was written as one, but for the low twelve bits of the magic.
  */
  lemma WordsOfACommand(cmd: Command, ws: seq<word>)
    requires WellFormed(cmd) && |ws| == WORDS
    ensures Encode(cmd)[0] == 0xeb00_1000 && Encode(cmd)[1] == cmd.action && Encode(cmd)[2..31] == cmd.args
    ensures Encode(cmd)[31] == Crc32(0xffff_ffff, Flat(Encode(cmd)[..31]))
    ensures ws[0] == 0xeb00_1000 ==> (Accepts(ws) <==> ws == Encode(Decode(ws)))
    ensures Accepts(ws) <==> 0xeb00_1000 <= ws[0] < 0xeb00_2000 && ws[31] == Crc32(0xffff_ffff, Flat(ws[..31]))
  {
    hide Crc32;
    hide Flat;
    assert Encode(cmd)[..31] == [MAGIC, cmd.action] + cmd.args;
    assert ws[0] == MAGIC ==> ws[..31] == [MAGIC, ws[1]] + ws[2..31];
  }

  lemma {:induction false} FlatOfUpdate(ws: seq<word>, i: nat, v: word)
    requires i < |ws| && ws[i] != v
    ensures Flat(ws) != Flat(ws[i := v])
    ensures forall k :: 0 <= k < 4 * |ws| && !(4 * i <= k < 4 * i + 4) ==> Flat(ws)[k] == Flat(ws[i := v])[k]
  {
    if i == 0 {
      WordBytesInverse(ws[0]);
      WordBytesInverse(v);
      assert Flat(ws)[..4] == WordBytes(ws[0]) && Flat(ws[0 := v])[..4] == WordBytes(v);
    } else {
      FlatOfUpdate(ws[1..], i - 1, v);
      assert ws[i := v][1..] == ws[1..][i - 1 := v];
      assert Flat(ws)[4..] == Flat(ws[1..]) && Flat(ws[i := v])[4..] == Flat(ws[1..][i - 1 := v]);
      assert forall k :: 4 <= k < 4 * |ws| ==>
               Flat(ws)[k] == Flat(ws[1..])[k - 4] && Flat(ws[i := v])[k] == Flat(ws[1..][i - 1 := v])[k - 4];
    }
  }

  /** Whatever single word of an accepted command changes, and to whatever value, the command is rejected. */
  lemma OneBadWordIsRejected(ws: seq<word>, i: nat, v: word)
    requires |ws| == WORDS && Accepts(ws)
    requires i < WORDS && v != ws[i]
    ensures !Accepts(ws[i := v])
  {
    if i < WORDS - 1 {
      var body := ws[..WORDS - 1];
      assert ws[i := v][..WORDS - 1] == body[i := v];
      FlatOfUpdate(body, i, v);
      BurstDetected(INITIAL, Flat(body), Flat(body[i := v]), 4 * i);
    } else {
      assert ws[i := v][..WORDS - 1] == ws[..WORDS - 1];
    }
  }

  // ----- the routines over the memory-mapped words

  method Read(rtc: array<word>) returns (ok: bool, cmd: Command)
    requires rtc.Length >= WORDS
    ensures WellFormed(cmd)
    ensures ok == Accepts(rtc[..WORDS])
    ensures cmd == Decode(rtc[..WORDS])
  {
    hide Crc32;
    hide Flat;
    var dst: seq<word> := [];
    var i := 0;
    while i < WORDS
      invariant 0 <= i <= WORDS && dst == rtc[..i]
    {
      dst := dst + [rtc[i]];
      i := i + 1;
    }
    var bytes := Flat(dst[..WORDS - 1]);
    var crc := CrcUpdate(INITIAL, bytes);
    ok := dst[0] - dst[0] % 0x1000 == MAGIC && dst[WORDS - 1] == crc;
    cmd := Decode(dst);
  }

  method Write(rtc: array<word>, cmd: Command)
    requires rtc.Length >= WORDS && WellFormed(cmd)
    modifies rtc
    ensures rtc[..WORDS] == Encode(cmd)
    ensures rtc[WORDS..] == old(rtc[WORDS..])
  {
    var body := [MAGIC, cmd.action] + cmd.args;
    var crc := CrcUpdate(INITIAL, Flat(body));
    var src := body + [crc];
    var i := 0;
    while i < WORDS
      invariant 0 <= i <= WORDS && rtc[..i] == src[..i]
      invariant rtc[WORDS..] == old(rtc[WORDS..])
    {
      rtc[i] := src[i];
      i := i + 1;
    }
  }

  method Clear(rtc: array<word>)
    requires rtc.Length >= WORDS
    modifies rtc
    ensures rtc[..] == old(rtc[..])[0 := 0][WORDS - 1 := 0]
    ensures !Accepts(rtc[..WORDS])
  {
    rtc[0] := 0;
    rtc[WORDS - 1] := 0;
  }
}
