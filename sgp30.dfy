/** The SGP30 driver: its command table, the transceiver that every sensor
    operation goes through, and the operations that frame a payload or
    interpret a reply. */
module Sgp30 {
  import opened Js
  import opened Crc
  import opened Framing
  import opened I2c
  import opened Wrappers

  const DEFAULT_I2C_ADDR: int := 0x58
  const WORD_LEN: nat := 2
  const MEASURE_TEST_PASS: int := 0xD400

  /** One row of the command table: opcode bytes, reply length in words and
      the time the sensor needs before the reply can be read. */
  datatype Command = Command(hex: seq<int>, words: nat, maxMs: nat)

  const IAQ_INIT := Command([0x20, 0x03], 0, 10)
  const MEASURE_IAQ := Command([0x20, 0x08], 2, 12)
  const GET_IAQ_BASELINE := Command([0x20, 0x15], 2, 10)
  const SET_IAQ_BASELINE := Command([0x20, 0x1E], 0, 10)
  const SET_ABSOLUTE_HUMIDITY := Command([0x20, 0x61], 0, 10)
  const MEASURE_TEST := Command([0x20, 0x32], 1, 220)
  const GET_FEATURE_SET := Command([0x20, 0x2F], 1, 10)
  const MEASURE_RAW := Command([0x20, 0x50], 2, 25)
  const GET_TVOC_INCEPTIVE := Command([0x20, 0xB3], 1, 10)
  const SET_TVOC_BASELINE := Command([0x20, 0x77], 0, 10)
  const GET_SERIAL_ID := Command([0x36, 0x82], 3, 10)

  /** The whole table, in the order the driver declares it. */
  const COMMANDS := [IAQ_INIT, MEASURE_IAQ, GET_IAQ_BASELINE, SET_IAQ_BASELINE,
                     SET_ABSOLUTE_HUMIDITY, MEASURE_TEST, GET_FEATURE_SET, MEASURE_RAW,
                     GET_TVOC_INCEPTIVE, SET_TVOC_BASELINE, GET_SERIAL_ID]

  /** Every opcode is two bytes, no command expects more than three reply
      words, and the commands that only send (initialisation and the
      setters) expect none. */
  lemma CommandTable()
    ensures forall c <- COMMANDS :: |c.hex| == 2 && 0 <= c.hex[0] < 256 && 0 <= c.hex[1] < 256 && c.words <= 3
    ensures IAQ_INIT.words == SET_IAQ_BASELINE.words == SET_ABSOLUTE_HUMIDITY.words
            == SET_TVOC_BASELINE.words == 0
  {
  }

  /** No two commands share an opcode: already their second bytes differ. */
  lemma OpcodesDistinct()
    ensures forall i, j :: 0 <= i < j < |COMMANDS| ==> COMMANDS[i].hex != COMMANDS[j].hex
  {
    var second := [0x03, 0x08, 0x15, 0x1E, 0x61, 0x32, 0x2F, 0x50, 0xB3, 0x77, 0x82];
    assert forall i :: 0 <= i < |COMMANDS| ==> COMMANDS[i].hex[1] == second[i];
    assert forall i, j :: 0 <= i < j < |second| ==> second[i] != second[j];
  }

  /** What the transceiver returns: `null`, or an array of numbers. */
  datatype Reply = Null | Numbers(values: seq<int>)

  /** The numbers `[v >> 8, v & 0xFF, generateCrc([v >> 8, v & 0xFF])]`
      that a setter appends for the value v. */
  function PayloadTriple(v: int): (t: seq<int>)
    ensures |t| == 3 && 0 <= t[1] < 256 && 0 <= t[2] < 256
    ensures 0 <= v < 0x1_0000 ==> t[0] == v / 256 && t[1] == v % 256
  {
    var hi, lo := ShiftRight8(v), LowByte(v);
    [hi, lo, Crc8(ToUint8s([hi, lo])) as int]
  }

  /** The triples of several values, in the order given. */
  function Payload(values: seq<int>): (p: seq<int>)
    ensures |p| == 3 * |values|
    ensures forall i :: 0 <= i < |values| ==> p[3 * i..3 * i + 3] == PayloadTriple(values[i])
  {
    if values == [] then []
    else
      var n := |values| - 1;
      var init := Payload(values[..n]);
      var p := init + PayloadTriple(values[n]);
      assert p[3 * n..3 * n + 3] == PayloadTriple(values[n]);
      assert forall i :: 0 <= i < n ==> p[3 * i..3 * i + 3] == init[3 * i..3 * i + 3];
      assert forall i :: 0 <= i < n ==> values[..n][i] == values[i];
      p
  }

  /** Each value reduced to the 16 bits that reach the wire. */
  function Wrap16(values: seq<int>): (ws: seq<int>)
    ensures |ws| == |values|
    ensures forall i :: 0 <= i < |ws| ==> 0 <= ws[i] < 0x1_0000 && ws[i] == values[i] % 0x1_0000
  {
    seq(|values|, i requires 0 <= i < |values| => values[i] % 0x1_0000)
  }

  lemma ToUint8sAppend(xs: seq<int>, ys: seq<int>)
    ensures ToUint8s(xs + ys) == ToUint8s(xs) + ToUint8s(ys)
  {
  }

  /** Whatever number a setter is given, the triple it sends is the wire
      form of that number's low 16 bits: `v >> 8` and the buffer keep the
      same eight bits, and the checksum is taken over exactly those. */
  lemma PayloadTripleOnWire(v: int)
    ensures ToUint8s(PayloadTriple(v)) == EncodeWord(v % 0x1_0000)
  {
    var w := v % 0x1_0000;
    var hi, lo := ShiftRight8(v), LowByte(v);
    var bytes := [(w / 256) as bv8, (w % 256) as bv8];
    ShiftRight8Byte(v);
    LowByteOfLow16(v);
    assert ToUint8(hi) == bytes[0];
    assert ToUint8(lo) == bytes[1];
    var c := Crc8(bytes);
    ToUint8OfByte(c);
    assert ToUint8s([hi, lo]) == bytes;
    assert ToUint8s(PayloadTriple(v)) == bytes + [c];
  }

  /** The payload of several values, as bytes on the wire, is the encoding
      of their low 16 bits. */
  lemma {:induction false} PayloadOnWire(values: seq<int>)
    ensures ToUint8s(Payload(values)) == EncodeWords(Wrap16(values))
  {
    if values != [] {
      var init := values[..|values| - 1];
      PayloadOnWire(init);
      PayloadTripleOnWire(values[|values| - 1]);
      ToUint8sAppend(Payload(init), PayloadTriple(values[|values| - 1]));
      assert Wrap16(values)[..|values| - 1] == Wrap16(init);
    }
  }

  /** An opcode followed by the payload of some values, as bytes on the
      wire: the opcode's bytes, then the encoding of the values. */
  lemma SetterFrame(opcode: seq<int>, values: seq<int>)
    ensures ToUint8s(opcode + Payload(values)) == ToUint8s(opcode) + EncodeWords(Wrap16(values))
  {
    PayloadOnWire(values);
    ToUint8sAppend(opcode, Payload(values));
  }

  /** The bytes setIaqBaseline writes: its opcode, then the TVOC word,
      then the CO2eq word, each as three bytes, eight bytes in all. */
  lemma BaselineFrame(co2eq: int, tvoc: int)
    ensures ToUint8s(SET_IAQ_BASELINE.hex + Payload([tvoc, co2eq]))
            == [0x20, 0x1E] + EncodeWords([tvoc % 0x1_0000, co2eq % 0x1_0000])
    ensures |ToUint8s(SET_IAQ_BASELINE.hex + Payload([tvoc, co2eq]))| == 8
  {
    var vs := [tvoc, co2eq];
    SetterFrame(SET_IAQ_BASELINE.hex, vs);
    assert ToUint8s(SET_IAQ_BASELINE.hex) == [0x20, 0x1E];
    assert Wrap16(vs) == [tvoc % 0x1_0000, co2eq % 0x1_0000];
  }

  /** The bytes setAbsoluteHumidity writes: its opcode and one word. */
  lemma HumidityFrame(absoluteHumidity: int)
    ensures ToUint8s(SET_ABSOLUTE_HUMIDITY.hex + PayloadTriple(absoluteHumidity))
            == [0x20, 0x61] + EncodeWord(absoluteHumidity % 0x1_0000)
  {
    PayloadTripleOnWire(absoluteHumidity);
    ToUint8sAppend(SET_ABSOLUTE_HUMIDITY.hex, PayloadTriple(absoluteHumidity));
    assert ToUint8s(SET_ABSOLUTE_HUMIDITY.hex) == [0x20, 0x61];
  }

  /** The two characters getSerialId renders a word as:
      `String.fromCharCode(w >> 8) + String.fromCharCode(w & 0xFF)`. */
  function CharPair(w: int): (s: string)
    requires -1 <= w < 0x1_0000
    ensures |s| == 2
    ensures 0 <= w ==> s[0] as int == w / 256 && s[1] as int == w % 256
    ensures w == -1 ==> s == [0xFFFF as char, 0xFF as char]
  {
    [FromCharCode(ShiftRight8(w)), FromCharCode(LowByte(w))]
  }

  /** `serial.map(CharPair).join('')` */
  function RenderSerial(words: seq<int>): (s: string)
    requires forall i :: 0 <= i < |words| ==> -1 <= words[i] < 0x1_0000
    ensures |s| == 2 * |words|
  {
    if words == [] then "" else RenderSerial(words[..|words| - 1]) + CharPair(words[|words| - 1])
  }

  /** Words of 16 bits render as two characters each, the high byte's code
      then the low byte's, in word order. */
  lemma {:induction false} RenderSerialChars(words: seq<int>)
    requires forall i :: 0 <= i < |words| ==> 0 <= words[i] < 0x1_0000
    ensures |RenderSerial(words)| == 2 * |words|
    ensures forall i :: 0 <= i < |words| ==>
              RenderSerial(words)[2 * i] as int == words[i] / 256 &&
              RenderSerial(words)[2 * i + 1] as int == words[i] % 256
  {
    if words != [] {
      var n := |words| - 1;
      RenderSerialChars(words[..n]);
      var w := words[n];
      assert ToInt32(w) == w;
      assert CharPair(w)[0] as int == w / 256;
    }
  }

  /** The serial ID rendered from a three-word reply: when all three groups
      check out, six characters, the bytes of the words in wire order with
      the checksums dropped; otherwise the rendering of the sentinel, the
      two characters U+FFFF and U+00FF. */
  lemma SerialIdOfReply(bytes: seq<bv8>)
    requires |bytes| == 9
    ensures (forall i :: 0 <= i < 3 ==> GroupValid(bytes, i)) ==>
              var s := RenderSerial(ReplyWords(bytes));
              |s| == 6 &&
              forall i :: 0 <= i < 3 ==>
                s[2 * i] as int == bytes[3 * i] as int && s[2 * i + 1] as int == bytes[3 * i + 1] as int
    ensures !(forall i :: 0 <= i < 3 ==> GroupValid(bytes, i)) ==>
              RenderSerial(ReplyWords(bytes)) == [0xFFFF as char, 0xFF as char]
  {
    DecodeSucceedsIff(bytes);
    if DecodeGroups(bytes).Some? {
      DecodedWords(bytes);
      RenderSerialChars(ReplyWords(bytes));
    } else {
      assert RenderSerial(SENTINEL) == RenderSerial([]) + CharPair(-1);
    }
  }

  /** numberArrayToBuffer: a new byte buffer holding each number cut to 8 bits. */
  method NumberArrayToBuffer(arr: seq<int>) returns (buf: array<bv8>)
    ensures fresh(buf)
    ensures buf[..] == ToUint8s(arr)
  {
    buf := new bv8[|arr|];
    for i := 0 to |arr|
      invariant forall k :: 0 <= k < i ==> buf[k] == ToUint8(arr[k])
    {
      buf[i] := ToUint8(arr[i]);
    }
  }

  /** The reply loop of `_i2c_read_words_from_cmd`: check each (hi, lo, crc)
      group in turn, stopping with the sentinel at the first mismatch, and
      collect the big-endian words. */
  method CheckReply(crcResult: array<bv8>, replySize: nat) returns (result: seq<int>)
    requires crcResult.Length == 3 * replySize
    ensures result == ReplyWords(crcResult[..])
  {
    ghost var bytes := crcResult[..];
    result := [];
    for i := 0 to replySize
      invariant DecodeGroups(bytes[..3 * i]) == Some(result)
    {
      var word := [crcResult[3 * i], crcResult[3 * i + 1]];
      var crc := crcResult[3 * i + 2];
      ToUint8OfByte(word[0]);
      ToUint8OfByte(word[1]);
      assert ToUint8s([word[0] as int, word[1] as int]) == word;
      var check := GenerateCrc([word[0] as int, word[1] as int]);
      if check != crc as int {
        assert !GroupValid(bytes, i);
        MismatchRejectsReply(bytes, i);
        return SENTINEL;
      }
      DecodeExtend(bytes, i, result);
      result := result + [Word(word[0], word[1])];
    }
    assert bytes[..3 * replySize] == bytes;
  }

  /** `_i2c_read_words_from_cmd`: write the command, pause, and unless no
      words are expected read `replySize` words of three bytes each,
      returning their values or, on the first checksum mismatch, the
      sentinel. */
  method ReadWordsFromCmd(bus: Bus, command: seq<int>, delay: nat, replySize: nat) returns (r: Reply)
    modifies bus
    ensures replySize == 0 ==>
              bus.log == old(bus.log) + [Write(DEFAULT_I2C_ADDR, ToUint8s(command)), Delay(delay)] &&
              r == Null
    ensures replySize > 0 ==>
              bus.log == old(bus.log) + [Write(DEFAULT_I2C_ADDR, ToUint8s(command)), Delay(delay),
                                         Read(DEFAULT_I2C_ADDR, 3 * replySize)] &&
              r == Numbers(ReplyWords(Fit(bus.reply, 3 * replySize)))
  {
    var buffer := NumberArrayToBuffer(command);
    bus.WriteBuffer(DEFAULT_I2C_ADDR, buffer);
    bus.Pause(delay);
    if replySize == 0 {
      return Null;
    }
    assert replySize * (WORD_LEN + 1) == 3 * replySize;
    var crcResult := bus.ReadBuffer(DEFAULT_I2C_ADDR, replySize * (WORD_LEN + 1));
    var result := CheckReply(crcResult, replySize);
    return Numbers(result);
  }

  /** setIaqBaseline: refuses two zero values without touching the bus;
      otherwise sends the opcode, then the TVOC word, then the CO2eq word,
      each with its checksum, and returns `null`. */
  method SetIaqBaseline(bus: Bus, co2eq: int, tvoc: int) returns (r: Reply)
    modifies bus
    ensures co2eq == 0 && tvoc == 0 ==> r == Numbers(SENTINEL) && bus.log == old(bus.log)
    ensures !(co2eq == 0 && tvoc == 0) ==>
              r == Null &&
              bus.log == old(bus.log) +
                         [Write(DEFAULT_I2C_ADDR, [0x20, 0x1E] + EncodeWords([tvoc % 0x1_0000, co2eq % 0x1_0000])),
                          Delay(10)]
  {
    if co2eq == 0 && tvoc == 0 {
      return Numbers(SENTINEL);
    }
    var buffer: seq<int> := [];
    var values := [tvoc, co2eq];
    for i := 0 to |values|
      modifies {}
      invariant buffer == Payload(values[..i])
    {
      var value := values[i];
      var arr := [ShiftRight8(value), LowByte(value)];
      var c := GenerateCrc(arr);
      arr := arr + [c];
      buffer := buffer + arr;
      assert values[..i + 1][..i] == values[..i];
    }
    assert values[..2] == values;
    BaselineFrame(co2eq, tvoc);
    r := ReadWordsFromCmd(bus, SET_IAQ_BASELINE.hex + buffer, SET_IAQ_BASELINE.maxMs, SET_IAQ_BASELINE.words);
  }

  /** setAbsoluteHumidity: sends the opcode and one humidity word with its
      checksum, and returns `null`. */
  method SetAbsoluteHumidity(bus: Bus, absoluteHumidity: int) returns (r: Reply)
    modifies bus
    ensures r == Null
    ensures bus.log == old(bus.log) +
                       [Write(DEFAULT_I2C_ADDR, [0x20, 0x61] + EncodeWord(absoluteHumidity % 0x1_0000)),
                        Delay(10)]
  {
    var buffer: seq<int> := [];
    var arr := [ShiftRight8(absoluteHumidity), LowByte(absoluteHumidity)];
    var c := GenerateCrc(arr);
    arr := arr + [c];
    buffer := buffer + arr;
    assert buffer == PayloadTriple(absoluteHumidity);
    HumidityFrame(absoluteHumidity);
    r := ReadWordsFromCmd(bus, SET_ABSOLUTE_HUMIDITY.hex + buffer,
                          SET_ABSOLUTE_HUMIDITY.maxMs, SET_ABSOLUTE_HUMIDITY.words);
  }

  /** measureTest: the first reply word, or -1 when its checksum fails. */
  method MeasureTest(bus: Bus) returns (r: int)
    modifies bus
    ensures bus.log == old(bus.log) + [Write(DEFAULT_I2C_ADDR, [0x20, 0x32]), Delay(220), Read(DEFAULT_I2C_ADDR, 3)]
    ensures var b := Fit(bus.reply, 3);
            r == if GroupValid(b, 0) then Word(b[0], b[1]) else -1
  {
    assert ToUint8s(MEASURE_TEST.hex) == [0x20, 0x32];
    var result := ReadWordsFromCmd(bus, MEASURE_TEST.hex, MEASURE_TEST.maxMs, MEASURE_TEST.words);
    ghost var b := Fit(bus.reply, 3);
    assert result == Numbers(ReplyWords(b));
    SingleWordReply(b);
    if GroupValid(b, 0) {
      assert result.values == [Word(b[0], b[1])];
    } else {
      assert result.values == SENTINEL;
    }
    r := result.values[0];
  }

  /** getSerialId: the three-word reply rendered as a string of character
      codes. */
  method GetSerialId(bus: Bus) returns (s: string)
    modifies bus
    ensures bus.log == old(bus.log) + [Write(DEFAULT_I2C_ADDR, [0x36, 0x82]), Delay(10), Read(DEFAULT_I2C_ADDR, 9)]
    ensures var b := Fit(bus.reply, 9);
            (forall i :: 0 <= i < 3 ==> GroupValid(b, i)) ==>
              |s| == 6 &&
              forall i :: 0 <= i < 3 ==>
                s[2 * i] as int == b[3 * i] as int && s[2 * i + 1] as int == b[3 * i + 1] as int
    ensures var b := Fit(bus.reply, 9);
            !(forall i :: 0 <= i < 3 ==> GroupValid(b, i)) ==> s == [0xFFFF as char, 0xFF as char]
  {
    assert ToUint8s(GET_SERIAL_ID.hex) == [0x36, 0x82];
    var serial := ReadWordsFromCmd(bus, GET_SERIAL_ID.hex, GET_SERIAL_ID.maxMs, GET_SERIAL_ID.words);
    s := RenderSerial(serial.values);
    SerialIdOfReply(Fit(bus.reply, 9));
  }
}
