/** Option, for a decode that can fail. */
module Wrappers {
  datatype Option<+T> = None | Some(value: T)
}

/** The reply framing of the SGP30: every 16-bit word travels as three bytes,
    its high byte, its low byte and the CRC-8 of those two. */
module Framing {
  import opened Wrappers
  import opened Js
  import opened Crc

  /** The value the driver hands back, in place of the words, when a
      checksum does not match. */
  const SENTINEL: seq<int> := [-1]

  /** `(hi << 8) | lo` for two bytes: the big-endian word they carry. */
  function Word(hi: bv8, lo: bv8): (w: int)
    ensures 0 <= w < 0x1_0000
  {
    hi as int * 256 + lo as int
  }

  /** The third byte of group `i` is the checksum of its first two: taken
      on its own, the group decodes to its word exactly when it is valid. */
  predicate GroupValid(bytes: seq<bv8>, i: nat)
    requires 3 * i + 3 <= |bytes|
    ensures GroupValid(bytes, i) <==>
              DecodeGroups(bytes[3 * i..3 * i + 3]) == Some([Word(bytes[3 * i], bytes[3 * i + 1])])
  {
    var g := bytes[3 * i..3 * i + 3];
    assert g == [bytes[3 * i], bytes[3 * i + 1], bytes[3 * i + 2]];
    assert DecodeGroups(g[..0]) == Some([]);
    assert [] + [Word(g[0], g[1])] == [Word(g[0], g[1])];
    Crc8([bytes[3 * i], bytes[3 * i + 1]]) == bytes[3 * i + 2]
  }

  /** The words of a reply, group by group in order; None as soon as one
      group fails its checksum. */
  function DecodeGroups(bytes: seq<bv8>): (r: Option<seq<int>>)
    requires |bytes| % 3 == 0
    ensures r.Some? ==> forall i :: 0 <= i < |r.value| ==> 0 <= r.value[i] < 0x1_0000
  {
    if bytes == [] then Some([])
    else
      var n := |bytes| - 3;
      match DecodeGroups(bytes[..n])
      case None => None
      case Some(ws) =>
        if Crc8([bytes[n], bytes[n + 1]]) == bytes[n + 2]
        then Some(ws + [Word(bytes[n], bytes[n + 1])])
        else None
  }

  /** What `_i2c_read_words_from_cmd` returns for a non-empty reply: the
      words, or the sentinel. */
  function ReplyWords(bytes: seq<bv8>): (ws: seq<int>)
    requires |bytes| % 3 == 0
    ensures forall i :: 0 <= i < |ws| ==> -1 <= ws[i] < 0x1_0000
  {
    match DecodeGroups(bytes)
    case Some(ws) => ws
    case None => SENTINEL
  }

  /** The three bytes a 16-bit value travels as. */
  function EncodeWord(v: int): seq<bv8>
    requires 0 <= v < 0x1_0000
  {
    var hi, lo := (v / 256) as bv8, (v % 256) as bv8;
    [hi, lo, Crc8([hi, lo])]
  }

  /** A list of 16-bit values, word after word. */
  function EncodeWords(vs: seq<int>): (bytes: seq<bv8>)
    requires forall i :: 0 <= i < |vs| ==> 0 <= vs[i] < 0x1_0000
    ensures |bytes| == 3 * |vs| && |bytes| % 3 == 0
  {
    if vs == [] then [] else EncodeWords(vs[..|vs| - 1]) + EncodeWord(vs[|vs| - 1])
  }

  /** Decoding succeeds exactly when every group carries its checksum. */
  lemma {:induction false} DecodeSucceedsIff(bytes: seq<bv8>)
    requires |bytes| % 3 == 0
    ensures DecodeGroups(bytes).Some? <==>
            forall i :: 0 <= i < |bytes| / 3 ==> GroupValid(bytes, i)
  {
    if bytes != [] {
      var n := |bytes| - 3;
      var prefix := bytes[..n];
      DecodeSucceedsIff(prefix);
      forall i | 0 <= i < n / 3
        ensures GroupValid(prefix, i) == GroupValid(bytes, i)
      {
        assert prefix[3 * i] == bytes[3 * i] && prefix[3 * i + 1] == bytes[3 * i + 1];
      }
      var last := |bytes| / 3 - 1;
      assert n / 3 == last && 3 * last == n;
      assert GroupValid(bytes, last) <==> Crc8([bytes[n], bytes[n + 1]]) == bytes[n + 2];
    }
  }

  /** A successful decode has one word per group, word i being the
      big-endian value of the first two bytes of group i. */
  lemma {:induction false} DecodedWords(bytes: seq<bv8>)
    requires |bytes| % 3 == 0
    requires DecodeGroups(bytes).Some?
    ensures |DecodeGroups(bytes).value| == |bytes| / 3
    ensures forall i :: 0 <= i < |bytes| / 3 ==>
              DecodeGroups(bytes).value[i] == Word(bytes[3 * i], bytes[3 * i + 1])
  {
    if bytes != [] {
      var n := |bytes| - 3;
      var prefix := bytes[..n];
      DecodedWords(prefix);
      var ws := DecodeGroups(prefix).value;
      assert DecodeGroups(bytes).value == ws + [Word(bytes[n], bytes[n + 1])];
      forall i | 0 <= i < |bytes| / 3
        ensures DecodeGroups(bytes).value[i] == Word(bytes[3 * i], bytes[3 * i + 1])
      {
        if i < n / 3 {
          assert prefix[3 * i] == bytes[3 * i] && prefix[3 * i + 1] == bytes[3 * i + 1];
        }
      }
    }
  }

  /** Decoding one more group of a reply, group by group. */
  lemma DecodeExtend(bytes: seq<bv8>, i: nat, ws: seq<int>)
    requires 3 * i + 3 <= |bytes|
    requires DecodeGroups(bytes[..3 * i]) == Some(ws)
    requires Crc8([bytes[3 * i], bytes[3 * i + 1]]) == bytes[3 * i + 2]
    ensures DecodeGroups(bytes[..3 * i + 3]) == Some(ws + [Word(bytes[3 * i], bytes[3 * i + 1])])
  {
    assert bytes[..3 * i + 3][..3 * i] == bytes[..3 * i];
  }

  /** One bad group anywhere rejects the whole reply, whatever the others hold. */
  lemma MismatchRejectsReply(bytes: seq<bv8>, i: nat)
    requires |bytes| % 3 == 0 && 3 * i + 3 <= |bytes|
    requires !GroupValid(bytes, i)
    ensures ReplyWords(bytes) == SENTINEL
  {
    DecodeSucceedsIff(bytes);
  }

  /** The sentinel cannot be mistaken for data: the driver returns it
      exactly when some checksum fails, and every word it returns
      otherwise lies in 0..65535. */
  lemma SentinelOnlyOnFailure(bytes: seq<bv8>)
    requires |bytes| % 3 == 0
    ensures ReplyWords(bytes) == SENTINEL <==> DecodeGroups(bytes).None?
    ensures DecodeGroups(bytes).Some? ==>
              forall i :: 0 <= i < |ReplyWords(bytes)| ==> 0 <= ReplyWords(bytes)[i] < 0x1_0000
  {
    if DecodeGroups(bytes).Some? {
      DecodedWords(bytes);
      if |bytes| / 3 == 1 {
        assert ReplyWords(bytes)[0] != -1;
      }
    }
  }

  /** A one-word reply is that word when its group checks out, and the
      sentinel otherwise. */
  lemma SingleWordReply(bytes: seq<bv8>)
    requires |bytes| == 3
    ensures ReplyWords(bytes) == if GroupValid(bytes, 0) then [Word(bytes[0], bytes[1])] else SENTINEL
  {
    assert bytes[..0] == [];
    assert DecodeGroups(bytes[..0]) == Some([]);
  }

  /** Round trip of one word: its three bytes decode back to it. */
  lemma WordRoundTrip(v: int)
    requires 0 <= v < 0x1_0000
    ensures DecodeGroups(EncodeWord(v)) == Some([v])
  {
    var t := EncodeWord(v);
    EncodedGroup(v);
    assert t[..0] == [];
    assert DecodeGroups(t[..0]) == Some([]);
    assert [] + [Word(t[0], t[1])] == [v];
  }

  /** The triple of a value carries its checksum and the value itself. */
  lemma EncodedGroup(v: int)
    requires 0 <= v < 0x1_0000
    ensures Crc8([EncodeWord(v)[0], EncodeWord(v)[1]]) == EncodeWord(v)[2]
    ensures Word(EncodeWord(v)[0], EncodeWord(v)[1]) == v
  {
    var hi, lo := v / 256, v % 256;
    assert v == 256 * hi + lo && 0 <= hi < 256;
    ByteValue(hi);
    ByteValue(lo);
  }

  /** Decoding one more group extends the words of the groups before it. */
  lemma DecodeAppendGroup(prefix: seq<bv8>, g: seq<bv8>)
    requires |prefix| % 3 == 0 && |g| == 3
    ensures DecodeGroups(prefix).Some? && Crc8([g[0], g[1]]) == g[2] ==>
              DecodeGroups(prefix + g) == Some(DecodeGroups(prefix).value + [Word(g[0], g[1])])
    ensures DecodeGroups(prefix).None? || Crc8([g[0], g[1]]) != g[2] ==>
              DecodeGroups(prefix + g) == None
  {
    var bytes := prefix + g;
    var n := |bytes| - 3;
    assert bytes[..n] == prefix;
    assert bytes[n] == g[0] && bytes[n + 1] == g[1] && bytes[n + 2] == g[2];
  }

  /** Appending the triple of a value to a decodable reply appends the value. */
  lemma AppendEncodedWord(prefix: seq<bv8>, ws: seq<int>, v: int)
    requires |prefix| % 3 == 0 && DecodeGroups(prefix) == Some(ws)
    requires 0 <= v < 0x1_0000
    ensures DecodeGroups(prefix + EncodeWord(v)) == Some(ws + [v])
  {
    DecodeAppendGroup(prefix, EncodeWord(v));
    EncodedGroup(v);
  }

  /** One step of the round trip: if a list of values comes back, so
      does the list with one more value at its end. */
  lemma RoundTripStep(init: seq<int>, v: int)
    requires forall i :: 0 <= i < |init| ==> 0 <= init[i] < 0x1_0000
    requires 0 <= v < 0x1_0000
    requires DecodeGroups(EncodeWords(init)) == Some(init)
    ensures DecodeGroups(EncodeWords(init + [v])) == Some(init + [v])
  {
    var vs := init + [v];
    assert vs[..|vs| - 1] == init;
    AppendEncodedWord(EncodeWords(init), init, v);
  }

  /** Round trip of a whole reply: decoding the encoding of a list of
      16-bit values gives the list back. */
  lemma {:induction false} WordsRoundTrip(vs: seq<int>)
    requires forall i :: 0 <= i < |vs| ==> 0 <= vs[i] < 0x1_0000
    ensures DecodeGroups(EncodeWords(vs)) == Some(vs)
  {
    if vs != [] {
      var init, v := vs[..|vs| - 1], vs[|vs| - 1];
      assert init + [v] == vs;
      WordsRoundTrip(init);
      RoundTripStep(init, v);
    }
  }

  /** Any change confined to one byte of a valid triple, a single flipped
      bit included, makes the triple fail its check. */
  lemma CorruptedTripleRejected(v: int, t: seq<bv8>, k: nat)
    requires 0 <= v < 0x1_0000
    requires |t| == 3 && k < 3
    requires t[k] != EncodeWord(v)[k]
    requires forall j :: 0 <= j < 3 && j != k ==> t[j] == EncodeWord(v)[j]
    ensures DecodeGroups(t) == None
  {
    var e := EncodeWord(v);
    assert t[..0] == [];
    if k < 2 {
      Crc8DetectsByteError(e[0], e[1], t[0], t[1]);
    }
  }
}
