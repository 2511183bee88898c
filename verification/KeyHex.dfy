/** Key identifiers as hexadecimal text, the key form of the counter-state file. Text is
    its UTF-8 octets, since the source works on `as_bytes`. */
module KeyHex {
  import opened Bytes

  const KEY_ID_LEN := 8

  type KeyId = k: seq<byte> | |k| == KEY_ID_LEN witness [0, 0, 0, 0, 0, 0, 0, 0]

  function HexDigit(v: nat): (c: byte)
    requires v < 16
  {
    if v < 10 then '0' as int + v else 'a' as int + v - 10
  }

  function HexValue(c: byte): (v: Option<nat>)
    ensures v.Some? ==> v.value < 16
  {
    if '0' as int <= c <= '9' as int then Some(c - '0' as int)
    else if 'a' as int <= c <= 'f' as int then Some(c - 'a' as int + 10)
    else if 'A' as int <= c <= 'F' as int then Some(c - 'A' as int + 10)
    else None
  }

  function PairOf(b: byte): (pair: seq<byte>)
    ensures |pair| == 2
  {
    [HexDigit(b / 16), HexDigit(b % 16)]
  }

  function KeyIdHex(key: seq<byte>): (hex: seq<byte>)
    ensures |hex| == 2 * |key|
  {
    if key == [] then []
    else KeyIdHex(key[..|key| - 1]) + PairOf(key[|key| - 1])
  }

  /** `u8::from_str_radix(_, 16)` on two octets. A leading plus sign is accepted. */
  function ParsePair(a: byte, b: byte): (v: Option<byte>) {
    if a == '+' as int then HexValue(b)
    else
      match (HexValue(a), HexValue(b))
      case (Some(hi), Some(lo)) => Some(hi * 16 + lo)
      case _ => None
  }

  function ParsePairs(hex: seq<byte>): (key: Option<seq<byte>>)
    requires |hex| % 2 == 0
    ensures key.Some? ==> 2 * |key.value| == |hex|
  {
    if hex == [] then Some([])
    else
      match (ParsePairs(hex[..|hex| - 2]), ParsePair(hex[|hex| - 2], hex[|hex| - 1]))
      case (Some(init), Some(last)) => Some(init + [last])
      case _ => None
  }

  function KeyIdFromHex(hex: seq<byte>): (key: Option<KeyId>) {
    if |hex| != 2 * KEY_ID_LEN then None else ParsePairs(hex)
  }

  /** `key_id_from_hex` as the source runs it: fill a fixed buffer pair by pair, stop at the
      first bad pair. */
  method DecodeKeyId(hex: seq<byte>) returns (key: Option<KeyId>)
    ensures key == KeyIdFromHex(hex)
  {
    if |hex| != 2 * KEY_ID_LEN {
      return None;
    }
    var buffer := new byte[KEY_ID_LEN](_ => 0);
    var index := 0;
    while index < KEY_ID_LEN
      invariant 0 <= index <= KEY_ID_LEN
      invariant ParsePairs(hex[..2 * index]) == Some(buffer[..index])
    {
      ghost var done := buffer[..index];
      assert hex[..2 * index + 2][..2 * index] == hex[..2 * index];
      var value := ParsePair(hex[2 * index], hex[2 * index + 1]);
      if value == None {
        BadPrefix(hex, index + 1);
        return None;
      }
      buffer[index] := value.value;
      assert buffer[..index + 1] == done + [value.value];
      index := index + 1;
    }
    assert hex[..16] == hex && buffer[..8] == buffer[..];
    return Some(buffer[..]);
  }

  /** A bad pair anywhere spoils the whole text. */
  lemma {:induction false} BadPrefix(hex: seq<byte>, n: nat)
    requires |hex| % 2 == 0 && 2 * n <= |hex|
    requires ParsePairs(hex[..2 * n]) == None
    ensures ParsePairs(hex) == None
    decreases |hex|
  {
    if 2 * n == |hex| {
      assert hex[..2 * n] == hex;
    } else {
      assert hex[..|hex| - 2][..2 * n] == hex[..2 * n];
      BadPrefix(hex[..|hex| - 2], n);
    }
  }

  lemma PairRoundTrip(b: byte)
    ensures ParsePair(HexDigit(b / 16), HexDigit(b % 16)) == Some(b)
  {
  }

  /** One more pair at the end. */
  lemma {:induction false} ParseLast(hex: seq<byte>, hi: byte, lo: byte, key: seq<byte>, b: byte)
    requires |hex| % 2 == 0 && ParsePairs(hex) == Some(key) && ParsePair(hi, lo) == Some(b)
    ensures ParsePairs(hex + [hi, lo]) == Some(key + [b])
  {
    var all := hex + [hi, lo];
    assert all[..|all| - 2] == hex && all[|all| - 2] == hi && all[|all| - 1] == lo;
  }

  lemma {:induction false} PairWritten(hex: seq<byte>, key: seq<byte>, b: byte)
    requires |hex| % 2 == 0 && ParsePairs(hex) == Some(key)
    ensures ParsePairs(hex + PairOf(b)) == Some(key + [b])
  {
    PairRoundTrip(b);
    ParseLast(hex, HexDigit(b / 16), HexDigit(b % 16), key, b);
  }

  lemma {:induction false} HexLast(key: seq<byte>, b: byte)
    ensures KeyIdHex(key + [b]) == KeyIdHex(key) + PairOf(b)
  {
    assert (key + [b])[..|key|] == key;
  }

  lemma {:induction false} ParseUndoesHex(key: seq<byte>, hex: seq<byte>)
    requires hex == KeyIdHex(key)
    ensures |hex| % 2 == 0 && ParsePairs(hex) == Some(key)
    decreases key
  {
    if key != [] {
      var init, last := key[..|key| - 1], key[|key| - 1];
      assert key == init + [last];
      ParseUndoesHex(init, KeyIdHex(init));
      PairWritten(KeyIdHex(init), init, last);
      HexLast(init, last);
    }
  }

  /** Decoding what was encoded gives the key back, so distinct keys have distinct texts. */
  lemma HexRoundTrip(key: KeyId)
    ensures KeyIdFromHex(KeyIdHex(key)) == Some(key)
  {
    ParseUndoesHex(key, KeyIdHex(key));
  }

  predicate LowerHex(c: byte) {
    '0' as int <= c <= '9' as int || 'a' as int <= c <= 'f' as int
  }

  lemma {:induction false} HexIsLower(key: seq<byte>)
    ensures forall i :: 0 <= i < |KeyIdHex(key)| ==> LowerHex(KeyIdHex(key)[i])
  {
    if key != [] {
      HexIsLower(key[..|key| - 1]);
    }
  }

  lemma PairCanonical(hi: byte, lo: byte) returns (b: byte)
    requires LowerHex(hi) && LowerHex(lo)
    ensures ParsePair(hi, lo) == Some(b) && PairOf(b) == [hi, lo]
  {
    b := ParsePair(hi, lo).value;
  }

  lemma {:induction false} HexUndoesLowerParse(hex: seq<byte>) returns (key: seq<byte>)
    requires |hex| % 2 == 0 && forall i :: 0 <= i < |hex| ==> LowerHex(hex[i])
    ensures ParsePairs(hex) == Some(key) && KeyIdHex(key) == hex
  {
    if hex == [] {
      key := [];
    } else {
      var init, hi, lo := hex[..|hex| - 2], hex[|hex| - 2], hex[|hex| - 1];
      var first := HexUndoesLowerParse(init);
      var b := PairCanonical(hi, lo);
      PairReadBack(init, hi, lo, first, b);
      assert hex == init + [hi, lo];
      key := first + [b];
    }
  }

  lemma {:induction false} PairReadBack(hex: seq<byte>, hi: byte, lo: byte, key: seq<byte>, b: byte)
    requires |hex| % 2 == 0 && ParsePairs(hex) == Some(key) && KeyIdHex(key) == hex
    requires ParsePair(hi, lo) == Some(b) && PairOf(b) == [hi, lo]
    ensures ParsePairs(hex + [hi, lo]) == Some(key + [b]) && KeyIdHex(key + [b]) == hex + [hi, lo]
  {
    ParseLast(hex, hi, lo, key, b);
    HexLast(key, b);
  }

  /** Re-encoding an accepted text gives it back exactly when it is all lower-case hex;
      upper case and plus signs are accepted too and do not come back. */
  lemma CanonicalHex(hex: seq<byte>)
    requires KeyIdFromHex(hex).Some?
    ensures KeyIdHex(KeyIdFromHex(hex).value) == hex
            <==> forall i :: 0 <= i < |hex| ==> LowerHex(hex[i])
  {
    var key := KeyIdFromHex(hex).value;
    HexIsLower(key);
    if forall i :: 0 <= i < |hex| ==> LowerHex(hex[i]) {
      var parsed := HexUndoesLowerParse(hex);
    }
  }

  // ---- which texts are keys -----------------------------------------------------------------

  /** Capitals are lowered, and a plus sign at the start of a pair is a zero. */
  function TidyByte(c: byte, leads: bool): (d: byte) {
    if 'A' as int <= c <= 'F' as int then c + 32 else if leads && c == '+' as int then '0' as int else c
  }

  function Tidied(hex: seq<byte>): (t: seq<byte>)
    ensures |t| == |hex| && forall i :: 0 <= i < |hex| ==> t[i] == TidyByte(hex[i], i % 2 == 0)
  {
    seq(|hex|, i requires 0 <= i < |hex| => TidyByte(hex[i], i % 2 == 0))
  }

  lemma TidiedPair(a: byte, b: byte)
    ensures var lowA, lowB := TidyByte(a, true), TidyByte(b, false);
            && ParsePair(a, b) == ParsePair(lowA, lowB)
            && (ParsePair(a, b).Some? <==> LowerHex(lowA) && LowerHex(lowB))
  {
  }

  ghost predicate AllLowerHex(hex: seq<byte>) {
    forall i :: 0 <= i < |hex| ==> LowerHex(hex[i])
  }

  function Joined(init: Option<seq<byte>>, last: Option<byte>): (key: Option<seq<byte>>) {
    if init.Some? && last.Some? then Some(init.value + [last.value]) else None
  }

  lemma ParseSplit(hex: seq<byte>, hi: byte, lo: byte)
    requires |hex| % 2 == 0
    ensures ParsePairs(hex + [hi, lo]) == Joined(ParsePairs(hex), ParsePair(hi, lo))
  {
    var all := hex + [hi, lo];
    assert all[..|all| - 2] == hex && all[|all| - 2] == hi && all[|all| - 1] == lo;
  }

  lemma TidiedSplit(hex: seq<byte>, hi: byte, lo: byte)
    requires |hex| % 2 == 0
    ensures var both := Tidied(hex + [hi, lo]);
            && both == Tidied(hex) + [TidyByte(hi, true), TidyByte(lo, false)]
            && (AllLowerHex(both) <==>
                  AllLowerHex(Tidied(hex)) && LowerHex(TidyByte(hi, true)) && LowerHex(TidyByte(lo, false)))
  {
    var t, both := Tidied(hex), Tidied(hex) + [TidyByte(hi, true), TidyByte(lo, false)];
    assert Tidied(hex + [hi, lo]) == both;
    assert both[|t|] == TidyByte(hi, true) && both[|t| + 1] == TidyByte(lo, false);
    assert forall i :: 0 <= i < |t| ==> both[i] == t[i];
  }

  lemma {:induction false} TidiedParses(hex: seq<byte>)
    requires |hex| % 2 == 0
    ensures ParsePairs(hex) == ParsePairs(Tidied(hex))
    ensures ParsePairs(hex).Some? <==> AllLowerHex(Tidied(hex))
  {
    if hex == [] {
      assert Tidied(hex) == [];
    } else {
      var init, hi, lo := hex[..|hex| - 2], hex[|hex| - 2], hex[|hex| - 1];
      assert hex == init + [hi, lo];
      TidiedParses(init);
      TidiedPair(hi, lo);
      TidiedSplit(init, hi, lo);
      var t := Tidied(hex);
      ParseSplit(init, hi, lo);
      ParseSplit(Tidied(init), t[|t| - 2], t[|t| - 1]);
    }
  }

  /** A text is a key exactly when it has 16 characters that are hexadecimal digits once capitals
      are lowered and plus signs at the start of a pair are read as zeros; and then it is the key
      whose own text that is. */
  lemma KeyTexts(hex: seq<byte>)
    ensures KeyIdFromHex(hex).Some? <==> |hex| == 16 && forall i :: 0 <= i < 16 ==> LowerHex(Tidied(hex)[i])
    ensures KeyIdFromHex(hex).Some? ==> KeyIdHex(KeyIdFromHex(hex).value) == Tidied(hex)
  {
    if |hex| == 16 {
      TidiedParses(hex);
      if KeyIdFromHex(hex).Some? {
        CanonicalHex(Tidied(hex));
      }
    }
  }
}
