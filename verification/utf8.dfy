/**
 * UTF-8 as RFC 3629 defines it (the syntax of RFC 3629 section 4, the bit
 * layout of RFC 3629 section 3), standing in for Python's strict `bytes.decode("utf-8")`, and the
 * editor's incremental use of it: pending bytes plus one new key code.
 */
module Utf8 {
  import opened Options
  import Keys

  /** One raw input unit. */
  type byte = b: int | 0 <= b < 256

  /** UTF8-tail = %x80-BF */
  predicate IsTail(b: byte) {
    0x80 <= b <= 0xBF
  }

  /** The six payload bits of a tail byte. */
  function Bits(b: byte): (v: int) {
    b as int - 0x80
  }

  /** Length of the UTF8-char a lead byte starts, or 0 when no UTF8-char starts with it. */
  function SequenceLength(b0: byte): (n: nat)
    ensures n <= 4
    ensures n == 0 <==> (0x80 <= b0 < 0xC2 || 0xF5 <= b0)
  {
    if b0 <= 0x7F then 1
    else if 0xC2 <= b0 <= 0xDF then 2
    else if 0xE0 <= b0 <= 0xEF then 3
    else if 0xF0 <= b0 <= 0xF4 then 4
    else 0
  }

  /** The range RFC 3629 section 4 allows for the second byte after a given lead byte. */
  predicate SecondOk(b0: byte, b1: byte) {
    if b0 == 0xE0 then 0xA0 <= b1 <= 0xBF
    else if b0 == 0xED then 0x80 <= b1 <= 0x9F
    else if b0 == 0xF0 then 0x90 <= b1 <= 0xBF
    else if b0 == 0xF4 then 0x80 <= b1 <= 0x8F
    else IsTail(b1)
  }

  /**
   * Decodes the RFC 3629 UTF8-char at the front of `bs`: the character and the number of
   * bytes it takes, or None when the front is not a complete UTF8-char.
   */
  function DecodeChar(bs: seq<byte>): (r: Option<(char, nat)>)
    requires |bs| > 0
    ensures r.Some? ==> 1 <= r.value.1 == SequenceLength(bs[0]) <= |bs|
    ensures r.Some? && r.value.1 == 1 ==> r.value.0 as int == bs[0]
  {
    var n := SequenceLength(bs[0]);
    if n == 0 || |bs| < n then None
    else if n == 1 then Some((bs[0] as char, 1))
    else if !SecondOk(bs[0], bs[1]) || (n >= 3 && !IsTail(bs[2])) || (n == 4 && !IsTail(bs[3])) then None
    else if n == 2 then
      Some((((bs[0] as int - 0xC0) * 0x40 + Bits(bs[1])) as char, 2))
    else if n == 3 then
      Some((((bs[0] as int - 0xE0) * 0x1000 + Bits(bs[1]) * 0x40 + Bits(bs[2])) as char, 3))
    else
      Some((((bs[0] as int - 0xF0) * 0x4_0000 + Bits(bs[1]) * 0x1000 + Bits(bs[2]) * 0x40 + Bits(bs[3])) as char, 4))
  }

  /**
   * UTF8-octets = *( UTF8-char ): the text `bs` encodes, or None when `bs` is
   * not well-formed UTF-8 (an invalid byte or a character cut short alike).
   */
  function Decode(bs: seq<byte>): (r: Option<string>)
    ensures r.Some? ==> |r.value| <= |bs|
    ensures r.Some? ==> (r.value == [] <==> bs == [])
    decreases |bs|
  {
    if bs == [] then Some([])
    else
      match DecodeChar(bs)
      case None => None
      case Some((c, n)) =>
        match Decode(bs[n..])
        case None => None
        case Some(rest) => Some([c] + rest)
  }

  /** The UTF-8 encoding of one character (RFC 3629 section 3). */
  function EncodeChar(c: char): (r: seq<byte>)
    ensures 1 <= |r| <= 4
    ensures |r| == 1 <==> c as int < 0x80
    ensures |r| == 3 <==> 0x800 <= c as int < 0x1_0000
  {
    // RFC 3629 section 3: the scalar value's bits, six at a time from the low end, fill the tail bytes
    var n := c as int;
    var q := n / 0x40;
    var q2 := q / 0x40;
    if n < 0x80 then [n]
    else if n < 0x800 then [0xC0 + q, 0x80 + n % 0x40]
    else if n < 0x1_0000 then [0xE0 + q2, 0x80 + q % 0x40, 0x80 + n % 0x40]
    else [0xF0 + q2 / 0x40, 0x80 + q2 % 0x40, 0x80 + q % 0x40, 0x80 + n % 0x40]
  }

  /** The UTF-8 encoding of a text. */
  function Encode(s: string): (r: seq<byte>)
    ensures |s| <= |r| <= 4 * |s|
  {
    if s == [] then [] else EncodeChar(s[0]) + Encode(s[1..])
  }

  /** Division by 64 undoes a six-bit shift. */
  lemma Shift6(x: int, q: int, r: int)
    requires 0 <= r < 0x40 && x == q * 0x40 + r
    ensures x / 0x40 == q && x % 0x40 == r
  {
  }

  lemma DecodeTwoByteChar(c: char, rest: seq<byte>)
    requires 0x80 <= c as int < 0x800
    ensures DecodeChar(EncodeChar(c) + rest) == Some((c, 2))
  {
    var n := c as int;
    var bs := EncodeChar(c) + rest;
    var q := n / 0x40;
    assert n == q * 0x40 + n % 0x40;
    assert bs[0] == 0xC0 + q && bs[1] == 0x80 + n % 0x40;
    assert SequenceLength(bs[0]) == 2 && SecondOk(bs[0], bs[1]);
  }

  lemma DecodeThreeByteChar(c: char, rest: seq<byte>)
    requires 0x800 <= c as int < 0x1_0000
    ensures DecodeChar(EncodeChar(c) + rest) == Some((c, 3))
  {
    var n := c as int;
    var bs := EncodeChar(c) + rest;
    var q := n / 0x40;
    var q2 := q / 0x40;
    assert q == q2 * 0x40 + q % 0x40;
    assert bs[0] == 0xE0 + q2 && bs[1] == 0x80 + q % 0x40 && bs[2] == 0x80 + n % 0x40;
    assert n == q2 * 0x1000 + (q % 0x40) * 0x40 + n % 0x40;
    assert SequenceLength(bs[0]) == 3 && SecondOk(bs[0], bs[1]) && IsTail(bs[2]);
  }

  lemma DecodeFourByteChar(c: char, rest: seq<byte>)
    requires 0x1_0000 <= c as int
    ensures DecodeChar(EncodeChar(c) + rest) == Some((c, 4))
  {
    var n := c as int;
    var bs := EncodeChar(c) + rest;
    var q := n / 0x40;
    var q2 := q / 0x40;
    assert q == q2 * 0x40 + q % 0x40;
    assert q2 == q2 / 0x40 * 0x40 + q2 % 0x40;
    assert bs[0] == 0xF0 + q2 / 0x40 && bs[1] == 0x80 + q2 % 0x40;
    assert bs[2] == 0x80 + q % 0x40 && bs[3] == 0x80 + n % 0x40;
    assert n == q2 / 0x40 * 0x4_0000 + (q2 % 0x40) * 0x1000 + (q % 0x40) * 0x40 + n % 0x40;
    assert SequenceLength(bs[0]) == 4 && SecondOk(bs[0], bs[1]) && IsTail(bs[2]) && IsTail(bs[3]);
  }

  /** Decoding the front of an encoded character gives that character back, whatever follows it. */
  lemma DecodeCharOfEncodeChar(c: char, rest: seq<byte>)
    ensures DecodeChar(EncodeChar(c) + rest) == Some((c, |EncodeChar(c)|))
  {
    var n := c as int;
    if n < 0x80 {
    } else if n < 0x800 {
      DecodeTwoByteChar(c, rest);
    } else if n < 0x1_0000 {
      DecodeThreeByteChar(c, rest);
    } else {
      DecodeFourByteChar(c, rest);
    }
  }

  /** A UTF8-char is the encoding of the character it decodes to: there is one spelling per character. */
  lemma EncodeCharOfDecodeChar(bs: seq<byte>)
    requires |bs| > 0 && DecodeChar(bs).Some?
    ensures EncodeChar(DecodeChar(bs).value.0) == bs[..DecodeChar(bs).value.1]
  {
    var (c, n) := DecodeChar(bs).value;
    var x := c as int;
    if n == 2 {
      Shift6(x, bs[0] as int - 0xC0, Bits(bs[1]));
    } else if n == 3 {
      var hi := bs[0] as int - 0xE0;
      Shift6(x, hi * 0x40 + Bits(bs[1]), Bits(bs[2]));
      Shift6(x / 0x40, hi, Bits(bs[1]));
    } else if n == 4 {
      var hi := bs[0] as int - 0xF0;
      Shift6(x, (hi * 0x40 + Bits(bs[1])) * 0x40 + Bits(bs[2]), Bits(bs[3]));
      Shift6(x / 0x40, hi * 0x40 + Bits(bs[1]), Bits(bs[2]));
      Shift6(x / 0x40 / 0x40, hi, Bits(bs[1]));
    }
  }

  /** Round trip: every text decodes back from its encoding. */
  lemma {:induction false} DecodeEncode(s: string)
    ensures Decode(Encode(s)) == Some(s)
  {
    if s != [] {
      var e := EncodeChar(s[0]);
      DecodeCharOfEncodeChar(s[0], Encode(s[1..]));
      assert (e + Encode(s[1..]))[|e|..] == Encode(s[1..]);
      DecodeEncode(s[1..]);
      assert [s[0]] + s[1..] == s;
    }
  }

  /** A non-empty well-formed run is its first character followed by the decoding of the rest. */
  lemma DecodeFront(bs: seq<byte>)
    requires bs != [] && Decode(bs).Some?
    ensures DecodeChar(bs).Some? && Decode(bs[DecodeChar(bs).value.1..]).Some?
    ensures Decode(bs).value == [DecodeChar(bs).value.0] + Decode(bs[DecodeChar(bs).value.1..]).value
  {
  }

  /** An encoded first character followed by an encoded rest spells the whole run. */
  lemma EncodeJoin(bs: seq<byte>, n: nat, c: char, rest: string)
    requires n <= |bs| && EncodeChar(c) == bs[..n] && Encode(rest) == bs[n..]
    ensures Encode([c] + rest) == bs
  {
    assert ([c] + rest)[0] == c && ([c] + rest)[1..] == rest;
    assert bs[..n] + bs[n..] == bs;
  }

  /** The other direction: well-formed bytes are exactly the encoding of what they decode to. */
  lemma {:induction false} EncodeDecode(bs: seq<byte>)
    requires Decode(bs).Some?
    ensures Encode(Decode(bs).value) == bs
    decreases |bs|
  {
    if bs != [] {
      DecodeFront(bs);
      var n := DecodeChar(bs).value.1;
      EncodeCharOfDecodeChar(bs);
      EncodeDecode(bs[n..]);
      EncodeJoin(bs, n, DecodeChar(bs).value.0, Decode(bs[n..]).value);
    }
  }

  /** A multi-byte character cut short does not decode: its first bytes alone are an error. */
  lemma TruncatedCharFails(c: char, k: nat)
    requires 0 < k < |EncodeChar(c)|
    ensures Decode(EncodeChar(c)[..k]) == None
  {
    var bs := EncodeChar(c)[..k];
    assert bs[0] == EncodeChar(c)[0];
    assert SequenceLength(bs[0]) == |EncodeChar(c)|;
  }

  /**
   * A byte run that is already long enough for its lead byte and still fails can
   * never become valid: no bytes appended to it make it decode.
   */
  lemma InvalidRunIsFinal(bs: seq<byte>, more: seq<byte>)
    requires |bs| > 0 && DecodeChar(bs).None? && |bs| >= SequenceLength(bs[0])
    ensures Decode(bs + more) == None
  {
    var n := SequenceLength(bs[0]);
    var all := bs + more;
    assert all[0] == bs[0];
    if n >= 2 {
      assert all[1] == bs[1];
    }
    if n >= 3 {
      assert all[2] == bs[2];
    }
    if n == 4 {
      assert all[3] == bs[3];
    }
    assert DecodeChar(all).None?;
  }

  /**
   * The decoding step of handle_insert: the pending bytes after the key code
   * `ch`, and the text it completes, if any. A code below 256 other than ESC is
   * appended and the whole run decoded; on success the run is consumed, on
   * failure it is kept with the new byte at its end. ESC or a special key
   * (256 or more) abandons the run. Negative codes are outside this model:
   * Python's bytes() rejects them with a ValueError.
   */
  function Feed(pending: seq<byte>, ch: int): (r: (seq<byte>, Option<string>))
    requires ch >= 0
    ensures r.1 == (if ch < 256 && ch != Keys.Escape then Decode(pending + [ch]) else None)
    ensures r.1.Some? ==> r.0 == [] && r.1.value != [] && Encode(r.1.value) == pending + [ch]
    ensures r.1.None? && 0 <= ch < 256 && ch != Keys.Escape ==> r.0 == pending + [ch]
    ensures ch >= 256 || ch == Keys.Escape ==> r == ([], None)
  {
    if ch < 256 && ch != Keys.Escape then
      match Decode(pending + [ch])
      case Some(s) => EncodeDecode(pending + [ch]); ([], Some(s))
      case None => (pending + [ch], None)
    else ([], None)
  }

  /** An ASCII byte other than ESC, with nothing pending, decodes at once. */
  lemma FeedAscii(ch: int)
    requires 0 <= ch < 0x80 && ch != Keys.Escape
    ensures Feed([], ch) == ([], Some([ch as char]))
  {
    assert DecodeChar([ch]) == Some((ch as char, 1));
    assert [ch][1..] == [];
    assert [ch as char] + [] == [ch as char];
    assert Decode([ch]) == Some([ch as char]);
    assert [] + [ch] == [ch];
  }

  /**
   * A three-byte character fed one byte at a time: the first two bytes yield
   * nothing and stay pending; the third yields exactly that character and
   * empties the pending run.
   */
  lemma FeedThreeBytes(c: char)
    requires 0x800 <= c as int < 0x1_0000
    ensures var e := EncodeChar(c);
      && Feed([], e[0]) == ([e[0]], None)
      && Feed([e[0]], e[1]) == ([e[0], e[1]], None)
      && Feed([e[0], e[1]], e[2]) == ([], Some([c]))
  {
    var e := EncodeChar(c);
    assert e[0] >= 0xE0 && e[1] >= 0x80 && e[2] >= 0x80;
    TruncatedCharFails(c, 1);
    var none: seq<byte> := [];
    assert e[..1] == none + [e[0]] == [e[0]];
    assert Decode(none + [e[0]]) == None;
    assert Feed(none, e[0]) == ([e[0]], None);
    TruncatedCharFails(c, 2);
    assert e[..2] == [e[0]] + [e[1]];
    DecodeEncode([c]);
    assert Encode([c]) == e;
    assert [e[0], e[1]] + [e[2]] == e;
  }

  /** A pending run that can never complete keeps swallowing bytes: C3 then 'A' stays pending forever. */
  lemma FeedKeepsDeadRun(more: seq<byte>)
    ensures Feed([0xC3], 0x41) == ([0xC3, 0x41], None)
    ensures Decode([0xC3, 0x41] + more) == None
  {
    assert DecodeChar([0xC3, 0x41]).None?;
    assert [0xC3] + [0x41] == [0xC3, 0x41];
    InvalidRunIsFinal([0xC3, 0x41], more);
  }
}
