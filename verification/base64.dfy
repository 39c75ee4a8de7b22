/**
 * The base 64 encoding of section 4 of RFC 4648 (standard alphabet, `=`
 * padding), which `Buffer.prototype.toString('base64')` produces, and a strict
 * decoder that is its exact inverse.
 */
module Base64 {
  import opened Util

  predicate IsSymbol(c: char) {
    ('A' <= c <= 'Z') || ('a' <= c <= 'z') || ('0' <= c <= '9') || c == '+' || c == '/'
  }

  /** The character for the 6-bit value `i` (table 1 of RFC 4648). */
  function Symbol(i: nat): (c: char)
    requires i < 64
    ensures IsSymbol(c)
  {
    if i < 26 then ('A' as int + i) as char
    else if i < 52 then ('a' as int + (i - 26)) as char
    else if i < 62 then ('0' as int + (i - 52)) as char
    else if i == 62 then '+'
    else '/'
  }

  /** The 6-bit value of an alphabet character; None for anything else, padding included. */
  function Value(c: char): (r: Option<nat>)
    ensures r.Some? <==> IsSymbol(c)
    ensures r.Some? ==> r.value < 64 && Symbol(r.value) == c
  {
    if 'A' <= c <= 'Z' then Some(c as int - 'A' as int)
    else if 'a' <= c <= 'z' then Some(c as int - 'a' as int + 26)
    else if '0' <= c <= '9' then Some(c as int - '0' as int + 52)
    else if c == '+' then Some(62)
    else if c == '/' then Some(63)
    else None
  }

  lemma ValueOfSymbol(i: nat)
    requires i < 64
    ensures Value(Symbol(i)) == Some(i)
  {
  }

  /** Three bytes become four symbols. */
  function EncodeTriple(a: byte, b: byte, c: byte): string {
    [Symbol(a as int / 4), Symbol((a as int % 4) * 16 + b as int / 16),
     Symbol((b as int % 16) * 4 + c as int / 64), Symbol(c as int % 64)]
  }

  function Encode(data: seq<byte>): (r: string)
    ensures |r| == 4 * ((|data| + 2) / 3)
    ensures forall k :: 0 <= k < |r| ==> IsSymbol(r[k]) || r[k] == '='
  {
    if |data| == 0 then ""
    else if |data| == 1 then
      [Symbol(data[0] as int / 4), Symbol((data[0] as int % 4) * 16), '=', '=']
    else if |data| == 2 then
      [Symbol(data[0] as int / 4), Symbol((data[0] as int % 4) * 16 + data[1] as int / 16),
       Symbol((data[1] as int % 16) * 4), '=']
    else
      EncodeTriple(data[0], data[1], data[2]) + Encode(data[3..])
  }

  /** Decodes one group of four characters; padding is accepted only in the final group. */
  function DecodeQuad(q: string, last: bool): Option<seq<byte>>
    requires |q| == 4
  {
    var v0, v1, v2, v3 := Value(q[0]), Value(q[1]), Value(q[2]), Value(q[3]);
    if v0.None? || v1.None? then None
    else if last && q[2] == '=' && q[3] == '=' then
      if v1.value % 16 == 0 then Some([(v0.value * 4 + v1.value / 16) as byte]) else None
    else if v2.None? then None
    else if last && q[3] == '=' then
      if v2.value % 4 == 0 then
        Some([(v0.value * 4 + v1.value / 16) as byte, ((v1.value % 16) * 16 + v2.value / 4) as byte])
      else None
    else if v3.None? then None
    else
      Some([(v0.value * 4 + v1.value / 16) as byte, ((v1.value % 16) * 16 + v2.value / 4) as byte,
            ((v2.value % 4) * 64 + v3.value) as byte])
  }

  /** The inverse of Encode: None for text Encode never produces. */
  function Decode(text: string): Option<seq<byte>>
  {
    if |text| == 0 then Some([])
    else if |text| < 4 then None
    else
      match DecodeQuad(text[..4], |text| == 4)
      case None => None
      case Some(head) =>
        match Decode(text[4..])
        case None => None
        case Some(tail) => Some(head + tail)
  }

  /** Six-bit regrouping of three bytes and back: the arithmetic core of both round trips. */
  lemma RegroupBytes(x: int, y: int, z: int)
    requires 0 <= x < 256 && 0 <= y < 256 && 0 <= z < 256
    ensures (x / 4) * 4 + ((x % 4) * 16 + y / 16) / 16 == x
    ensures (((x % 4) * 16 + y / 16) % 16) * 16 + ((y % 16) * 4 + z / 64) / 4 == y
    ensures (((y % 16) * 4 + z / 64) % 4) * 64 + z % 64 == z
  {
  }

  lemma RegroupSymbols(v0: int, v1: int, v2: int, v3: int)
    requires 0 <= v0 < 64 && 0 <= v1 < 64 && 0 <= v2 < 64 && 0 <= v3 < 64
    ensures (v0 * 4 + v1 / 16) / 4 == v0
    ensures ((v0 * 4 + v1 / 16) % 4) * 16 + ((v1 % 16) * 16 + v2 / 4) / 16 == v1
    ensures (((v1 % 16) * 16 + v2 / 4) % 16) * 4 + ((v2 % 4) * 64 + v3) / 64 == v2
    ensures ((v2 % 4) * 64 + v3) % 64 == v3
  {
  }

  lemma DecodeTriple(a: byte, b: byte, c: byte, last: bool)
    ensures DecodeQuad(EncodeTriple(a, b, c), last) == Some([a, b, c])
  {
    var x, y, z := a as int, b as int, c as int;
    ValueOfSymbol(x / 4);
    ValueOfSymbol((x % 4) * 16 + y / 16);
    ValueOfSymbol((y % 16) * 4 + z / 64);
    ValueOfSymbol(z % 64);
    RegroupBytes(x, y, z);
  }

  lemma DecodeSingle(a: byte)
    ensures DecodeQuad(Encode([a]), true) == Some([a])
  {
    var x := a as int;
    RegroupBytes(x, 0, 0);
    ValueOfSymbol(x / 4);
    ValueOfSymbol((x % 4) * 16);
    var q := Encode([a]);
    assert Value(q[0]) == Some(x / 4) && Value(q[1]) == Some((x % 4) * 16);
    assert q[2] == '=' && q[3] == '=';
  }

  lemma DecodePair(a: byte, b: byte)
    ensures DecodeQuad(Encode([a, b]), true) == Some([a, b])
  {
    var x, y := a as int, b as int;
    var i0, i1, i2 := x / 4, (x % 4) * 16 + y / 16, (y % 16) * 4;
    var q := Encode([a, b]);
    assert q == [Symbol(i0), Symbol(i1), Symbol(i2), '='];
    ValueOfSymbol(i0);
    ValueOfSymbol(i1);
    ValueOfSymbol(i2);
    assert Value(q[0]) == Some(i0) && Value(q[1]) == Some(i1) && Value(q[2]) == Some(i2);
    RegroupBytes(x, y, 0);
    assert (i0 * 4 + i1 / 16) as byte == a && ((i1 % 16) * 16 + i2 / 4) as byte == b;
  }

  /** A final group of four characters decodes on its own. */
  lemma DecodeLastQuad(text: string, head: seq<byte>)
    requires |text| == 4 && DecodeQuad(text, true) == Some(head)
    ensures Decode(text) == Some(head)
  {
    assert text[..4] == text;
    assert Decode(text[4..]) == Some([]);
    assert head + [] == head;
  }

  lemma DecodeEncodeOne(data: seq<byte>, a: byte)
    requires data == [a]
    ensures Decode(Encode(data)) == Some(data)
  {
    DecodeSingle(a);
    DecodeLastQuad(Encode([a]), [a]);
  }

  lemma DecodeEncodeTwo(data: seq<byte>, a: byte, b: byte)
    requires data == [a, b]
    ensures Decode(Encode(data)) == Some(data)
  {
    DecodePair(a, b);
    DecodeLastQuad(Encode([a, b]), [a, b]);
  }

  /** Decoding distributes over a leading group of four characters. */
  lemma DecodeCons(q: string, rest: string, head: seq<byte>, tail: seq<byte>)
    requires |q| == 4
    requires DecodeQuad(q, |rest| == 0) == Some(head)
    requires Decode(rest) == Some(tail)
    ensures Decode(q + rest) == Some(head + tail)
  {
    var text := q + rest;
    assert text[..4] == q && text[4..] == rest;
  }

  lemma EncodeCons(data: seq<byte>)
    requires |data| >= 3
    ensures Encode(data) == EncodeTriple(data[0], data[1], data[2]) + Encode(data[3..])
  {
  }

  /** One step of the round trip: a leading group of three bytes decodes back in front of the rest. */
  lemma DecodeEncodeStep(data: seq<byte>, a: byte, b: byte, c: byte, tail: seq<byte>)
    requires data == [a, b, c] + tail
    requires Decode(Encode(tail)) == Some(tail)
    ensures Decode(Encode(data)) == Some(data)
  {
    var rest := Encode(tail);
    var q := EncodeTriple(a, b, c);
    assert data[0] == a && data[1] == b && data[2] == c && data[3..] == tail;
    EncodeCons(data);
    assert Encode(data) == q + rest;
    DecodeTriple(a, b, c, |rest| == 0);
    DecodeCons(q, rest, [a, b, c], tail);
  }

  /** Decoding an encoding gives back the bytes. */
  lemma {:induction false} DecodeEncode(data: seq<byte>)
    ensures Decode(Encode(data)) == Some(data)
  {
    if |data| == 0 {
      assert data == [] && Encode(data) == [];
    } else if |data| == 1 {
      assert data == [data[0]];
      DecodeEncodeOne(data, data[0]);
    } else if |data| == 2 {
      assert data == [data[0], data[1]];
      DecodeEncodeTwo(data, data[0], data[1]);
    } else {
      DecodeEncode(data[3..]);
      assert data == [data[0], data[1], data[2]] + data[3..];
      DecodeEncodeStep(data, data[0], data[1], data[2], data[3..]);
    }
  }

  /** The symbols of a group, once the six-bit values of its bytes are known. */
  lemma GroupSymbols(x: int, y: int, z: int, v0: nat, v1: nat, v2: nat, v3: nat)
    requires 0 <= x < 256 && 0 <= y < 256 && 0 <= z < 256
    requires v0 < 64 && v1 < 64 && v2 < 64 && v3 < 64
    requires x / 4 == v0 && (x % 4) * 16 + y / 16 == v1 && (y % 16) * 4 + z / 64 == v2 && z % 64 == v3
    ensures EncodeTriple(x as byte, y as byte, z as byte) == [Symbol(v0), Symbol(v1), Symbol(v2), Symbol(v3)]
    ensures Encode([x as byte]) == [Symbol(v0), Symbol((x % 4) * 16), '=', '=']
    ensures Encode([x as byte, y as byte]) == [Symbol(v0), Symbol(v1), Symbol((y % 16) * 4), '=']
  {
  }

  lemma SingleCanonical(v0: nat, v1: nat)
    requires v0 < 64 && v1 < 64 && v1 % 16 == 0
    ensures Encode([(v0 * 4 + v1 / 16) as byte]) == [Symbol(v0), Symbol(v1), '=', '=']
  {
    RegroupSymbols(v0, v1, 0, 0);
    var x := v0 * 4 + v1 / 16;
    assert x / 4 == v0 && (x % 4) * 16 == v1;
    GroupSymbols(x, 0, 0, v0, (x % 4) * 16, 0, 0);
  }

  lemma PairCanonical(v0: nat, v1: nat, v2: nat)
    requires v0 < 64 && v1 < 64 && v2 < 64 && v2 % 4 == 0
    ensures Encode([(v0 * 4 + v1 / 16) as byte, ((v1 % 16) * 16 + v2 / 4) as byte])
         == [Symbol(v0), Symbol(v1), Symbol(v2), '=']
  {
    RegroupSymbols(v0, v1, v2, 0);
    var x, y := v0 * 4 + v1 / 16, (v1 % 16) * 16 + v2 / 4;
    assert x / 4 == v0 && (x % 4) * 16 + y / 16 == v1 && (y % 16) * 4 == v2;
    GroupSymbols(x, y, 0, v0, v1, v2, 0);
  }

  lemma TripleCanonical(v0: nat, v1: nat, v2: nat, v3: nat)
    requires v0 < 64 && v1 < 64 && v2 < 64 && v3 < 64
    ensures Encode([(v0 * 4 + v1 / 16) as byte, ((v1 % 16) * 16 + v2 / 4) as byte, ((v2 % 4) * 64 + v3) as byte])
         == [Symbol(v0), Symbol(v1), Symbol(v2), Symbol(v3)]
  {
    RegroupSymbols(v0, v1, v2, v3);
    var x, y, z := v0 * 4 + v1 / 16, (v1 % 16) * 16 + v2 / 4, (v2 % 4) * 64 + v3;
    GroupSymbols(x, y, z, v0, v1, v2, v3);
    EncodeOneTriple(x as byte, y as byte, z as byte);
  }

  /** Three bytes on their own encode as one group. */
  lemma EncodeOneTriple(a: byte, b: byte, c: byte)
    ensures Encode([a, b, c]) == EncodeTriple(a, b, c)
  {
    var h := [a, b, c];
    EncodeCons(h);
    assert h[3..] == [];
  }

  lemma DecodeFullQuad(q: string, last: bool)
    requires |q| == 4 && IsSymbol(q[0]) && IsSymbol(q[1]) && IsSymbol(q[2]) && IsSymbol(q[3])
    ensures var v0, v1, v2, v3 := Value(q[0]).value, Value(q[1]).value, Value(q[2]).value, Value(q[3]).value;
      && q == [Symbol(v0), Symbol(v1), Symbol(v2), Symbol(v3)]
      && DecodeQuad(q, last)
         == Some([(v0 * 4 + v1 / 16) as byte, ((v1 % 16) * 16 + v2 / 4) as byte, ((v2 % 4) * 64 + v3) as byte])
  {
  }

  lemma SingleQuadCanonical(q: string)
    requires |q| == 4 && IsSymbol(q[0]) && IsSymbol(q[1]) && q[2] == '=' && q[3] == '='
    requires Value(q[1]).value % 16 == 0
    ensures DecodeQuad(q, true).Some? && |DecodeQuad(q, true).value| == 1
    ensures Encode(DecodeQuad(q, true).value) == q
  {
    var v0, v1 := Value(q[0]).value, Value(q[1]).value;
    assert DecodeQuad(q, true) == Some([(v0 * 4 + v1 / 16) as byte]);
    SingleCanonical(v0, v1);
    assert q == [Symbol(v0), Symbol(v1), '=', '='];
  }

  lemma PairQuadCanonical(q: string)
    requires |q| == 4 && IsSymbol(q[0]) && IsSymbol(q[1]) && IsSymbol(q[2]) && q[3] == '='
    requires Value(q[2]).value % 4 == 0
    ensures DecodeQuad(q, true).Some? && |DecodeQuad(q, true).value| == 2
    ensures Encode(DecodeQuad(q, true).value) == q
  {
    var v0, v1, v2 := Value(q[0]).value, Value(q[1]).value, Value(q[2]).value;
    assert DecodeQuad(q, true) == Some([(v0 * 4 + v1 / 16) as byte, ((v1 % 16) * 16 + v2 / 4) as byte]);
    PairCanonical(v0, v1, v2);
    assert q == [Symbol(v0), Symbol(v1), Symbol(v2), '='];
  }

  lemma FullQuadCanonical(q: string, last: bool)
    requires |q| == 4 && IsSymbol(q[0]) && IsSymbol(q[1]) && IsSymbol(q[2]) && IsSymbol(q[3])
    ensures DecodeQuad(q, last).Some? && |DecodeQuad(q, last).value| == 3
    ensures Encode(DecodeQuad(q, last).value) == q
  {
    var v0, v1, v2, v3 := Value(q[0]).value, Value(q[1]).value, Value(q[2]).value, Value(q[3]).value;
    DecodeFullQuad(q, last);
    var h := [(v0 * 4 + v1 / 16) as byte, ((v1 % 16) * 16 + v2 / 4) as byte, ((v2 % 4) * 64 + v3) as byte];
    assert DecodeQuad(q, last) == Some(h);
    TripleCanonical(v0, v1, v2, v3);
    assert Encode(h) == q;
  }

  /** A group the decoder accepts is exactly the encoding of what it decodes to. */
  lemma QuadCanonical(q: string, last: bool)
    requires |q| == 4 && DecodeQuad(q, last).Some?
    ensures var h := DecodeQuad(q, last).value;
      && 1 <= |h| <= 3
      && (!last ==> |h| == 3)
      && Encode(h) == q
  {
    if last && q[2] == '=' && q[3] == '=' {
      SingleQuadCanonical(q);
    } else if last && q[3] == '=' {
      PairQuadCanonical(q);
    } else {
      FullQuadCanonical(q, last);
    }
  }

  /** Encoding a whole group of three bytes in front of more bytes encodes the group, then the rest. */
  lemma EncodeAppendTriple(head: seq<byte>, tail: seq<byte>)
    requires |head| == 3
    ensures Encode(head + tail) == Encode(head) + Encode(tail)
  {
    var data := head + tail;
    assert data[..3] == head && data[3..] == tail;
    EncodeCons(data);
    EncodeCons(head);
    assert head[3..] == [];
  }

  /** The final group of four characters re-encodes to itself. */
  lemma EncodeDecodeLast(text: string)
    requires |text| == 4 && Decode(text).Some?
    ensures Encode(Decode(text).value) == text
  {
    var head := DecodeQuad(text[..4], true).value;
    assert text[..4] == text;
    QuadCanonical(text, true);
    assert Decode(text[4..]) == Some([]);
    assert head + [] == head;
  }

  /** One step of canonicity: a leading inner group re-encodes in front of the re-encoded rest. */
  lemma EncodeDecodeStep(text: string)
    requires |text| > 4 && Decode(text).Some?
    requires Encode(Decode(text[4..]).value) == text[4..]
    ensures Encode(Decode(text).value) == text
  {
    var q := text[..4];
    var head := DecodeQuad(q, false).value;
    var tail := Decode(text[4..]).value;
    QuadCanonical(q, false);
    assert Decode(text).value == head + tail;
    EncodeAppendTriple(head, tail);
    assert q + text[4..] == text;
  }

  /** Encoding a successful decode gives back the text: the decoder accepts only canonical encodings. */
  lemma {:induction false} EncodeDecode(text: string)
    requires Decode(text).Some?
    ensures Encode(Decode(text).value) == text
  {
    if |text| == 4 {
      EncodeDecodeLast(text);
    } else if |text| > 4 {
      EncodeDecode(text[4..]);
      EncodeDecodeStep(text);
    }
  }
}
