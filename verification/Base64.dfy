/** Base64 as section 4 of RFC 4648 defines it; the serial transcript stores every line in it
    (scripts/core_reboot_persistence_d1l.py). */
module Base64 {
  import opened Common

  type Byte = b: int | 0 <= b < 256

  type Bytes = seq<Byte>

  type Sextet = v: int | 0 <= v < 64

  // ----- the alphabet

  function CharOf(v: Sextet): char {
    if v < 26 then ('A' as int + v) as char
    else if v < 52 then ('a' as int + v - 26) as char
    else if v < 62 then ('0' as int + v - 52) as char
    else if v == 62 then '+' else '/'
  }

  predicate InAlphabet(c: char) {
    'A' <= c <= 'Z' || 'a' <= c <= 'z' || '0' <= c <= '9' || c == '+' || c == '/'
  }

  function ValueOf(c: char): Sextet
    requires InAlphabet(c)
  {
    if 'A' <= c <= 'Z' then c as int - 'A' as int
    else if 'a' <= c <= 'z' then c as int - 'a' as int + 26
    else if '0' <= c <= '9' then c as int - '0' as int + 52
    else if c == '+' then 62 else 63
  }

  lemma AlphabetInverse(v: Sextet)
    ensures InAlphabet(CharOf(v)) && ValueOf(CharOf(v)) == v && CharOf(v) != '='
  {
  }

  // ----- encoding

  function Letter(v: Sextet): (c: char)
    ensures InAlphabet(c) && ValueOf(c) == v
  {
    AlphabetInverse(v);
    CharOf(v)
  }

  /** The characters of up to three bytes. */
  function EncodeGroup(bytes: Bytes): (s: string)
    requires 1 <= |bytes| <= 3
    ensures |s| == 4
  {
    var a := bytes[0];
    if |bytes| == 1 then One(a / 4, a % 4 * 16)
    else
      var b := bytes[1];
      if |bytes| == 2 then Two(a / 4, a % 4 * 16 + b / 16, b % 16 * 4)
      else
        var c := bytes[2];
        Three(a / 4, a % 4 * 16 + b / 16, b % 16 * 4 + c / 64, c % 64)
  }

  function One(p: Sextet, q: Sextet): string {
    [Letter(p), Letter(q), '=', '=']
  }

  function Two(p: Sextet, q: Sextet, r: Sextet): string {
    [Letter(p), Letter(q), Letter(r), '=']
  }

  function Three(p: Sextet, q: Sextet, r: Sextet, t: Sextet): string {
    [Letter(p), Letter(q), Letter(r), Letter(t)]
  }

  function Encode(bytes: Bytes): string {
    if bytes == [] then ""
    else if |bytes| <= 3 then EncodeGroup(bytes)
    else EncodeGroup(bytes[..3]) + Encode(bytes[3..])
  }

  // ----- decoding

  predicate Letters(s: string) {
    forall i | 0 <= i < |s| :: InAlphabet(s[i])
  }

  function First(p: Sextet, q: Sextet): Byte {
    p * 4 + q / 16
  }

  function Second(q: Sextet, r: Sextet): Byte {
    q % 16 * 16 + r / 4
  }

  function Third(r: Sextet, s: Sextet): Byte {
    r % 4 * 64 + s
  }

  /** One group of four characters; only the last may be padded. */
  function DecodeGroup(s: string, last: bool): Option<Bytes>
    requires |s| == 4
  {
    if Letters(s) then
      var p, q, r, t := ValueOf(s[0]), ValueOf(s[1]), ValueOf(s[2]), ValueOf(s[3]);
      Some([First(p, q), Second(q, r), Third(r, t)])
    else if last && Letters(s[..3]) && s[3] == '=' then
      Some([First(ValueOf(s[0]), ValueOf(s[1])), Second(ValueOf(s[1]), ValueOf(s[2]))])
    else if last && Letters(s[..2]) && s[2..] == "==" then
      Some([First(ValueOf(s[0]), ValueOf(s[1]))])
    else None
  }

  /** Decoding with validation: any other character or length is refused. */
  function Decode(s: string): Option<Bytes> {
    if s == "" then Some([])
    else if |s| < 4 then None
    else
      var group := DecodeGroup(s[..4], |s| == 4);
      if group.None? then None
      else
        var rest := Decode(s[4..]);
        if rest.None? then None else Some(group.value + rest.value)
  }

  lemma GroupBytes(a: Byte, b: Byte, c: Byte)
    ensures First(a / 4, a % 4 * 16 + b / 16) == a
    ensures Second(a % 4 * 16 + b / 16, b % 16 * 4 + c / 64) == b
    ensures Third(b % 16 * 4 + c / 64, c % 64) == c
  {
  }

  lemma ThreeDecodes(p: Sextet, q: Sextet, r: Sextet, t: Sextet, last: bool)
    ensures DecodeGroup(Three(p, q, r, t), last) == Some([First(p, q), Second(q, r), Third(r, t)])
  {
  }

  lemma TwoDecodes(p: Sextet, q: Sextet, r: Sextet)
    ensures DecodeGroup(Two(p, q, r), true) == Some([First(p, q), Second(q, r)])
  {
    var s := Two(p, q, r);
    assert !InAlphabet(s[3]) && s[..3] == [Letter(p), Letter(q), Letter(r)];
  }

  lemma OneDecodes(p: Sextet, q: Sextet)
    ensures DecodeGroup(One(p, q), true) == Some([First(p, q)])
  {
    var s := One(p, q);
    assert !InAlphabet(s[3]) && s[..3][2] == '=' && !InAlphabet('=');
    assert s[..2] == [Letter(p), Letter(q)] && s[2..] == "==";
  }

  lemma OneByte(a: Byte)
    ensures DecodeGroup(One(a / 4, a % 4 * 16), true) == Some([a])
  {
    OneDecodes(a / 4, a % 4 * 16);
    GroupBytes(a, 0, 0);
  }

  lemma TwoBytes(a: Byte, b: Byte)
    ensures DecodeGroup(Two(a / 4, a % 4 * 16 + b / 16, b % 16 * 4), true) == Some([a, b])
  {
    TwoDecodes(a / 4, a % 4 * 16 + b / 16, b % 16 * 4);
    GroupBytes(a, b, 0);
  }

  lemma ThreeBytes(a: Byte, b: Byte, c: Byte, last: bool)
    ensures DecodeGroup(Three(a / 4, a % 4 * 16 + b / 16, b % 16 * 4 + c / 64, c % 64), last) == Some([a, b, c])
  {
    ThreeDecodes(a / 4, a % 4 * 16 + b / 16, b % 16 * 4 + c / 64, c % 64, last);
    GroupBytes(a, b, c);
  }

  /** One group survives the encoding; a short one only as the last. */
  lemma GroupDecodes(bytes: Bytes, last: bool)
    requires 1 <= |bytes| <= 3 && (|bytes| < 3 ==> last)
    ensures DecodeGroup(EncodeGroup(bytes), last) == Some(bytes)
  {
    if |bytes| == 1 {
      OneByte(bytes[0]);
      assert bytes == [bytes[0]];
    } else if |bytes| == 2 {
      TwoBytes(bytes[0], bytes[1]);
      assert bytes == [bytes[0], bytes[1]];
    } else {
      ThreeBytes(bytes[0], bytes[1], bytes[2], last);
      assert bytes == [bytes[0], bytes[1], bytes[2]];
    }
  }

  lemma DecodeOneMore(head: string, tail: string, group: Bytes, rest: Bytes)
    requires |head| == 4 && DecodeGroup(head, tail == "") == Some(group)
    requires Decode(tail) == Some(rest)
    ensures Decode(head + tail) == Some(group + rest)
  {
    var s := head + tail;
    assert s[..4] == head && s[4..] == tail;
  }

  lemma EncodeShape(bytes: Bytes)
    ensures Encode(bytes) == "" <==> bytes == []
  {
  }

  /** Every line of bytes survives the encoding. */
  lemma {:induction false} DecodesWhatWasEncoded(bytes: Bytes)
    ensures Decode(Encode(bytes)) == Some(bytes)
  {
    if bytes == [] {
    } else if |bytes| <= 3 {
      GroupDecodes(bytes, true);
      DecodeOneMore(EncodeGroup(bytes), "", bytes, []);
      assert EncodeGroup(bytes) + "" == EncodeGroup(bytes) && bytes + [] == bytes;
    } else {
      var head, tail := bytes[..3], bytes[3..];
      GroupDecodes(head, false);
      DecodesWhatWasEncoded(tail);
      EncodeShape(tail);
      DecodeOneMore(EncodeGroup(head), Encode(tail), head, tail);
      assert head + tail == bytes;
    }
  }

  lemma EncodeInjective(a: Bytes, b: Bytes)
    requires Encode(a) == Encode(b)
    ensures a == b
  {
    DecodesWhatWasEncoded(a);
    DecodesWhatWasEncoded(b);
  }
}
