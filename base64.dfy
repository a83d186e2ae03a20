/** The standard Base64 encoding with padding (section 4 of RFC 4648), which
    `java.util.Base64.getEncoder()` writes, and a decoder that undoes it.
    The encoding is built in two layers: octets to 6-bit codes (where a code of
    64 stands for the pad character), then codes to characters. */
module Base64 {
  import opened Wrappers

  /** One octet, as its unsigned value (Java's signed `byte` carries the same bits). */
  type Byte = b: int | 0 <= b < 256

  /** A 6-bit group 0..63, or PadCode for the pad character. */
  type Code = c: int | 0 <= c <= 64

  const PadCode: Code := 64
  const Pad: char := '='

  /** Membership in the 64-character alphabet of Table 1 of RFC 4648. */
  predicate IsAlphabetChar(c: char) {
    'A' <= c <= 'Z' || 'a' <= c <= 'z' || '0' <= c <= '9' || c == '+' || c == '/'
  }

  /** Code of a character; `None` for a character that is neither in the alphabet nor `=`. */
  function CharCode(c: char): (r: Option<Code>)
    ensures r.Some? <==> IsAlphabetChar(c) || c == Pad
  {
    if 'A' <= c <= 'Z' then Some(c as int - 'A' as int)
    else if 'a' <= c <= 'z' then Some(c as int - 'a' as int + 26)
    else if '0' <= c <= '9' then Some(c as int - '0' as int + 52)
    else if c == '+' then Some(62)
    else if c == '/' then Some(63)
    else if c == Pad then Some(PadCode)
    else None
  }

  /** Character of a code; CharCode is its inverse. */
  function CodeChar(v: Code): (c: char)
    ensures IsAlphabetChar(c) <==> v < PadCode
    ensures c == Pad <==> v == PadCode
    ensures CharCode(c) == Some(v)
  {
    if v < 26 then ('A' as int + v) as char
    else if v < 52 then ('a' as int + (v - 26)) as char
    else if v < 62 then ('0' as int + (v - 52)) as char
    else if v == 62 then '+'
    else if v == 63 then '/'
    else Pad
  }

  /** The 24 bits of three octets as four 6-bit groups, most significant first. */
  function SplitQuantum(b0: Byte, b1: Byte, b2: Byte): seq<Code> {
    [b0 / 4, (b0 % 4) * 16 + b1 / 16, (b1 % 16) * 4 + b2 / 64, b2 % 64]
  }

  /** Three octets from four 6-bit groups. */
  function JoinQuantum(c0: Code, c1: Code, c2: Code, c3: Code): seq<Byte>
    requires c0 < 64 && c1 < 64 && c2 < 64 && c3 < 64
  {
    [c0 * 4 + c1 / 16, (c1 % 16) * 16 + c2 / 4, (c2 % 4) * 64 + c3]
  }

  /** Number of `=` characters that end the encoding of `n` octets. */
  function PadCount(n: nat): nat {
    (3 - n % 3) % 3
  }

  /** Codes of `bytes`: a final group of one or two octets is zero-filled, its
      unused groups replaced by PadCode. */
  function EncodeCodes(bytes: seq<Byte>): seq<Code>
    decreases |bytes|
  {
    if |bytes| == 0 then []
    else if |bytes| == 1 then SplitQuantum(bytes[0], 0, 0)[..2] + [PadCode, PadCode]
    else if |bytes| == 2 then SplitQuantum(bytes[0], bytes[1], 0)[..3] + [PadCode]
    else SplitQuantum(bytes[0], bytes[1], bytes[2]) + EncodeCodes(bytes[3..])
  }

  /** Decodes one group of four codes; when `last` holds, one or two trailing pad
      codes are accepted and drop the octets they stand for. */
  function DecodeQuantum(c0: Code, c1: Code, c2: Code, c3: Code, last: bool): Option<seq<Byte>> {
    if c0 == PadCode || c1 == PadCode then None
    else if c2 < PadCode && c3 < PadCode then Some(JoinQuantum(c0, c1, c2, c3))
    else if last && c2 < PadCode then Some(JoinQuantum(c0, c1, c2, 0)[..2])
    else if last && c3 == PadCode then Some(JoinQuantum(c0, c1, 0, 0)[..1])
    else None
  }

  /** Octets of a code sequence; its length must be a multiple of four and only the
      last group may hold pad codes. */
  function DecodeCodes(cs: seq<Code>): Option<seq<Byte>>
    decreases |cs|
  {
    if |cs| == 0 then Some([])
    else if |cs| < 4 then None
    else
      match DecodeQuantum(cs[0], cs[1], cs[2], cs[3], |cs| == 4)
      case None => None
      case Some(head) =>
        match DecodeCodes(cs[4..])
        case None => None
        case Some(tail) => Some(head + tail)
  }

  function CodesToChars(cs: seq<Code>): (s: string)
    ensures |s| == |cs|
  {
    seq(|cs|, i requires 0 <= i < |cs| => CodeChar(cs[i]))
  }

  /** Codes of every character of `s`, or `None` if one is neither alphabet nor `=`. */
  function CharsToCodes(s: string): Option<seq<Code>> {
    if forall i :: 0 <= i < |s| ==> CharCode(s[i]).Some? then
      Some(seq(|s|, i requires 0 <= i < |s| && CharCode(s[i]).Some? => CharCode(s[i]).value))
    else None
  }

  /** `Base64.getEncoder().encodeToString(bytes)`. */
  function Encode(bytes: seq<Byte>): string {
    CodesToChars(EncodeCodes(bytes))
  }

  /** Base64 decoding: the inverse the round-trip lemma is stated against. Text whose
      length is not a multiple of four, or that holds a character outside the
      alphabet or a misplaced `=`, is rejected with `None`. */
  function Decode(s: string): Option<seq<Byte>> {
    match CharsToCodes(s)
    case None => None
    case Some(cs) => DecodeCodes(cs)
  }

  /** Dividing a value built as `hi * d + lo` by `d` recovers `hi` and `lo`. */
  lemma DivLow(hi: int, lo: int, d: int)
    requires 0 <= lo < d && 0 <= hi
    requires d == 4 || d == 16 || d == 64
    ensures (hi * d + lo) / d == hi && (hi * d + lo) % d == lo
  {
  }

  /** The bit arithmetic of one group: splitting then joining is the identity. */
  lemma JoinSplit(b0: Byte, b1: Byte, b2: Byte)
    ensures var q := SplitQuantum(b0, b1, b2);
            q[0] < 64 && q[1] < 64 && q[2] < 64 && q[3] < 64 &&
            JoinQuantum(q[0], q[1], q[2], q[3]) == [b0, b1, b2]
  {
    DivLow(b0 % 4, b1 / 16, 16);
    DivLow(b1 % 16, b2 / 64, 4);
  }

  /** Decoding a code sequence that starts with a whole group decodes that group,
      then the rest. */
  lemma DecodeCodesCons(q: seq<Code>, rest: seq<Code>, head: seq<Byte>, tail: seq<Byte>)
    requires |q| == 4
    requires DecodeQuantum(q[0], q[1], q[2], q[3], rest == []) == Some(head)
    requires DecodeCodes(rest) == Some(tail)
    ensures DecodeCodes(q + rest) == Some(head + tail)
  {
    var cs := q + rest;
    assert cs[..4] == q && cs[4..] == rest;
  }

  lemma DecodeEncodeCodesOne(b0: Byte)
    ensures DecodeCodes(EncodeCodes([b0])) == Some([b0])
  {
    var q := SplitQuantum(b0, 0, 0);
    JoinSplit(b0, 0, 0);
    var last := [q[0], q[1], PadCode, PadCode];
    assert EncodeCodes([b0]) == last + [];
    assert JoinQuantum(q[0], q[1], 0, 0)[..1] == [b0];
    DecodeCodesCons(last, [], [b0], []);
    assert [b0] + [] == [b0];
  }

  lemma DecodeEncodeCodesTwo(b0: Byte, b1: Byte)
    ensures DecodeCodes(EncodeCodes([b0, b1])) == Some([b0, b1])
  {
    var q := SplitQuantum(b0, b1, 0);
    JoinSplit(b0, b1, 0);
    var last := [q[0], q[1], q[2], PadCode];
    assert EncodeCodes([b0, b1]) == last + [];
    assert JoinQuantum(q[0], q[1], q[2], 0)[..2] == [b0, b1];
    DecodeCodesCons(last, [], [b0, b1], []);
    assert [b0, b1] + [] == [b0, b1];
  }

  lemma {:induction false} DecodeEncodeCodes(bytes: seq<Byte>)
    ensures DecodeCodes(EncodeCodes(bytes)) == Some(bytes)
    decreases |bytes|
  {
    if |bytes| == 1 {
      assert bytes == [bytes[0]];
      DecodeEncodeCodesOne(bytes[0]);
    } else if |bytes| == 2 {
      assert bytes == [bytes[0], bytes[1]];
      DecodeEncodeCodesTwo(bytes[0], bytes[1]);
    } else if |bytes| >= 3 {
      var head, tail := bytes[..3], bytes[3..];
      assert head == [bytes[0], bytes[1], bytes[2]] && bytes == head + tail;
      var q := SplitQuantum(bytes[0], bytes[1], bytes[2]);
      JoinSplit(bytes[0], bytes[1], bytes[2]);
      DecodeEncodeCodes(tail);
      DecodeCodesCons(q, EncodeCodes(tail), head, tail);
    }
  }

  lemma CharsToCodesToChars(cs: seq<Code>)
    ensures CharsToCodes(CodesToChars(cs)) == Some(cs)
  {
    var s := CodesToChars(cs);
    assert forall i :: 0 <= i < |s| ==> CharCode(s[i]) == Some(cs[i]);
    var decoded := CharsToCodes(s);
    assert decoded.Some?;
    assert decoded.value == cs;
  }

  /** Decoding the encoding gives back the octets, for every octet sequence. */
  lemma DecodeEncode(bytes: seq<Byte>)
    ensures Decode(Encode(bytes)) == Some(bytes)
  {
    CharsToCodesToChars(EncodeCodes(bytes));
    DecodeEncodeCodes(bytes);
  }

  /** Four codes per started group of three octets, data codes first, then
      exactly PadCount(|bytes|) pad codes. */
  lemma {:induction false} EncodeCodesShape(bytes: seq<Byte>)
    ensures |EncodeCodes(bytes)| == 4 * ((|bytes| + 2) / 3)
    ensures PadCount(|bytes|) <= |EncodeCodes(bytes)|
    ensures forall i :: 0 <= i < |EncodeCodes(bytes)| ==>
              (EncodeCodes(bytes)[i] == PadCode <==> i >= |EncodeCodes(bytes)| - PadCount(|bytes|))
    decreases |bytes|
  {
    var cs := EncodeCodes(bytes);
    if |bytes| >= 3 {
      var q := SplitQuantum(bytes[0], bytes[1], bytes[2]);
      var rest := EncodeCodes(bytes[3..]);
      EncodeCodesShape(bytes[3..]);
      assert cs == q + rest;
      assert PadCount(|bytes|) == PadCount(|bytes| - 3);
      forall i | 0 <= i < |cs|
        ensures cs[i] == PadCode <==> i >= |cs| - PadCount(|bytes|)
      {
        if i >= 4 {
          assert cs[i] == rest[i - 4];
        }
      }
    }
  }

  /** Shape of the text: four characters per started group of three octets,
      alphabet characters first, then exactly PadCount(|bytes|) `=`. */
  lemma EncodeShape(bytes: seq<Byte>)
    ensures |Encode(bytes)| == 4 * ((|bytes| + 2) / 3)
    ensures PadCount(|bytes|) <= |Encode(bytes)|
    ensures forall i :: 0 <= i < |Encode(bytes)| - PadCount(|bytes|) ==> IsAlphabetChar(Encode(bytes)[i])
    ensures forall i :: |Encode(bytes)| - PadCount(|bytes|) <= i < |Encode(bytes)| ==> Encode(bytes)[i] == Pad
  {
    EncodeCodesShape(bytes);
  }
}
