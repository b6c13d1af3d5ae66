/**
 * Base64 with the standard alphabet and `=` padding (RFC 4648 section 4), as
 * Go's `base64.StdEncoding` implements it: `EncodeToString` always pads, and
 * `DecodeString` skips '\r' and '\n' wherever they occur, insists on complete
 * padding, and does not check that the unused low bits of a padded final
 * quantum are zero.
 */
module Base64 {

  import opened Wrappers
  import opened Text
  import Seqs

  const Pad := '='

  /** `CorruptInputError`: the input is not valid Base64. */
  datatype DecodeError = CorruptInput

  /** A character of the 64-character alphabet. */
  predicate IsAlphabet(c: char)
  {
    ('A' <= c <= 'Z') || ('a' <= c <= 'z') || ('0' <= c <= '9') || c == '+' || c == '/'
  }

  /** A character `EncodeToString` may produce. */
  predicate IsEncodingChar(c: char)
  {
    IsAlphabet(c) || c == Pad
  }

  /** Text made only of characters `EncodeToString` may produce. */
  predicate IsEncodingText(s: string)
  {
    forall i :: 0 <= i < |s| ==> IsEncodingChar(s[i])
  }

  /** The alphabet character whose value is `i`. */
  function CharOf(i: int): (c: char)
    requires 0 <= i < 64
    ensures IsAlphabet(c) && ValueOf(c) == i
  {
    if i < 26 then ('A' as int + i) as char
    else if i < 52 then ('a' as int + (i - 26)) as char
    else if i < 62 then ('0' as int + (i - 52)) as char
    else if i == 62 then '+'
    else '/'
  }

  /** The 6-bit value of an alphabet character. */
  function ValueOf(c: char): (i: int)
    requires IsAlphabet(c)
    ensures 0 <= i < 64
  {
    if 'A' <= c <= 'Z' then c as int - 'A' as int
    else if 'a' <= c <= 'z' then c as int - 'a' as int + 26
    else if '0' <= c <= '9' then c as int - '0' as int + 52
    else if c == '+' then 62
    else 63
  }

  /** ValueOf and CharOf are inverse bijections between the alphabet and 0..63. */
  lemma CharOfValueOf(c: char)
    requires IsAlphabet(c)
    ensures CharOf(ValueOf(c)) == c
  {
  }

  /** Three bytes as four characters. */
  function EncodeTriple(b0: Byte, b1: Byte, b2: Byte): string
  {
    [CharOf(b0 / 4), CharOf((b0 % 4) * 16 + b1 / 16), CharOf((b1 % 16) * 4 + b2 / 64), CharOf(b2 % 64)]
  }

  /** A final group of one byte, padded with `==`. */
  function EncodeSingle(b0: Byte): string
  {
    [CharOf(b0 / 4), CharOf((b0 % 4) * 16), Pad, Pad]
  }

  /** A final group of two bytes, padded with `=`. */
  function EncodePair(b0: Byte, b1: Byte): string
  {
    [CharOf(b0 / 4), CharOf((b0 % 4) * 16 + b1 / 16), CharOf((b1 % 16) * 4), Pad]
  }

  /** `EncodeToString`: groups of three bytes, a short final group padded with `=`. */
  function Encode(b: Bytes): (s: string)
    ensures |s| == 4 * ((|b| + 2) / 3)
    ensures IsEncodingText(s)
    decreases |b|
  {
    if |b| == 0 then ""
    else if |b| == 1 then EncodeSingle(b[0])
    else if |b| == 2 then EncodePair(b[0], b[1])
    else EncodeTriple(b[0], b[1], b[2]) + Encode(b[3..])
  }

  /** `s` with every '\r' and '\n' removed, which is what the decoder reads. */
  function StripNewlines(s: string): (r: string)
    ensures |r| <= |s|
    ensures forall i :: 0 <= i < |r| ==> r[i] != '\n' && r[i] != '\r'
  {
    if s == [] then []
    else if s[0] == '\n' || s[0] == '\r' then StripNewlines(s[1..])
    else [s[0]] + StripNewlines(s[1..])
  }

  /** A quantum of four alphabet characters as three bytes. */
  function DecodeQuad(c0: char, c1: char, c2: char, c3: char): Bytes
    requires IsAlphabet(c0) && IsAlphabet(c1) && IsAlphabet(c2) && IsAlphabet(c3)
  {
    var v0, v1, v2, v3 := ValueOf(c0), ValueOf(c1), ValueOf(c2), ValueOf(c3);
    [v0 * 4 + v1 / 16, (v1 % 16) * 16 + v2 / 4, (v2 % 4) * 64 + v3]
  }

  /** The final quantum, which may end in `=` or `==`. */
  function DecodeLast(c0: char, c1: char, c2: char, c3: char): Result<Bytes, DecodeError>
  {
    if !IsAlphabet(c0) || !IsAlphabet(c1) then Err(CorruptInput)
    else if IsAlphabet(c2) && IsAlphabet(c3) then Ok(DecodeQuad(c0, c1, c2, c3))
    else if IsAlphabet(c2) && c3 == Pad then Ok(DecodeQuad(c0, c1, c2, 'A')[..2])
    else if c2 == Pad && c3 == Pad then Ok(DecodeQuad(c0, c1, 'A', 'A')[..1])
    else Err(CorruptInput)
  }

  /** Decoding of newline-free text: whole quanta, padding only in the last one. */
  function DecodeQuanta(s: string): Result<Bytes, DecodeError>
    decreases |s|
  {
    if |s| == 0 then Ok([])
    else if |s| < 4 then Err(CorruptInput)
    else if |s| == 4 then DecodeLast(s[0], s[1], s[2], s[3])
    else if IsAlphabet(s[0]) && IsAlphabet(s[1]) && IsAlphabet(s[2]) && IsAlphabet(s[3]) then
      match DecodeQuanta(s[4..])
      case Ok(rest) => Ok(DecodeQuad(s[0], s[1], s[2], s[3]) + rest)
      case Err(e) => Err(e)
    else Err(CorruptInput)
  }

  /** `DecodeString`. */
  function Decode(s: string): Result<Bytes, DecodeError>
  {
    DecodeQuanta(StripNewlines(s))
  }

  lemma {:induction false} StripNewlinesOfClean(s: string)
    requires forall i :: 0 <= i < |s| ==> s[i] != '\n' && s[i] != '\r'
    ensures StripNewlines(s) == s
  {
    if s != [] {
      StripNewlinesOfClean(s[1..]);
    }
  }

  /** Decoding recovers the three bytes of an encoded group. */
  lemma DecodeEncodeTriple(b0: Byte, b1: Byte, b2: Byte)
    ensures var e := EncodeTriple(b0, b1, b2);
      DecodeQuad(e[0], e[1], e[2], e[3]) == [b0, b1, b2]
  {
  }

  /** Decoding recovers a single byte encoded with `==` padding. */
  lemma DecodeEncodeSingle(b0: Byte)
    ensures DecodeQuanta(EncodeSingle(b0)) == Ok([b0])
  {
    var c0, c1 := CharOf(b0 / 4), CharOf((b0 % 4) * 16);
    var d := DecodeQuad(c0, c1, 'A', 'A');
    assert d[0] == b0;
    assert d[..1] == [b0];
    assert DecodeLast(c0, c1, Pad, Pad) == Ok(d[..1]);
  }

  /** Decoding recovers two bytes encoded with `=` padding. */
  lemma DecodeEncodePair(b0: Byte, b1: Byte)
    ensures DecodeQuanta(EncodePair(b0, b1)) == Ok([b0, b1])
  {
    var c0, c1, c2 := CharOf(b0 / 4), CharOf((b0 % 4) * 16 + b1 / 16), CharOf((b1 % 16) * 4);
    var d := DecodeQuad(c0, c1, c2, 'A');
    assert d[0] == b0 && d[1] == b1;
    assert d[..2] == [b0, b1];
  }

  /** A leading quantum of four alphabet characters decodes independently of what follows. */
  lemma DecodeQuantaCons(q: string, rest: string)
    requires |q| == 4 && IsAlphabet(q[0]) && IsAlphabet(q[1]) && IsAlphabet(q[2]) && IsAlphabet(q[3])
    requires rest != [] && DecodeQuanta(rest).Ok?
    ensures DecodeQuanta(q + rest) == Ok(DecodeQuad(q[0], q[1], q[2], q[3]) + DecodeQuanta(rest).value)
  {
    var s := q + rest;
    assert s[4..] == rest;
    assert s[0] == q[0] && s[1] == q[1] && s[2] == q[2] && s[3] == q[3];
  }

  /** Inputs of at most one group encode to a single final quantum that decodes back to them. */
  lemma DecodeQuantaEncodeShort(b: Bytes)
    requires |b| <= 3
    ensures DecodeQuanta(Encode(b)) == Ok(b)
  {
    Seqs.Elements(b);
    if |b| == 1 {
      DecodeEncodeSingle(b[0]);
    } else if |b| == 2 {
      DecodeEncodePair(b[0], b[1]);
    } else if |b| == 3 {
      DecodeEncodeTriple(b[0], b[1], b[2]);
      assert b[3..] == [];
      Seqs.ConcatEmpty(EncodeTriple(b[0], b[1], b[2]));
    }
  }

  lemma {:induction false} DecodeQuantaEncode(b: Bytes)
    ensures DecodeQuanta(Encode(b)) == Ok(b)
    decreases |b|
  {
    if |b| <= 3 {
      DecodeQuantaEncodeShort(b);
    } else {
      var head := EncodeTriple(b[0], b[1], b[2]);
      var tail := Encode(b[3..]);
      assert Encode(b) == head + tail;
      DecodeEncodeTriple(b[0], b[1], b[2]);
      DecodeQuantaEncode(b[3..]);
      DecodeQuantaCons(head, tail);
      Seqs.SplitThree(b);
    }
  }

  /** Round trip: `DecodeString(EncodeToString(b))` returns `b` without error. */
  lemma DecodeEncode(b: Bytes)
    ensures Decode(Encode(b)) == Ok(b)
  {
    StripNewlinesOfClean(Encode(b));
    DecodeQuantaEncode(b);
  }

  /** Decodable newline-free text consists of alphabet characters and padding only. */
  lemma {:induction false} DecodeQuantaChars(s: string)
    requires DecodeQuanta(s).Ok?
    ensures IsEncodingText(s)
    decreases |s|
  {
    if |s| > 4 {
      DecodeQuantaChars(s[4..]);
      forall i | 0 <= i < |s| ensures IsEncodingChar(s[i]) {
        if i >= 4 {
          assert s[i] == s[4..][i - 4];
        }
      }
    }
  }

  lemma {:induction false} StripNewlinesKeeps(s: string, i: nat)
    requires i < |s| && s[i] != '\n' && s[i] != '\r'
    ensures s[i] in StripNewlines(s)
  {
    if i > 0 {
      StripNewlinesKeeps(s[1..], i - 1);
    }
  }

  /**
   * `DecodeString` fails on every input holding a character that is neither
   * in the alphabet, nor padding, nor a line break.
   */
  lemma DecodeRejectsForeign(s: string, i: nat)
    requires i < |s| && !IsEncodingChar(s[i]) && s[i] != '\n' && s[i] != '\r'
    ensures Decode(s) == Err(CorruptInput)
  {
    var t := StripNewlines(s);
    StripNewlinesKeeps(s, i);
    if DecodeQuanta(t).Ok? {
      DecodeQuantaChars(t);
      assert false;
    }
    // CorruptInput is the only error there is.
    assert Decode(s).error == CorruptInput;
  }

  /** Text whose length without line breaks is not a multiple of four never decodes. */
  lemma {:induction false} DecodeQuantaLength(s: string)
    requires DecodeQuanta(s).Ok?
    ensures |s| % 4 == 0
    decreases |s|
  {
    if |s| > 4 {
      var t := s[4..];
      assert DecodeQuanta(t).Ok?;
      DecodeQuantaLength(t);
      assert |s| == |t| + 4;
    }
  }
}
