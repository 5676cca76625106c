/**
 * The base64 encoding of section 4 of RFC 4648 (standard alphabet, `=` padding).
 * `Decode` is what `Buffer.from(text, "base64")` computes on well-formed text;
 * `Encode` is the encoder that wrote the certificate's PEM body, and serves as
 * the partner against which `Decode` is proved.
 *
 * Both work in two layers, as a table-driven codec does: characters are mapped
 * one by one to symbols (the 6-bit values 0..63, and `Pad` for `=`), and the
 * arithmetic turns groups of four symbols into three bytes and back.
 */
module Base64 {

  type byte = x: int | 0 <= x < 256
  type sextet = x: int | 0 <= x < 64
  /** A 6-bit value, or `Pad` for the padding character `=`. */
  type symbol = x: int | 0 <= x <= 64

  const Pad: symbol := 64

  // ---------------------------------------------------------------------------
  // Groups of symbols and bytes

  /** How many `Pad` symbols close the sequence (at most two are ever counted). */
  function SymbolPadCount(v: seq<symbol>): (n: nat)
    ensures n <= 2 && n <= |v|
  {
    if |v| >= 2 && v[|v| - 1] == Pad && v[|v| - 2] == Pad then 2
    else if |v| >= 1 && v[|v| - 1] == Pad then 1
    else 0
  }

  /** Whole groups of four, with `Pad` only in the one or two closing positions. */
  predicate WellFormed(v: seq<symbol>) {
    && |v| % 4 == 0
    && forall i :: 0 <= i < |v| - SymbolPadCount(v) ==> v[i] != Pad
  }

  /** Well-formed, and the bits the padding leaves unused are zero (section 3.5 of RFC 4648). */
  predicate Canonical(v: seq<symbol>) {
    && WellFormed(v)
    && (SymbolPadCount(v) == 2 ==> v[|v| - 3] % 16 == 0)
    && (SymbolPadCount(v) == 1 ==> v[|v| - 2] % 4 == 0)
  }

  /** The three bytes that four 6-bit values stand for. */
  function DecodeQuad(a: sextet, b: sextet, c: sextet, d: sextet): (r: seq<byte>)
    ensures |r| == 3
  {
    [a * 4 + b / 16, (b % 16) * 16 + c / 4, (c % 4) * 64 + d]
  }

  /** The last group, which gives one byte fewer for each `Pad`. */
  function DecodeLastQuad(g: seq<symbol>): (r: seq<byte>)
    requires |g| == 4 && WellFormed(g)
    ensures |r| == 3 - SymbolPadCount(g)
  {
    var a: int, b: int, c: int := g[0], g[1], g[2];
    if SymbolPadCount(g) == 2 then [a * 4 + b / 16]
    else if SymbolPadCount(g) == 1 then [a * 4 + b / 16, (b % 16) * 16 + c / 4]
    else DecodeQuad(a, b, c, g[3])
  }

  /** Every group of four but the last is free of padding. */
  lemma WellFormedRest(v: seq<symbol>)
    requires WellFormed(v) && |v| > 4
    ensures WellFormed(v[4..]) && SymbolPadCount(v[4..]) == SymbolPadCount(v)
    ensures Canonical(v) ==> Canonical(v[4..])
    ensures v[0] != Pad && v[1] != Pad && v[2] != Pad && v[3] != Pad
  {
    var t := v[4..];
    assert t[|t| - 1] == v[|v| - 1] && t[|t| - 2] == v[|v| - 2] && t[|t| - 3] == v[|v| - 3];
    forall i | 0 <= i < |t| - SymbolPadCount(t)
      ensures t[i] != Pad
    {
      assert t[i] == v[i + 4];
    }
  }

  /**
   * The bytes a well-formed symbol sequence stands for: three per group of four,
   * one fewer per `Pad`, so 3k - p bytes for 4k symbols closing with p `Pad`.
   */
  function DecodeSymbols(v: seq<symbol>): (r: seq<byte>)
    requires WellFormed(v)
    ensures |r| == 3 * (|v| / 4) - SymbolPadCount(v)
    decreases |v|
  {
    if |v| == 0 then []
    else if |v| == 4 then DecodeLastQuad(v)
    else
      WellFormedRest(v);
      DecodeQuad(v[0], v[1], v[2], v[3]) + DecodeSymbols(v[4..])
  }

  /** The four 6-bit values that encode three bytes. */
  function EncodeTriple(x: byte, y: byte, z: byte): (g: seq<symbol>)
    ensures |g| == 4 && Pad !in g
  {
    [x / 4, (x % 4) * 16 + y / 16, (y % 16) * 4 + z / 64, z % 64]
  }

  /**
   * The same symbols with the bits the padding leaves unused set to zero: the
   * low four bits of the symbol before `==`, the low two before a single `=`.
   */
  function ClearPadBits(v: seq<symbol>): (r: seq<symbol>)
    requires WellFormed(v)
    ensures |r| == |v| && SymbolPadCount(r) == SymbolPadCount(v)
    ensures forall i :: 0 <= i < |v| - 3 ==> r[i] == v[i]
  {
    var n := |v|;
    if SymbolPadCount(v) == 2 then v[n - 3 := v[n - 3] - v[n - 3] % 16]
    else if SymbolPadCount(v) == 1 then v[n - 2 := v[n - 2] - v[n - 2] % 4]
    else v
  }

  /** The last group decodes the same once its unused bits are cleared. */
  lemma LastQuadIgnoresPadBits(g: seq<symbol>)
    requires |g| == 4 && WellFormed(g)
    ensures Canonical(ClearPadBits(g)) && DecodeLastQuad(ClearPadBits(g)) == DecodeLastQuad(g)
  {
    var r := ClearPadBits(g);
    assert r[..1] == g[..1];
    if SymbolPadCount(g) == 0 {
      assert r == g;
    }
  }

  /** Only the last group is touched. */
  lemma ClearPadBitsPrepend(g: seq<symbol>, t: seq<symbol>)
    requires |g| == 4 && Pad !in g && WellFormed(t) && |t| > 0
    ensures WellFormed(g + t) && ClearPadBits(g + t) == g + ClearPadBits(t)
  {
    DecodePrepend(g, t);
  }

  /** Canonical symbols have no unused bits to clear. */
  lemma ClearPadBitsCanonical(v: seq<symbol>)
    requires Canonical(v)
    ensures ClearPadBits(v) == v
  {
  }

  /**
   * Decoding ignores the bits the padding leaves unused: clearing them gives
   * canonical symbols with the same bytes.
   */
  lemma {:induction false} DecodeIgnoresPadBits(v: seq<symbol>)
    requires WellFormed(v)
    ensures Canonical(ClearPadBits(v))
    ensures DecodeSymbols(ClearPadBits(v)) == DecodeSymbols(v)
    decreases |v|
  {
    if |v| == 4 {
      LastQuadIgnoresPadBits(v);
    } else if |v| > 4 {
      var g, t := v[..4], v[4..];
      WellFormedRest(v);
      DecodeIgnoresPadBits(t);
      assert v == g + t;
      assert Pad !in g by {
        assert g == [v[0], v[1], v[2], v[3]];
      }
      PrependKeepsPadBitsIgnored(g, t);
    }
  }

  /** The step of `DecodeIgnoresPadBits`: a full group in front changes nothing. */
  lemma PrependKeepsPadBitsIgnored(g: seq<symbol>, t: seq<symbol>)
    requires |g| == 4 && Pad !in g && WellFormed(t) && |t| > 0
    requires Canonical(ClearPadBits(t)) && DecodeSymbols(ClearPadBits(t)) == DecodeSymbols(t)
    ensures WellFormed(g + t) && Canonical(ClearPadBits(g + t))
    ensures DecodeSymbols(ClearPadBits(g + t)) == DecodeSymbols(g + t)
  {
    ClearPadBitsPrepend(g, t);
    DecodePrepend(g, t);
    DecodePrepend(g, ClearPadBits(t));
  }

  /** The symbols for a byte sequence, the last group padded. */
  function EncodeSymbols(b: seq<byte>): (v: seq<symbol>)
    decreases |b|
  {
    if |b| == 0 then []
    else if |b| == 1 then [b[0] / 4, (b[0] % 4) * 16, Pad, Pad]
    else if |b| == 2 then [b[0] / 4, (b[0] % 4) * 16 + b[1] / 16, (b[1] % 16) * 4, Pad]
    else EncodeTriple(b[0], b[1], b[2]) + EncodeSymbols(b[3..])
  }

  /** A padding-free group in front of a well-formed sequence is decoded first. */
  lemma DecodePrepend(g: seq<symbol>, t: seq<symbol>)
    requires |g| == 4 && Pad !in g && WellFormed(t)
    ensures WellFormed(g + t) && SymbolPadCount(g + t) == SymbolPadCount(t)
    ensures Canonical(t) ==> Canonical(g + t)
    ensures DecodeSymbols(g + t) == DecodeQuad(g[0], g[1], g[2], g[3]) + DecodeSymbols(t)
  {
    var v := g + t;
    if |t| > 0 {
      assert v[|v| - 1] == t[|t| - 1] && v[|v| - 2] == t[|t| - 2] && v[|v| - 3] == t[|t| - 3];
    } else {
      assert v == g;
      assert g[3] in g;
    }
    forall i | 0 <= i < |v| - SymbolPadCount(v)
      ensures v[i] != Pad
    {
      if i >= 4 {
        assert v[i] == t[i - 4];
      } else {
        assert g[i] in g;
      }
    }
    if |t| > 0 {
      assert v[4..] == t;
    }
  }

  /** Decoding a full group undoes encoding it. */
  lemma TripleRoundTrip(x: byte, y: byte, z: byte)
    ensures var g := EncodeTriple(x, y, z); DecodeQuad(g[0], g[1], g[2], g[3]) == [x, y, z]
  {
    var b, c := (x % 4) * 16 + y / 16, (y % 16) * 4 + z / 64;
    assert b / 16 == x % 4 && b % 16 == y / 16;
    assert c / 4 == y % 16 && c % 4 == z / 64;
  }

  /** Encoding the bytes a full group decodes to gives the group back. */
  lemma QuadRoundTrip(a: sextet, b: sextet, c: sextet, d: sextet)
    ensures var r := DecodeQuad(a, b, c, d); EncodeTriple(r[0], r[1], r[2]) == [a, b, c, d]
  {
    var x, y, z := a * 4 + b / 16, (b % 16) * 16 + c / 4, (c % 4) * 64 + d;
    assert x / 4 == a && (x % 4) * 16 + y / 16 == b;
    assert (y % 16) * 4 + z / 64 == c && z % 64 == d;
  }

  /** One or two last bytes give a canonical padded group that decodes back. */
  lemma TailRoundTrip(b: seq<byte>)
    requires 1 <= |b| <= 2
    ensures Canonical(EncodeSymbols(b)) && |EncodeSymbols(b)| == 4
    ensures DecodeSymbols(EncodeSymbols(b)) == b
  {
    var x := b[0];
    if |b| == 1 {
      assert ((x % 4) * 16) / 16 == x % 4;
    } else {
      var y := b[1];
      var m := (x % 4) * 16 + y / 16;
      assert m / 16 == x % 4 && m % 16 == y / 16;
      assert ((y % 16) * 4) / 4 == y % 16;
    }
  }

  /** Four symbols for every started group of three bytes. */
  lemma {:induction false} EncodeSymbolsLength(b: seq<byte>)
    ensures |EncodeSymbols(b)| == 4 * ((|b| + 2) / 3)
    decreases |b|
  {
    if |b| >= 3 {
      EncodeSymbolsLength(b[3..]);
    }
  }

  /** Decoding the encoding gives back the bytes, and the encoding is canonical. */
  lemma {:induction false} DecodeEncodeSymbols(b: seq<byte>)
    ensures Canonical(EncodeSymbols(b)) && DecodeSymbols(EncodeSymbols(b)) == b
    decreases |b|
  {
    if 1 <= |b| <= 2 {
      TailRoundTrip(b);
    } else if |b| >= 3 {
      DecodeEncodeSymbols(b[3..]);
      DecodePrepend(EncodeTriple(b[0], b[1], b[2]), EncodeSymbols(b[3..]));
      TripleRoundTrip(b[0], b[1], b[2]);
      assert [b[0], b[1], b[2]] + b[3..] == b;
    }
  }

  /** Re-encoding what a canonical last group decodes to gives the group back. */
  lemma LastQuadRoundTrip(g: seq<symbol>)
    requires |g| == 4 && Canonical(g)
    ensures EncodeSymbols(DecodeLastQuad(g)) == g
  {
    var a: int, b: int, c: int := g[0], g[1], g[2];
    if SymbolPadCount(g) == 2 {
      var x := a * 4 + b / 16;
      assert x / 4 == a && (x % 4) * 16 == b;
    } else if SymbolPadCount(g) == 1 {
      var x, y := a * 4 + b / 16, (b % 16) * 16 + c / 4;
      assert x / 4 == a && (x % 4) * 16 + y / 16 == b && (y % 16) * 4 == c;
    } else {
      assert g[0] != Pad && g[1] != Pad && g[2] != Pad && g[3] != Pad;
      QuadRoundTrip(g[0], g[1], g[2], g[3]);
    }
  }

  /** Three bytes in front are encoded as one full group in front. */
  lemma EncodePrepend(q: seq<byte>, rest: seq<byte>)
    requires |q| == 3
    ensures EncodeSymbols(q + rest) == EncodeTriple(q[0], q[1], q[2]) + EncodeSymbols(rest)
  {
    assert (q + rest)[3..] == rest;
  }

  /** Encoding the decoding of a canonical sequence gives it back. */
  lemma {:induction false} EncodeDecodeSymbols(v: seq<symbol>)
    requires Canonical(v)
    ensures EncodeSymbols(DecodeSymbols(v)) == v
    decreases |v|
  {
    if |v| == 4 {
      LastQuadRoundTrip(v);
    } else if |v| > 4 {
      WellFormedRest(v);
      EncodeDecodeSymbols(v[4..]);
      var q := DecodeQuad(v[0], v[1], v[2], v[3]);
      QuadRoundTrip(v[0], v[1], v[2], v[3]);
      EncodePrepend(q, DecodeSymbols(v[4..]));
      assert v == [v[0], v[1], v[2], v[3]] + v[4..];
    }
  }

  // ---------------------------------------------------------------------------
  // Characters

  /** A character of the standard alphabet (Table 1 of RFC 4648). */
  predicate IsBase64Char(c: char) {
    ('A' <= c <= 'Z') || ('a' <= c <= 'z') || ('0' <= c <= '9') || c == '+' || c == '/'
  }

  /** The character that encodes a symbol. */
  function SymbolToChar(v: symbol): (c: char)
    ensures (v == Pad) == (c == '=') && (IsBase64Char(c) || c == '=')
  {
    if v < 26 then ('A' as int + v) as char
    else if v < 52 then ('a' as int + (v - 26)) as char
    else if v < 62 then ('0' as int + (v - 52)) as char
    else if v == 62 then '+'
    else if v == 63 then '/'
    else '='
  }

  /** The symbol a character of the alphabet or `=` stands for; `SymbolToChar` undoes it. */
  function CharToSymbol(c: char): (v: symbol)
    requires IsBase64Char(c) || c == '='
    ensures SymbolToChar(v) == c
  {
    if 'A' <= c <= 'Z' then c as int - 'A' as int
    else if 'a' <= c <= 'z' then c as int - 'a' as int + 26
    else if '0' <= c <= '9' then c as int - '0' as int + 52
    else if c == '+' then 62
    else if c == '/' then 63
    else Pad
  }

  /** Distinct symbols have distinct characters. */
  lemma SymbolRoundTrip(v: symbol)
    ensures CharToSymbol(SymbolToChar(v)) == v
  {
  }

  /** How many `=` characters close the text (at most two are ever counted). */
  function PadCount(s: string): (n: nat)
    ensures n <= 2 && n <= |s|
  {
    if |s| >= 2 && s[|s| - 1] == '=' && s[|s| - 2] == '=' then 2
    else if |s| >= 1 && s[|s| - 1] == '=' then 1
    else 0
  }

  /**
   * Well-formed base64 text: whole groups of four characters, every character
   * from the alphabet except for one or two closing `=`.
   */
  predicate IsBase64Text(s: string) {
    && |s| % 4 == 0
    && (forall i :: 0 <= i < |s| - PadCount(s) ==> IsBase64Char(s[i]))
    && (forall i :: |s| - PadCount(s) <= i < |s| ==> s[i] == '=')
  }

  predicate IsSymbolText(s: string) {
    forall i :: 0 <= i < |s| ==> IsBase64Char(s[i]) || s[i] == '='
  }

  /** Table lookup, character by character. */
  function ToSymbols(s: string): (v: seq<symbol>)
    requires IsSymbolText(s)
    ensures |v| == |s|
  {
    seq(|s|, i requires 0 <= i < |s| => CharToSymbol(s[i]))
  }

  function ToChars(v: seq<symbol>): (s: string)
    ensures |s| == |v| && IsSymbolText(s)
  {
    seq(|v|, i requires 0 <= i < |v| => SymbolToChar(v[i]))
  }

  /** Well-formed text is exactly text whose symbols are well-formed. */
  lemma SymbolsOfText(s: string)
    requires IsSymbolText(s)
    ensures SymbolPadCount(ToSymbols(s)) == PadCount(s)
    ensures IsBase64Text(s) <==> WellFormed(ToSymbols(s))
    ensures ToChars(ToSymbols(s)) == s
  {
    var v := ToSymbols(s);
    forall i | 0 <= i < |s|
      ensures (v[i] == Pad) == (s[i] == '=')
    {
      assert SymbolToChar(v[i]) == s[i];
    }
  }

  /** The text of a symbol sequence maps back to it. */
  lemma TextOfSymbols(v: seq<symbol>)
    ensures ToSymbols(ToChars(v)) == v
  {
    forall i | 0 <= i < |v|
      ensures ToSymbols(ToChars(v))[i] == v[i]
    {
      SymbolRoundTrip(v[i]);
    }
  }

  /** Canonical text: well-formed, with zero unused bits before the padding. */
  predicate IsCanonical(s: string) {
    IsBase64Text(s) && Canonical(ToSymbols(s))
  }

  /**
   * `Buffer.from(s, "base64")` on well-formed text: each group of four characters
   * gives three bytes, except that the last gives one byte fewer per `=`.
   * For text of length 4k closing with p `=` that is 3k - p bytes.
   */
  function Decode(s: string): (r: seq<byte>)
    requires IsBase64Text(s)
    ensures |r| == 3 * (|s| / 4) - PadCount(s)
  {
    SymbolsOfText(s);
    DecodeSymbols(ToSymbols(s))
  }

  /**
   * Well-formed text whose unused padding bits are not zero (`Zh==`) decodes as
   * the canonical text with those bits cleared (`Zg==`) does: they are dropped.
   */
  lemma DecodeDropsPadBits(s: string)
    requires IsBase64Text(s)
    ensures IsSymbolText(s)
    ensures IsCanonical(ToChars(ClearPadBits(ToSymbols(s))))
    ensures Decode(ToChars(ClearPadBits(ToSymbols(s)))) == Decode(s)
  {
    SymbolsOfText(s);
    var c := ClearPadBits(ToSymbols(s));
    DecodeIgnoresPadBits(ToSymbols(s));
    TextOfSymbols(c);
    SymbolsOfText(ToChars(c));
  }

  /** `Zh==` carries the unused bits 0001 after the byte `f`; they are dropped. */
  lemma NonCanonicalPadBitsExample()
    ensures Decode("Zh==") == Decode("Zg==") == [102]
  {
    assert IsBase64Text("Zh==");
  }

  /** The base64 encoding of section 4 of RFC 4648, padded with `=`. */
  function Encode(b: seq<byte>): (s: string) {
    ToChars(EncodeSymbols(b))
  }

  /**
   * Decoding the encoding gives back the bytes; the encoding is canonical text
   * of four characters for every started group of three bytes.
   */
  lemma DecodeEncode(b: seq<byte>)
    ensures IsCanonical(Encode(b)) && Decode(Encode(b)) == b
    ensures |Encode(b)| == 4 * ((|b| + 2) / 3)
  {
    var v := EncodeSymbols(b);
    DecodeEncodeSymbols(b);
    EncodeSymbolsLength(b);
    TextOfSymbols(v);
    SymbolsOfText(ToChars(v));
  }

  /** Encoding the decoding of canonical text gives the text back. */
  lemma EncodeDecode(s: string)
    requires IsCanonical(s)
    ensures Encode(Decode(s)) == s
  {
    SymbolsOfText(s);
    EncodeDecodeSymbols(ToSymbols(s));
  }
}
