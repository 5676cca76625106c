/**
 * The copy from a Node buffer into an ArrayBuffer through a "binary" string:
 * `buffer.toString("binary")` makes one character per byte, its code equal to
 * the byte (the latin-1 reading), and `stringToArrayBuffer` stores the code of
 * each character into one cell of a byte array, which keeps its low 8 bits.
 */
module Latin1 {
  import opened Base64

  /** `buffer.toString("binary")`: one character per byte, with the byte as its code. */
  function BinaryString(b: seq<byte>): (s: string)
    ensures |s| == |b|
    ensures forall i :: 0 <= i < |s| ==> s[i] as int == b[i]
  {
    seq(|b|, i requires 0 <= i < |b| => b[i] as char)
  }

  /** `stringToArrayBuffer(s)`: a buffer of `|s|` bytes, cell i holding the low 8 bits of the code of `s[i]`. */
  function StringToArrayBuffer(s: string): (buf: seq<byte>)
    ensures |buf| == |s|
    ensures forall i :: 0 <= i < |s| && s[i] as int < 256 ==> buf[i] == s[i] as int
  {
    seq(|s|, i requires 0 <= i < |s| => (s[i] as int) % 256)
  }

  /** The two steps together copy the bytes unchanged: same length, byte i equal to byte i. */
  lemma {:induction false} BinaryCopyIsIdentity(b: seq<byte>)
    ensures StringToArrayBuffer(BinaryString(b)) == b
  {
    var s := BinaryString(b);
    var buf := StringToArrayBuffer(s);
    forall i | 0 <= i < |b|
      ensures buf[i] == b[i]
    {
      assert s[i] == b[i] as char;
    }
  }
}
