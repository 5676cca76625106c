/**
 * `pemToDer` of circuits/scripts/extract-pubkey-from-cert.ts: a PEM certificate
 * (section 2 of RFC 7468, label CERTIFICATE from section 5) becomes the DER
 * bytes it carries. The first header line and the first footer line are cut
 * out, every whitespace character is deleted, the rest is base64-decoded and
 * copied into an ArrayBuffer through a "binary" string.
 */
module ExtractPubkeyFromCert {
  import opened JsString
  import opened Base64
  import opened Latin1

  const Header: string := "-----BEGIN CERTIFICATE-----"
  const Footer: string := "-----END CERTIFICATE-----"

  /** The text that reaches the base64 decoder. */
  function Strip(pem: string): (text: string)
    ensures NoWhitespace(text) && |text| <= |pem|
  {
    RemoveWhitespace(ReplaceFirst(ReplaceFirst(pem, Header, ""), Footer, ""))
  }

  /**
   * `pemToDer(pem)` when the stripped text is well-formed base64: the buffer holds
   * exactly the decoded bytes, 3k - p of them for stripped text of 4k characters
   * closing with p `=`.
   */
  function PemToDer(pem: string): (der: seq<byte>)
    requires IsBase64Text(Strip(pem))
    ensures der == Decode(Strip(pem))
    ensures |der| == 3 * (|Strip(pem)| / 4) - PadCount(Strip(pem))
  {
    var binaryDer := Decode(Strip(pem));
    BinaryCopyIsIdentity(binaryDer);
    StringToArrayBuffer(BinaryString(binaryDer))
  }

  // ---------------------------------------------------------------------------
  // What stripping keeps and what it drops

  /** Stripping only deletes: the result is a subsequence of the input. */
  lemma StripIsSubsequence(pem: string)
    ensures IsSubsequence(Strip(pem), pem)
  {
    var a := ReplaceFirst(pem, Header, "");
    var b := ReplaceFirst(a, Footer, "");
    ReplaceFirstByNothingIsSubsequence(pem, Header);
    ReplaceFirstByNothingIsSubsequence(a, Footer);
    RemoveWhitespaceIsSubsequence(b);
    SubsequenceTransitive(b, a, pem);
    SubsequenceTransitive(RemoveWhitespace(b), b, pem);
  }

  /** Without a header line and a footer line, only the whitespace goes. */
  lemma StripWithoutBoundaries(pem: string)
    requires Absent(pem, Header) && Absent(pem, Footer)
    ensures Strip(pem) == RemoveWhitespace(pem)
  {
  }

  /** A pattern holding a whitespace character never occurs in whitespace-free text. */
  lemma AbsentFromWhitespaceFree(s: string, p: string, k: nat)
    requires NoWhitespace(s) && k < |p| && IsWhitespace(p[k])
    ensures Absent(s, p)
  {
    forall j
      ensures !OccursAt(s, p, j)
    {
      MismatchBlocksOccurrence(s, p, j, k);
    }
  }

  /** Both boundary lines contain a space. */
  lemma BoundariesContainSpace()
    ensures IsWhitespace(Header[10]) && IsWhitespace(Footer[8])
  {
  }

  /** Whitespace-free text holds no boundary line, so stripping leaves it as it is. */
  lemma StripClean(t: string)
    requires NoWhitespace(t)
    ensures Strip(t) == t
  {
    BoundariesContainSpace();
    AbsentFromWhitespaceFree(t, Header, 10);
    AbsentFromWhitespaceFree(t, Footer, 8);
    RemoveWhitespaceClean(t);
  }

  /** Stripping twice is stripping once. */
  lemma StripIdempotent(pem: string)
    ensures Strip(Strip(pem)) == Strip(pem)
  {
    StripClean(Strip(pem));
  }

  /**
   * A pattern that starts with `-`, placed after text without `-`, is found
   * exactly there, and replacing it by nothing joins the two sides.
   */
  lemma CutAfterDashFree(a: string, p: string, b: string)
    requires '-' !in a && |p| > 0 && p[0] == '-'
    ensures IsFirstOccurrence(a + p + b, p, |a|)
    ensures ReplaceFirst(a + p + b, p, "") == a + b
  {
    var s := a + p + b;
    assert s[|a|..|a| + |p|] == p;
    forall j | 0 <= j < |a|
      ensures !OccursAt(s, p, j)
    {
      assert s[j] == a[j];
      MismatchBlocksOccurrence(s, p, j, 0);
    }
    assert s[..|a|] + "" + s[|a| + |p|..] == a + b;
  }

  /**
   * The usual layout: text before the header, the body, the footer, text after.
   * When neither the leading text nor the body contains `-`, exactly the two
   * boundary lines are cut out and the whitespace of the rest deleted.
   */
  lemma StripFramed(pre: string, body: string, post: string)
    requires '-' !in pre && '-' !in body
    ensures Strip(pre + Header + body + Footer + post) == RemoveWhitespace(pre + body + post)
  {
    assert Header[0] == '-' && Footer[0] == '-';
    assert pre + Header + body + Footer + post == pre + Header + (body + Footer + post);
    CutAfterDashFree(pre, Header, body + Footer + post);
    assert pre + (body + Footer + post) == (pre + body) + Footer + post;
    CutAfterDashFree(pre + body, Footer, post);
  }

  /** Whitespace inserted anywhere in the body between the boundaries changes nothing. */
  lemma BodyWhitespaceIrrelevant(pre: string, b1: string, w: string, b2: string, post: string)
    requires '-' !in pre && '-' !in b1 && '-' !in b2 && AllWhitespace(w)
    ensures Strip(pre + Header + (b1 + w + b2) + Footer + post)
         == Strip(pre + Header + (b1 + b2) + Footer + post)
  {
    assert '-' !in w by {
      forall i | 0 <= i < |w| ensures w[i] != '-' { }
    }
    var wide, tight := b1 + w + b2, b1 + b2;
    assert '-' !in wide;
    StripFramed(pre, wide, post);
    StripFramed(pre, tight, post);
    InsertedWhitespaceVanishes(b1, w, b2);
    RemoveWhitespaceAppend(pre + wide, post);
    RemoveWhitespaceAppend(pre, wide);
    RemoveWhitespaceAppend(pre + tight, post);
    RemoveWhitespaceAppend(pre, tight);
  }

  // ---------------------------------------------------------------------------
  // Round trip from the PEM writer to the reader

  /** Base64 text holds neither whitespace nor `-`. */
  lemma SymbolTextIsClean(s: string)
    requires IsSymbolText(s)
    ensures NoWhitespace(s) && '-' !in s
  {
    forall i | 0 <= i < |s|
      ensures !IsWhitespace(s[i]) && s[i] != '-'
    {
      assert IsBase64Char(s[i]) || s[i] == '=';
    }
  }

  /**
   * A PEM certificate whose body is the base64 encoding of `der`, broken into
   * lines in any way, with only whitespace before the header and after the
   * footer, gives back `der`.
   */
  lemma PemRoundTrip(der: seq<byte>, pre: string, body: string, post: string)
    requires AllWhitespace(pre) && AllWhitespace(post)
    requires RemoveWhitespace(body) == Encode(der)
    ensures IsBase64Text(Strip(pre + Header + body + Footer + post))
    ensures PemToDer(pre + Header + body + Footer + post) == der
  {
    assert '-' !in pre by {
      forall i | 0 <= i < |pre| ensures pre[i] != '-' { }
    }
    assert '-' !in body by {
      RemoveWhitespaceKeeps(body, '-');
      SymbolTextIsClean(Encode(der));
    }
    RemoveWhitespaceBlank(pre);
    RemoveWhitespaceBlank(post);
    StripFramed(pre, body, post);
    RemoveWhitespaceAppend(pre + body, post);
    RemoveWhitespaceAppend(pre, body);
    assert RemoveWhitespace(pre + body + post) == Encode(der);
    DecodeEncode(der);
  }

  /** Text broken into lines of `width` characters, each line ended by CR LF. */
  function WrapLines(s: string, width: nat): (wrapped: string)
    requires width > 0
    decreases |s|
  {
    if |s| <= width then s + "\r\n"
    else s[..width] + "\r\n" + WrapLines(s[width..], width)
  }

  /** Breaking whitespace-free text into lines is undone by deleting the whitespace. */
  lemma {:induction false} WrapLinesUnwraps(s: string, width: nat)
    requires width > 0 && NoWhitespace(s)
    ensures RemoveWhitespace(WrapLines(s, width)) == s
    decreases |s|
  {
    assert AllWhitespace("\r\n");
    if |s| <= width {
      RemoveWhitespaceClean(s);
      InsertedWhitespaceVanishes(s, "\r\n", "");
      assert s + "\r\n" + "" == s + "\r\n" && s + "" == s;
    } else {
      var rest := s[width..];
      assert NoWhitespace(rest);
      RemoveWhitespaceClean(s[..width]);
      WrapLinesUnwraps(rest, width);
      InsertedWhitespaceVanishes(s[..width], "\r\n", WrapLines(rest, width));
      RemoveWhitespaceAppend(s[..width], WrapLines(rest, width));
      assert s[..width] + rest == s;
    }
  }

  /** The layout a PEM writer produces: header, body in lines of `width`, footer. */
  function PemEncode(der: seq<byte>, width: nat): (pem: string)
    requires width > 0
  {
    Header + "\r\n" + WrapLines(Encode(der), width) + Footer + "\r\n"
  }

  /** The wrapped encoding, with its leading line break, unwraps to the encoding. */
  lemma WrappedBodyUnwraps(der: seq<byte>, width: nat)
    requires width > 0
    ensures RemoveWhitespace("\r\n" + WrapLines(Encode(der), width)) == Encode(der)
  {
    var e := Encode(der);
    SymbolTextIsClean(e);
    WrapLinesUnwraps(e, width);
    assert AllWhitespace("\r\n");
    InsertedWhitespaceVanishes("", "\r\n", WrapLines(e, width));
    assert "" + "\r\n" + WrapLines(e, width) == "\r\n" + WrapLines(e, width);
    assert "" + WrapLines(e, width) == WrapLines(e, width);
  }

  /** Reading back a written certificate gives its DER bytes. */
  lemma PemEncodeRoundTrip(der: seq<byte>, width: nat)
    requires width > 0
    ensures IsBase64Text(Strip(PemEncode(der, width)))
    ensures PemToDer(PemEncode(der, width)) == der
  {
    assert PemEncode(der, width) == "" + Header + ("\r\n" + WrapLines(Encode(der), width)) + Footer + "\r\n";
    WrappedBodyUnwraps(der, width);
    assert AllWhitespace("\r\n");
    PemRoundTrip(der, "", "\r\n" + WrapLines(Encode(der), width), "\r\n");
  }
}
