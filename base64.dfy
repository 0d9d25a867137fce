/** Padded base64 as section 4 of RFC 4648 defines it, which is what
    Node's `Buffer.toString("base64")` produces. The encoder is what the pet
    identifier sends; the decoder is its inverse, kept as the reference that
    the encoding loses nothing. */
module Base64 {
  import opened Wrappers

  type byte = b: int | 0 <= b < 256

  /** Characters of the base64 alphabet (table 1 of RFC 4648). */
  predicate IsSymbol(c: char) {
    ('A' <= c <= 'Z') || ('a' <= c <= 'z') || ('0' <= c <= '9') || c == '+' || c == '/'
  }

  /** The alphabet entry for a 6-bit value. */
  function Symbol(v: nat): (c: char)
    requires v < 64
    ensures IsSymbol(c)
  {
    if v < 26 then ('A' as int + v) as char
    else if v < 52 then ('a' as int + (v - 26)) as char
    else if v < 62 then ('0' as int + (v - 52)) as char
    else if v == 62 then '+'
    else '/'
  }

  /** The 6-bit value an alphabet character stands for. */
  function SymbolValue(c: char): (v: nat)
    requires IsSymbol(c)
    ensures v < 64
  {
    if 'A' <= c <= 'Z' then c as int - 'A' as int
    else if 'a' <= c <= 'z' then c as int - 'a' as int + 26
    else if '0' <= c <= '9' then c as int - '0' as int + 52
    else if c == '+' then 62
    else 63
  }

  lemma SymbolValueOfSymbol(v: nat)
    requires v < 64
    ensures SymbolValue(Symbol(v)) == v
  {
  }

  /** Every character of an encoding is an alphabet character or the pad '='. */
  ghost predicate IsEncodingText(s: string) {
    forall i :: 0 <= i < |s| ==> IsSymbol(s[i]) || s[i] == '='
  }

  /** The 4 characters for a full group of 3 bytes. */
  function Quad(b0: byte, b1: byte, b2: byte): string {
    [Symbol(b0 / 4), Symbol((b0 % 4) * 16 + b1 / 16), Symbol((b1 % 16) * 4 + b2 / 64), Symbol(b2 % 64)]
  }

  /** A final group of 2 bytes: zero-filled to 18 bits, then one '='. */
  function FinalPair(b0: byte, b1: byte): string {
    [Symbol(b0 / 4), Symbol((b0 % 4) * 16 + b1 / 16), Symbol((b1 % 16) * 4), '=']
  }

  /** A final group of 1 byte: zero-filled to 12 bits, then "==". */
  function FinalByte(b0: byte): string {
    [Symbol(b0 / 4), Symbol((b0 % 4) * 16), '=', '=']
  }

  /** The encoding of `bs`: each 3-byte group becomes 4 characters; a final
      group of 1 or 2 bytes is zero-filled and padded with '=' to 4. */
  function Encode(bs: seq<byte>): string
    decreases |bs|
  {
    if |bs| == 0 then ""
    else if |bs| == 1 then FinalByte(bs[0])
    else if |bs| == 2 then FinalPair(bs[0], bs[1])
    else Quad(bs[0], bs[1], bs[2]) + Encode(bs[3..])
  }

  /** 4 characters for every started group of 3 bytes. */
  lemma {:induction false} EncodeLength(bs: seq<byte>)
    ensures |Encode(bs)| == 4 * ((|bs| + 2) / 3)
    decreases |bs|
  {
    if |bs| > 2 {
      EncodeLength(bs[3..]);
      assert (|bs| + 2) / 3 == (|bs[3..]| + 2) / 3 + 1;
    }
  }

  /** An encoding holds only alphabet characters and padding. */
  lemma {:induction false} EncodeAlphabet(bs: seq<byte>)
    ensures IsEncodingText(Encode(bs))
    decreases |bs|
  {
    if |bs| > 2 {
      EncodeAlphabet(bs[3..]);
      var q, rest := Quad(bs[0], bs[1], bs[2]), Encode(bs[3..]);
      assert forall i :: 0 <= i < |rest| ==> (q + rest)[4 + i] == rest[i];
    }
  }

  /** The bytes of one group of 4 characters: 3, or 2 before one '=', or 1
      before "=="; None when a character is out of place. */
  function DecodeGroup(c0: char, c1: char, c2: char, c3: char): Option<seq<byte>> {
    if !IsSymbol(c0) || !IsSymbol(c1) then None
    else
      var v0, v1 := SymbolValue(c0), SymbolValue(c1);
      var b0 := v0 * 4 + v1 / 16;
      if c2 == '=' && c3 == '=' then Some([b0])
      else if !IsSymbol(c2) then None
      else
        var v2 := SymbolValue(c2);
        var b1 := (v1 % 16) * 16 + v2 / 4;
        if c3 == '=' then Some([b0, b1])
        else if !IsSymbol(c3) then None
        else Some([b0, b1, (v2 % 4) * 64 + SymbolValue(c3)])
  }

  /** The bytes an encoding stands for; None for text that is not a padded
      base64 encoding (padding is allowed in the last group only). */
  function Decode(s: string): Option<seq<byte>>
    decreases |s|
  {
    if |s| == 0 then Some([])
    else if |s| < 4 then None
    else match DecodeGroup(s[0], s[1], s[2], s[3])
      case None => None
      case Some(g) =>
        if |s| == 4 then Some(g)
        else if |g| < 3 then None
        else match Decode(s[4..])
          case None => None
          case Some(rest) => Some(g + rest)
  }

  /** Splitting a byte into its top 6 and low 2 bits, or top 4 and low 4,
      or top 2 and low 6 bits, and putting them back together. */
  lemma Regroup(b0: byte, b1: byte, b2: byte)
    ensures (b0 / 4) * 4 + ((b0 % 4) * 16 + b1 / 16) / 16 == b0
    ensures (((b0 % 4) * 16 + b1 / 16) % 16) * 16 + ((b1 % 16) * 4 + b2 / 64) / 4 == b1
    ensures (((b1 % 16) * 4 + b2 / 64) % 4) * 64 + b2 % 64 == b2
  {
    assert ((b0 % 4) * 16 + b1 / 16) / 16 == b0 % 4;
    assert ((b0 % 4) * 16 + b1 / 16) % 16 == b1 / 16;
    assert ((b1 % 16) * 4 + b2 / 64) / 4 == b1 % 16;
    assert ((b1 % 16) * 4 + b2 / 64) % 4 == b2 / 64;
  }

  lemma DecodeFinalByte(b0: byte)
    ensures var g := FinalByte(b0); DecodeGroup(g[0], g[1], g[2], g[3]) == Some([b0])
  {
    Regroup(b0, 0, 0);
    SymbolValueOfSymbol(b0 / 4);
    SymbolValueOfSymbol((b0 % 4) * 16);
  }

  lemma DecodeFinalPair(b0: byte, b1: byte)
    ensures var g := FinalPair(b0, b1); DecodeGroup(g[0], g[1], g[2], g[3]) == Some([b0, b1])
  {
    Regroup(b0, b1, 0);
    SymbolValueOfSymbol(b0 / 4);
    SymbolValueOfSymbol((b0 % 4) * 16 + b1 / 16);
    SymbolValueOfSymbol((b1 % 16) * 4);
  }

  /** Four alphabet characters decode to the 24 bits of their values. */
  lemma DecodeSymbols(v0: nat, v1: nat, v2: nat, v3: nat, x0: byte, x1: byte, x2: byte)
    requires v0 < 64 && v1 < 64 && v2 < 64 && v3 < 64
    requires x0 == v0 * 4 + v1 / 16 && x1 == (v1 % 16) * 16 + v2 / 4 && x2 == (v2 % 4) * 64 + v3
    ensures DecodeGroup(Symbol(v0), Symbol(v1), Symbol(v2), Symbol(v3)) == Some([x0, x1, x2])
  {
    SymbolValueOfSymbol(v0);
    SymbolValueOfSymbol(v1);
    SymbolValueOfSymbol(v2);
    SymbolValueOfSymbol(v3);
  }

  lemma DecodeQuad(b0: byte, b1: byte, b2: byte)
    ensures var g := Quad(b0, b1, b2); DecodeGroup(g[0], g[1], g[2], g[3]) == Some([b0, b1, b2])
  {
    var v0, v1, v2, v3 := b0 / 4, (b0 % 4) * 16 + b1 / 16, (b1 % 16) * 4 + b2 / 64, b2 % 64;
    var g := Quad(b0, b1, b2);
    assert g[0] == Symbol(v0) && g[1] == Symbol(v1) && g[2] == Symbol(v2) && g[3] == Symbol(v3);
    Regroup(b0, b1, b2);
    DecodeSymbols(v0, v1, v2, v3, b0, b1, b2);
  }

  /** A last group of 4 characters decodes on its own. */
  lemma DecodeLast(g: string)
    requires |g| == 4
    ensures Decode(g) == DecodeGroup(g[0], g[1], g[2], g[3])
  {
  }

  /** A full group followed by more text decodes to its bytes followed by
      whatever the rest decodes to. */
  lemma DecodeFollowed(b0: byte, b1: byte, b2: byte, rest: string)
    requires Decode(rest).Some?
    ensures Decode(Quad(b0, b1, b2) + rest) == Some([b0, b1, b2] + Decode(rest).value)
  {
    var q := Quad(b0, b1, b2);
    var s := q + rest;
    DecodeQuad(b0, b1, b2);
    assert s[0] == q[0] && s[1] == q[1] && s[2] == q[2] && s[3] == q[3];
    assert s[4..] == rest;
    if rest == [] {
      assert [b0, b1, b2] + Decode(rest).value == [b0, b1, b2];
    }
  }

  lemma DecodeEncodeOne(b0: byte)
    ensures Decode(Encode([b0])) == Some([b0])
  {
    assert Encode([b0]) == FinalByte(b0);
    DecodeFinalByte(b0);
    DecodeLast(FinalByte(b0));
  }

  lemma DecodeEncodeTwo(b0: byte, b1: byte)
    ensures Decode(Encode([b0, b1])) == Some([b0, b1])
  {
    assert Encode([b0, b1]) == FinalPair(b0, b1);
    DecodeFinalPair(b0, b1);
    DecodeLast(FinalPair(b0, b1));
  }

  lemma SplitThree<T>(s: seq<T>)
    requires |s| >= 3
    ensures s == [s[0], s[1], s[2]] + s[3..]
  {
  }

  /** Decoding an encoding gives back the bytes: nothing is lost. */
  lemma {:induction false} DecodeEncode(bs: seq<byte>)
    ensures Decode(Encode(bs)) == Some(bs)
    decreases |bs|
  {
    if |bs| == 0 {
    } else if |bs| == 1 {
      DecodeEncodeOne(bs[0]);
      assert bs == [bs[0]];
    } else if |bs| == 2 {
      DecodeEncodeTwo(bs[0], bs[1]);
      assert bs == [bs[0], bs[1]];
    } else {
      var rest := bs[3..];
      DecodeEncode(rest);
      DecodeFollowed(bs[0], bs[1], bs[2], Encode(rest));
      SplitThree(bs);
    }
  }

  /** A first full group of 3 bytes is encoded on its own, ahead of the rest. */
  lemma EncodeFirstGroup(b0: byte, b1: byte, b2: byte, rest: seq<byte>)
    ensures Encode([b0, b1, b2] + rest) == Quad(b0, b1, b2) + Encode(rest)
  {
    assert ([b0, b1, b2] + rest)[3..] == rest;
  }

  /** The final groups the test vectors of section 10 of RFC 4648 end in:
      "f", "fo", "foo", "b", "ba" and "bar" as bytes. */
  lemma EncodeShortVectors()
    ensures Encode([]) == ""
    ensures Encode([102]) == "Zg=="
    ensures Encode([102, 111]) == "Zm8="
    ensures Quad(102, 111, 111) == "Zm9v"
    ensures Encode([98]) == "Yg=="
    ensures Encode([98, 97]) == "YmE="
    ensures Quad(98, 97, 114) == "YmFy"
  {
    assert Symbol(25) == 'Z' && Symbol(32) == 'g' && Symbol(38) == 'm';
    assert Symbol(60) == '8' && Symbol(61) == '9' && Symbol(47) == 'v';
    assert Symbol(24) == 'Y' && Symbol(4) == 'E' && Symbol(5) == 'F' && Symbol(50) == 'y';
    assert FinalByte(102) == [Symbol(25), Symbol(32), '=', '='];
    assert FinalPair(102, 111) == [Symbol(25), Symbol(38), Symbol(60), '='];
    assert Quad(102, 111, 111) == [Symbol(25), Symbol(38), Symbol(61), Symbol(47)];
    assert FinalByte(98) == [Symbol(24), Symbol(32), '=', '='];
    assert FinalPair(98, 97) == [Symbol(24), Symbol(38), Symbol(4), '='];
    assert Quad(98, 97, 114) == [Symbol(24), Symbol(38), Symbol(5), Symbol(50)];
  }

  /** The test vectors of section 10 of RFC 4648: "", "f", "fo", "foo",
      "foob", "fooba" and "foobar" as bytes. */
  lemma EncodeTestVectors()
    ensures Encode([]) == ""
    ensures Encode([102]) == "Zg=="
    ensures Encode([102, 111]) == "Zm8="
    ensures Encode([102, 111, 111]) == "Zm9v"
    ensures Encode([102, 111, 111, 98]) == "Zm9vYg=="
    ensures Encode([102, 111, 111, 98, 97]) == "Zm9vYmE="
    ensures Encode([102, 111, 111, 98, 97, 114]) == "Zm9vYmFy"
  {
    EncodeShortVectors();
    EncodeFirstGroup(102, 111, 111, []);
    EncodeFirstGroup(102, 111, 111, [98]);
    EncodeFirstGroup(102, 111, 111, [98, 97]);
    EncodeFirstGroup(102, 111, 111, [98, 97, 114]);
    EncodeFirstGroup(98, 97, 114, []);
    var foo: seq<byte> := [102, 111, 111];
    assert foo + [] == foo && [98, 97, 114] + [] == [98, 97, 114];
    assert foo + [98] == [102, 111, 111, 98] && "Zm9v" + "Yg==" == "Zm9vYg==";
    assert foo + [98, 97] == [102, 111, 111, 98, 97] && "Zm9v" + "YmE=" == "Zm9vYmE=";
    assert foo + [98, 97, 114] == [102, 111, 111, 98, 97, 114] && "Zm9v" + "YmFy" == "Zm9vYmFy";
  }

  /** Different byte strings have different encodings. */
  lemma EncodeInjective(a: seq<byte>, b: seq<byte>)
    requires Encode(a) == Encode(b)
    ensures a == b
  {
    DecodeEncode(a);
    DecodeEncode(b);
  }
}
