/**
 * The base64 primitive that the graphics writer calls (`base64_encode8` from
 * kitty/base64.h, which is not part of this model), taken to be the standard
 * base64 of RFC 4648 section 4: the alphabet A-Z a-z 0-9 + /, '=' padding, and
 * no line breaks.
 *
 * The decoder is not called by the writer; it is the partner against which
 * the encoder is proved: decoding undoes encoding, so the terminal can
 * recover every byte that was sent.
 */
module Base64 {

  type byte = x: int | 0 <= x < 256

  /** Length of the padded encoding of n bytes: four characters per started group of three. */
  function EncodedLength(n: nat): nat
  {
    4 * ((n + 2) / 3)
  }

  /** The 64 symbols of the alphabet. */
  predicate IsAlphabet(c: char)
  {
    ('A' <= c <= 'Z') || ('a' <= c <= 'z') || ('0' <= c <= '9') || c == '+' || c == '/'
  }

  /** A character that may appear in an encoding: a symbol or the pad. */
  predicate IsBase64Char(c: char)
  {
    IsAlphabet(c) || c == '='
  }

  /** The value a symbol stands for; characters outside the alphabet read as 0. */
  function Value(c: char): (v: int)
    ensures 0 <= v < 64
  {
    if 'A' <= c <= 'Z' then c as int - 'A' as int
    else if 'a' <= c <= 'z' then c as int - 'a' as int + 26
    else if '0' <= c <= '9' then c as int - '0' as int + 52
    else if c == '+' then 62
    else if c == '/' then 63
    else 0
  }

  /** The symbol for a 6-bit value; it is a symbol of the alphabet and reads back as i. */
  function Symbol(i: int): (c: char)
    requires 0 <= i < 64
    ensures IsAlphabet(c)
    ensures Value(c) == i
  {
    if i < 26 then (i + 'A' as int) as char
    else if i < 52 then (i - 26 + 'a' as int) as char
    else if i < 62 then (i - 52 + '0' as int) as char
    else if i == 62 then '+'
    else '/'
  }

  /** Every symbol of the alphabet is the symbol of its own value. */
  lemma SymbolOfValue(c: char)
    requires IsAlphabet(c)
    ensures Symbol(Value(c)) == c
  {
  }

  /** Three bytes, 24 bits, become four 6-bit symbols, most significant first. */
  function EncodeGroup(b0: byte, b1: byte, b2: byte): seq<char>
  {
    [Symbol(b0 / 4), Symbol((b0 % 4) * 16 + b1 / 16), Symbol((b1 % 16) * 4 + b2 / 64), Symbol(b2 % 64)]
  }

  /** A trailing pair of bytes: three symbols and one pad. */
  function EncodeTwo(b0: byte, b1: byte): seq<char>
  {
    [Symbol(b0 / 4), Symbol((b0 % 4) * 16 + b1 / 16), Symbol((b1 % 16) * 4), '=']
  }

  /** A trailing single byte: two symbols and two pads. */
  function EncodeOne(b0: byte): seq<char>
  {
    [Symbol(b0 / 4), Symbol((b0 % 4) * 16), '=', '=']
  }

  /**
   * Padded base64 of s. The output has 4 * ceil(|s| / 3) characters, all of them
   * symbols or pads, and an input whose length is a multiple of three needs no pad.
   */
  function Encode(s: seq<byte>): (r: seq<char>)
    ensures |r| == EncodedLength(|s|)
    ensures forall i :: 0 <= i < |r| ==> IsBase64Char(r[i])
    ensures |s| % 3 == 0 ==> forall i :: 0 <= i < |r| ==> IsAlphabet(r[i])
    decreases |s|
  {
    if |s| == 0 then []
    else if |s| == 1 then EncodeOne(s[0])
    else if |s| == 2 then EncodeTwo(s[0], s[1])
    else EncodeGroup(s[0], s[1], s[2]) + Encode(s[3..])
  }

  /** One group of four characters back to one, two or three bytes, as the pads say. */
  function DecodeQuad(c0: char, c1: char, c2: char, c3: char): seq<byte>
  {
    var v0 := Value(c0);
    var v1 := Value(c1);
    var v2 := Value(c2);
    var v3 := Value(c3);
    var b0 := v0 * 4 + v1 / 16;
    var b1 := (v1 % 16) * 16 + v2 / 4;
    var b2 := (v2 % 4) * 64 + v3;
    if c2 == '=' then [b0]
    else if c3 == '=' then [b0, b1]
    else [b0, b1, b2]
  }

  /** Decoding of text made of whole groups of four characters. */
  function Decode(t: seq<char>): seq<byte>
    requires |t| % 4 == 0
    decreases |t|
  {
    if |t| == 0 then [] else DecodeQuad(t[0], t[1], t[2], t[3]) + Decode(t[4..])
  }

  lemma DecodeGroup(b0: byte, b1: byte, b2: byte)
    ensures var g := EncodeGroup(b0, b1, b2); DecodeQuad(g[0], g[1], g[2], g[3]) == [b0, b1, b2]
  {
    var g := EncodeGroup(b0, b1, b2);
    assert Value(g[0]) == b0 / 4;
    assert Value(g[1]) == (b0 % 4) * 16 + b1 / 16;
    assert Value(g[2]) == (b1 % 16) * 4 + b2 / 64;
    assert Value(g[3]) == b2 % 64;
    assert ((b0 % 4) * 16 + b1 / 16) / 16 == b0 % 4;
    assert ((b0 % 4) * 16 + b1 / 16) % 16 == b1 / 16;
    assert ((b1 % 16) * 4 + b2 / 64) / 4 == b1 % 16;
    assert ((b1 % 16) * 4 + b2 / 64) % 4 == b2 / 64;
  }

  lemma DecodeTwo(b0: byte, b1: byte)
    ensures var g := EncodeTwo(b0, b1); DecodeQuad(g[0], g[1], g[2], g[3]) == [b0, b1]
  {
    var g := EncodeTwo(b0, b1);
    assert Value(g[0]) == b0 / 4;
    assert Value(g[1]) == (b0 % 4) * 16 + b1 / 16;
    assert Value(g[2]) == (b1 % 16) * 4;
    assert ((b0 % 4) * 16 + b1 / 16) / 16 == b0 % 4;
    assert ((b0 % 4) * 16 + b1 / 16) % 16 == b1 / 16;
    assert ((b1 % 16) * 4) / 4 == b1 % 16;
    assert IsAlphabet(g[2]);
  }

  lemma DecodeOne(b0: byte)
    ensures var g := EncodeOne(b0); DecodeQuad(g[0], g[1], g[2], g[3]) == [b0]
  {
  }

  /** An encoding is made of whole groups of four characters. */
  lemma EncodedLengthGroups(n: nat)
    ensures EncodedLength(n) % 4 == 0
    ensures n > 0 ==> EncodedLength(n) >= 4
  {
  }

  /** Decoding text of four characters or more: one group, then the rest. */
  lemma DecodeUnfold(t: seq<char>)
    requires |t| >= 4 && |t| % 4 == 0
    ensures |t[4..]| % 4 == 0
    ensures Decode(t) == DecodeQuad(t[0], t[1], t[2], t[3]) + Decode(t[4..])
  {
    assert |t[4..]| == |t| - 4;
  }

  lemma SplitGroup<T>(s: seq<T>)
    requires |s| >= 3
    ensures s == [s[0], s[1], s[2]] + s[3..]
  {
  }

  /** Decoding undoes encoding: every byte that was encoded is recovered, in order. */
  lemma {:induction false} DecodeEncode(s: seq<byte>)
    ensures |Encode(s)| % 4 == 0
    ensures Decode(Encode(s)) == s
    decreases |s|
  {
    var e := Encode(s);
    EncodedLengthGroups(|s|);
    if |s| == 0 {
    } else if |s| == 1 {
      DecodeOne(s[0]);
      DecodeUnfold(e);
      assert e[4..] == [];
    } else if |s| == 2 {
      DecodeTwo(s[0], s[1]);
      DecodeUnfold(e);
      assert e[4..] == [];
    } else {
      var g := EncodeGroup(s[0], s[1], s[2]);
      var rest := s[3..];
      DecodeGroup(s[0], s[1], s[2]);
      EncodeUnfold(s);
      DecodeUnfold(e);
      assert e[4..] == Encode(rest);
      assert e[0] == g[0] && e[1] == g[1] && e[2] == g[2] && e[3] == g[3];
      DecodeEncode(rest);
      assert Decode(e) == [s[0], s[1], s[2]] + rest;
      SplitGroup(s);
    }
  }

  /** Encoding of an input of three bytes or more: one group, then the rest. */
  lemma EncodeUnfold(s: seq<byte>)
    requires |s| >= 3
    ensures Encode(s) == EncodeGroup(s[0], s[1], s[2]) + Encode(s[3..])
  {
  }

  lemma AppendAssoc<T>(x: seq<T>, y: seq<T>, z: seq<T>)
    ensures x + (y + z) == (x + y) + z
  {
  }

  lemma DropGroup(n: int)
    requires n > 0 && n % 3 == 0
    ensures n >= 3 && (n - 3) % 3 == 0
  {
  }

  /**
   * Encoding splits at a group boundary: a prefix whose length is a multiple of
   * three encodes on its own, so chunk-wise encoding equals whole-stream encoding.
   */
  lemma {:induction false} EncodeAppend(a: seq<byte>, b: seq<byte>)
    requires |a| % 3 == 0
    ensures Encode(a + b) == Encode(a) + Encode(b)
    decreases |a|
  {
    if |a| == 0 {
      assert a + b == b;
      assert Encode(a) == [];
    } else {
      DropGroup(|a|);
      var ab := a + b;
      assert ab[3..] == a[3..] + b;
      assert ab[0] == a[0] && ab[1] == a[1] && ab[2] == a[2];
      var g := EncodeGroup(a[0], a[1], a[2]);
      EncodeUnfold(ab);
      EncodeUnfold(a);
      EncodeAppend(a[3..], b);
      AppendAssoc(g, Encode(a[3..]), Encode(b));
    }
  }

  /**
   * `base64_encode8` with its in/out length: `capacity` is the room in `dest` on
   * entry, the result is the number of characters produced, and `dest` then holds
   * the encoding. The encoding must fit in the room given.
   */
  method Base64Encode8(src: seq<byte>, dest: array<char>, capacity: nat) returns (len: nat)
    requires capacity <= dest.Length
    requires EncodedLength(|src|) <= capacity
    modifies dest
    ensures len <= capacity
    ensures dest[..len] == Encode(src)
  {
    var e := Encode(src);
    forall i | 0 <= i < |e| {
      dest[i] := e[i];
    }
    len := |e|;
  }
}
