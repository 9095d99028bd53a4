/**
 * The key encoder of the disk tier: a cache key is turned into its UTF-8 bytes, and every
 * byte becomes one symbol of a 32-symbol alphabet chosen by the byte's low five bits
 * (DiskBackedMemoryCache.cs, Base32Encode and GetFileName). The three high bits of every
 * byte are dropped, so distinct keys can share a file name.
 */
module KeyEncoder {
  import opened Wrappers

  /** An unsigned 8-bit value. */
  type byte = x: int | 0 <= x < 0x100

  /** The symbol table, as written in DiskBackedMemoryCache.cs: note that 'o' comes before 'n'. */
  const Alphabet: string := "abcdefghijklmonpqrstuvwxyz234567"

  /** `b & 0x1F`, which for a value 0..255 is its remainder modulo 32: the index of the symbol that encodes `b`. */
  function Low5(b: byte): (v: nat)
    ensures v < 32
    ensures b == 32 * (b / 32) + v
  {
    b % 32
  }

  /** `Low5` is the mask `b & 0x1F` of the 8-bit value. */
  lemma Low5IsMask(x: bv8)
    ensures Low5(x as int) == (x & 0x1F) as int
  {
  }

  /** The bytes an encoder that kept every bit but the high three would have to preserve. */
  function LowBits(bytes: seq<byte>): (r: seq<byte>)
    ensures |r| == |bytes|
    ensures forall i :: 0 <= i < |bytes| ==> r[i] == Low5(bytes[i])
  {
    if bytes == [] then [] else [Low5(bytes[0])] + LowBits(bytes[1..])
  }

  /** One symbol per byte, each chosen by the byte's low five bits. */
  function Base32Encode(bytes: seq<byte>): (name: string)
    ensures |name| == |bytes|
    ensures forall i :: 0 <= i < |bytes| ==> name[i] == Alphabet[Low5(bytes[i])]
  {
    if bytes == [] then [] else [Alphabet[Low5(bytes[0])]] + Base32Encode(bytes[1..])
  }

  /** The position of a symbol in the alphabet, or None for a character the encoder never writes. */
  function SymbolIndex(c: char): (v: Option<nat>)
    ensures v.Some? ==> v.value < 32
  {
    if 'a' <= c <= 'm' then Some(c as int - 'a' as int)
    else if c == 'o' then Some(13)
    else if c == 'n' then Some(14)
    else if 'p' <= c <= 'z' then Some(c as int - 'p' as int + 15)
    else if '2' <= c <= '7' then Some(c as int - '2' as int + 26)
    else None
  }

  /** The layout of the alphabet: 'a'..'m', then 'o' and 'n', then 'p'..'z', then '2'..'7'. */
  lemma AlphabetShape()
    ensures |Alphabet| == 32
    ensures forall i :: 0 <= i < 13 ==> Alphabet[i] as int == 'a' as int + i
    ensures Alphabet[13] == 'o' && Alphabet[14] == 'n'
    ensures forall i :: 15 <= i < 26 ==> Alphabet[i] as int == 'p' as int + i - 15
    ensures forall i :: 26 <= i < 32 ==> Alphabet[i] as int == '2' as int + i - 26
  {
  }

  /** Every symbol of the alphabet decodes to its own position: the 32 symbols are distinct. */
  lemma AlphabetDecodes(i: nat)
    requires i < 32
    ensures SymbolIndex(Alphabet[i]) == Some(i)
  {
    AlphabetShape();
    if i < 13 {
      assert 'a' <= Alphabet[i] <= 'm';
    } else if i < 15 {
    } else if i < 26 {
      assert 'p' <= Alphabet[i] <= 'z';
    } else {
      assert '2' <= Alphabet[i] <= '7';
    }
  }

  /** A character that decodes is the symbol at the position it decodes to. */
  lemma SymbolIndexInverse(c: char)
    requires SymbolIndex(c).Some?
    ensures Alphabet[SymbolIndex(c).value] == c
  {
    AlphabetShape();
    var v := SymbolIndex(c).value;
    if 'a' <= c <= 'm' {
      assert Alphabet[v] as int == c as int;
    } else if 'p' <= c <= 'z' {
      assert Alphabet[v] as int == c as int;
    } else if '2' <= c <= '7' {
      assert Alphabet[v] as int == c as int;
    }
  }

  /** Reads a file name back into the low five bits of the key bytes it was made from. */
  function Base32DecodeLowBits(name: string): (r: Option<seq<byte>>)
    ensures r.Some? ==> |r.value| == |name|
  {
    if name == [] then Some([])
    else match (SymbolIndex(name[0]), Base32DecodeLowBits(name[1..]))
      case (Some(v), Some(rest)) => Some([v] + rest)
      case _ => None
  }

  /** Round trip: a file name gives back exactly the low five bits of every key byte. */
  lemma {:induction false} DecodeEncode(bytes: seq<byte>)
    ensures Base32DecodeLowBits(Base32Encode(bytes)) == Some(LowBits(bytes))
  {
    if bytes != [] {
      var name, v := Base32Encode(bytes), Low5(bytes[0]);
      DecodeEncode(bytes[1..]);
      AlphabetDecodes(v);
      assert name[0] == Alphabet[v] && name[1..] == Base32Encode(bytes[1..]);
      assert Base32DecodeLowBits(name) == Some([v] + LowBits(bytes[1..]));
      assert LowBits(bytes) == [v] + LowBits(bytes[1..]);
    }
  }

  /** Round trip the other way: every name made of alphabet symbols is the encoding of what it decodes to. */
  lemma {:induction false} EncodeDecode(name: string)
    requires Base32DecodeLowBits(name).Some?
    ensures Base32Encode(Base32DecodeLowBits(name).value) == name
  {
    if name != [] {
      EncodeDecode(name[1..]);
      var v := SymbolIndex(name[0]).value;
      var rest := Base32DecodeLowBits(name[1..]).value;
      SymbolIndexInverse(name[0]);
      assert Base32DecodeLowBits(name).value == [v] + rest;
      EncodeSymbolThenRest(v, rest);
      assert name == [name[0]] + name[1..];
    }
  }

  /** Encoding a small value followed by more bytes writes that value's own symbol first. */
  lemma EncodeSymbolThenRest(v: byte, rest: seq<byte>)
    requires v < 32
    ensures Base32Encode([v] + rest) == [Alphabet[v]] + Base32Encode(rest)
  {
    assert ([v] + rest)[1..] == rest;
  }

  /** Two byte strings get the same name exactly when they agree in the low five bits of every byte. */
  lemma SameNameIffSameLowBits(a: seq<byte>, b: seq<byte>)
    ensures Base32Encode(a) == Base32Encode(b) <==> LowBits(a) == LowBits(b)
  {
    if Base32Encode(a) == Base32Encode(b) {
      DecodeEncode(a);
      DecodeEncode(b);
    }
    if LowBits(a) == LowBits(b) {
      assert |a| == |b|;
      forall i | 0 <= i < |a| ensures Base32Encode(a)[i] == Base32Encode(b)[i] {
        assert Low5(a[i]) == Low5(b[i]);
      }
    }
  }

  /** A UTF-8 continuation byte: 10xxxxxx, holding the low six bits of `v`. */
  function ContinuationByte(v: nat): byte {
    0x80 + v % 0x40
  }

  /** A UTF-8 lead byte: the length marker `marker` followed by the top bits of the scalar value. */
  function LeadByte(marker: nat, top: nat): byte
    requires marker + top < 0x100
  {
    marker + top
  }

  /** The UTF-8 bytes of one Unicode scalar value. */
  function EncodeScalar(c: char): (bytes: seq<byte>)
    ensures 1 <= |bytes| <= 4
    ensures |bytes| == 1 <==> c as int < 0x80
    ensures |bytes| == 1 ==> bytes[0] == c as int
  {
    var cp := c as int;
    if cp < 0x80 then [cp]
    else if cp < 0x800 then [LeadByte(0xC0, cp / 0x40), ContinuationByte(cp)]
    else if cp < 0x1_0000 then [LeadByte(0xE0, cp / 0x1000), ContinuationByte(cp / 0x40), ContinuationByte(cp)]
    else
      [LeadByte(0xF0, cp / 0x4_0000), ContinuationByte(cp / 0x1000),
       ContinuationByte(cp / 0x40), ContinuationByte(cp)]
  }

  predicate IsAscii(key: string) {
    forall i :: 0 <= i < |key| ==> key[i] as int < 0x80
  }

  /** `Encoding.UTF8.GetBytes(key)`: at least one byte per character, exactly one for ASCII keys. */
  function Utf8Encode(key: string): (bytes: seq<byte>)
    ensures |bytes| >= |key|
    ensures IsAscii(key) ==> |bytes| == |key| && forall i :: 0 <= i < |key| ==> bytes[i] == key[i] as int
  {
    if key == [] then [] else EncodeScalar(key[0]) + Utf8Encode(key[1..])
  }

  /**
   * The name of a key's file inside the cache folder. The folder itself is a constant prefix
   * and is left out: the disk tier is keyed by this name.
   */
  function GetFileName(key: string): (name: string)
    ensures |name| == |Utf8Encode(key)|
    ensures IsAscii(key) ==> |name| == |key|
  {
    Base32Encode(Utf8Encode(key))
  }

  /** Two keys of the same length share a file name when their characters agree below bit 5 ('0' is 0x30, 'P' is 0x50). */
  lemma AsciiKeysCollide(a: string, b: string)
    requires IsAscii(a) && IsAscii(b) && |a| == |b|
    requires forall i :: 0 <= i < |a| ==> (a[i] as int) % 32 == (b[i] as int) % 32
    ensures GetFileName(a) == GetFileName(b)
  {
    var x, y := Utf8Encode(a), Utf8Encode(b);
    forall i | 0 <= i < |x| ensures Low5(x[i]) == Low5(y[i]) {
      assert x[i] == a[i] as int && y[i] == b[i] as int;
    }
    SameNameIffSameLowBits(x, y);
  }

  /** The keys "/item/0" and "/item/P" are different but are stored in the same file. */
  lemma DistinctKeysShareFileName()
    ensures "/item/0" != "/item/P"
    ensures GetFileName("/item/0") == GetFileName("/item/P")
  {
    assert "/item/0"[6] != "/item/P"[6];
    AsciiKeysCollide("/item/0", "/item/P");
  }
}
