// The base64 encoder over fixed strings, and what it means together with the codec.
module Base64 {
  import opened Wrappers
  import opened FixedString
  import Codec

  const PAD: Byte := 61

  // Table 1 of RFC 4648: A-Z, a-z, 0-9, plus and slash.
  function Symbol(k: nat): (c: Byte)
    requires k < 64
    ensures c != 0 && c != PAD && Index(c) == Some(k)
  {
    if k < 26 then 65 + k
    else if k < 52 then 97 + (k - 26)
    else if k < 62 then 48 + (k - 52)
    else if k == 62 then 43
    else 47
  }

  function Index(c: Byte): Option<nat> {
    if 65 <= c < 91 then Some(c - 65)
    else if 97 <= c < 123 then Some(c - 97 + 26)
    else if 48 <= c < 58 then Some(c - 48 + 52)
    else if c == 43 then Some(62)
    else if c == 47 then Some(63)
    else None
  }

  lemma UpperIs(k: nat)
    requires k < 26
    ensures var s := "ABCDEFGHIJKLMNOPQRSTUVWXYZ"; |s| == 26 && s[k] as int == 65 + k
  {
  }

  lemma LowerIs(k: nat)
    requires k < 26
    ensures var s := "abcdefghijklmnopqrstuvwxyz"; |s| == 26 && s[k] as int == 97 + k
  {
  }

  lemma OthersIs(k: nat)
    requires k < 12
    ensures var s := "0123456789+/"; |s| == 12 && s[k] as int == if k < 10 then 48 + k else if k == 10 then 43 else 47
  {
  }

  // The lookup table.
  lemma AlphabetIs(k: nat)
    requires k < 64
    ensures var table := "ABCDEFGHIJKLMNOPQRSTUVWXYZ" + "abcdefghijklmnopqrstuvwxyz" + "0123456789+/";
            |table| == 64 && Symbol(k) == table[k] as int
  {
    UpperIs(if k < 26 then k else 0);
    LowerIs(if 26 <= k < 52 then k - 26 else 0);
    OthersIs(if 52 <= k then k - 52 else 0);
  }

  function Symbols(d: seq<nat>): (g: seq<Byte>)
    requires forall k :: 0 <= k < |d| ==> d[k] < 64
    ensures |g| == |d|
    ensures forall k :: 0 <= k < |d| ==> g[k] == Symbol(d[k]) && g[k] != 0
  {
    seq(|d|, k requires 0 <= k < |d| => Symbol(d[k]))
  }

  // Three bytes as four 6-bit digits.
  function Digits(a: Byte, b: Byte, c: Byte): (d: seq<nat>)
    ensures |d| == 4 && forall k :: 0 <= k < 4 ==> d[k] < 64
  {
    [a / 4, a % 4 * 16 + b / 16, b % 16 * 4 + c / 64, c % 64]
  }

  function Group(a: Byte, b: Byte, c: Byte): (g: seq<Byte>)
    ensures |g| == 4 && forall k :: 0 <= k < 4 ==> g[k] != 0
  {
    Symbols(Digits(a, b, c))
  }

  // Section 4 of RFC 4648: a last group of one or two bytes is filled with zero bits
  // and padded.
  function Encoded(s: seq<Byte>): seq<Byte> {
    if s == [] then []
    else if |s| == 1 then Group(s[0], 0, 0)[..2] + [PAD, PAD]
    else if |s| == 2 then Group(s[0], s[1], 0)[..3] + [PAD]
    else Group(s[0], s[1], s[2]) + Encoded(s[3..])
  }

  // A strict decoder: whole groups, padding only at the end, no stray characters.
  function Decoded(t: seq<Byte>): Option<seq<Byte>> {
    if t == [] then Some([])
    else if |t| < 4 || Index(t[0]).None? || Index(t[1]).None? then None
    else
      var a, b := Index(t[0]).value, Index(t[1]).value;
      var first := a * 4 + b / 16;
      if |t| == 4 && t[2] == PAD && t[3] == PAD then
        if b % 16 == 0 then Some([first]) else None
      else if Index(t[2]).None? then None
      else
        var c := Index(t[2]).value;
        var second := b % 16 * 16 + c / 4;
        if |t| == 4 && t[3] == PAD then
          if c % 4 == 0 then Some([first, second]) else None
        else if Index(t[3]).None? then None
        else
          var third := c % 4 * 64 + Index(t[3]).value;
          match Decoded(t[4..])
          case None => None
          case Some(rest) => Some([first, second, third] + rest)
  }

  // The bytes again, from the digits.
  lemma DigitsJoin(a: Byte, b: Byte, c: Byte)
    ensures var d := Digits(a, b, c);
            && d[0] * 4 + d[1] / 16 == a
            && d[1] % 16 * 16 + d[2] / 4 == b
            && d[2] % 4 * 64 + d[3] == c
  {
    DivideIs(a % 4 * 16 + b / 16, 16, a % 4);
    DivideIs(b % 16 * 4 + c / 64, 4, b % 16);
  }

  lemma DecodeGroup(a: Byte, b: Byte, c: Byte, t: seq<Byte>)
    ensures Decoded(Group(a, b, c) + t) ==
            match Decoded(t) case None => None case Some(rest) => Some([a, b, c] + rest)
  {
    hide Symbol, Index, Digits;
    DigitsJoin(a, b, c);
    IndexOfPad();
    var d, g := Digits(a, b, c), Group(a, b, c) + t;
    assert g[0] == Symbol(d[0]) && g[1] == Symbol(d[1]) && g[2] == Symbol(d[2]) && g[3] == Symbol(d[3]);
    assert g[4..] == t;
  }

  lemma IndexOfPad()
    ensures Index(PAD) == None
  {
  }

  lemma DecodeTail(a: Byte, b: Byte)
    ensures Decoded(Group(a, 0, 0)[..2] + [PAD, PAD]) == Some([a])
    ensures Decoded(Group(a, b, 0)[..3] + [PAD]) == Some([a, b])
  {
    DecodeOne(a);
    DecodeTwo(a, b);
  }

  lemma DecodeOne(a: Byte)
    ensures Decoded(Group(a, 0, 0)[..2] + [PAD, PAD]) == Some([a])
  {
    hide Symbol, Index, Digits;
    DigitsJoin(a, 0, 0);
    IndexOfPad();
    var d, g := Digits(a, 0, 0), Group(a, 0, 0)[..2] + [PAD, PAD];
    assert d[1] == a % 4 * 16 by { DigitsOf(a, 0, 0); }
    assert g[0] == Symbol(d[0]) && g[1] == Symbol(d[1]) && g[2] == PAD && g[3] == PAD;
  }

  lemma DecodeTwo(a: Byte, b: Byte)
    ensures Decoded(Group(a, b, 0)[..3] + [PAD]) == Some([a, b])
  {
    hide Symbol, Index, Digits;
    DigitsJoin(a, b, 0);
    IndexOfPad();
    var d, g := Digits(a, b, 0), Group(a, b, 0)[..3] + [PAD];
    assert d[2] == b % 16 * 4 by { DigitsOf(a, b, 0); }
    assert g[0] == Symbol(d[0]) && g[1] == Symbol(d[1]) && g[2] == Symbol(d[2]) && g[3] == PAD;
  }

  lemma DigitsOf(a: Byte, b: Byte, c: Byte)
    ensures b == 0 ==> Digits(a, b, c)[1] == a % 4 * 16
    ensures c == 0 ==> Digits(a, b, c)[2] == b % 16 * 4
  {
  }

  // Decoding undoes encoding.
  lemma {:induction false} DecodeEncode(s: seq<Byte>)
    ensures Decoded(Encoded(s)) == Some(s)
  {
    hide Decoded, Group;
    if s == [] {
      DecodeNothing();
    } else if |s| <= 2 {
      DecodeTail(s[0], if |s| == 2 then s[1] else 0);
      assert s == if |s| == 1 then [s[0]] else [s[0], s[1]];
    } else {
      DecodeEncode(s[3..]);
      DecodeGroup(s[0], s[1], s[2], Encoded(s[3..]));
      assert s == [s[0], s[1], s[2]] + s[3..];
    }
  }

  lemma DecodeNothing()
    ensures Decoded([]) == Some([])
  {
  }

  lemma {:induction false} EncodedLength(s: seq<Byte>)
    ensures |Encoded(s)| == (|s| + 2) / 3 * 4
    ensures forall k :: 0 <= k < |Encoded(s)| ==> Encoded(s)[k] != 0
  {
    hide Group;
    if |s| >= 3 {
      EncodedLength(s[3..]);
    }
  }

  // The digits taken from the 24-bit word of a group.
  function WordDigits(x: nat): (d: seq<nat>)
    ensures |d| == 4 && forall k :: 0 <= k < 4 ==> d[k] < 64
  {
    [x / 262144 % 64, x / 4096 % 64, x / 64 % 64, x % 64]
  }

  lemma FirstDigit(x: nat, a: Byte, b: Byte, c: Byte)
    requires x == a * 65536 + b * 256 + c
    ensures WordDigits(x)[0] == Digits(a, b, c)[0]
  {
    DivideIs(x, 262144, a / 4);
    DivideIs(a / 4, 64, 0);
  }

  lemma SecondDigit(x: nat, a: Byte, b: Byte, c: Byte)
    requires x == a * 65536 + b * 256 + c
    ensures WordDigits(x)[1] == Digits(a, b, c)[1]
  {
    DivideIs(x, 4096, a * 16 + b / 16);
    DivideIs(a * 16 + b / 16, 64, a / 4);
  }

  lemma ThirdDigit(x: nat, a: Byte, b: Byte, c: Byte)
    requires x == a * 65536 + b * 256 + c
    ensures WordDigits(x)[2] == Digits(a, b, c)[2]
  {
    DivideIs(x, 64, a * 1024 + b * 4 + c / 64);
    DivideIs(a * 1024 + b * 4 + c / 64, 64, a * 16 + b / 16);
  }

  lemma FourthDigit(x: nat, a: Byte, b: Byte, c: Byte)
    requires x == a * 65536 + b * 256 + c
    ensures WordDigits(x)[3] == Digits(a, b, c)[3]
  {
    DivideIs(x, 64, a * 1024 + b * 4 + c / 64);
  }

  lemma WordOfGroup(a: Byte, b: Byte, c: Byte)
    ensures WordDigits(a * 65536 + b * 256 + c) == Digits(a, b, c)
  {
    hide WordDigits, Digits;
    var x := a * 65536 + b * 256 + c;
    FirstDigit(x, a, b, c);
    SecondDigit(x, a, b, c);
    ThirdDigit(x, a, b, c);
    FourthDigit(x, a, b, c);
  }

  /* ----- the encoding without a decoder ----- */

  // The text spells the number in base 64, most significant digit first.
  predicate Spells(text: seq<Byte>, x: nat)
    decreases |text|
  {
    if text == [] then x == 0
    else text[|text| - 1] == Symbol(x % 64) && Spells(text[..|text| - 1], x / 64)
  }

  lemma FourSpell(x: nat)
    requires x < 0x100_0000
    ensures var t := Symbols(WordDigits(x)); Spells(t, x) && Spells(t[..3], x / 64) && Spells(t[..2], x / 4096)
  {
    hide Symbol;
    var t := Symbols(WordDigits(x));
    assert t[..4] == t && t[..3][..2] == t[..2] && t[..2][..1] == t[..1] && t[..1][..0] == [];
    assert x / 64 / 64 == x / 4096 && x / 4096 / 64 == x / 262144 && x / 262144 / 64 == 0;
    assert Spells(t[..0], 0);
    assert Spells(t[..1], x / 262144);
    assert Spells(t[..2], x / 4096);
    assert Spells(t[..3], x / 64);
  }

  lemma GroupSpells(a: Byte, b: Byte, c: Byte)
    ensures Spells(Group(a, b, c), a as int * 65536 + b as int * 256 + c)
    ensures Spells(Group(a, 0, 0)[..2], a as int * 16)
    ensures Spells(Group(a, b, 0)[..3], (a as int * 256 + b) * 4)
  {
    hide WordDigits, Digits, Symbols, Spells;
    WordOfGroup(a, b, c);
    WordOfGroup(a, 0, 0);
    WordOfGroup(a, b, 0);
    FourSpell(a as int * 65536 + b as int * 256 + c);
    FourSpell(a as int * 65536);
    FourSpell(a as int * 65536 + b as int * 256);
  }

  // Group by group: four characters spell the 24 bits of three bytes, two characters and
  // two signs of equality a single last byte, three and one the two last bytes.
  lemma {:induction false} EncodedSpells(s: seq<Byte>, g: nat)
    requires 3 * g <= |s|
    ensures |Encoded(s)| == (|s| + 2) / 3 * 4
    ensures var i, t := 3 * g, Encoded(s)[4 * g..];
            && (|s| >= i + 3 ==> Spells(t[..4], s[i] as int * 65536 + s[i + 1] as int * 256 + s[i + 2]))
            && (|s| == i + 2 ==> |t| == 4 && Spells(t[..3], (s[i] as int * 256 + s[i + 1]) * 4) && t[3] == 61)
            && (|s| == i + 1 ==> |t| == 4 && Spells(t[..2], s[i] as int * 16) && t[2] == t[3] == 61)
    decreases |s|
  {
    hide Group, Spells;
    EncodedLength(s);
    if g == 0 {
      if s != [] { GroupSpells(s[0], if |s| > 1 then s[1] else 0, if |s| > 2 then s[2] else 0); }
    } else {
      EncodedSpells(s[3..], g - 1);
      assert Encoded(s)[4 * g..] == Encoded(s[3..])[4 * (g - 1)..];
    }
  }

  // Writes the leading digits of a group and fills it with padding.
  method PutGroup(buffer: array<Byte>, j: nat, x: nat, digits: nat)
    requires j + 4 <= buffer.Length && 2 <= digits <= 4
    modifies buffer
    ensures buffer[..j] == old(buffer[..j]) && buffer[j + 4..] == old(buffer[j + 4..])
    ensures buffer[j..j + 4] == Symbols(WordDigits(x))[..digits] + [PAD, PAD][..4 - digits]
  {
    hide Symbol;
    buffer[j] := Symbol(x / 262144 % 64);
    buffer[j + 1] := Symbol(x / 4096 % 64);
    buffer[j + 2] := if digits > 2 then Symbol(x / 64 % 64) else PAD;
    buffer[j + 3] := if digits > 3 then Symbol(x % 64) else PAD;
  }

  // The whole groups of the input.
  method PutGroups(input: array<Byte>, buffer: array<Byte>) returns (i: nat, j: nat)
    requires input.Length >= 1 && buffer.Length >= (input.Length - 1) / 3 * 4 + 4 && input != buffer
    modifies buffer
    ensures i < input.Length <= i + 3 && j * 3 == i * 4 && j + 4 <= buffer.Length
    ensures buffer[..j] + Encoded(Content(input)[i..]) == Encoded(Content(input))
    ensures buffer[j..] == old(buffer[j..])
  {
    hide WordDigits, Encoded, Digits, Symbols;
    ghost var bytes := Content(input);
    i, j := 0, 0;
    var groups := (input.Length - 1) / 3;
    for g := 0 to groups
      invariant i == 3 * g && j == 4 * g
      invariant buffer[..j] + Encoded(bytes[i..]) == Encoded(bytes)
      invariant buffer[j..] == old(buffer[j..])
    {
      WordOfGroup(input[i], input[i + 1], input[i + 2]);
      EncodedStep(bytes, i);
      ghost var tail := buffer[j..];
      PutGroup(buffer, j, input[i] as int * 65536 + input[i + 1] as int * 256 + input[i + 2], 4);
      assert buffer[j + 4..] == tail[4..] == old(buffer[j + 4..]);
      assert buffer[..j + 4] == buffer[..j] + buffer[j..j + 4];
      i, j := i + 3, j + 4;
    }
  }

  // encode_base64
  method Encode(input: array<Byte>) returns (buffer: array<Byte>)
    requires input.Length >= 1
    ensures fresh(buffer) && buffer.Length == (input.Length + 2) / 3 * 4 + 1
    ensures var text := Encoded(Content(input));
            && |text| <= buffer.Length - 1 && buffer[..|text|] == text
            && (forall k :: |text| <= k < buffer.Length ==> buffer[k] == 0)
            && buffer.Length - 1 - |text| == if (input.Length - 1) % 3 == 0 then 4 else 0
  {
    hide Encoded;
    ghost var bytes := Content(input);
    EncodedLength(bytes);
    BufferSize(input.Length - 1);
    buffer := Blank((input.Length + 2) / 3 * 4 + 1);
    ghost var blank := buffer[..];
    var i, j := PutGroups(input, buffer);
    assert buffer[j..] == blank[j..];
    PutRemainder(input, buffer, i, j);
    assert buffer[..|Encoded(bytes)|] == buffer[..j] + Encoded(bytes[i..]);
    assert buffer[|Encoded(bytes)|..] == blank[|Encoded(bytes)|..];
  }

  // What is left after the whole groups.
  method PutRemainder(input: array<Byte>, buffer: array<Byte>, i: nat, j: nat)
    requires i < input.Length <= i + 3 && j + 4 <= buffer.Length && buffer != input
    modifies buffer
    ensures var last := Encoded(Content(input)[i..]);
            && |last| <= 4 && buffer[..j] == old(buffer[..j])
            && buffer[j..j + |last|] == last && buffer[j + |last|..] == old(buffer[j + |last|..])
  {
    hide WordDigits, Encoded, Digits, Symbols;
    var size := input.Length - 1;
    EncodedLast(Content(input), i);
    if i + 1 == size {
      WordOfGroup(input[i], 0, 0);
      PutGroup(buffer, j, input[i] as int * 65536, 2);
    } else if i + 2 == size {
      WordOfGroup(input[i], input[i + 1], 0);
      PutGroup(buffer, j, input[i] as int * 65536 + input[i + 1] as int * 256, 3);
    }
  }

  lemma BufferSize(size: nat)
    ensures (size + 3) / 3 * 4 == (size + 2) / 3 * 4 + if size % 3 == 0 then 4 else 0
    ensures size / 3 * 4 + 4 == (size + 3) / 3 * 4
  {
  }

  lemma EncodedStep(s: seq<Byte>, i: nat)
    requires i + 3 <= |s|
    ensures Encoded(s[i..]) == Group(s[i], s[i + 1], s[i + 2]) + Encoded(s[i + 3..])
  {
    hide Group;
    assert s[i..][3..] == s[i + 3..];
  }

  lemma EncodedLast(s: seq<Byte>, i: nat)
    requires i <= |s| < i + 3
    ensures |s| == i ==> Encoded(s[i..]) == []
    ensures |s| == i + 1 ==> Encoded(s[i..]) == Group(s[i], 0, 0)[..2] + [PAD, PAD]
    ensures |s| == i + 2 ==> Encoded(s[i..]) == Group(s[i], s[i + 1], 0)[..3] + [PAD]
  {
    hide Group;
  }

  // The characters of a buffer up to its first NUL.
  function CString(s: seq<Byte>): seq<Byte> {
    if s == [] || s[0] == 0 then [] else [s[0]] + CString(s[1..])
  }

  lemma {:induction false} CStringOf(text: seq<Byte>, buffer: seq<Byte>)
    requires |text| < |buffer| && buffer[..|text|] == text && buffer[|text|] == 0
    requires forall k :: 0 <= k < |text| ==> text[k] != 0
    ensures CString(buffer) == text
  {
    if text != [] {
      assert text[0] == buffer[0];
      CStringOf(text[1..], buffer[1..]);
    }
  }

  // Main result: metadata serialized, base64-encoded into its buffer, read up to the
  // first NUL, decoded and unpacked again is the metadata, with nothing left over.
  method PackMetadata(utf8: seq<Byte> -> Option<string>, v: Codec.Value) returns (buffer: array<Byte>)
    requires Codec.Fits(v)
    ensures match Decoded(CString(buffer[..]))
            case None => false
            case Some(bytes) =>
              && Codec.Decode(utf8, bytes) == Codec.Then(Codec.View(utf8, v), [])
              && match Codec.Decode(utf8, bytes)
                 case None => Codec.Raises(utf8, v)
                 case Some(d) => !Codec.Raises(utf8, v) && Codec.Sees(utf8, v, d.value) && d.rest == []
  {
    hide Codec.Raises, Codec.Sees, Codec.Decode, Codec.View, Encoded, Decoded, CString;
    var packed := Codec.Serialize(v);
    buffer := Encode(packed);
    EncodedLength(Codec.Encode(v));
    CStringOf(Encoded(Codec.Encode(v)), buffer[..]);
    DecodeEncode(Codec.Encode(v));
    Codec.RoundTrip(utf8, v, []);
    Codec.DecodedIsSeen(utf8, v, []);
    assert Codec.Encode(v) + [] == Codec.Encode(v);
  }
}
