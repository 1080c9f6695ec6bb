/**
 UTF-8 as section 3 of RFC 3629 encodes it, the test of section 4 for what may be read back as text, and which
 beginnings of an encoded text pass that test.
 */
module TextEncoding {
  import opened Octets

  function Encoded(c: char): (bytes: Bytes)
    ensures 1 <= |bytes| <= 4 && (|bytes| == 1 <==> c as int < 0x80)
  {
    var n := c as int;
    if n < 0x80 then [n as byte]
    else if n < 0x800 then [(0xC0 + n / 0x40) as byte, (0x80 + n % 0x40) as byte]
    else if n < 0x1_0000 then [(0xE0 + n / 0x1000) as byte, (0x80 + n / 0x40 % 0x40) as byte, (0x80 + n % 0x40) as byte]
    else
      [(0xF0 + n / 0x4_0000) as byte, (0x80 + n / 0x1000 % 0x40) as byte,
       (0x80 + n / 0x40 % 0x40) as byte, (0x80 + n % 0x40) as byte]
  }

  function Utf8(text: string): Bytes {
    if text == "" then [] else Encoded(text[0]) + Utf8(text[1..])
  }

  /** The length of a sequence, by its first octet; zero when none starts with it. */
  function Lead(b: byte): nat {
    if b < 0x80 then 1
    else if 0xC2 <= b < 0xE0 then 2
    else if 0xE0 <= b < 0xF0 then 3
    else if 0xF0 <= b < 0xF5 then 4
    else 0
  }

  predicate Tail(b: byte) { 0x80 <= b < 0xC0 }

  /** Second octets are narrower where a longer sequence would encode a short or a forbidden code point. */
  predicate Second(first: byte, b: byte) {
    Tail(b) && (first == 0xE0 ==> b >= 0xA0) && (first == 0xED ==> b < 0xA0)
    && (first == 0xF0 ==> b >= 0x90) && (first == 0xF4 ==> b < 0x90)
  }

  predicate OneCharacter(bytes: Bytes) {
    && bytes != [] && |bytes| == Lead(bytes[0])
    && (|bytes| > 1 ==> Second(bytes[0], bytes[1]))
    && forall i | 2 <= i < |bytes| :: Tail(bytes[i])
  }

  /** Reading the bytes as text succeeds. */
  predicate IsText(bytes: Bytes) {
    bytes == [] ||
    (var n := Lead(bytes[0]);
     0 < n <= |bytes| && OneCharacter(bytes[..n]) && IsText(bytes[n..]))
  }

  lemma EncodedIsOne(c: char)
    ensures OneCharacter(Encoded(c))
  {
  }

  lemma OneInFront(first: Bytes, rest: Bytes)
    requires OneCharacter(first)
    ensures IsText(first + rest) <==> IsText(rest)
  {
    var bytes := first + rest;
    assert bytes[0] == first[0] && bytes[..|first|] == first && bytes[|first|..] == rest;
  }

  /** Text in front changes nothing about what follows it. */
  lemma {:induction false} TextInFront(text: string, rest: Bytes)
    ensures IsText(Utf8(text) + rest) <==> IsText(rest)
  {
    if text == "" {
      assert Utf8(text) + rest == rest;
    } else {
      var first, more := Encoded(text[0]), Utf8(text[1..]) + rest;
      EncodedIsOne(text[0]);
      assert Utf8(text) + rest == first + more;
      OneInFront(first, more);
      TextInFront(text[1..], rest);
    }
  }

  lemma EncodedTextIsText(text: string)
    ensures IsText(Utf8(text))
  {
    TextInFront(text, []);
    assert Utf8(text) + [] == Utf8(text);
  }

  lemma {:induction false} Utf8Concat(a: string, b: string)
    ensures Utf8(a + b) == Utf8(a) + Utf8(b)
  {
    if a == "" {
      assert a + b == b;
    } else {
      Utf8Concat(a[1..], b);
      assert (a + b)[1..] == a[1..] + b;
    }
  }

  /** The cut falls between two characters. */
  ghost predicate Boundary(text: string, cut: nat) {
    exists i :: 0 <= i <= |text| && |Utf8(text[..i])| == cut
  }

  lemma BoundaryAhead(text: string, cut: nat)
    requires text != "" && cut >= |Encoded(text[0])|
    ensures Boundary(text, cut) <==> Boundary(text[1..], cut - |Encoded(text[0])|)
  {
    var w := |Encoded(text[0])|;
    forall i | 0 <= i <= |text| - 1 ensures |Utf8(text[..i + 1])| == w + |Utf8(text[1..][..i])| {
      assert text[..i + 1][1..] == text[1..][..i];
    }
    if i :| 0 <= i <= |text| && |Utf8(text[..i])| == cut {
      assert i > 0;
      assert |Utf8(text[1..][..i - 1])| == cut - w;
    }
    if i :| 0 <= i <= |text[1..]| && |Utf8(text[1..][..i])| == cut - w {
      assert |Utf8(text[..i + 1])| == cut;
    }
  }

  /** A beginning of an encoded text reads as text exactly when the cut falls between two characters. */
  lemma {:induction false} CutReadsExactly(text: string, cut: nat)
    requires cut <= |Utf8(text)|
    ensures IsText(Utf8(text)[..cut]) <==> Boundary(text, cut)
  {
    if cut == 0 {
      assert Utf8(text[..0]) == [];
    } else {
      var first := Encoded(text[0]);
      var head := Utf8(text)[..cut];
      EncodedIsOne(text[0]);
      assert head[0] == first[0];
      if cut < |first| {
        assert !IsText(head);
        NoBoundaryInside(text, cut);
      } else {
        assert head[..|first|] == first && head[|first|..] == Utf8(text[1..])[..cut - |first|];
        CutReadsExactly(text[1..], cut - |first|);
        BoundaryAhead(text, cut);
      }
    }
  }

  lemma NoBoundaryInside(text: string, cut: nat)
    requires text != "" && 0 < cut < |Encoded(text[0])|
    ensures !Boundary(text, cut)
  {
    forall i | 0 <= i <= |text| ensures |Utf8(text[..i])| != cut {
      if i > 0 { assert text[..i][0] == text[0]; }
    }
  }

  predicate SingleByte(text: string) {
    forall c | c in text :: c as int < 0x80
  }

  lemma {:induction false} SingleByteLength(text: string)
    requires SingleByte(text)
    ensures |Utf8(text)| == |text|
  {
    if text != "" {
      assert text[0] in text && forall c | c in text[1..] :: c in text;
      SingleByteLength(text[1..]);
    }
  }

  /** Every cut of a text is readable exactly when all of its characters are single bytes. */
  lemma EveryCutReadsExactly(text: string)
    ensures (forall cut: nat | cut <= |Utf8(text)| :: IsText(Utf8(text)[..cut])) <==> SingleByte(text)
  {
    if SingleByte(text) {
      SingleByteLength(text);
      forall cut: nat | cut <= |Utf8(text)| ensures IsText(Utf8(text)[..cut]) {
        assert forall c | c in text[..cut] :: c in text;
        SingleByteLength(text[..cut]);
        CutReadsExactly(text, cut);
      }
    } else {
      var cut := CutInside(text);
    }
  }

  /** One byte into a multi-byte character. */
  lemma InsideCharacter(text: string, i: nat)
    requires i < |text| && text[i] as int >= 0x80
    ensures var cut := |Utf8(text[..i])| + 1;
            cut < |Utf8(text[..i + 1])| <= |Utf8(text)| && !IsText(Utf8(text)[..cut])
  {
    var before, rest := text[..i], text[i..];
    var cut := |Utf8(before)| + 1;
    assert text == before + rest && text == text[..i + 1] + text[i + 1..];
    Utf8Concat(before, rest);
    Utf8Concat(text[..i + 1], text[i + 1..]);
    assert text[..i + 1] == before + [text[i]];
    Utf8Concat(before, [text[i]]);
    assert Utf8([text[i]]) == Encoded(text[i]) + Utf8([text[i]][1..]);
    assert Utf8(text)[..cut] == Utf8(before) + Utf8(rest)[..1];
    TextInFront(before, Utf8(rest)[..1]);
    CutReadsExactly(rest, 1);
    NoBoundaryInside(rest, 1);
  }

  // ---------------------------------------------------------------------
  // Lines
  // ---------------------------------------------------------------------

  function WithNewline(text: string): string { text + "\n" }

  /** The newline is the last byte of a line, and without it the line still reads as text. */
  lemma NewlineIsLast(text: string)
    ensures Utf8(WithNewline(text)) == Utf8(text) + [10]
    ensures IsText(Utf8(WithNewline(text))) && IsText(Utf8(text))
    ensures SingleByte(WithNewline(text)) <==> SingleByte(text)
  {
    Utf8Concat(text, "\n");
    assert "\n"[1..] == "" && Utf8("\n") == Encoded('\n') + Utf8("\n"[1..]);
    EncodedTextIsText(text);
    EncodedTextIsText(WithNewline(text));
    assert forall c :: c in WithNewline(text) <==> c in text || c == '\n';
  }

  /** A cut of a line inside a character that takes more than one byte. */
  lemma CutInside(text: string) returns (cut: nat)
    requires !SingleByte(text)
    ensures 0 < cut < |Utf8(text)| && !IsText(Utf8(text)[..cut])
    ensures cut < |Utf8(WithNewline(text))| - 1 && !IsText(Utf8(WithNewline(text))[..cut])
  {
    var i :| 0 <= i < |text| && text[i] as int >= 0x80;
    InsideCharacter(text, i);
    cut := |Utf8(text[..i])| + 1;
    NewlineIsLast(text);
    assert Utf8(WithNewline(text))[..cut] == Utf8(text)[..cut];
  }

  /** The code point a sequence stands for: the payload bits of its octets. */
  function CodePoint(bytes: Bytes): int
    requires 1 <= |bytes| <= 4
  {
    var b := bytes[0] as int;
    if |bytes| == 1 then b
    else if |bytes| == 2 then (b - 0xC0) * 0x40 + Payload(bytes[1])
    else if |bytes| == 3 then (b - 0xE0) * 0x1000 + Payload(bytes[1]) * 0x40 + Payload(bytes[2])
    else (b - 0xF0) * 0x4_0000 + Payload(bytes[1]) * 0x1000 + Payload(bytes[2]) * 0x40 + Payload(bytes[3])
  }

  function Payload(b: byte): int { b as int - 0x80 }

  lemma Split2(a: int, b: int)
    requires 0 <= b < 0x40
    ensures (a * 0x40 + b) / 0x40 == a && (a * 0x40 + b) % 0x40 == b
  {
  }

  lemma Split3(a: int, b: int, c: int)
    requires 0 <= b < 0x40 && 0 <= c < 0x40
    ensures var n := a * 0x1000 + b * 0x40 + c;
            n / 0x1000 == a && n / 0x40 % 0x40 == b && n % 0x40 == c
  {
    Split2(a * 0x40 + b, c);
    Split2(a, b);
  }

  lemma Split4(a: int, b: int, c: int, d: int)
    requires 0 <= b < 0x40 && 0 <= c < 0x40 && 0 <= d < 0x40
    ensures var n := a * 0x4_0000 + b * 0x1000 + c * 0x40 + d;
            n / 0x4_0000 == a && n / 0x1000 % 0x40 == b && n / 0x40 % 0x40 == c && n % 0x40 == d
  {
    Split3(a * 0x40 + b, c, d);
    Split2(a, b);
  }

  lemma CodePointIsScalar(bytes: Bytes)
    requires OneCharacter(bytes)
    ensures var n := CodePoint(bytes);
            && (0 <= n < 0xD800 || 0xE000 <= n < 0x11_0000)
            && |bytes| == (if n < 0x80 then 1 else if n < 0x800 then 2 else if n < 0x1_0000 then 3 else 4)
  {
  }

  lemma DecodedEncodes(bytes: Bytes)
    requires OneCharacter(bytes) && (0 <= CodePoint(bytes) < 0xD800 || 0xE000 <= CodePoint(bytes) < 0x11_0000)
    ensures Encoded(CodePoint(bytes) as char) == bytes
  {
    CodePointIsScalar(bytes);
    var b := bytes[0] as int;
    if |bytes| == 2 {
      Split2(b - 0xC0, Payload(bytes[1]));
    } else if |bytes| == 3 {
      Split3(b - 0xE0, Payload(bytes[1]), Payload(bytes[2]));
    } else if |bytes| == 4 {
      Split4(b - 0xF0, Payload(bytes[1]), Payload(bytes[2]), Payload(bytes[3]));
    }
  }

  /** The test is exact: whatever passes is the encoding of some text. */
  lemma {:induction false} TextDecodes(bytes: Bytes) returns (text: string)
    requires IsText(bytes)
    ensures Utf8(text) == bytes
  {
    if bytes == [] {
      return "";
    }
    var n := Lead(bytes[0]);
    var c := DecodeFirst(bytes);
    var rest := TextDecodes(bytes[n..]);
    text := [c] + rest;
    assert text[1..] == rest && bytes == bytes[..n] + bytes[n..];
  }

  lemma DecodeFirst(bytes: Bytes) returns (c: char)
    requires bytes != [] && 0 < Lead(bytes[0]) <= |bytes| && OneCharacter(bytes[..Lead(bytes[0])])
    ensures Encoded(c) == bytes[..Lead(bytes[0])]
  {
    var first := bytes[..Lead(bytes[0])];
    CodePointIsScalar(first);
    DecodedEncodes(first);
    c := CodePoint(first) as char;
  }
}
