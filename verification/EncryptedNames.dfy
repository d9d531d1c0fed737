/** Encrypted entry names: AES-GCM, then unpadded URL-safe base64 (section 5 of RFC 4648). */
module EncryptedNames {
  import opened Common
  import opened EncryptedStream

  type Sextet = v: int | 0 <= v < 64

  function Symbol(v: Sextet): char {
    if v < 26 then 'A' + v as char
    else if v < 52 then 'a' + (v - 26) as char
    else if v < 62 then '0' + (v - 52) as char
    else if v == 62 then '-' else '_'
  }

  function Value(c: char): Option<Sextet> {
    if 'A' <= c <= 'Z' then Some((c - 'A') as int)
    else if 'a' <= c <= 'z' then Some((c - 'a') as int + 26)
    else if '0' <= c <= '9' then Some((c - '0') as int + 52)
    else if c == '-' then Some(62)
    else if c == '_' then Some(63)
    else None
  }

  /** A character of the alphabet: never a separator, a dot, a blank or the pad. */
  predicate InAlphabet(c: char) {
    Value(c).Some?
  }

  // Three bytes are four sextets; bits run from the most significant down.
  function First(b0: byte): Sextet { b0 as int / 4 }
  function Second(b0: byte, b1: byte): Sextet { b0 as int % 4 * 16 + b1 as int / 16 }
  function Third(b1: byte, b2: byte): Sextet { b1 as int % 16 * 4 + b2 as int / 64 }
  function Fourth(b2: byte): Sextet { b2 as int % 64 }
  function Byte0(d0: Sextet, d1: Sextet): byte { (d0 * 4 + d1 / 16) as byte }
  function Byte1(d1: Sextet, d2: Sextet): byte { (d1 % 16 * 16 + d2 / 4) as byte }
  function Byte2(d2: Sextet, d3: Sextet): byte { (d2 % 4 * 64 + d3) as byte }

  function Encode(b: Bytes): string {
    if b == [] then ""
    else if |b| == 1 then
      [Symbol(First(b[0])), Symbol(Second(b[0], 0)), '=', '=']
    else if |b| == 2 then
      [Symbol(First(b[0])), Symbol(Second(b[0], b[1])), Symbol(Third(b[1], 0)), '=']
    else
      [Symbol(First(b[0])), Symbol(Second(b[0], b[1])), Symbol(Third(b[1], b[2])), Symbol(Fourth(b[2]))]
      + Encode(b[3..])
  }

  /** Whole groups of four; pads only at the end; any other character is an error. */
  function Decode64(s: string): Option<Bytes> {
    if s == "" then Some([])
    else if |s| < 4 || Value(s[0]).None? || Value(s[1]).None? then None
    else
      var d0, d1 := Value(s[0]).value, Value(s[1]).value;
      if s[2..] == "==" then Some([Byte0(d0, d1)])
      else if Value(s[2]).None? then None
      else
        var d2 := Value(s[2]).value;
        if s[3..] == "=" then Some([Byte0(d0, d1), Byte1(d1, d2)])
        else if Value(s[3]).None? || Decode64(s[4..]).None? then None
        else
          var d3 := Value(s[3]).value;
          Some([Byte0(d0, d1), Byte1(d1, d2), Byte2(d2, d3)] + Decode64(s[4..]).value)
  }

  lemma BitsRoundTrip(b0: byte, b1: byte, b2: byte)
    ensures Byte0(First(b0), Second(b0, b1)) == b0
    ensures Byte1(Second(b0, b1), Third(b1, b2)) == b1
    ensures Byte2(Third(b1, b2), Fourth(b2)) == b2
  {
  }

  /** The test vectors of section 10 of RFC 4648, and the two symbols of its section 5. */
  lemma KnownEncodings()
    ensures Encode([0x66]) == "Zg==" && Encode([0x66, 0x6f]) == "Zm8=" && Encode([0x66, 0x6f, 0x6f]) == "Zm9v"
    ensures Encode([0x66, 0x6f, 0x6f, 0x62, 0x61, 0x72]) == "Zm9vYmFy"
    ensures Encode([0xfb, 0xff, 0xfe]) == "-__-"
  {
    assert [0x66, 0x6f, 0x6f, 0x62, 0x61, 0x72 as byte][3..] == [0x62, 0x61, 0x72];
    assert Encode([0x62, 0x61, 0x72]) == "YmFy";
  }

  /** The four sextets are the bits of the three bytes, the most significant first. */
  lemma GroupIsNumber(b0: byte, b1: byte, b2: byte)
    ensures First(b0) * 0x4_0000 + Second(b0, b1) * 0x1000 + Third(b1, b2) * 0x40 + Fourth(b2) ==
            b0 as int * 0x1_0000 + b1 as int * 0x100 + b2 as int
  {
  }

  lemma SymbolValue(v: Sextet)
    ensures Value(Symbol(v)) == Some(v) && Symbol(v) != '='
  {
  }

  lemma SymbolValues(b0: byte, b1: byte, b2: byte)
    ensures Value(Symbol(First(b0))) == Some(First(b0))
    ensures Value(Symbol(Second(b0, b1))) == Some(Second(b0, b1))
    ensures Value(Symbol(Third(b1, b2))) == Some(Third(b1, b2)) && Symbol(Third(b1, b2)) != '='
    ensures Value(Symbol(Fourth(b2))) == Some(Fourth(b2)) && Symbol(Fourth(b2)) != '='
  {
    hide Symbol, Value, First, Second, Third, Fourth;
    SymbolValue(First(b0));
    SymbolValue(Second(b0, b1));
    SymbolValue(Third(b1, b2));
    SymbolValue(Fourth(b2));
  }

  lemma {:induction false} Base64RoundTrip(b: Bytes)
    ensures Decode64(Encode(b)) == Some(b)
  {
    hide Symbol, Value, First, Second, Third, Fourth, Byte0, Byte1, Byte2;
    var s := Encode(b);
    if |b| > 0 {
      var b1 := if |b| > 1 then b[1] else 0;
      var b2 := if |b| > 2 then b[2] else 0;
      BitsRoundTrip(b[0], b1, b2);
      SymbolValues(b[0], b1, b2);
      if |b| == 1 {
        assert s[2..] == "==" && b == [b[0]];
      } else if |b| == 2 {
        assert s[2..][0] != '=' && s[3..] == "=";
        assert b == [b[0], b[1]];
      } else {
        Base64RoundTrip(b[3..]);
        FullGroup(b);
      }
    }
  }

  lemma FullGroup(b: Bytes)
    requires |b| > 2 && Decode64(Encode(b[3..])) == Some(b[3..])
    ensures Decode64(Encode(b)) == Some(b)
  {
    hide Symbol, Value, First, Second, Third, Fourth, Byte0, Byte1, Byte2, Decode64;
    BitsRoundTrip(b[0], b[1], b[2]);
    SymbolValues(b[0], b[1], b[2]);
    DecodeGroup(Symbol(First(b[0])), Symbol(Second(b[0], b[1])), Symbol(Third(b[1], b[2])), Symbol(Fourth(b[2])),
                Encode(b[3..]));
    assert b == [b[0], b[1], b[2]] + b[3..];
  }

  lemma DecodeGroup(c0: char, c1: char, c2: char, c3: char, rest: string)
    requires Value(c0).Some? && Value(c1).Some? && Value(c2).Some? && Value(c3).Some? && c2 != '=' && c3 != '='
    requires Decode64(rest).Some?
    ensures var d0, d1, d2, d3 := Value(c0).value, Value(c1).value, Value(c2).value, Value(c3).value;
            Decode64([c0, c1, c2, c3] + rest) ==
              Some([Byte0(d0, d1), Byte1(d1, d2), Byte2(d2, d3)] + Decode64(rest).value)
  {
    hide Value, Byte0, Byte1, Byte2;
    var s := [c0, c1, c2, c3] + rest;
    assert s[2..][0] == c2 && s[3..][0] == c3 && s[4..] == rest;
  }

  // ----- Padding -----

  /** `rstrip("=")`. */
  function StripPads(s: string): string {
    if s != "" && s[|s| - 1] == '=' then StripPads(s[..|s| - 1]) else s
  }

  function Pads(n: nat): string {
    seq(n, _ => '=')
  }

  /** The pads that make a length a multiple of four. */
  function PadTo4(s: string): string {
    s + Pads((-|s|) % 4)
  }

  predicate AllSymbols(s: string) {
    forall i | 0 <= i < |s| :: InAlphabet(s[i])
  }

  /** Without its pads an encoding is symbols only, and the length alone says how many pads to put back. */
  lemma {:induction false} Unpadded(b: Bytes)
    ensures AllSymbols(StripPads(Encode(b)))
    ensures PadTo4(StripPads(Encode(b))) == Encode(b)
    ensures |StripPads(Encode(b))| == (4 * |b| + 2) / 3
  {
    var plain, pads := SymbolsAndPads(b);
    StripEnd(plain, pads);
  }

  /** An encoding is symbols followed by at most two pads. */
  lemma {:induction false} SymbolsAndPads(b: Bytes) returns (plain: string, pads: nat)
    ensures Encode(b) == plain + Pads(pads) && AllSymbols(plain)
    ensures |plain| == (4 * |b| + 2) / 3 && pads == (-|plain|) % 4
  {
    hide Symbol, Value, First, Second, Third, Fourth;
    var s := Encode(b);
    if |b| == 0 {
      plain, pads := "", 0;
    } else if |b| == 1 {
      SymbolValues(b[0], 0, 0);
      plain, pads := s[..2], 2;
    } else if |b| == 2 {
      SymbolValues(b[0], b[1], 0);
      plain, pads := s[..3], 1;
    } else {
      SymbolValues(b[0], b[1], b[2]);
      assert AllSymbols(s[..4]) && s == s[..4] + Encode(b[3..]);
      var rest;
      rest, pads := SymbolsAndPads(b[3..]);
      plain := s[..4] + rest;
      MoreSymbols(s[..4], rest, pads, |b| - 3);
    }
  }

  lemma MoreSymbols(group: string, rest: string, pads: nat, n: nat)
    requires |group| == 4 && AllSymbols(group) && AllSymbols(rest)
    requires |rest| == (4 * n + 2) / 3 && pads == (-|rest|) % 4
    ensures AllSymbols(group + rest) && group + (rest + Pads(pads)) == (group + rest) + Pads(pads)
    ensures |group + rest| == (4 * (n + 3) + 2) / 3 && pads == (-|group + rest|) % 4
  {
    hide InAlphabet, Pads;
  }

  lemma {:induction false} StripEnd(s: string, n: nat)
    requires AllSymbols(s)
    ensures StripPads(s + Pads(n)) == s
  {
    hide InAlphabet;
    var t := s + Pads(n);
    if n == 0 {
      assert t == s;
      NoPadAtEnd(s);
    } else {
      StripEnd(s, n - 1);
      assert t[|t| - 1] == '=';
      assert t[..|t| - 1] == s + Pads(n - 1);
    }
  }

  lemma NoPadAtEnd(s: string)
    requires AllSymbols(s)
    ensures StripPads(s) == s
  {
    if s != "" {
      assert InAlphabet(s[|s| - 1]);
    }
  }

  // ----- Names -----

  const UUID_LENGTH := 36

  /** A name as its UTF-8 bytes. */
  type Name = Bytes

  function EncryptName(c: Cipher, iv: Bytes, name: Name): string {
    StripPads(Encode(iv + c.encrypt(iv, name)))
  }

  function DecryptName(c: Cipher, encName: string): Option<Name> {
    var payload := Decode64(PadTo4(encName));
    if payload.None? || |payload.value| < IV_SIZE then None
    else c.decrypt(payload.value[..IV_SIZE], payload.value[IV_SIZE..])
  }

  /** Decrypting an encrypted name gives the name back, whatever iv was drawn. */
  lemma NameRoundTrip(c: Cipher, iv: Bytes, name: Name)
    requires Lawful(c) && |iv| == IV_SIZE
    ensures DecryptName(c, EncryptName(c, iv, name)) == Some(name)
  {
    var payload := iv + c.encrypt(iv, name);
    Unpadded(payload);
    Base64RoundTrip(payload);
    assert payload[..IV_SIZE] == iv && payload[IV_SIZE..] == c.encrypt(iv, name);
  }

  /** Encrypted names can stand in a key: symbols only, never empty, so never hidden, a separator or a dot segment. */
  lemma NameIsPlainSegment(c: Cipher, iv: Bytes, name: Name)
    requires Lawful(c) && |iv| == IV_SIZE
    ensures var e := EncryptName(c, iv, name);
            && AllSymbols(e) && |e| == (4 * (IV_SIZE + |name| + TAG_SIZE) + 2) / 3
            && '/' !in e && '.' !in e && '\\' !in e && ' ' !in e
  {
    Unpadded(iv + c.encrypt(iv, name));
  }

  /** Different names never share an encrypted name. */
  lemma NamesNeverCollide(c: Cipher, iv: Bytes, name: Name, iv': Bytes, name': Name)
    requires Lawful(c) && |iv| == IV_SIZE && |iv'| == IV_SIZE
    requires EncryptName(c, iv, name) == EncryptName(c, iv', name')
    ensures name == name'
  {
    NameRoundTrip(c, iv, name);
    NameRoundTrip(c, iv', name');
  }

  lemma {:induction false} DecodedLength(s: string)
    requires Decode64(s).Some?
    ensures 4 * |Decode64(s).value| <= 3 * |s|
  {
    hide Byte0, Byte1, Byte2, Value;
    if s != "" && s[2..] != "==" && s[3..] != "=" {
      DecodedLength(s[4..]);
    }
  }

  /** A UUID's text never decrypts: its 27 bytes are fewer than an iv and a tag. */
  lemma UuidIsNoName(c: Cipher, e: string)
    requires Lawful(c) && |e| == UUID_LENGTH
    ensures DecryptName(c, e).None?
  {
    hide Decode64;
    assert PadTo4(e) == e;
    if Decode64(e).Some? {
      DecodedLength(e);
    }
  }
}
