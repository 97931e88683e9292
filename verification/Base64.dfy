/**
 The base64url encoder and decoder of the console and the streaming decoder of the updater
 (RFC 4648, sections 4 and 5).
 */
module Base64 {
  import opened Wrappers
  import Byte8
  import Utf8

  type Byte = bv8
  type Sextet = x: bv8 | x < 64

  // ---------------------------------------------------------------- the format

  function First(a: Sextet, b: Sextet): Byte {
    (a << 2) | (b >> 4)
  }

  function Second(b: Sextet, c: Sextet): Byte {
    ((b & 15) << 4) | (c >> 2)
  }

  function Third(c: Sextet, d: Sextet): Byte {
    ((c & 3) << 6) | d
  }

  function Group0(x: Byte): Sextet {
    x >> 2
  }

  function Group1(x: Byte, y: Byte): Sextet {
    ((x & 3) << 4) | (y >> 4)
  }

  function Group2(y: Byte, z: Byte): Sextet {
    ((y & 15) << 2) | (z >> 6)
  }

  function Group3(z: Byte): Sextet {
    z & 63
  }

  /** Section 4: three bytes as four groups of six bits, a shorter last group filled up with zero bits. */
  function Sextets(bytes: seq<Byte>): seq<Sextet> {
    if bytes == [] then []
    else if |bytes| == 1 then [Group0(bytes[0]), Group1(bytes[0], 0)]
    else if |bytes| == 2 then [Group0(bytes[0]), Group1(bytes[0], bytes[1]), Group2(bytes[1], 0)]
    else [Group0(bytes[0]), Group1(bytes[0], bytes[1]), Group2(bytes[1], bytes[2]), Group3(bytes[2])] + Sextets(bytes[3..])
  }

  /** The whole bytes in the groups of six bits; bits left over are dropped. */
  function Bytes(vs: seq<Sextet>): seq<Byte> {
    if |vs| < 2 then []
    else if |vs| == 2 then [First(vs[0], vs[1])]
    else if |vs| == 3 then [First(vs[0], vs[1]), Second(vs[1], vs[2])]
    else [First(vs[0], vs[1]), Second(vs[1], vs[2]), Third(vs[2], vs[3])] + Bytes(vs[4..])
  }

  /** What the bits of the last group say that are not in a whole byte. */
  function Left(vs: seq<Sextet>): Byte {
    if |vs| % 4 == 0 then 0
    else if |vs| % 4 == 1 then vs[|vs| - 1]
    else if |vs| % 4 == 2 then vs[|vs| - 1] & 15
    else vs[|vs| - 1] & 3
  }

  lemma {:induction false} BytesOfSextets(bytes: seq<Byte>)
    ensures Bytes(Sextets(bytes)) == bytes
  {
    if |bytes| >= 3 {
      BytesOfSextets(bytes[3..]);
      assert Sextets(bytes)[4..] == Sextets(bytes[3..]);
      assert bytes == bytes[..3] + bytes[3..];
    }
  }

  ghost predicate Reencodes(vs: seq<Sextet>) {
    Sextets(Bytes(vs)) == vs
  }

  predicate Canonical(vs: seq<Sextet>) {
    |vs| % 4 != 1 && Left(vs) == 0
  }

  /** Groups of six bits are those an encoder writes exactly when no group is alone and the bits left over are zero. */
  lemma {:induction false} CanonicalIff(vs: seq<Sextet>)
    ensures Reencodes(vs) <==> Canonical(vs)
  {
    if |vs| >= 4 {
      CanonicalIff(vs[4..]);
      GroupOff(vs);
      CanonicalRest(vs);
    } else {
      ShortCanonical(vs);
    }
  }

  lemma ShortCanonical(vs: seq<Sextet>)
    requires |vs| < 4
    ensures Reencodes(vs) <==> Canonical(vs)
  {
    var back := Sextets(Bytes(vs));
    if |vs| == 2 {
      assert back[0] == vs[0] && (back[1] == vs[1] <==> Left(vs) == 0);
    } else if |vs| == 3 {
      assert back[0] == vs[0] && back[1] == vs[1] && (back[2] == vs[2] <==> Left(vs) == 0);
    }
  }

  lemma GroupOff(vs: seq<Sextet>)
    requires |vs| >= 4
    ensures Reencodes(vs) <==> Reencodes(vs[4..])
  {
    var rest, group := vs[4..], vs[..4];
    BackAgain(vs);
    assert vs == group + rest;
    SamePrefix(group, Sextets(Bytes(rest)), rest);
  }

  lemma CanonicalRest(vs: seq<Sextet>)
    requires |vs| >= 4
    ensures Canonical(vs) <==> Canonical(vs[4..])
  {
  }

  lemma BackAgain(vs: seq<Sextet>)
    requires |vs| >= 4
    ensures Sextets(Bytes(vs)) == vs[..4] + Sextets(Bytes(vs[4..]))
  {
    ThreeBytes(First(vs[0], vs[1]), Second(vs[1], vs[2]), Third(vs[2], vs[3]), Bytes(vs[4..]));
    GroupsBack(vs[0], vs[1], vs[2], vs[3]);
    FourOf(vs);
  }

  lemma FourOf<T>(vs: seq<T>)
    requires |vs| >= 4
    ensures vs[..4] == [vs[0], vs[1], vs[2], vs[3]]
  {
  }

  lemma GroupsBack(a: Sextet, b: Sextet, c: Sextet, d: Sextet)
    ensures Group0(First(a, b)) == a && Group1(First(a, b), Second(b, c)) == b
    ensures Group2(Second(b, c), Third(c, d)) == c && Group3(Third(c, d)) == d
  {
  }

  lemma ThreeBytes(x: Byte, y: Byte, z: Byte, rest: seq<Byte>)
    ensures Sextets([x, y, z] + rest) == [Group0(x), Group1(x, y), Group2(y, z), Group3(z)] + Sextets(rest)
  {
    assert ([x, y, z] + rest)[3..] == rest;
  }

  lemma SamePrefix(p: seq<Sextet>, x: seq<Sextet>, y: seq<Sextet>)
    ensures p + x == p + y <==> x == y
  {
    if p + x == p + y {
      assert x == (p + x)[|p|..] && y == (p + y)[|p|..];
    }
  }

  // ---------------------------------------------------------- bits of the format

  /** Four groups of six bits, and three bytes, as one number of twenty-four bits, the first on top. */
  function OfGroups(a: Sextet, b: Sextet, c: Sextet, d: Sextet): bv24 {
    (a as bv24 << 18) | (b as bv24 << 12) | (c as bv24 << 6) | d as bv24
  }

  function OfBytes(x: Byte, y: Byte, z: Byte): bv24 {
    (x as bv24 << 16) | (y as bv24 << 8) | z as bv24
  }

  /** The four groups from `at` on are these three bytes. */
  predicate AreBytes(vs: seq<Sextet>, at: nat, x: Byte, y: Byte, z: Byte) {
    at + 3 < |vs| && OfGroups(vs[at], vs[at + 1], vs[at + 2], vs[at + 3]) == OfBytes(x, y, z)
  }

  /** Section 4: each three bytes are four groups of six bits, in order. */
  lemma {:induction false} GroupsAt(bytes: seq<Byte>, k: nat)
    requires 3 * k + 2 < |bytes|
    ensures AreBytes(Sextets(bytes), 4 * k, bytes[3 * k], bytes[3 * k + 1], bytes[3 * k + 2])
  {
    var head := [Group0(bytes[0]), Group1(bytes[0], bytes[1]), Group2(bytes[1], bytes[2]), Group3(bytes[2])];
    var rest := Sextets(bytes[3..]);
    assert Sextets(bytes) == head + rest;
    if k == 0 {
      GroupsOf(bytes[0], bytes[1], bytes[2]);
    } else {
      GroupsAt(bytes[3..], k - 1);
      FurtherOn(head, rest, 4 * (k - 1), bytes[3 * k], bytes[3 * k + 1], bytes[3 * k + 2]);
    }
  }

  lemma FurtherOn(head: seq<Sextet>, rest: seq<Sextet>, at: nat, x: Byte, y: Byte, z: Byte)
    requires |head| == 4 && AreBytes(rest, at, x, y, z)
    ensures AreBytes(head + rest, at + 4, x, y, z)
  {
  }

  lemma GroupsOf(x: Byte, y: Byte, z: Byte)
    ensures OfGroups(Group0(x), Group1(x, y), Group2(y, z), Group3(z)) == OfBytes(x, y, z)
  {
  }

  /** There are as many groups as the bits need, the last filled up with zero bits. */
  lemma {:induction false} FilledUp(bytes: seq<Byte>)
    ensures |Sextets(bytes)| == (8 * |bytes| + 5) / 6 && Sextets(bytes) <= Sextets(bytes + [0, 0])
  {
    if |bytes| >= 3 {
      FilledUp(bytes[3..]);
      assert (bytes + [0, 0])[3..] == bytes[3..] + [0, 0];
    }
  }

  // ------------------------------------------------------------------- symbols

  const UPPER := "ABCDEFGHIJKLMNOPQRSTUVWXYZ"
  const LOWER := "abcdefghijklmnopqrstuvwxyz"
  const DIGITS := "0123456789"
  const STANDARD := UPPER + LOWER + DIGITS + "+/"

  function UrlOf(c: char): char {
    if c == '+' then '-' else if c == '/' then '_' else c
  }

  function StandardOf(c: char): char {
    if c == '-' then '+' else if c == '_' then '/' else c
  }

  function Char(v: Sextet): char {
    STANDARD[v as nat]
  }

  function SextetOf(n: nat): (v: Sextet)
    requires n < 64
    ensures v as nat == n
  {
    Byte8.ByteBack(n);
    n as bv8
  }

  function ValueOf(c: nat): (n: Option<nat>)
    ensures n.Some? ==> n.value < 64
  {
    if 65 <= c <= 90 then Some(c - 65)
    else if 97 <= c <= 122 then Some(c - 97 + 26)
    else if 48 <= c <= 57 then Some(c - 48 + 52)
    else if c == 43 then Some(62)
    else if c == 47 then Some(63)
    else None
  }

  /** Either alphabet. */
  function SymbolValue(c: nat): (n: Option<nat>)
    ensures n.Some? ==> n.value < 64
  {
    if c == 45 then Some(62) else if c == 95 then Some(63) else ValueOf(c)
  }

  function Bits(n: Option<nat>): Option<Sextet>
    requires n.Some? ==> n.value < 64
  {
    if n.Some? then Some(SextetOf(n.value)) else None
  }

  function Val(c: nat): Option<Sextet> {
    Bits(ValueOf(c))
  }

  function Symbol(c: nat): Option<Sextet> {
    Bits(SymbolValue(c))
  }

  lemma Ranges(n: nat)
    ensures |UPPER| == |LOWER| == 26 && |DIGITS| == 10
    ensures n < 26 ==> UPPER[n] as nat == 65 + n && LOWER[n] as nat == 97 + n
    ensures n < 10 ==> DIGITS[n] as nat == 48 + n
  {
  }

  lemma Table(n: nat)
    requires n < 64
    ensures |STANDARD| == 64
    ensures STANDARD[n] as nat == if n < 26 then 65 + n else if n < 52 then 71 + n else if n < 62 then n - 4 else if n == 62 then 43 else 47
  {
    Ranges(if n < 26 then n else if n < 52 then n - 26 else if n < 62 then n - 52 else 0);
  }

  lemma TableInverse(n: nat)
    requires n < 64
    ensures |STANDARD| == 64
    ensures ValueOf(STANDARD[n] as nat) == Some(n) && SymbolValue(UrlOf(STANDARD[n]) as nat) == Some(n)
  {
    Table(n);
  }

  /** Each group of six bits is read back from its character in either alphabet. */
  lemma CharIs(v: Sextet)
    ensures Val(Char(v) as nat) == Some(v) && Symbol(UrlOf(Char(v)) as nat) == Some(v)
  {
    TableInverse(v as nat);
    SameSextet(v);
  }

  lemma SameSextet(v: Sextet)
    ensures SextetOf(v as nat) == v
  {
    Byte8.SameByte(v);
  }

  lemma TableOfValue(c: char)
    requires SymbolValue(c as nat).Some?
    ensures |STANDARD| == 64
    ensures UrlOf(STANDARD[SymbolValue(c as nat).value]) == c <==> c != '+' && c != '/'
  {
    Table(SymbolValue(c as nat).value);
  }

  lemma SymbolIs(c: char)
    ensures Symbol(c as nat) == Val(StandardOf(c) as nat)
    ensures Symbol(c as nat).Some? ==> (UrlOf(Char(Symbol(c as nat).value)) == c <==> c != '+' && c != '/')
  {
    assert SymbolValue(c as nat) == ValueOf(StandardOf(c) as nat);
    if SymbolValue(c as nat).Some? {
      TableOfValue(c);
    }
  }

  /** The alphabet of section 5, by code: A to Z, a to z, 0 to 9, `-` and `_`. */
  lemma UrlTable(v: Sextet)
    ensures var n, code := v as nat, UrlOf(Char(v)) as nat;
            && (n < 26 ==> code == 65 + n) && (26 <= n < 52 ==> code == 97 + (n - 26)) && (52 <= n < 62 ==> code == 48 + (n - 52))
            && (n == 62 ==> code == 45) && (n == 63 ==> code == 95)
  {
    Table(v as nat);
  }

  // ------------------------------------------------------------------- encoder

  function Text(vs: seq<Sextet>): (s: string)
    ensures |s| == |vs|
  {
    seq(|vs|, i requires 0 <= i < |vs| => UrlOf(Char(vs[i])))
  }

  function Encoded(bytes: seq<Byte>): string {
    Text(Sextets(bytes))
  }

  function Dropped(bytes: seq<Byte>, i: nat): seq<Byte> {
    if i <= |bytes| then bytes[i..] else []
  }

  /** `s` spells these values in the standard alphabet. */
  ghost predicate Spells(s: string, vs: seq<Sextet>) {
    |s| == |vs| && forall j :: 0 <= j < |s| ==> s[j] == Char(vs[j])
  }

  /** `s` spells the groups of the first `i` bytes. */
  ghost predicate SpelledUpTo(bytes: seq<Byte>, i: nat, s: string, vs: seq<Sextet>) {
    Written(bytes, i, vs) && Spells(s, vs)
  }

  method BytesToB64url(bytes: seq<Byte>) returns (s: string)
    ensures s == Encoded(bytes)
  {
    s := "";
    ghost var vs: seq<Sextet> := [];
    NothingWritten(bytes);
    var i := 0;
    while i < |bytes|
      invariant SpelledUpTo(bytes, i, s, vs)
    {
      s, vs := SpellGroup(bytes, i, s, vs);
      i := i + 3;
    }
    AllWritten(bytes, i, vs, s);
    s := Url(s);
  }

  lemma NothingWritten(bytes: seq<Byte>)
    ensures SpelledUpTo(bytes, 0, "", [])
  {
    assert Dropped(bytes, 0) == bytes && [] + Sextets(bytes) == Sextets(bytes);
  }

  method SpellGroup(bytes: seq<Byte>, i: nat, s: string, ghost vs: seq<Sextet>) returns (s': string, ghost vs': seq<Sextet>)
    requires i < |bytes| && SpelledUpTo(bytes, i, s, vs)
    ensures SpelledUpTo(bytes, i + 3, s', vs')
  {
    var part := WriteGroup(bytes, i);
    s', vs' := s + part, vs + GroupAt(bytes, i);
    OneMoreGroup(bytes, i, vs);
    SpellsOn(s, vs, part, GroupAt(bytes, i));
  }

  lemma SpellsOn(s: string, vs: seq<Sextet>, t: string, ws: seq<Sextet>)
    requires Spells(s, vs) && Spells(t, ws)
    ensures Spells(s + t, vs + ws)
  {
  }

  /** The groups of the first `i` bytes. */
  ghost predicate Written(bytes: seq<Byte>, i: nat, vs: seq<Sextet>) {
    vs + Sextets(Dropped(bytes, i)) == Sextets(bytes)
  }

  function Url(s: string): string {
    seq(|s|, j requires 0 <= j < |s| => UrlOf(s[j]))
  }

  lemma AllWritten(bytes: seq<Byte>, i: nat, vs: seq<Sextet>, s: string)
    requires i >= |bytes| && SpelledUpTo(bytes, i, s, vs)
    ensures Url(s) == Encoded(bytes)
  {
    assert Dropped(bytes, i) == [];
    assert vs == Sextets(bytes);
  }

  lemma OneMoreGroup(bytes: seq<Byte>, i: nat, vs: seq<Sextet>)
    requires i < |bytes| && Written(bytes, i, vs)
    ensures Written(bytes, i + 3, vs + GroupAt(bytes, i))
  {
    NextGroup(bytes, i);
    var y, z := GroupAt(bytes, i), Sextets(Dropped(bytes, i + 3));
    assert (vs + y) + z == vs + (y + z);
  }

  lemma SmallGroups(b0: Byte, b1: Byte, b2: Byte)
    ensures b0 >> 2 == Group0(b0) && ((b0 & 3) << 4) | (b1 >> 4) == Group1(b0, b1)
    ensures ((b1 & 15) << 2) | (b2 >> 6) == Group2(b1, b2) && b2 & 63 == Group3(b2)
  {
  }

  method FourChars(b0: Byte, b1: Byte, b2: Byte) returns (c0: char, c1: char, c2: char, c3: char)
    ensures c0 == Char(Group0(b0)) && c1 == Char(Group1(b0, b1)) && c2 == Char(Group2(b1, b2)) && c3 == Char(Group3(b2))
  {
    SmallGroups(b0, b1, b2);
    c0, c1 := Char(b0 >> 2), Char(((b0 & 3) << 4) | (b1 >> 4));
    c2, c3 := Char(((b1 & 15) << 2) | (b2 >> 6)), Char(b2 & 63);
  }

  method WriteGroup(bytes: seq<Byte>, i: nat) returns (s: string)
    requires i < |bytes|
    ensures Spells(s, GroupAt(bytes, i))
  {
    var b0 := bytes[i];
    var b1 := if i + 1 < |bytes| then bytes[i + 1] else 0;
    var b2 := if i + 2 < |bytes| then bytes[i + 2] else 0;
    var c0, c1, c2, c3 := FourChars(b0, b1, b2);
    s := [c0, c1];
    if i + 1 < |bytes| {
      s := s + [c2];
    }
    if i + 2 < |bytes| {
      s := s + [c3];
    }
  }

  ghost function GroupAt(bytes: seq<Byte>, i: nat): seq<Sextet>
    requires i < |bytes|
  {
    if i + 2 < |bytes| then [Group0(bytes[i]), Group1(bytes[i], bytes[i + 1]), Group2(bytes[i + 1], bytes[i + 2]), Group3(bytes[i + 2])]
    else if i + 1 < |bytes| then [Group0(bytes[i]), Group1(bytes[i], bytes[i + 1]), Group2(bytes[i + 1], 0)]
    else [Group0(bytes[i]), Group1(bytes[i], 0)]
  }

  lemma NextGroup(bytes: seq<Byte>, i: nat)
    requires i < |bytes|
    ensures GroupAt(bytes, i) + Sextets(Dropped(bytes, i + 3)) == Sextets(Dropped(bytes, i))
  {
    var rest := bytes[i..];
    if i + 2 < |bytes| {
      assert rest[3..] == bytes[i + 3..];
    } else {
      assert Dropped(bytes, i + 3) == [];
      assert Sextets(rest) == GroupAt(bytes, i);
    }
  }

  // ------------------------------------------------------------------- console decoder

  /** Length in UTF-16 code units. */
  function Units(t: string): nat {
    if t == "" then 0 else Units(t[..|t| - 1]) + if t[|t| - 1] as int < 0x1_0000 then 1 else 2
  }

  /** A character counts two units exactly when its UTF-8 takes four bytes, else one. */
  lemma {:induction false} UnitsByCode(s: string, t: string)
    ensures Units(s + t) == Units(s) + Units(t)
    ensures |s| == 1 ==> Units(s) == if |Utf8.Code(s[0])| == 4 then 2 else 1
  {
    if t == "" {
      assert s + t == s;
    } else {
      assert (s + t)[..|s + t| - 1] == s + t[..|t| - 1];
      UnitsByCode(s, t[..|t| - 1]);
    }
    assert |s| == 1 ==> s[..0] == "";
  }

  function StandardText(s: string): (t: string)
    ensures |t| == |s|
  {
    seq(|s|, i requires 0 <= i < |s| => StandardOf(s[i]))
  }

  function Pads(k: nat): string {
    seq(k, _ => '=')
  }

  /** `=` up to a multiple of four units. */
  function Padded(t: string): string {
    t + Pads((4 - Units(t) % 4) % 4)
  }

  /** What four values of the text give: none of the bytes after the first value that is missing. */
  function Quad(a: Option<Sextet>, b: Option<Sextet>, c: Option<Sextet>, d: Option<Sextet>): seq<Byte> {
    if a.None? || b.None? then []
    else if c.None? then [First(a.value, b.value)]
    else if d.None? then [First(a.value, b.value), Second(b.value, c.value)]
    else [First(a.value, b.value), Second(b.value, c.value), Third(c.value, d.value)]
  }

  function Quads(text: seq<nat>): seq<Byte> {
    if |text| < 4 then [] else Quad(Val(text[0]), Val(text[1]), Val(text[2]), Val(text[3])) + Quads(text[4..])
  }

  method PadText(t: string) returns (t': string)
    ensures t' == Padded(t)
  {
    t' := t;
    ghost var k := 0;
    while Units(t') % 4 != 0
      invariant t' == t + Pads(k) && k <= (4 - Units(t) % 4) % 4 && Units(t') == Units(t) + k
      decreases 4 - k
    {
      assert (t' + "=")[..|t'|] == t';
      t' := t' + "=";
      k := k + 1;
    }
  }

  method B64urlToBytes(s: string) returns (out: seq<Byte>)
    ensures out == Quads(Utf8.Codes(Padded(StandardText(s))))
  {
    var t := PadText(StandardText(s));
    var bytes := Utf8.Codes(t);
    out := [];
    var i := 0;
    assert bytes[0..] == bytes;
    while i + 3 < |bytes|
      invariant i <= |bytes| && out + Quads(bytes[i..]) == Quads(bytes)
    {
      NextQuad(bytes, i);
      var part := ReadQuad(Val(bytes[i]), Val(bytes[i + 1]), Val(bytes[i + 2]), Val(bytes[i + 3]));
      Rejoined(out, part, Quads(bytes[i + 4..]));
      out := out + part;
      i := i + 4;
    }
  }

  lemma NextQuad(text: seq<nat>, i: nat)
    requires i + 3 < |text|
    ensures Quads(text[i..]) == Quad(Val(text[i]), Val(text[i + 1]), Val(text[i + 2]), Val(text[i + 3])) + Quads(text[i + 4..])
  {
    assert text[i..][4..] == text[i + 4..];
  }

  lemma Rejoined(x: seq<Byte>, y: seq<Byte>, z: seq<Byte>)
    ensures (x + y) + z == x + (y + z)
  {
  }

  method ByteOne(a: Sextet, b: Sextet) returns (x: Byte)
    ensures x == First(a, b)
  {
    x := (a << 2) | (b >> 4);
  }

  method ByteTwo(b: Sextet, c: Sextet) returns (x: Byte)
    ensures x == Second(b, c)
  {
    x := ((b & 15) << 4) | (c >> 2);
  }

  method ByteThree(c: Sextet, d: Sextet) returns (x: Byte)
    ensures x == Third(c, d)
  {
    x := ((c & 3) << 6) | d;
  }

  method ReadQuad(a: Option<Sextet>, b: Option<Sextet>, c: Option<Sextet>, d: Option<Sextet>) returns (out: seq<Byte>)
    ensures out == Quad(a, b, c, d)
  {
    out := [];
    if a.Some? && b.Some? {
      var x := ByteOne(a.value, b.value);
      out := out + [x];
      if c.Some? {
        var y := ByteTwo(b.value, c.value);
        out := out + [y];
        if d.Some? {
          var z := ByteThree(c.value, d.value);
          out := out + [z];
        }
      }
    }
  }
}
