/** The streaming decoder of the updater, and what it has in common with the console's. */
module Base64Stream {
  import opened Wrappers
  import opened Base64
  import Utf8

  predicate Space(c: nat) {
    c == 0x20 || c == 0x09 || c == 0x0a || c == 0x0c || c == 0x0d
  }

  function NoSpaces(text: seq<nat>): seq<nat> {
    if text == [] then []
    else
      var rest := NoSpaces(text[..|text| - 1]);
      if Space(text[|text| - 1]) then rest else rest + [text[|text| - 1]]
  }

  /** Spaces, tabs, line feeds, form feeds and carriage returns may stand anywhere; anything else counts. */
  lemma {:induction false} SpaceIgnored(a: seq<nat>, c: nat, b: seq<nat>)
    ensures NoSpaces(a + [c] + b) == NoSpaces(a) + (if c in {9, 10, 12, 13, 32} then [] else [c]) + NoSpaces(b)
  {
    var all := a + [c] + b;
    if b == [] {
      assert all[..|a|] == a;
    } else {
      assert all[..|all| - 1] == a + [c] + b[..|b| - 1];
      SpaceIgnored(a, c, b[..|b| - 1]);
    }
  }

  /** The values of the symbols before the first `=`, when they all are symbols. */
  function Symbols(text: seq<nat>): Option<seq<Sextet>> {
    if text == [] || text[0] == 61 then Some([])
    else if Symbol(text[0]).None? || Symbols(text[1..]).None? then None
    else Some([Symbol(text[0]).value] + Symbols(text[1..]).value)
  }

  function Updater(text: seq<nat>): Option<seq<Byte>> {
    var symbols := NoSpaces(text);
    if symbols == [] || Symbols(symbols).None? then None else Some(Bytes(Symbols(symbols).value))
  }

  // ---------------------------------------------------------------- the buffer

  /** How many symbols of the current group of four have been read. */
  type Phase = p: nat | p < 4

  function NextPhase(p: Phase): Phase {
    if p == 3 then 0 else p + 1
  }

  function PhaseOf(vs: seq<Sextet>): Phase {
    |vs| % 4
  }

  /** Bits waiting in the buffer. */
  function Waiting(p: Phase): bv32 {
    if p == 0 then 0 else if p == 1 then 6 else if p == 2 then 4 else 2
  }

  /** What the bits waiting say after the symbol `v`. */
  function LeftNext(p: Phase, v: Sextet): Byte {
    if p == 0 then v else if p == 1 then v & 15 else if p == 2 then v & 3 else 0
  }

  /** The byte the symbol completes. */
  function Byte1(left: Byte, v: Sextet): Byte {
    (left << 2) | (v >> 4)
  }

  function Byte2(left: Byte, v: Sextet): Byte {
    (left << 4) | (v >> 2)
  }

  function Byte3(left: Byte, v: Sextet): Byte {
    (left << 6) | v
  }

  function NextByte(p: Phase, left: Byte, v: Sextet): Byte
    requires p > 0
  {
    if p == 1 then Byte1(left, v) else if p == 2 then Byte2(left, v) else Byte3(left, v)
  }

  predicate LeftFits(p: Phase, left: Byte) {
    if p == 0 then left == 0 else if p == 1 then left < 64 else if p == 2 then left < 16 else left < 4
  }

  /** What `as u8` keeps. */
  function LowByte(w: bv32): Byte {
    (w & 0xff) as bv8
  }

  lemma TopByte(left: Byte, v: Sextet, w: bv32)
    requires w == (left as bv32 << 6) | v as bv32
    ensures left < 64 ==> LowByte(w >> 4) == Byte1(left, v) && w & 15 == (v & 15) as bv32
    ensures left < 16 ==> LowByte(w >> 2) == Byte2(left, v) && w & 3 == (v & 3) as bv32
    ensures left < 4 ==> LowByte(w) == Byte3(left, v)
  {
  }

  function Mask(n: bv32): bv32
    requires n <= 8
  {
    ((1 as bv32) << n) - 1
  }

  lemma Emitted(p: Phase, left: Byte, v: Sextet, w: bv32, n: bv32)
    requires p > 0 && LeftFits(p, left) && n == Waiting(NextPhase(p))
    requires w == (left as bv32 << 6) | v as bv32
    ensures LowByte(w >> n) == NextByte(p, left, v) && w & Mask(n) == LeftNext(p, v) as bv32
  {
    TopByte(left, v, w);
    if p == 1 {
      assert n == 4;
      Shift4(w, n);
    } else if p == 2 {
      assert n == 2;
      Shift2(w, n);
    } else {
      assert n == 0;
      Shift0(w, n);
    }
  }

  lemma Shift4(w: bv32, n: bv32)
    requires n == 4
    ensures w >> n == w >> 4 && Mask(n) == 15
  {
  }

  lemma Shift2(w: bv32, n: bv32)
    requires n == 2
    ensures w >> n == w >> 2 && Mask(n) == 3
  {
  }

  lemma Shift0(w: bv32, n: bv32)
    requires n == 0
    ensures w >> n == w && Mask(n) == 0
  {
  }

  /** One round of the loop, on the buffer alone. */
  method PushBits(ghost p: Phase, ghost left: Byte, v: Sextet, buf: bv32, n: bv32) returns (full: bool, byte: Byte, buf': bv32, n': bv32)
    requires buf == left as bv32 && n == Waiting(p) && LeftFits(p, left)
    ensures full == (p > 0) && (full ==> byte == NextByte(p, left, v))
    ensures buf' == LeftNext(p, v) as bv32 && n' == Waiting(NextPhase(p))
  {
    full, byte, buf', n' := false, 0, (buf << 6) | v as bv32, n + 6;
    if n' >= 8 {
      n' := n' - 8;
      Emitted(p, left, v, buf', n');
      full, byte := true, LowByte(buf' >> n');
      buf' := buf' & Mask(n');
    }
  }

  // ---------------------------------------------------------------- the stream

  /** The decoder between two symbols: whole bytes are out, the bits left over are in the buffer. */
  ghost predicate Streamed(vs: seq<Sextet>, out: seq<Byte>, buf: bv32, n: bv32) {
    out == Bytes(vs) && buf == Left(vs) as bv32 && n == Waiting(PhaseOf(vs))
  }

  /** Between two symbols the buffer holds `n < 8` bits and nothing above them. */
  lemma BufferFits(vs: seq<Sextet>, out: seq<Byte>, buf: bv32, n: bv32)
    requires Streamed(vs, out, buf, n)
    ensures n < 8 && buf < (1 as bv32) << n
  {
    LeftIsSmall(vs);
    var p := PhaseOf(vs);
    assert n == if p == 0 then 0 else if p == 1 then 6 else if p == 2 then 4 else 2;
  }

  lemma LeftIsSmall(vs: seq<Sextet>)
    ensures LeftFits(PhaseOf(vs), Left(vs))
  {
  }

  lemma LeftAfter(vs: seq<Sextet>, v: Sextet)
    ensures Left(vs + [v]) == LeftNext(PhaseOf(vs), v)
  {
  }

  function Completed(vs: seq<Sextet>, v: Sextet): seq<Byte> {
    if PhaseOf(vs) == 0 then [] else [NextByte(PhaseOf(vs), Left(vs), v)]
  }

  ghost predicate Extends(vs: seq<Sextet>, v: Sextet) {
    Bytes(vs + [v]) == Bytes(vs) + Completed(vs, v)
  }

  lemma {:induction false} OneSymbol(vs: seq<Sextet>, v: Sextet)
    ensures Extends(vs, v)
  {
    if |vs| >= 4 {
      OneSymbol(vs[4..], v);
      AfterGroup(vs, v);
    } else if |vs| == 0 {
      assert vs + [v] == [v];
    } else if |vs| == 1 {
      Symbol2(vs[0], v);
      assert vs == [vs[0]] && vs + [v] == [vs[0], v];
    } else if |vs| == 2 {
      Symbol3(vs[0], vs[1], v);
      assert vs == [vs[0], vs[1]] && vs + [v] == [vs[0], vs[1], v];
    } else {
      Symbol4(vs[0], vs[1], vs[2], v);
      assert vs == [vs[0], vs[1], vs[2]] && vs + [v] == [vs[0], vs[1], vs[2], v];
    }
  }

  lemma Symbol2(a: Sextet, v: Sextet)
    ensures Bytes([a, v]) == Bytes([a]) + Completed([a], v)
  {
    assert First(a, v) == Byte1(a, v);
  }

  lemma Symbol3(a: Sextet, b: Sextet, v: Sextet)
    ensures Bytes([a, b, v]) == Bytes([a, b]) + Completed([a, b], v)
  {
    assert Second(b, v) == Byte2(b & 15, v);
  }

  lemma Symbol4(a: Sextet, b: Sextet, c: Sextet, v: Sextet)
    ensures Bytes([a, b, c, v]) == Bytes([a, b, c]) + Completed([a, b, c], v)
  {
    assert Third(c, v) == Byte3(c & 3, v);
    assert [a, b, c, v][4..] == [];
  }

  lemma AfterGroup(vs: seq<Sextet>, v: Sextet)
    requires |vs| >= 4 && Extends(vs[4..], v)
    ensures Extends(vs, v)
  {
    var rest, all := vs[4..], vs + [v];
    assert all[4..] == rest + [v];
    var head := [First(vs[0], vs[1]), Second(vs[1], vs[2]), Third(vs[2], vs[3])];
    assert Bytes(vs) == head + Bytes(rest);
    assert Bytes(all) == head + Bytes(rest + [v]);
    SameCompleted(vs, v);
    assert head + (Bytes(rest) + Completed(rest, v)) == (head + Bytes(rest)) + Completed(rest, v);
  }

  lemma SameCompleted(vs: seq<Sextet>, v: Sextet)
    requires |vs| >= 4
    ensures Completed(vs, v) == Completed(vs[4..], v)
  {
  }

  /** One round of the loop. */
  method Push(ghost vs: seq<Sextet>, v: Sextet, out: seq<Byte>, buf: bv32, n: bv32) returns (out': seq<Byte>, buf': bv32, n': bv32)
    requires Streamed(vs, out, buf, n)
    ensures Streamed(vs + [v], out', buf', n')
  {
    LeftIsSmall(vs);
    var full, byte;
    full, byte, buf', n' := PushBits(PhaseOf(vs), Left(vs), v, buf, n);
    out' := if full then out + [byte] else out;
    Pushed(vs, v, full, byte, buf', n');
  }

  lemma Pushed(vs: seq<Sextet>, v: Sextet, full: bool, byte: Byte, buf: bv32, n: bv32)
    requires full == (PhaseOf(vs) > 0) && (full ==> byte == NextByte(PhaseOf(vs), Left(vs), v))
    requires buf == LeftNext(PhaseOf(vs), v) as bv32 && n == Waiting(NextPhase(PhaseOf(vs)))
    ensures Streamed(vs + [v], if full then Bytes(vs) + [byte] else Bytes(vs), buf, n)
  {
    PushedBytes(vs, v, full, byte);
    LeftAfter(vs, v);
    PhaseAfter(vs, v);
  }

  lemma PhaseAfter(vs: seq<Sextet>, v: Sextet)
    ensures PhaseOf(vs + [v]) == NextPhase(PhaseOf(vs))
  {
  }

  lemma PushedBytes(vs: seq<Sextet>, v: Sextet, full: bool, byte: Byte)
    requires full == (PhaseOf(vs) > 0) && (full ==> byte == NextByte(PhaseOf(vs), Left(vs), v))
    ensures Bytes(vs + [v]) == if full then Bytes(vs) + [byte] else Bytes(vs)
  {
    OneSymbol(vs, v);
    assert Completed(vs, v) == if full then [byte] else [];
  }

  method FilterSpaces(text: seq<nat>) returns (symbols: seq<nat>)
    ensures symbols == NoSpaces(text)
  {
    symbols := [];
    for i := 0 to |text|
      invariant symbols == NoSpaces(text[..i])
    {
      assert text[..i + 1][..i] == text[..i];
      if !Space(text[i]) {
        symbols := symbols + [text[i]];
      }
    }
    assert text[..|text|] == text;
  }

  /** What has been read, put before what is to come. */
  function Before(vs: seq<Sextet>, rest: Option<seq<Sextet>>): Option<seq<Sextet>> {
    if rest.None? then None else Some(vs + rest.value)
  }

  method B64(s: string) returns (r: Option<seq<Byte>>)
    ensures r == Updater(Utf8.Codes(s))
  {
    var text := FilterSpaces(Utf8.Codes(s));
    if text == [] {
      return None;
    }
    var out: seq<Byte>, buf, n := [], 0, 0;
    ghost var vs: seq<Sextet> := [];
    var i := 0;
    assert text[0..] == text;
    NothingBefore(Symbols(text));
    while i < |text|
      invariant i <= |text| && Streamed(vs, out, buf, n) && Before(vs, Symbols(text[i..])) == Symbols(text)
    {
      if text[i] == 61 {
        break;
      }
      var v := Symbol(text[i]);
      if v.None? {
        return None;
      }
      out, buf, n := Push(vs, v.value, out, buf, n);
      NextSymbol(text, i, vs);
      vs := vs + [v.value];
      i := i + 1;
    }
    assert Symbols(text[i..]) == Some([]);
    assert vs + [] == vs;
    r := Some(out);
  }

  lemma NothingBefore(rest: Option<seq<Sextet>>)
    ensures Before([], rest) == rest
  {
    if rest.Some? {
      assert [] + rest.value == rest.value;
    }
  }

  lemma NextSymbol(text: seq<nat>, i: nat, vs: seq<Sextet>)
    requires i < |text| && text[i] != 61 && Symbol(text[i]).Some?
    ensures Before(vs + [Symbol(text[i]).value], Symbols(text[i + 1..])) == Before(vs, Symbols(text[i..]))
  {
    assert text[i..][1..] == text[i + 1..];
    if Symbols(text[i + 1..]).Some? {
      var v, rest := Symbol(text[i]).value, Symbols(text[i + 1..]).value;
      assert (vs + [v]) + rest == vs + ([v] + rest);
    }
  }

  // ---------------------------------------------------------------- both decoders

  ghost predicate AlphabetText(s: string) {
    forall i :: 0 <= i < |s| ==> Symbol(s[i] as nat).Some?
  }

  function Values(s: string): (vs: seq<Sextet>)
    requires AlphabetText(s)
    ensures |vs| == |s|
  {
    seq(|s|, i requires 0 <= i < |s| => Symbol(s[i] as nat).value)
  }

  predicate Ascii(t: string) {
    forall i :: 0 <= i < |t| ==> t[i] as nat < 0x80
  }

  function Plain(t: string): (text: seq<nat>)
    ensures |text| == |t|
  {
    seq(|t|, i requires 0 <= i < |t| => t[i] as nat)
  }

  lemma {:induction false} AsciiCodes(t: string)
    requires Ascii(t)
    ensures Utf8.Codes(t) == Plain(t)
  {
    if t != "" {
      AsciiCodes(t[1..]);
      assert Plain(t) == [t[0] as nat] + Plain(t[1..]);
    }
  }

  lemma {:induction false} AsciiUnits(t: string)
    requires Ascii(t)
    ensures Units(t) == |t|
  {
    if t != "" {
      AsciiUnits(t[..|t| - 1]);
    }
  }

  lemma {:induction false} QuadsAre(text: seq<nat>, vs: seq<Sextet>)
    requires |text| % 4 == 0 && |vs| <= |text|
    requires forall i :: 0 <= i < |vs| ==> Val(text[i]) == Some(vs[i])
    requires forall i :: |vs| <= i < |text| ==> Val(text[i]) == None
    ensures Quads(text) == Bytes(vs)
  {
    if text != [] {
      var rest := if |vs| <= 4 then [] else vs[4..];
      QuadsAre(text[4..], rest);
      OneQuad(text, vs);
    }
  }

  lemma OneQuad(text: seq<nat>, vs: seq<Sextet>)
    requires |text| >= 4 && |vs| <= |text|
    requires forall i :: 0 <= i < |vs| ==> Val(text[i]) == Some(vs[i])
    requires forall i :: |vs| <= i < |text| ==> Val(text[i]) == None
    ensures Bytes(vs) == Quad(Val(text[0]), Val(text[1]), Val(text[2]), Val(text[3])) + Bytes(if |vs| <= 4 then [] else vs[4..])
  {
    if |vs| == 4 {
      assert vs[4..] == [];
    }
  }

  /** The console reads any text of either alphabet, with any number of `=` after it. */
  lemma ConsoleReads(s: string, k: nat)
    requires AlphabetText(s)
    ensures Quads(Utf8.Codes(Padded(StandardText(s + Pads(k))))) == Bytes(Values(s))
  {
    var t := StandardText(s + Pads(k));
    var padded, vs := Padded(t), Values(s);
    forall i | 0 <= i < |padded|
      ensures padded[i] as nat < 0x80 && Val(padded[i] as nat) == if i < |vs| then Some(vs[i]) else None
    {
      if i < |s| {
        assert padded[i] == StandardOf(s[i]);
        SymbolIs(s[i]);
        NotSpecial(s[i] as nat);
      } else {
        assert padded[i] == '=';
      }
    }
    PaddedLength(t, padded);
    AsciiCodes(padded);
    QuadsAre(Plain(padded), vs);
  }

  lemma PaddedLength(t: string, padded: string)
    requires padded == Padded(t) && Ascii(padded)
    ensures |padded| % 4 == 0
  {
    assert forall i :: 0 <= i < |t| ==> t[i] == padded[i];
    AsciiUnits(t);
  }

  lemma {:induction false} NoneFiltered(text: seq<nat>)
    requires forall i :: 0 <= i < |text| ==> !Space(text[i])
    ensures NoSpaces(text) == text
  {
    if text != [] {
      NoneFiltered(text[..|text| - 1]);
    }
  }

  lemma {:induction false} SymbolsAre(text: seq<nat>, vs: seq<Sextet>)
    requires |vs| <= |text| && forall i :: 0 <= i < |vs| ==> text[i] != 61 && Symbol(text[i]) == Some(vs[i])
    requires forall i :: |vs| <= i < |text| ==> text[i] == 61
    ensures Symbols(text) == Some(vs)
  {
    if vs != [] {
      SymbolsAre(text[1..], vs[1..]);
      assert vs == [vs[0]] + vs[1..];
    }
  }

  /** And so does the updater, unless there is no text at all. */
  lemma UpdaterReads(s: string, k: nat)
    requires AlphabetText(s)
    ensures Updater(Utf8.Codes(s + Pads(k))) == if s == "" && k == 0 then None else Some(Bytes(Values(s)))
  {
    var t := s + Pads(k);
    var text := Plain(t);
    forall i | 0 <= i < |text|
      ensures text[i] < 0x80 && !Space(text[i])
      ensures if i < |s| then text[i] != 61 && Symbol(text[i]) == Some(Values(s)[i]) else text[i] == 61
    {
      assert text[i] == if i < |s| then s[i] as nat else 61;
      NotSpecial(text[i]);
    }
    assert forall i :: 0 <= i < |t| ==> text[i] == t[i] as nat;
    AsciiCodes(t);
    NoneFiltered(text);
    SymbolsAre(text, Values(s));
  }

  lemma NotSpecial(c: nat)
    ensures Symbol(c).Some? ==> c != 61 && c < 0x80 && !Space(c)
  {
  }

  lemma EncodedIsText(bytes: seq<Byte>)
    ensures AlphabetText(Encoded(bytes)) && Values(Encoded(bytes)) == Sextets(bytes)
  {
    var s, vs := Encoded(bytes), Sextets(bytes);
    forall i | 0 <= i < |s|
      ensures Symbol(s[i] as nat) == Some(vs[i])
    {
      CharIs(vs[i]);
    }
  }

  /** What the console encodes, the console and the updater decode, for every string of bytes. */
  lemma RoundTrip(bytes: seq<Byte>)
    ensures Quads(Utf8.Codes(Padded(StandardText(Encoded(bytes))))) == bytes
    ensures Updater(Utf8.Codes(Encoded(bytes))) == if bytes == [] then None else Some(bytes)
  {
    EncodedIsText(bytes);
    BytesOfSextets(bytes);
    var s := Encoded(bytes);
    assert s + Pads(0) == s;
    ConsoleReads(s, 0);
    UpdaterReads(s, 0);
  }

  /** A text is the one the encoder writes for its bytes exactly when it has neither `+` nor `/` and is canonical. */
  lemma WrittenIff(s: string)
    requires AlphabetText(s)
    ensures Encoded(Bytes(Values(s))) == s <==> '+' !in s && '/' !in s && Canonical(Values(s))
  {
    var vs := Values(s);
    CanonicalIff(vs);
    forall i | 0 <= i < |s|
      ensures Text(vs)[i] == s[i] <==> s[i] != '+' && s[i] != '/'
    {
      SymbolIs(s[i]);
    }
    if Encoded(Bytes(vs)) == s {
      EncodedIsText(Bytes(vs));
      assert Reencodes(vs);
      assert forall i :: 0 <= i < |s| ==> Text(vs)[i] == s[i];
    }
    if '+' !in s && '/' !in s && Canonical(vs) {
      assert Text(vs) == s;
    }
  }
}
