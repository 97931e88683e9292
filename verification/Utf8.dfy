/** UTF-8 of RFC 3629, as numbers below 256. */
module Utf8 {
  import opened Wrappers

  /** RFC 3629, section 3. */
  function Code(c: char): (ns: seq<nat>)
    ensures |ns| >= 1 && forall i :: 0 <= i < |ns| ==> ns[i] < 256
  {
    var n := c as int;
    if n < 0x80 then [n]
    else if n < 0x800 then [0xc0 + n / 64, 0x80 + n % 64]
    else if n < 0x1_0000 then [0xe0 + n / 64 / 64, 0x80 + n / 64 % 64, 0x80 + n % 64]
    else [0xf0 + n / 64 / 64 / 64, 0x80 + n / 64 / 64 % 64, 0x80 + n / 64 % 64, 0x80 + n % 64]
  }

  function Codes(s: string): (ns: seq<nat>)
    ensures forall i :: 0 <= i < |ns| ==> ns[i] < 256
  {
    if s == "" then [] else Code(s[0]) + Codes(s[1..])
  }

  /** The number a code says, by the bit patterns of section 3: the first byte tells how many follow. */
  function Said(ns: seq<nat>): Option<nat> {
    if |ns| == 1 && ns[0] < 128 then Some(ns[0])
    else if |ns| == 2 && 192 <= ns[0] < 224 && Follows(ns[1]) then Some((ns[0] - 192) * 64 + ns[1] - 128)
    else if |ns| == 3 && 224 <= ns[0] < 240 && Follows(ns[1]) && Follows(ns[2]) then
      Some(((ns[0] - 224) * 64 + ns[1] - 128) * 64 + ns[2] - 128)
    else if |ns| == 4 && 240 <= ns[0] < 248 && Follows(ns[1]) && Follows(ns[2]) && Follows(ns[3]) then
      Some((((ns[0] - 240) * 64 + ns[1] - 128) * 64 + ns[2] - 128) * 64 + ns[3] - 128)
    else None
  }

  predicate Follows(n: nat) {
    128 <= n < 192
  }

  /** A character's code says its number, in the fewest bytes. */
  lemma CodeSays(c: char)
    ensures Said(Code(c)) == Some(c as nat)
    ensures |Code(c)| == if c as nat < 128 then 1 else if c as nat < 2048 then 2 else if c as nat < 65536 then 3 else 4
  {
  }

  /** A text's code is that of its characters, one after another. */
  lemma CodesOfAppend(s: string, t: string)
    ensures Codes(s + t) == Codes(s) + Codes(t)
    ensures |s| == 1 ==> Codes(s) == Code(s[0])
  {
    if s == "" {
      assert s + t == t;
    } else {
      assert (s + t)[1..] == s[1..] + t;
      CodesOfAppend(s[1..], t);
    }
  }

  /** The first byte gives the length of a character's code, and the code gives the character. */
  lemma CodeUnique(c: char, d: char, x: seq<nat>, y: seq<nat>)
    requires Code(c) + x == Code(d) + y
    ensures c == d && x == y
  {
    var s, t := Code(c) + x, Code(d) + y;
    assert s[0] == Code(c)[0] && t[0] == Code(d)[0];
    assert |Code(c)| == |Code(d)|;
    var k := |Code(c)|;
    assert s[..k] == Code(c) && t[..k] == Code(d);
    assert s[k..] == x && t[k..] == y;
    SameCode(c, d);
  }

  lemma SixBits(m: nat, n: nat)
    requires m / 64 == n / 64 && m % 64 == n % 64
    ensures m == n
  {
  }

  lemma SameCode(c: char, d: char)
    requires Code(c) == Code(d)
    ensures c == d
  {
    var m, n, a, b := c as int, d as int, Code(c), Code(d);
    assert forall i :: 0 <= i < |a| ==> a[i] == b[i];
    if |a| == 4 {
      SixBits(m / 64 / 64, n / 64 / 64);
    }
    if |a| >= 3 {
      SixBits(m / 64, n / 64);
    }
    if |a| >= 2 {
      SixBits(m, n);
    }
  }

  lemma {:induction false} CodesUnique(s: string, t: string)
    requires Codes(s) == Codes(t)
    ensures s == t
  {
    if s != "" && t != "" {
      CodeUnique(s[0], t[0], Codes(s[1..]), Codes(t[1..]));
      CodesUnique(s[1..], t[1..]);
      assert s == [s[0]] + s[1..] && t == [t[0]] + t[1..];
    }
  }
}
