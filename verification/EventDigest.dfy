/**
 The digest the audit chain really uses: the lower-case hex of SHA-256 of the UTF-8 bytes. With
 it in place, what breaks the binding of the chain to its head is a collision of SHA-256 itself.
 */
module EventDigest {
  import opened Wrappers
  import A = AuditChain
  import Byte8
  import Sha256
  import U = Utf8

  type Byte = Sha256.Byte

  // --------------------------------------------------------- hex of UTF-8

  function HexDigit(n: nat): char
    requires n < 16
  {
    "0123456789abcdef"[n]
  }

  function HexPair(n: nat): string
    requires n < 256
  {
    [HexDigit(n / 16), HexDigit(n % 16)]
  }

  function HexByte(b: Byte): string {
    HexPair(b as nat)
  }

  function Hex(bytes: seq<Byte>): (s: string)
    ensures |s| == 2 * |bytes|
  {
    if bytes == [] then "" else Hex(bytes[..|bytes| - 1]) + HexByte(bytes[|bytes| - 1])
  }

  function Utf8(s: string): (bytes: seq<Byte>)
    ensures |bytes| == |U.Codes(s)|
  {
    seq(|U.Codes(s)|, i requires 0 <= i < |U.Codes(s)| => U.Codes(s)[i] as Byte)
  }

  function Digest(s: string): string {
    Hex(Sha256.Sum256(Utf8(s)))
  }

  /** The value of a hex digit, lower case only. */
  function DigitValue(c: char): Option<nat> {
    if '0' <= c <= '9' then Some(c as nat - 48) else if 'a' <= c <= 'f' then Some(c as nat - 87) else None
  }

  /** Each byte is printed as two lower-case digits, the high one first. */
  lemma {:induction false} HexReads(bytes: seq<Byte>, i: nat)
    requires i < |bytes|
    ensures var high, low := DigitValue(Hex(bytes)[2 * i]), DigitValue(Hex(bytes)[2 * i + 1]);
            high.Some? && low.Some? && high.value < 16 && low.value < 16 && high.value * 16 + low.value == bytes[i] as nat
  {
    var k := |bytes| - 1;
    if i < k {
      HexReads(bytes[..k], i);
    } else {
      DigitReads(bytes[k] as nat / 16);
      DigitReads(bytes[k] as nat % 16);
    }
  }

  lemma DigitReads(n: nat)
    requires n < 16
    ensures DigitValue(HexDigit(n)) == Some(n)
  {
  }

  // --------------------------------------------------------- both undo

  lemma {:induction false} HexUnique(a: seq<Byte>, b: seq<Byte>)
    requires Hex(a) == Hex(b)
    ensures a == b
  {
    assert |a| == |b|;
    if a != [] {
      var k := |a| - 1;
      Ends(Hex(a[..k]), HexByte(a[k]), Hex(b[..k]), HexByte(b[k]));
      HexUnique(a[..k], b[..k]);
      SameHex(a[k], b[k]);
      assert a == a[..k] + [a[k]] && b == b[..k] + [b[k]];
    }
  }

  lemma Ends(x: string, u: string, y: string, v: string)
    requires x + u == y + v && |x| == |y|
    ensures x == y && u == v
  {
    assert x == (x + u)[..|x|] && y == (y + v)[..|x|];
    assert u == (x + u)[|x|..] && v == (y + v)[|x|..];
  }

  lemma SamePair(m: nat, n: nat)
    requires m < 256 && n < 256 && HexPair(m) == HexPair(n)
    ensures m == n
  {
    assert HexPair(m)[0] == HexPair(n)[0] && HexPair(m)[1] == HexPair(n)[1];
    DigitUnique(m / 16, n / 16);
    DigitUnique(m % 16, n % 16);
  }

  lemma SameHex(x: Byte, y: Byte)
    requires HexByte(x) == HexByte(y)
    ensures x == y
  {
    SamePair(x as nat, y as nat);
    Byte8.SameByte(x);
    Byte8.SameByte(y);
  }

  lemma DigitUnique(m: nat, n: nat)
    requires m < 16 && n < 16 && HexDigit(m) == HexDigit(n)
    ensures m == n
  {
  }

  lemma Utf8Unique(s: string, t: string)
    requires Utf8(s) == Utf8(t)
    ensures s == t
  {
    forall i | 0 <= i < |U.Codes(s)|
      ensures U.Codes(s)[i] == U.Codes(t)[i]
    {
      Byte8.ByteBack(U.Codes(s)[i]);
      Byte8.ByteBack(U.Codes(t)[i]);
      assert Utf8(s)[i] == Utf8(t)[i];
    }
    U.CodesUnique(s, t);
  }

  // --------------------------------------------------------- the chain, for real

  lemma {:induction false} FlatLength(key: Sha256.Key, h0: Sha256.State, input: seq<Byte>)
    ensures |Sha256.Hash(key, h0, input)| == 32
  {
    Sha256.PadLength(input);
  }

  lemma DigestIsHex64()
    ensures A.Hex64(Digest)
  {
    forall s
      ensures |Digest(s)| == 64
    {
      FlatLength(Sha256.Constants(), Sha256.InitialHash(), Utf8(s));
    }
  }

  ghost predicate Collide(a: seq<Byte>, b: seq<Byte>) {
    a != b && Sha256.Sum256(a) == Sha256.Sum256(b)
  }

  /** SHA-256 of some bytes is all zeros. */
  ghost predicate AllZero(a: seq<Byte>) {
    Sha256.Sum256(a) == Sha256.Zeros(32)
  }

  ghost predicate Broken(rows: seq<A.Row>) {
    || (exists i, j :: 0 <= i < |rows| && 0 <= j < |rows| && Collide(Utf8(A.Preimage(rows[i])), Utf8(A.Preimage(rows[j]))))
    || (exists i :: 0 <= i < |rows| && AllZero(Utf8(A.Preimage(rows[i]))))
  }

  lemma {:induction false} HexOfZeros(n: nat)
    ensures Hex(Sha256.Zeros(n)) == seq(2 * n, _ => '0')
  {
    if n > 0 {
      HexOfZeros(n - 1);
      assert Sha256.Zeros(n)[..n - 1] == Sha256.Zeros(n - 1);
    }
  }

  /** Two verified logs with the same head are the same log, unless their own rows break SHA-256. */
  lemma HeadBindsUnlessBroken(xs: seq<A.Row>, ys: seq<A.Row>)
    requires A.Linked(Digest, xs) && A.Linked(Digest, ys) && A.AllPlain(xs) && A.AllPlain(ys)
    requires A.Head(xs) == A.Head(ys)
    ensures A.SameRows(xs, ys) || Broken(xs + ys)
  {
    DigestIsHex64();
    A.HeadBindsChain(Digest, xs, ys);
    var rows := xs + ys;
    if !A.NoCollision(Digest, rows) && !Broken(rows) {
      forall i, j | 0 <= i < |rows| && 0 <= j < |rows| && Digest(A.Preimage(rows[i])) == Digest(A.Preimage(rows[j]))
        ensures A.Preimage(rows[i]) == A.Preimage(rows[j])
      {
        HexUnique(Sha256.Sum256(Utf8(A.Preimage(rows[i]))), Sha256.Sum256(Utf8(A.Preimage(rows[j]))));
        assert !Collide(Utf8(A.Preimage(rows[i])), Utf8(A.Preimage(rows[j])));
        Utf8Unique(A.Preimage(rows[i]), A.Preimage(rows[j]));
      }
      forall i | 0 <= i < |rows|
        ensures Digest(A.Preimage(rows[i])) != A.Genesis()
      {
        HexOfZeros(32);
        if Digest(A.Preimage(rows[i])) == A.Genesis() {
          HexUnique(Sha256.Sum256(Utf8(A.Preimage(rows[i]))), Sha256.Zeros(32));
        }
      }
      assert false;
    }
  }
}
