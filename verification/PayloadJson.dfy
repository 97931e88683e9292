/**
 The hand-written JSON printer of a credential's fields, and a parser that follows the
 grammar of RFC 8259 (sections 2, 4 and 7) for objects of strings. Printing then parsing
 gives back the pairs, in order, whatever characters they hold.
 */
module PayloadJson {
  import opened Wrappers

  type Pair = (string, string)

  function HexDigit(n: int): (c: char)
    requires 0 <= n < 16
    ensures HexValue(c) == Some(n)
  {
    if n < 10 then '0' + (n as char) else 'a' + ((n - 10) as char)
  }

  /** `\u{:04x}` of a control character. */
  function Unicode(n: int): string
    requires 0 <= n < 0x20
  {
    ['\\', 'u', '0', '0', HexDigit(n / 16), HexDigit(n % 16)]
  }

  function Escape(c: char): string {
    if c == '"' then ['\\', '"']
    else if c == '\\' then ['\\', '\\']
    else if c == '\n' then ['\\', 'n']
    else if c == '\r' then ['\\', 'r']
    else if c == '\t' then ['\\', 't']
    else if (c as int) < 0x20 then Unicode(c as int)
    else [c]
  }

  function EscapeAll(s: string): string {
    if s == "" then "" else EscapeAll(s[..|s| - 1]) + Escape(s[|s| - 1])
  }

  function Quoted(s: string): string {
    ['"'] + EscapeAll(s) + ['"']
  }

  function One(p: Pair): string {
    Quoted(p.0) + ":" + Quoted(p.1)
  }

  function Members(pairs: seq<Pair>): string {
    if pairs == [] then ""
    else if |pairs| == 1 then One(pairs[0])
    else Members(pairs[..|pairs| - 1]) + ("," + One(pairs[|pairs| - 1]))
  }

  function Print(pairs: seq<Pair>): string {
    "{" + Members(pairs) + "}"
  }

  method PushJsonStr(out: string, s: string) returns (r: string)
    ensures r == out + Quoted(s)
  {
    r := out + ['"'];
    for i := 0 to |s|
      invariant r == out + ['"'] + EscapeAll(s[..i])
    {
      var c := s[i];
      var piece;
      if c == '"' {
        piece := ['\\', '"'];
      } else if c == '\\' {
        piece := ['\\', '\\'];
      } else if c == '\n' {
        piece := ['\\', 'n'];
      } else if c == '\r' {
        piece := ['\\', 'r'];
      } else if c == '\t' {
        piece := ['\\', 't'];
      } else if (c as int) < 0x20 {
        piece := Unicode(c as int);
      } else {
        piece := [c];
      }
      Regroup(out + ['"'], EscapeAll(s[..i]), piece, "");
      r := r + piece;
      assert s[..i + 1][..i] == s[..i];
    }
    assert s[..|s|] == s;
    Regroup(out, ['"'], EscapeAll(s), ['"']);
    r := r + ['"'];
  }

  /** Concatenation, regrouped. */
  lemma Regroup(a: string, b: string, c: string, d: string)
    ensures a + b + c == a + (b + c)
    ensures a + b + c + d == a + (b + c + d)
    ensures a + b + c + d == a + (b + (c + d))
  {
    assert a + b + c == a + (b + c);
    assert a + b + c + d == a + (b + c + d);
    assert a + b + c + d == a + (b + (c + d));
  }

  method PayloadJson(pairs: seq<Pair>) returns (out: string)
    ensures out == Print(pairs)
  {
    out := "{";
    for i := 0 to |pairs|
      invariant out == "{" + Members(pairs[..i])
    {
      ghost var before := out;
      if i > 0 {
        out := out + ",";
      }
      ghost var start := out;
      out := PushJsonStr(out, pairs[i].0);
      out := out + ":";
      out := PushJsonStr(out, pairs[i].1);
      Regroup(start, Quoted(pairs[i].0), ":", Quoted(pairs[i].1));
      assert out == start + One(pairs[i]);
      NextMember(pairs, i, before, out);
    }
    assert pairs[..|pairs|] == pairs;
    Regroup("{", Members(pairs), "}", "");
    out := out + "}";
  }

  lemma NextMember(pairs: seq<Pair>, i: nat, before: string, after: string)
    requires i < |pairs| && before == "{" + Members(pairs[..i])
    requires after == (if i > 0 then before + "," else before) + One(pairs[i])
    ensures after == "{" + Members(pairs[..i + 1])
  {
    var next := pairs[..i + 1];
    assert next[..i] == pairs[..i] && next[i] == pairs[i];
    if i == 0 {
      assert before == "{" + "" && before == "{";
    } else {
      Regroup("{", Members(pairs[..i]), ",", One(pairs[i]));
      assert Members(next) == Members(pairs[..i]) + ("," + One(pairs[i]));
    }
  }

  // ------------------------------------------------------------------ the grammar

  function HexValue(c: char): (v: Option<int>)
    ensures v.Some? ==> 0 <= v.value < 16
  {
    if '0' <= c <= '9' then Some(c as int - '0' as int)
    else if 'a' <= c <= 'f' then Some(c as int - 'a' as int + 10)
    else if 'A' <= c <= 'F' then Some(c as int - 'A' as int + 10)
    else None
  }

  /** Four hexadecimal digits. */
  function Hex4(s: string): (r: Option<int>)
    ensures r.Some? ==> |s| >= 4 && 0 <= r.value <= 0xffff
  {
    if |s| < 4 then None
    else
      var a, b, c, d := HexValue(s[0]), HexValue(s[1]), HexValue(s[2]), HexValue(s[3]);
      if a.Some? && b.Some? && c.Some? && d.Some? then Some(((a.value * 16 + b.value) * 16 + c.value) * 16 + d.value)
      else None
  }

  function Short(c: char): Option<char> {
    if c == '"' then Some('"')
    else if c == '\\' then Some('\\')
    else if c == '/' then Some('/')
    else if c == 'b' then Some('\U{8}')
    else if c == 'f' then Some('\U{c}')
    else if c == 'n' then Some('\n')
    else if c == 'r' then Some('\r')
    else if c == 't' then Some('\t')
    else None
  }

  /** After `\u`: one code point, in two halves when it lies beyond the basic plane. */
  function CodePoint(s: string): (r: Option<(char, string)>)
    ensures r.Some? ==> |r.value.1| < |s|
  {
    match Hex4(s)
    case None => None
    case Some(n) =>
      if n < 0xd800 || 0xe000 <= n then Some((n as char, s[4..]))
      else if n < 0xdc00 && |s| >= 10 && s[4] == '\\' && s[5] == 'u' then
        match Hex4(s[6..])
        case None => None
        case Some(m) =>
          if 0xdc00 <= m < 0xe000 then
            Some(((0x10000 + (n - 0xd800) * 0x400 + (m - 0xdc00)) as char, s[10..]))
          else None
      else None
  }

  /** One `char` of section 7: unescaped, a short escape, or `\u`. */
  function OneChar(s: string): (r: Option<(char, string)>)
    ensures r.Some? ==> |r.value.1| < |s|
  {
    if s == "" || s[0] == '"' || (s[0] as int) < 0x20 then None
    else if s[0] != '\\' then Some((s[0], s[1..]))
    else if |s| < 2 then None
    else if s[1] == 'u' then CodePoint(s[2..])
    else
      match Short(s[1])
      case None => None
      case Some(c) => Some((c, s[2..]))
  }

  /** The characters up to the closing quotation mark, and what follows it. */
  function Chars(s: string): (r: Option<(string, string)>)
    ensures r.Some? ==> |r.value.1| < |s|
    decreases |s|
  {
    if s != "" && s[0] == '"' then Some(("", s[1..]))
    else
      match OneChar(s)
      case None => None
      case Some((c, rest)) =>
        match Chars(rest)
        case None => None
        case Some((cs, after)) => Some(([c] + cs, after))
  }

  function String(s: string): (r: Option<(string, string)>)
    ensures r.Some? ==> |r.value.1| < |s|
  {
    if s == "" || s[0] != '"' then None else Chars(s[1..])
  }

  function SkipWs(s: string): (r: string)
    ensures |r| <= |s|
  {
    if s != "" && (s[0] == ' ' || s[0] == '\t' || s[0] == '\n' || s[0] == '\r') then SkipWs(s[1..]) else s
  }

  /** A structural character with the white space allowed around it. */
  function Token(s: string, c: char): (r: Option<string>)
    ensures r.Some? ==> |r.value| < |s|
  {
    var t := SkipWs(s);
    if t != "" && t[0] == c then Some(SkipWs(t[1..])) else None
  }

  /** `member = string name-separator value`, the value a string. */
  function Member(s: string): (r: Option<(Pair, string)>)
    ensures r.Some? ==> |r.value.1| < |s|
  {
    match String(s)
    case None => None
    case Some((k, afterKey)) =>
      match Token(afterKey, ':')
      case None => None
      case Some(t) =>
        match String(t)
        case None => None
        case Some((v, rest)) => Some(((k, v), rest))
  }

  /** Members separated by commas, up to the closing brace. */
  function MembersTo(s: string): (r: Option<(seq<Pair>, string)>)
    decreases |s|
  {
    match Member(s)
    case None => None
    case Some((p, rest)) =>
      match Token(rest, '}')
      case Some(after) => Some(([p], after))
      case None =>
        match Token(rest, ',')
        case None => None
        case Some(more) =>
          match MembersTo(more)
          case None => None
          case Some((ps, after)) => Some(([p] + ps, after))
  }

  /** A whole text: one object and nothing after it. */
  function Parse(s: string): Option<seq<Pair>> {
    match Token(s, '{')
    case None => None
    case Some(t) =>
      match Token(t, '}')
      case Some(after) => if after == "" then Some([]) else None
      case None =>
        match MembersTo(t)
        case None => None
        case Some((ps, after)) => if after == "" then Some(ps) else None
  }

  // ----------------------------------------------------------------- round trip

  lemma EscapedCharParses(c: char, x: string)
    ensures OneChar(Escape(c) + x) == Some((c, x))
    ensures (Escape(c) + x)[0] != '"'
  {
    var s := Escape(c) + x;
    if Escape(c) == [c] {
      assert s[1..] == x;
    } else if |Escape(c)| == 2 {
      assert s[2..] == x;
    } else {
      var n := c as int;
      assert s[2..] == ['0', '0', HexDigit(n / 16), HexDigit(n % 16)] + x;
      assert s[2..][4..] == x;
    }
  }

  /** Escaping from the left, which is the order a parser reads in. */
  lemma {:induction false} EscapeFromLeft(c: char, s: string)
    ensures EscapeAll([c] + s) == Escape(c) + EscapeAll(s)
  {
    if s == "" {
      assert [c] + s == [c] && [c][..0] == "";
    } else {
      var front, x := s[..|s| - 1], s[|s| - 1];
      EscapeFromLeft(c, front);
      Associative([c], front, [x]);
      assert s == front + [x];
      EscapeLast([c] + front, x);
      EscapeLast(front, x);
      Associative(Escape(c), EscapeAll(front), Escape(x));
    }
  }

  lemma EscapeLast(t: string, x: char)
    ensures EscapeAll(t + [x]) == EscapeAll(t) + Escape(x)
  {
    assert (t + [x])[..|t|] == t;
  }

  lemma Associative(a: string, b: string, c: string)
    ensures (a + b) + c == a + (b + c)
  {
  }

  lemma {:induction false} EscapedParses(s: string, x: string)
    ensures Chars(EscapeAll(s) + ['"'] + x) == Some((s, x))
  {
    var t := EscapeAll(s) + ['"'] + x;
    if s == "" {
      assert t[1..] == x;
    } else {
      var c, rest := s[0], s[1..];
      assert s == [c] + rest;
      EscapeFromLeft(c, rest);
      var tail := EscapeAll(rest) + ['"'] + x;
      Regroup(Escape(c), EscapeAll(rest), ['"'], x);
      assert t == Escape(c) + tail;
      EscapedCharParses(c, tail);
      EscapedParses(rest, x);
    }
  }

  lemma QuotedParses(s: string, x: string)
    ensures String(Quoted(s) + x) == Some((s, x))
    ensures (Quoted(s) + x)[0] == '"'
  {
    assert (Quoted(s) + x)[1..] == EscapeAll(s) + ['"'] + x;
    EscapedParses(s, x);
  }

  lemma TokenAt(c: char, x: string)
    requires c !in " \t\n\r" && (x == "" || x[0] !in " \t\n\r")
    ensures Token([c] + x, c) == Some(x)
    ensures forall d :: d != c ==> Token([c] + x, d) == None
  {
    assert ([c] + x)[1..] == x;
  }

  lemma MemberParses(p: Pair, x: string)
    ensures Member(One(p) + x) == Some((p, x))
    ensures (One(p) + x)[0] == '"'
  {
    var s := One(p) + x;
    var afterKey := ":" + (Quoted(p.1) + x);
    Regroup(Quoted(p.0), ":", Quoted(p.1), x);
    assert s == Quoted(p.0) + afterKey;
    QuotedParses(p.0, afterKey);
    QuotedParses(p.1, x);
    TokenAt(':', Quoted(p.1) + x);
    assert afterKey == [':'] + (Quoted(p.1) + x);
  }

  lemma {:induction false} MembersFromLeft(p: Pair, pairs: seq<Pair>)
    requires pairs != []
    ensures Members([p] + pairs) == One(p) + ("," + Members(pairs))
  {
    var n := |pairs| - 1;
    var all := [p] + pairs;
    assert all[..n + 1] == [p] + pairs[..n] && all[n + 1] == pairs[n];
    if n == 0 {
      assert [p] + pairs[..n] == [p];
    } else {
      MembersFromLeft(p, pairs[..n]);
      Regroup(One(p), ",", Members(pairs[..n]), "," + One(pairs[n]));
    }
  }

  lemma {:induction false} MembersParse(p: Pair, pairs: seq<Pair>)
    ensures MembersTo(Members([p] + pairs) + "}") == Some(([p] + pairs, ""))
    ensures (Members([p] + pairs) + "}")[0] == '"'
    decreases |pairs|
  {
    if pairs == [] {
      assert [p] + pairs == [p];
      MemberParses(p, "}");
      TokenAt('}', "");
      assert "}" == ['}'] + "";
    } else {
      var more := Members(pairs) + "}";
      var q, rest := pairs[0], pairs[1..];
      assert pairs == [q] + rest;
      MembersParse(q, rest);
      MembersFromLeft(p, pairs);
      Regroup(One(p), ",", Members(pairs), "}");
      MemberThenMore(p, pairs, more);
    }
  }

  lemma MemberThenMore(p: Pair, pairs: seq<Pair>, more: string)
    requires more != "" && more[0] == '"' && MembersTo(more) == Some((pairs, ""))
    ensures MembersTo(One(p) + ("," + more)) == Some(([p] + pairs, ""))
    ensures (One(p) + ("," + more))[0] == '"'
  {
    MemberParses(p, "," + more);
    TokenAt(',', more);
    assert "," + more == [','] + more;
  }

  /** Every list of pairs comes back whole, with nothing left over. */
  lemma PrintParses(pairs: seq<Pair>)
    ensures Parse(Print(pairs)) == Some(pairs)
  {
    if pairs == [] {
      EmptyParses();
    } else {
      var p, rest := pairs[0], pairs[1..];
      assert pairs == [p] + rest;
      MembersParse(p, rest);
      Braced(pairs, Members(pairs) + "}");
      assert Print(pairs) == ['{'] + (Members(pairs) + "}");
    }
  }

  lemma EmptyParses()
    ensures Parse(Print([])) == Some([])
  {
    assert "}" == ['}'] + "" && Print([]) == ['{'] + "}";
    TokenAt('{', "}");
    TokenAt('}', "");
  }

  lemma Braced(pairs: seq<Pair>, t: string)
    requires t != "" && t[0] == '"' && MembersTo(t) == Some((pairs, ""))
    ensures Parse(['{'] + t) == Some(pairs)
  {
    TokenAt('{', t);
    assert t == ['"'] + t[1..];
    assert Token(t, '}') == None;
  }

  /** So two different credentials are never stored as the same text. */
  lemma PrintInjective(a: seq<Pair>, b: seq<Pair>)
    requires Print(a) == Print(b)
    ensures a == b
  {
    PrintParses(a);
    PrintParses(b);
  }
}
