/**
 Redaction of listed values from a text, longest value first. A string here stands for its
 UTF-8 bytes, which is what lengths are measured in and where matches are found.
 */
module Redact {
  const WORD := "redacted"
  const REPLACEMENT := "[" + WORD + "]"

  predicate OccursAt(t: string, i: int, w: string) {
    0 <= i && i + |w| <= |t| && t[i..i + |w|] == w
  }

  ghost predicate Contains(t: string, w: string) {
    exists i :: OccursAt(t, i, w)
  }

  /** `str::replace`: leftmost matches, none overlapping. */
  function Replace(t: string, v: string): string
    requires v != ""
  {
    if |t| < |v| then t
    else if OccursAt(t, 0, v) then REPLACEMENT + Replace(t[|v|..], v)
    else [t[0]] + Replace(t[1..], v)
  }

  function NonEmpty(values: seq<string>): seq<string> {
    if values == [] then []
    else
      var rest := NonEmpty(values[..|values| - 1]);
      if values[|values| - 1] == "" then rest else rest + [values[|values| - 1]]
  }

  /** Into a list sorted longest first, after everything at least as long. */
  function Insert(sorted: seq<string>, v: string): seq<string> {
    if sorted == [] then [v]
    else if |sorted[0]| >= |v| then [sorted[0]] + Insert(sorted[1..], v)
    else [v] + sorted
  }

  /** `sort_by_key(Reverse(len))`: stable, longest first. */
  function LongestFirst(values: seq<string>): seq<string> {
    if values == [] then [] else Insert(LongestFirst(values[..|values| - 1]), values[|values| - 1])
  }

  /** `dedup`: drops a value equal to the one before it, and no other repeat. */
  function Dedup(values: seq<string>): seq<string> {
    if |values| < 2 then values
    else if values[0] == values[1] then Dedup(values[1..])
    else [values[0]] + Dedup(values[1..])
  }

  function Ordered(values: seq<string>): seq<string> {
    Dedup(LongestFirst(NonEmpty(values)))
  }

  predicate NoneEmpty(vals: seq<string>) {
    forall i :: 0 <= i < |vals| ==> vals[i] != ""
  }

  function ReplaceAll(t: string, vals: seq<string>): string
    requires NoneEmpty(vals)
  {
    if vals == [] then t else Replace(ReplaceAll(t, vals[..|vals| - 1]), vals[|vals| - 1])
  }

  method Redact(output: string, values: seq<string>) returns (out: string)
    ensures NoneEmpty(Ordered(values)) && out == ReplaceAll(output, Ordered(values))
  {
    OrderedIs(values);
    var vals := Ordered(values);
    out := output;
    for i := 0 to |vals|
      invariant out == ReplaceAll(output, vals[..i])
    {
      assert vals[..i + 1][..i] == vals[..i];
      out := Replace(out, vals[i]);
    }
    assert vals[..|vals|] == vals;
  }

  // ------------------------------------------------------------ order of the list

  predicate Descending(vals: seq<string>) {
    forall i, j :: 0 <= i < j < |vals| ==> |vals[i]| >= |vals[j]|
  }

  lemma {:induction false} InsertIs(sorted: seq<string>, v: string)
    requires Descending(sorted)
    ensures Descending(Insert(sorted, v))
    ensures forall w :: w in Insert(sorted, v) <==> w in sorted || w == v
  {
    if sorted != [] && |sorted[0]| >= |v| {
      var rest := Insert(sorted[1..], v);
      InsertIs(sorted[1..], v);
      assert sorted == [sorted[0]] + sorted[1..];
      forall j | 0 <= j < |rest|
        ensures |sorted[0]| >= |rest[j]|
      {
        assert rest[j] in rest;
        if rest[j] in sorted[1..] {
          var k :| 0 <= k < |sorted[1..]| && sorted[1..][k] == rest[j];
          assert sorted[k + 1] == rest[j];
        }
      }
    }
  }

  lemma {:induction false} LongestFirstIs(values: seq<string>)
    ensures Descending(LongestFirst(values))
    ensures forall w :: w in LongestFirst(values) <==> w in values
  {
    if values != [] {
      LongestFirstIs(values[..|values| - 1]);
      InsertIs(LongestFirst(values[..|values| - 1]), values[|values| - 1]);
      assert values == values[..|values| - 1] + [values[|values| - 1]];
    }
  }

  lemma {:induction false} DedupIs(vals: seq<string>)
    requires Descending(vals)
    ensures Descending(Dedup(vals))
    ensures forall w :: w in Dedup(vals) <==> w in vals
  {
    if |vals| >= 2 {
      var rest := Dedup(vals[1..]);
      DedupIs(vals[1..]);
      assert vals == [vals[0]] + vals[1..];
      assert vals[1] in vals[1..];
      forall j | 0 <= j < |rest|
        ensures |vals[0]| >= |rest[j]|
      {
        assert rest[j] in rest;
        var k :| 0 <= k < |vals[1..]| && vals[1..][k] == rest[j];
        assert vals[k + 1] == rest[j];
      }
    }
  }

  lemma {:induction false} NonEmptyIs(values: seq<string>)
    ensures forall w :: w in NonEmpty(values) <==> w in values && w != ""
  {
    if values != [] {
      NonEmptyIs(values[..|values| - 1]);
      assert values == values[..|values| - 1] + [values[|values| - 1]];
    }
  }

  /** Those of one length, in order. */
  function OfLength(values: seq<string>, n: nat): (r: seq<string>)
    ensures forall v :: v in r <==> v in values && |v| == n
  {
    if values == [] then []
    else
      assert values == values[..|values| - 1] + [values[|values| - 1]];
      var rest := OfLength(values[..|values| - 1], n);
      if |values[|values| - 1]| == n then rest + [values[|values| - 1]] else rest
  }

  lemma {:induction false} OfLengthCons(x: string, rest: seq<string>, n: nat)
    ensures OfLength([x] + rest, n) == OfLength([x], n) + OfLength(rest, n)
  {
    if rest == [] {
      assert [x] + rest == [x];
    } else {
      var k := |rest| - 1;
      assert ([x] + rest)[..k + 1] == [x] + rest[..k] && ([x] + rest)[k + 1] == rest[k];
      OfLengthCons(x, rest[..k], n);
    }
  }

  lemma {:induction false} InsertStable(sorted: seq<string>, v: string, n: nat)
    requires Descending(sorted)
    ensures OfLength(Insert(sorted, v), n) == OfLength(sorted, n) + OfLength([v], n)
  {
    if sorted != [] && |sorted[0]| >= |v| {
      InsertStable(sorted[1..], v, n);
      OfLengthCons(sorted[0], Insert(sorted[1..], v), n);
      OfLengthCons(sorted[0], sorted[1..], n);
      assert sorted == [sorted[0]] + sorted[1..];
    } else {
      InsertFirst(sorted, v, n);
    }
  }

  lemma InsertFirst(sorted: seq<string>, v: string, n: nat)
    requires forall i :: 0 <= i < |sorted| ==> |sorted[i]| < |v|
    ensures OfLength([v] + sorted, n) == OfLength(sorted, n) + OfLength([v], n)
  {
    OfLengthCons(v, sorted, n);
    if n == |v| {
      NoneOfLength(sorted, n);
    } else {
      NoneOfLength([v], n);
    }
  }

  lemma {:induction false} NoneOfLength(values: seq<string>, n: nat)
    requires forall i :: 0 <= i < |values| ==> |values[i]| != n
    ensures OfLength(values, n) == []
  {
    if values != [] {
      NoneOfLength(values[..|values| - 1], n);
    }
  }

  /** The sort is stable: values of one length keep the order they came in. */
  lemma {:induction false} SortIsStable(values: seq<string>, n: nat)
    ensures OfLength(LongestFirst(values), n) == OfLength(values, n)
  {
    if values != [] {
      var rest, v := values[..|values| - 1], values[|values| - 1];
      SortIsStable(rest, n);
      LongestFirstIs(rest);
      InsertStable(LongestFirst(rest), v, n);
    }
  }

  lemma {:induction false} NonEmptyKeeps(values: seq<string>, n: nat)
    requires n > 0
    ensures OfLength(NonEmpty(values), n) == OfLength(values, n)
  {
    if values != [] {
      var rest, v := NonEmpty(values[..|values| - 1]), values[|values| - 1];
      NonEmptyKeeps(values[..|values| - 1], n);
      assert (rest + [v])[..|rest|] == rest;
    }
  }

  /** The first of each run of equal values. */
  function FirstsOfRuns(vals: seq<string>): seq<string> {
    if vals == [] then []
    else
      var n := |vals| - 1;
      if n > 0 && vals[n - 1] == vals[n] then FirstsOfRuns(vals[..n]) else FirstsOfRuns(vals[..n]) + [vals[n]]
  }

  lemma {:induction false} FirstsCons(x: string, rest: seq<string>)
    ensures FirstsOfRuns([x] + rest) == if rest != [] && rest[0] == x then FirstsOfRuns(rest) else [x] + FirstsOfRuns(rest)
  {
    if rest == [] {
      assert [x] + rest == [x] && [x][..0] == [];
    } else {
      var n := |rest| - 1;
      var all := [x] + rest;
      assert all[..n + 1] == [x] + rest[..n] && all[n + 1] == rest[n] && all[n] == if n == 0 then x else rest[n - 1];
      FirstsCons(x, rest[..n]);
    }
  }

  /** Dropping repeats keeps the first of each run, in order. */
  lemma {:induction false} DedupIsFirsts(vals: seq<string>)
    ensures Dedup(vals) == FirstsOfRuns(vals)
  {
    if |vals| >= 2 {
      DedupIsFirsts(vals[1..]);
      FirstsCons(vals[0], vals[1..]);
      assert vals == [vals[0]] + vals[1..];
    } else if |vals| == 1 {
      assert vals[..0] == [] && vals == [vals[0]];
    }
  }

  /** The working list holds the non-empty values, longest first. */
  lemma OrderedIs(values: seq<string>)
    ensures Descending(Ordered(values)) && NoneEmpty(Ordered(values))
    ensures forall w :: w in Ordered(values) <==> w in values && w != ""
  {
    NonEmptyIs(values);
    LongestFirstIs(NonEmpty(values));
    DedupIs(LongestFirst(NonEmpty(values)));
    assert forall i :: 0 <= i < |Ordered(values)| ==> Ordered(values)[i] in Ordered(values);
  }

  /** Values of one length stand in the list as they were given, but for repeats that follow one another. */
  lemma OrderIsStable(values: seq<string>, n: nat)
    requires n > 0
    ensures exists sorted :: Ordered(values) == FirstsOfRuns(sorted) && Descending(sorted) && OfLength(sorted, n) == OfLength(values, n)
  {
    var sorted := LongestFirst(NonEmpty(values));
    SortIsStable(NonEmpty(values), n);
    NonEmptyKeeps(values, n);
    LongestFirstIs(NonEmpty(values));
    DedupIsFirsts(sorted);
    assert Ordered(values) == FirstsOfRuns(sorted);
  }

  // ---------------------------------------------------------------- one replacement

  function Join(pieces: seq<string>, glue: string): string {
    if pieces == [] then ""
    else if |pieces| == 1 then pieces[0]
    else pieces[0] + glue + Join(pieces[1..], glue)
  }

  /** `v` comes first right after the piece. */
  ghost predicate EndsAtFirst(piece: string, v: string) {
    forall i :: OccursAt(piece + v, i, v) ==> i == |piece|
  }

  /** Joined by `v` the pieces show every match where it is met first, one after another, and no more of them. */
  ghost predicate SplitBy(t: string, v: string, pieces: seq<string>) {
    && pieces != [] && t == Join(pieces, v)
    && (forall k :: 0 <= k < |pieces| - 1 ==> EndsAtFirst(pieces[k], v))
    && !Contains(pieces[|pieces| - 1], v)
  }

  function Split(t: string, v: string): (pieces: seq<string>)
    requires v != ""
    ensures pieces != []
  {
    if |t| < |v| then [t]
    else if OccursAt(t, 0, v) then [""] + Split(t[|v|..], v)
    else
      var rest := Split(t[1..], v);
      [[t[0]] + rest[0]] + rest[1..]
  }

  /** A replacement puts the word in the place of each match, leftmost first, and leaves all the rest of the text as it is. */
  lemma {:induction false} ReplaceIsSplit(t: string, v: string)
    requires v != ""
    ensures SplitBy(t, v, Split(t, v)) && Replace(t, v) == Join(Split(t, v), REPLACEMENT)
  {
    if |t| < |v| {
    } else if OccursAt(t, 0, v) {
      ReplaceIsSplit(t[|v|..], v);
      MatchFirst(t, v, Split(t[|v|..], v));
    } else {
      ReplaceIsSplit(t[1..], v);
      CharFirst(t, v, Split(t[1..], v));
      JoinHead(t[0], Split(t[1..], v), REPLACEMENT);
    }
  }

  lemma MatchFirst(t: string, v: string, rest: seq<string>)
    requires v != "" && OccursAt(t, 0, v) && SplitBy(t[|v|..], v, rest)
    ensures SplitBy(t, v, [""] + rest) && Join([""] + rest, REPLACEMENT) == REPLACEMENT + Join(rest, REPLACEMENT)
  {
    assert ([""] + rest)[1..] == rest && t == v + t[|v|..];
    assert "" + v == v;
  }

  lemma CharFirst(t: string, v: string, rest: seq<string>)
    requires v != "" && t != "" && !OccursAt(t, 0, v) && SplitBy(t[1..], v, rest)
    ensures SplitBy(t, v, [[t[0]] + rest[0]] + rest[1..])
  {
    var head := [t[0]] + rest[0];
    assert ([head] + rest[1..])[1..] == rest[1..] && t == [t[0]] + t[1..];
    JoinHead(t[0], rest, v);
    if |rest| == 1 {
      StillAbsent(t[0], rest[0], v);
    } else {
      StillFirst(t[0], rest[0], v, Join(rest[1..], v));
    }
  }

  lemma StillAbsent(c: char, piece: string, v: string)
    requires v != "" && !Contains(piece, v) && !OccursAt([c] + piece, 0, v)
    ensures !Contains([c] + piece, v)
  {
    forall i
      ensures !OccursAt([c] + piece, i, v)
    {
      if i > 0 {
        OneCharOn(c, piece, i, v);
      }
    }
  }

  lemma StillFirst(c: char, piece: string, v: string, tail: string)
    requires v != "" && EndsAtFirst(piece, v) && !OccursAt([c] + piece + v + tail, 0, v)
    ensures EndsAtFirst([c] + piece, v)
  {
    var s := [c] + piece + v;
    assert s == [c] + (piece + v) && s + tail == [c] + piece + v + tail;
    assert (s + tail)[..|v|] == s[..|v|];
    forall i | OccursAt(s, i, v)
      ensures i == |piece| + 1
    {
      if i > 0 {
        OneCharOn(c, piece + v, i, v);
      }
    }
  }

  lemma JoinHead(c: char, rest: seq<string>, glue: string)
    requires rest != []
    ensures Join([[c] + rest[0]] + rest[1..], glue) == [c] + Join(rest, glue)
  {
    assert ([[c] + rest[0]] + rest[1..])[1..] == rest[1..];
  }

  lemma {:induction false} NothingToReplace(t: string, v: string)
    requires v != "" && !Contains(t, v)
    ensures Replace(t, v) == t
  {
    if |t| >= |v| {
      forall i | OccursAt(t[1..], i, v)
        ensures OccursAt(t, i + 1, v)
      {
      }
      NothingToReplace(t[1..], v);
    }
  }

  lemma {:induction false} ReplacementShows(t: string, v: string)
    requires v != "" && Contains(t, v)
    ensures Contains(Replace(t, v), REPLACEMENT)
  {
    if OccursAt(t, 0, v) {
      assert OccursAt(Replace(t, v), 0, REPLACEMENT);
    } else {
      var i :| OccursAt(t, i, v);
      assert OccursAt(t[1..], i - 1, v);
      ReplacementShows(t[1..], v);
      var j :| OccursAt(Replace(t[1..], v), j, REPLACEMENT);
      assert OccursAt(Replace(t, v), j + 1, REPLACEMENT);
    }
  }

  /** With `w` laid over the replacement at `i`, the two meet, and agree wherever they do. */
  ghost predicate Overlaps(w: string, i: int) {
    -|w| < i < |REPLACEMENT| && forall j :: 0 <= j < |REPLACEMENT| && i <= j < i + |w| ==> REPLACEMENT[j] == w[j - i]
  }

  /** `w` meets the replacement nowhere but inside it. */
  ghost predicate Apart(w: string) {
    forall i :: Overlaps(w, i) ==> OccursAt(REPLACEMENT, i, w)
  }

  predicate Unbracketed(w: string) {
    '[' !in w && ']' !in w
  }

  /** A text without brackets never straddles an end of the replacement. */
  lemma UnbracketedApart(w: string)
    requires w != "" && Unbracketed(w)
    ensures Apart(w)
  {
    var n := |REPLACEMENT|;
    assert REPLACEMENT[0] == '[' && REPLACEMENT[n - 1] == ']';
    assert forall k :: 0 <= k < |w| ==> w[k] != '[' && w[k] != ']';
    forall i | Overlaps(w, i)
      ensures OccursAt(REPLACEMENT, i, w)
    {
      assert REPLACEMENT[i..i + |w|] == w;
    }
  }

  /** Values a replacement can neither touch nor spell. */
  ghost predicate Harmless(v: string) {
    v != "" && Apart(v) && !Contains(REPLACEMENT, v)
  }

  /** What is left of a harmless `w` after `d` characters is not the beginning of a replacement, nor cut short by one. */
  lemma {:induction false} NotCut(t: string, v: string, w: string, d: nat)
    requires v != "" && Harmless(w) && d < |w|
    requires OccursAt(Replace(t, v), 0, w[d..])
    ensures OccursAt(t, 0, w[d..])
    decreases |w| - d
  {
    if |t| < |v| {
    } else if OccursAt(t, 0, v) {
      StartsNoReplacement(Replace(t[|v|..], v), w, d);
      assert false;
    } else {
      var r := Replace(t[1..], v);
      var rest := w[d + 1..];
      assert w[d..] == [w[d]] + rest && Replace(t, v) == [t[0]] + r;
      assert ([t[0]] + r)[..|w| - d] == [t[0]] + r[..|w| - d - 1];
      assert t[0] == w[d] && r[..|rest|] == rest;
      if rest != "" {
        NotCut(t[1..], v, w, d + 1);
      }
      assert t[..|w| - d] == [t[0]] + t[1..][..|rest|];
    }
  }

  lemma StartsNoReplacement(rest: string, w: string, d: nat)
    requires Harmless(w) && d < |w|
    ensures !OccursAt(REPLACEMENT + rest, 0, w[d..])
  {
    var s := REPLACEMENT + rest;
    if OccursAt(s, 0, w[d..]) {
      forall j | 0 <= j < |REPLACEMENT| && 0 - d <= j < |w| - d
        ensures REPLACEMENT[j] == w[j + d]
      {
        assert s[..|w| - d][j] == w[d..][j];
      }
      assert Overlaps(w, 0 - d);
    }
  }

  lemma PastReplacement(w: string, rest: string, i: int)
    requires Harmless(w) && OccursAt(REPLACEMENT + rest, i, w)
    ensures OccursAt(rest, i - |REPLACEMENT|, w)
  {
    var n, s := |REPLACEMENT|, REPLACEMENT + rest;
    if i < n {
      forall j | 0 <= j < n && i <= j < i + |w|
        ensures REPLACEMENT[j] == w[j - i]
      {
        assert s[i..i + |w|][j - i] == s[j];
      }
      assert Overlaps(w, i);
    } else {
      assert rest[i - n..i - n + |w|] == s[i..i + |w|];
    }
  }

  lemma OneCharOn(c: char, r: string, i: int, w: string)
    requires i > 0
    ensures OccursAt([c] + r, i, w) <==> OccursAt(r, i - 1, w)
  {
    if i + |w| <= |r| + 1 {
      assert ([c] + r)[i..i + |w|] == r[i - 1..i - 1 + |w|];
    }
  }

  lemma FoundLater(t: string, n: nat, w: string)
    requires n <= |t| && Contains(t[n..], w)
    ensures Contains(t, w)
  {
    var j :| OccursAt(t[n..], j, w);
    assert t[n..][j..j + |w|] == t[j + n..j + n + |w|];
    assert OccursAt(t, j + n, w);
  }

  /** A replacement creates no value that was not there. */
  lemma {:induction false} NothingCreated(t: string, v: string, w: string, i: int)
    requires v != "" && Harmless(w)
    requires OccursAt(Replace(t, v), i, w)
    ensures Contains(t, w)
  {
    if |t| < |v| {
    } else if OccursAt(t, 0, v) {
      PastReplacement(w, Replace(t[|v|..], v), i);
      NothingCreated(t[|v|..], v, w, i - |REPLACEMENT|);
      FoundLater(t, |v|, w);
    } else if i > 0 {
      assert OccursAt(Replace(t[1..], v), i - 1, w);
      NothingCreated(t[1..], v, w, i - 1);
      FoundLater(t, 1, w);
    } else {
      assert w[0..] == w;
      NotCut(t, v, w, 0);
      assert OccursAt(t, 0, w);
    }
  }

  /** After its own replacement a value is gone. */
  lemma {:induction false} ValueGone(t: string, v: string, i: int)
    requires Harmless(v)
    ensures !OccursAt(Replace(t, v), i, v)
  {
    if |t| < |v| {
    } else if OccursAt(t, 0, v) {
      if OccursAt(Replace(t, v), i, v) {
        PastReplacement(v, Replace(t[|v|..], v), i);
      }
      ValueGone(t[|v|..], v, i - |REPLACEMENT|);
    } else if i > 0 {
      ValueGone(t[1..], v, i - 1);
      OneCharOn(t[0], Replace(t[1..], v), i, v);
    } else if OccursAt(Replace(t, v), 0, v) {
      assert v[0..] == v;
      NotCut(t, v, v, 0);
    }
  }

  // ------------------------------------------------------------------ the whole list

  ghost predicate Clean(t: string, vals: seq<string>) {
    forall i :: 0 <= i < |vals| ==> !Contains(t, vals[i])
  }

  lemma {:induction false} AllGone(t: string, vals: seq<string>)
    requires NoneEmpty(vals) && forall i :: 0 <= i < |vals| ==> Harmless(vals[i])
    ensures Clean(ReplaceAll(t, vals), vals)
  {
    if vals != [] {
      var rest, last := vals[..|vals| - 1], vals[|vals| - 1];
      AllGone(t, rest);
      var sofar := ReplaceAll(t, rest);
      forall k | 0 <= k < |vals|
        ensures !Contains(ReplaceAll(t, vals), vals[k])
      {
        assert k < |rest| ==> !Contains(sofar, rest[k]);
        StaysGone(sofar, last, vals[k]);
      }
    }
  }

  lemma StaysGone(t: string, v: string, w: string)
    requires Harmless(v) && Harmless(w)
    requires w == v || !Contains(t, w)
    ensures !Contains(Replace(t, v), w)
  {
    if Contains(Replace(t, v), w) {
      var i :| OccursAt(Replace(t, v), i, w);
      if w == v {
        ValueGone(t, v, i);
      } else {
        NothingCreated(t, v, w, i);
      }
    }
  }

  lemma {:induction false} CleanUnchanged(t: string, vals: seq<string>)
    requires NoneEmpty(vals) && Clean(t, vals)
    ensures ReplaceAll(t, vals) == t
  {
    if vals != [] {
      CleanUnchanged(t, vals[..|vals| - 1]);
      NothingToReplace(t, vals[|vals| - 1]);
    }
  }

  lemma FullLength(u: string, v: string)
    requires |v| >= |u|
    ensures Contains(u, v) ==> u == v
  {
    if Contains(u, v) {
      var k :| OccursAt(u, k, v);
      assert u[0..|u|] == u;
    }
  }

  lemma TooLongToMatch(u: string, vals: seq<string>)
    requires NoneEmpty(vals) && forall i :: 0 <= i < |vals| ==> |vals[i]| >= |u| && vals[i] != u
    ensures ReplaceAll(u, vals) == u
  {
    forall i | 0 <= i < |vals|
      ensures !Contains(u, vals[i])
    {
      FullLength(u, vals[i]);
    }
    CleanUnchanged(u, vals);
  }

  /** Whatever comes after, a replacement once made is never unmade. */
  lemma {:induction false} ReplacementStays(t: string, vals: seq<string>)
    requires NoneEmpty(vals) && Contains(t, REPLACEMENT)
    ensures Contains(ReplaceAll(t, vals), REPLACEMENT)
  {
    if vals != [] {
      var rest, last := vals[..|vals| - 1], vals[|vals| - 1];
      ReplacementStays(t, rest);
      if Contains(ReplaceAll(t, rest), last) {
        ReplacementShows(ReplaceAll(t, rest), last);
      } else {
        NothingToReplace(ReplaceAll(t, rest), last);
      }
    }
  }

  lemma {:induction false} ReplaceAllSplit(t: string, a: seq<string>, b: seq<string>)
    requires NoneEmpty(a) && NoneEmpty(b)
    ensures NoneEmpty(a + b) && ReplaceAll(t, a + b) == ReplaceAll(ReplaceAll(t, a), b)
  {
    if b == [] {
      assert a + b == a;
    } else {
      var n := |b| - 1;
      assert (a + b)[..|a| + n] == a + b[..n];
      ReplaceAllSplit(t, a, b[..n]);
    }
  }

  /** Longest first: a listed value that is the whole text meets no shorter value before its own turn. */
  lemma WholeTextReplaced(u: string, vals: seq<string>, k: nat)
    requires NoneEmpty(vals) && Descending(vals) && k < |vals| && vals[k] == u
    requires forall i :: 0 <= i < k ==> vals[i] != u
    ensures ReplaceAll(u, vals[..k + 1]) == REPLACEMENT
    ensures Contains(ReplaceAll(u, vals), REPLACEMENT)
  {
    TooLongToMatch(u, vals[..k]);
    assert vals[..k + 1][..k] == vals[..k];
    assert OccursAt(u, 0, u) && u[|u|..] == "" && Replace("", u) == "";
    assert Replace(u, u) == REPLACEMENT + "" == REPLACEMENT;
    assert vals == vals[..k + 1] + vals[k + 1..];
    ReplaceAllSplit(u, vals[..k + 1], vals[k + 1..]);
    assert OccursAt(REPLACEMENT, 0, REPLACEMENT);
    ReplacementStays(REPLACEMENT, vals[k + 1..]);
  }

  lemma {:induction false} FirstIndex(vals: seq<string>, u: string) returns (k: nat)
    requires u in vals
    ensures k < |vals| && vals[k] == u && forall i :: 0 <= i < k ==> vals[i] != u
  {
    if vals[0] == u {
      k := 0;
    } else {
      assert vals == [vals[0]] + vals[1..];
      k := FirstIndex(vals[1..], u);
      k := k + 1;
    }
  }

  ghost predicate LeavesNone(values: seq<string>)
    requires NoneEmpty(Ordered(values))
  {
    forall t: string, v :: v in values && v != "" ==> !Contains(ReplaceAll(t, Ordered(values)), v)
  }

  /**
   Over values that meet the replacement nowhere but inside it, redaction leaves no listed
   value in any text exactly when none of them is inside it. One that is inside spoils any list.
   */
  lemma RedactionCompleteIff(values: seq<string>)
    ensures NoneEmpty(Ordered(values))
    ensures LeavesNone(values) ==> forall v :: v in values && v != "" ==> !Contains(REPLACEMENT, v)
    ensures (forall v :: v in values && v != "" ==> Apart(v)) ==>
              (LeavesNone(values) <==> forall v :: v in values && v != "" ==> !Contains(REPLACEMENT, v))
  {
    OrderedIs(values);
    var vals := Ordered(values);
    assert forall i :: 0 <= i < |vals| ==> vals[i] in values;
    if u :| u in values && u != "" && Contains(REPLACEMENT, u) {
      var k := FirstIndex(vals, u);
      WholeTextReplaced(u, vals, k);
      ContainsTrans(ReplaceAll(u, vals), REPLACEMENT, u);
    } else if forall v :: v in values && v != "" ==> Apart(v) {
      forall t: string, v | v in values && v != ""
        ensures !Contains(ReplaceAll(t, vals), v)
      {
        AllGone(t, vals);
        var k := FirstIndex(vals, v);
      }
    }
  }

  /** Values without brackets are such, and then only the word counts. */
  lemma BracketFreeIff(values: seq<string>)
    requires forall v :: v in values ==> Unbracketed(v)
    ensures NoneEmpty(Ordered(values))
    ensures LeavesNone(values) <==> forall v :: v in values && v != "" ==> !Contains(WORD, v)
  {
    forall v | v in values && v != ""
      ensures Apart(v) && (Contains(REPLACEMENT, v) <==> Contains(WORD, v))
    {
      UnbracketedApart(v);
      InsideTheWord(v);
    }
    RedactionCompleteIff(values);
  }

  lemma InsideTheWord(v: string)
    requires v != "" && Unbracketed(v)
    ensures Contains(REPLACEMENT, v) <==> Contains(WORD, v)
  {
    var n := |WORD|;
    assert REPLACEMENT[0] == '[' && REPLACEMENT[n + 1] == ']' && REPLACEMENT[1..n + 1] == WORD;
    forall i | OccursAt(WORD, i, v)
      ensures OccursAt(REPLACEMENT, i + 1, v)
    {
      assert REPLACEMENT[i + 1..i + 1 + |v|] == REPLACEMENT[1..n + 1][i..i + |v|];
    }
    forall i | OccursAt(REPLACEMENT, i, v)
      ensures OccursAt(WORD, i - 1, v)
    {
      var r := REPLACEMENT[i..i + |v|];
      assert r[0] == REPLACEMENT[i] && r[|v| - 1] == REPLACEMENT[i + |v| - 1];
      assert REPLACEMENT[i..i + |v|] == REPLACEMENT[1..n + 1][i - 1..i - 1 + |v|];
    }
  }

  lemma ContainsTrans(a: string, b: string, c: string)
    requires Contains(a, b) && Contains(b, c)
    ensures Contains(a, c)
  {
    var i :| OccursAt(a, i, b);
    var j :| OccursAt(b, j, c);
    assert forall k :: 0 <= k < |b| ==> b[k] == a[i + k];
    assert forall k :: 0 <= k < |c| ==> c[k] == b[j + k];
    assert a[i + j..i + j + |c|] == c;
    assert OccursAt(a, i + j, c);
  }

  lemma AllHarmless(values: seq<string>)
    requires forall v :: v in values && v != "" ==> Harmless(v)
    ensures NoneEmpty(Ordered(values))
    ensures forall i :: 0 <= i < |Ordered(values)| ==> Harmless(Ordered(values)[i])
  {
    OrderedIs(values);
    assert forall i :: 0 <= i < |Ordered(values)| ==> Ordered(values)[i] in values;
  }

  /** A text free of every value is returned as it is, and redacting twice is redacting once. */
  lemma RedactionStable(t: string, values: seq<string>)
    requires forall v :: v in values && v != "" ==> Harmless(v)
    ensures NoneEmpty(Ordered(values))
    ensures Clean(t, Ordered(values)) ==> ReplaceAll(t, Ordered(values)) == t
    ensures ReplaceAll(ReplaceAll(t, Ordered(values)), Ordered(values)) == ReplaceAll(t, Ordered(values))
  {
    AllHarmless(values);
    var vals := Ordered(values);
    if Clean(t, vals) {
      CleanUnchanged(t, vals);
    }
    AllGone(t, vals);
    CleanUnchanged(ReplaceAll(t, vals), vals);
  }

  /** A text that is one of the values is hidden whole. */
  lemma ValueHiddenWhole(t: string, values: seq<string>)
    requires forall v :: v in values && v != "" ==> !Contains(REPLACEMENT, v)
    requires t in values && t != ""
    ensures NoneEmpty(Ordered(values)) && ReplaceAll(t, Ordered(values)) == REPLACEMENT
  {
    OrderedIs(values);
    HiddenWhole(t, Ordered(values));
  }

  lemma HiddenWhole(t: string, vals: seq<string>)
    requires NoneEmpty(vals) && Descending(vals) && t in vals
    requires forall i :: 0 <= i < |vals| ==> !Contains(REPLACEMENT, vals[i])
    ensures ReplaceAll(t, vals) == REPLACEMENT
  {
    var k := FirstIndex(vals, t);
    WholeTextReplaced(t, vals, k);
    assert vals == vals[..k + 1] + vals[k + 1..];
    ReplaceAllSplit(t, vals[..k + 1], vals[k + 1..]);
    ReplacementKept(vals[k + 1..]);
  }

  lemma ReplacementKept(vals: seq<string>)
    requires NoneEmpty(vals) && forall i :: 0 <= i < |vals| ==> !Contains(REPLACEMENT, vals[i])
    ensures ReplaceAll(REPLACEMENT, vals) == REPLACEMENT
  {
    CleanUnchanged(REPLACEMENT, vals);
  }
}
