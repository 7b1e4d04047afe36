/** The JavaScript string operations the content view relies on:
    `trim`, `toLowerCase`, `split(",")`, `join`, `includes` and the
    comparison handed to `sort`. */
module Text {
  import Seqs

  /** The ECMAScript WhiteSpace and LineTerminator code points, which are
      exactly what `String.prototype.trim` strips from both ends. */
  predicate IsWhite(c: char) {
    var n := c as int;
    n == 0x09 || n == 0x0A || n == 0x0B || n == 0x0C || n == 0x0D || n == 0x20 ||
    n == 0xA0 || n == 0x1680 || (0x2000 <= n <= 0x200A) || n == 0x2028 ||
    n == 0x2029 || n == 0x202F || n == 0x205F || n == 0x3000 || n == 0xFEFF
  }

  predicate AllWhite(s: string) {
    forall i :: 0 <= i < |s| ==> IsWhite(s[i])
  }

  /** Neither end of `s` is white space. */
  predicate IsTrimmed(s: string) {
    s == [] || (!IsWhite(s[0]) && !IsWhite(s[|s| - 1]))
  }

  /** `r` is what is left of `s` once some white prefix and some white suffix
      are cut off. */
  ghost predicate IsWhiteFramed(s: string, r: string) {
    exists i :: 0 <= i <= |s| - |r| && s[i..i + |r|] == r && AllWhite(s[..i]) && AllWhite(s[i + |r|..])
  }

  function TrimStart(s: string): (r: string)
    ensures r == [] || !IsWhite(r[0])
    decreases |s|
  {
    if |s| > 0 && IsWhite(s[0]) then TrimStart(s[1..]) else s
  }

  function TrimEnd(s: string): (r: string)
    ensures r == [] || !IsWhite(r[|r| - 1])
    ensures |r| <= |s| && r == s[..|r|]
    decreases |s|
  {
    if |s| > 0 && IsWhite(s[|s| - 1]) then TrimEnd(s[..|s| - 1]) else s
  }

  /** `String.prototype.trim`: neither end of the result is white space. */
  function Trim(s: string): (r: string)
    ensures IsTrimmed(r)
  {
    var t := TrimStart(s);
    var r := TrimEnd(t);
    assert r == [] || r[0] == t[0];
    r
  }

  /** `TrimStart` removes a white prefix. */
  lemma {:induction false} TrimStartSuffix(s: string)
    ensures |TrimStart(s)| <= |s| && TrimStart(s) == s[|s| - |TrimStart(s)|..]
    ensures AllWhite(s[..|s| - |TrimStart(s)|])
    decreases |s|
  {
    if |s| > 0 && IsWhite(s[0]) {
      TrimStartSuffix(s[1..]);
      var k := |s| - |TrimStart(s)|;
      assert s[1..][..k - 1] == s[1..k];
      assert forall m :: 1 <= m < k ==> s[m] == s[1..k][m - 1];
    } else {
      assert s[..0] == [];
    }
  }

  /** `TrimEnd` removes a white suffix. */
  lemma {:induction false} TrimEndPrefix(s: string)
    ensures AllWhite(s[|TrimEnd(s)|..])
    decreases |s|
  {
    if |s| > 0 && IsWhite(s[|s| - 1]) {
      var t := s[..|s| - 1];
      TrimEndPrefix(t);
      var k := |TrimEnd(s)|;
      assert t[k..] == s[k..|s| - 1];
      assert forall m :: k <= m < |s| - 1 ==> s[m] == t[k..][m - k];
    }
  }

  /** What `Trim` removes is white space on both sides. */
  lemma TrimFrames(s: string)
    ensures IsWhiteFramed(s, Trim(s))
  {
    var t := TrimStart(s);
    var r := TrimEnd(t);
    TrimStartSuffix(s);
    TrimEndPrefix(t);
    var i := |s| - |t|;
    assert s[i..] == t;
    assert s[i..i + |r|] == t[..|r|];
    assert s[i + |r|..] == t[|r|..];
  }

  /** `TrimStart` cuts exactly the white prefix that ends before the first
      other character. */
  lemma {:induction false} TrimStartCuts(s: string, i: int)
    requires 0 <= i <= |s| && AllWhite(s[..i])
    requires i == |s| || !IsWhite(s[i])
    ensures TrimStart(s) == s[i..]
    decreases i
  {
    if i > 0 {
      assert IsWhite(s[..i][0]);
      assert s[1..][..i - 1] == s[1..i];
      assert forall m :: 0 <= m < i - 1 ==> s[1..i][m] == s[..i][m + 1];
      assert i - 1 < |s| - 1 ==> s[1..][i - 1] == s[i];
      TrimStartCuts(s[1..], i - 1);
      assert s[1..][i - 1..] == s[i..];
    }
  }

  /** `TrimEnd` cuts exactly the white suffix that starts after the last
      other character. */
  lemma {:induction false} TrimEndCuts(s: string, j: int)
    requires 0 <= j <= |s| && AllWhite(s[j..])
    requires j == 0 || !IsWhite(s[j - 1])
    ensures TrimEnd(s) == s[..j]
    decreases |s| - j
  {
    if j < |s| {
      assert IsWhite(s[j..][|s| - j - 1]);
      var t := s[..|s| - 1];
      assert t[j..] == s[j..|s| - 1];
      assert forall m :: 0 <= m < |t| - j ==> t[j..][m] == s[j..][m];
      assert j > 0 ==> t[j - 1] == s[j - 1];
      TrimEndCuts(t, j);
      assert t[..j] == s[..j];
    }
  }

  /** Trimming is determined by what it promises: the only trimmed string
      that `s` frames with white space on both sides is `Trim(s)`. */
  lemma TrimUnique(s: string, r: string)
    requires IsTrimmed(r) && IsWhiteFramed(s, r)
    ensures r == Trim(s)
  {
    var i :| 0 <= i <= |s| - |r| && s[i..i + |r|] == r && AllWhite(s[..i]) && AllWhite(s[i + |r|..]);
    if r == [] {
      assert AllWhite(s) by {
        forall m | 0 <= m < |s| ensures IsWhite(s[m]) {
          if m < i { assert s[..i][m] == s[m]; } else { assert s[i..][m - i] == s[m]; }
        }
      }
      assert s[..|s|] == s;
      TrimStartCuts(s, |s|);
    } else {
      assert s[i] == r[0];
      TrimStartCuts(s, i);
      var t := s[i..];
      assert t[..|r|] == r;
      assert t[|r|..] == s[i + |r|..];
      assert t[|r| - 1] == r[|r| - 1];
      TrimEndCuts(t, |r|);
    }
  }

  /** Trimming a trimmed string changes nothing. */
  lemma TrimTrimmed(s: string)
    requires IsTrimmed(s)
    ensures Trim(s) == s
  {
    assert s[0..|s|] == s;
    assert IsWhiteFramed(s, s) by {
      assert s[..0] == [] && s[|s|..] == [];
    }
    TrimUnique(s, s);
  }

  /** `String.prototype.toLowerCase`, on the letters A to Z. */
  function LowerChar(c: char): char {
    if 'A' <= c <= 'Z' then (c as int + 32) as char else c
  }

  function Lower(s: string): (r: string)
    ensures |r| == |s|
    ensures forall i :: 0 <= i < |s| ==> r[i] == LowerChar(s[i])
  {
    seq(|s|, i requires 0 <= i < |s| => LowerChar(s[i]))
  }

  lemma LowerAppend(a: string, b: string)
    ensures Lower(a + b) == Lower(a) + Lower(b)
  {
  }

  /** `String.prototype.split` with a one-character separator: the pieces
      between consecutive separators; an empty string gives one empty piece. */
  function Split(s: string, sep: char): (parts: seq<string>)
    ensures |parts| >= 1
    ensures forall k :: 0 <= k < |parts| ==> sep !in parts[k]
    decreases |s|
  {
    if s == [] then [""]
    else
      var rest := Split(s[1..], sep);
      if s[0] == sep then [""] + rest
      else [[s[0]] + rest[0]] + rest[1..]
  }

  /** One step of `Split`: the first character either ends the first piece or
      joins it. */
  lemma SplitCons(c: char, s: string, sep: char)
    ensures Split([c] + s, sep) ==
      if c == sep then [""] + Split(s, sep) else [[c] + Split(s, sep)[0]] + Split(s, sep)[1..]
  {
    assert ([c] + s)[1..] == s;
  }

  /** `Array.prototype.join` with a one-character separator. */
  function Join(parts: seq<string>, sep: char): string
    decreases |parts|
  {
    if parts == [] then ""
    else if |parts| == 1 then parts[0]
    else parts[0] + [sep] + Join(parts[1..], sep)
  }

  /** Joining the pieces of a split gives back the original string. */
  lemma {:induction false} JoinSplit(s: string, sep: char)
    ensures Join(Split(s, sep), sep) == s
    decreases |s|
  {
    if s != [] {
      var rest := Split(s[1..], sep);
      JoinSplit(s[1..], sep);
      if s[0] == sep {
        assert Split(s, sep)[1..] == rest;
      } else {
        var parts := Split(s, sep);
        assert parts[1..] == rest[1..];
        if |rest| == 1 {
          assert parts == [[s[0]] + rest[0]];
        } else {
          assert Join(rest, sep) == rest[0] + [sep] + Join(rest[1..], sep);
          assert Join(parts, sep) == [s[0]] + rest[0] + [sep] + Join(rest[1..], sep);
        }
      }
    }
  }

  /** Splitting a join of separator-free pieces gives back the pieces. */
  lemma {:induction false} SplitJoin(parts: seq<string>, sep: char)
    requires |parts| >= 1
    requires forall k :: 0 <= k < |parts| ==> sep !in parts[k]
    ensures Split(Join(parts, sep), sep) == parts
    decreases |parts|, |parts[0]|
  {
    var p := parts[0];
    if p == [] {
      if |parts| > 1 {
        SplitJoin(parts[1..], sep);
        var j := Join(parts, sep);
        assert j == [sep] + Join(parts[1..], sep);
        assert j[1..] == Join(parts[1..], sep);
        assert parts == [""] + parts[1..];
      }
    } else {
      var tail := [p[1..]] + parts[1..];
      assert tail[1..] == parts[1..];
      forall k | 0 <= k < |tail| ensures sep !in tail[k] {
        if k == 0 { assert forall c :: c in p[1..] ==> c in p; }
      }
      SplitJoin(tail, sep);
      var j := Join(parts, sep);
      assert j == [p[0]] + Join(tail, sep) by {
        assert p == [p[0]] + p[1..];
        if |parts| > 1 {
          assert Join(tail, sep) == p[1..] + [sep] + Join(parts[1..], sep);
        }
      }
      SplitCons(p[0], Join(tail, sep), sep);
      assert p[0] != sep;
      assert [p[0]] + p[1..] == p;
      assert parts == [p] + parts[1..];
    }
  }

  /** `q` occurs in `s` starting at index `i`. */
  ghost predicate OccursAt(s: string, q: string, i: int) {
    0 <= i <= |s| - |q| && s[i..i + |q|] == q
  }

  /** `String.prototype.includes`. */
  predicate Contains(s: string, q: string)
    decreases |s|
  {
    if |q| > |s| then false
    else if s[..|q|] == q then true
    else Contains(s[1..], q)
  }

  /** `Contains` finds exactly the occurrences. */
  lemma {:induction false} ContainsOccurs(s: string, q: string)
    ensures Contains(s, q) <==> exists i :: OccursAt(s, q, i)
    decreases |s|
  {
    if |q| > |s| {
    } else if s[..|q|] == q {
      assert OccursAt(s, q, 0);
    } else {
      ContainsOccurs(s[1..], q);
      if Contains(s[1..], q) {
        var i :| OccursAt(s[1..], q, i);
        assert s[i + 1..i + 1 + |q|] == s[1..][i..i + |q|];
        assert OccursAt(s, q, i + 1);
      }
      if i :| OccursAt(s, q, i) {
        assert i != 0;
        assert s[1..][i - 1..i - 1 + |q|] == s[i..i + |q|];
        assert OccursAt(s[1..], q, i - 1);
      }
    }
  }

  lemma OccursInPrefix(a: string, t: string, q: string, i: int)
    requires OccursAt(a, q, i)
    ensures OccursAt(a + t, q, i)
  {
    assert (a + t)[i..i + |q|] == a[i..i + |q|];
  }

  lemma OccursInSuffix(p: string, b: string, q: string, i: int)
    requires OccursAt(b, q, i)
    ensures OccursAt(p + b, q, |p| + i)
  {
    assert (p + b)[|p|..] == b;
    assert (p + b)[|p| + i..|p| + i + |q|] == b[i..i + |q|];
  }

  lemma OccursHas(s: string, q: string, i: int, k: int)
    requires OccursAt(s, q, i) && 0 <= k < |q|
    ensures s[i + k] in q
  {
    assert q[k] == s[i..i + |q|][k];
  }

  lemma OccursAcross(a: string, b: string, sep: char, q: string, i: int)
    requires sep !in q && OccursAt(a + [sep] + b, q, i)
    ensures OccursAt(a, q, i) || OccursAt(b, q, i - |a| - 1)
  {
    var s := a + [sep] + b;
    if i + |q| <= |a| {
      assert a[i..i + |q|] == s[i..i + |q|];
    } else if i > |a| {
      assert s[|a| + 1..] == b;
      assert b[i - |a| - 1..i - |a| - 1 + |q|] == s[|a| + 1..][i - |a| - 1..i - |a| - 1 + |q|];
    } else {
      OccursHas(s, q, i, |a| - i);
    }
  }

  /** A query without the separator occurs in `a sep b` exactly when it
      occurs in `a` or in `b`: the separator keeps a match inside one piece. */
  lemma ContainsAcross(a: string, b: string, sep: char, q: string)
    requires sep !in q
    ensures Contains(a + [sep] + b, q) <==> Contains(a, q) || Contains(b, q)
  {
    var s := a + [sep] + b;
    ContainsOccurs(s, q);
    ContainsOccurs(a, q);
    ContainsOccurs(b, q);
    if i :| OccursAt(s, q, i) {
      OccursAcross(a, b, sep, q, i);
    }
    if i :| OccursAt(a, q, i) {
      OccursInPrefix(a, [sep] + b, q, i);
      assert a + ([sep] + b) == s;
    }
    if i :| OccursAt(b, q, i) {
      OccursInSuffix(a + [sep], b, q, i);
    }
  }

  /** A query without the separator occurs in a join exactly when it occurs
      in one of the joined pieces. */
  lemma {:induction false} ContainsInJoin(parts: seq<string>, sep: char, q: string)
    requires |parts| >= 1
    requires sep !in q
    ensures Contains(Join(parts, sep), q) <==> exists k :: 0 <= k < |parts| && Contains(parts[k], q)
    decreases |parts|
  {
    if |parts| > 1 {
      ContainsInJoin(parts[1..], sep, q);
      ContainsAcross(parts[0], Join(parts[1..], sep), sep, q);
      if k :| 0 <= k < |parts| && Contains(parts[k], q) {
        if k > 0 { assert parts[1..][k - 1] == parts[k]; }
      }
      if k :| 0 <= k < |parts| - 1 && Contains(parts[1..][k], q) {
        assert parts[k + 1] == parts[1..][k];
      }
    }
  }

  /** Lower-casing commutes with joining on a separator that has no case. */
  lemma {:induction false} LowerJoin(parts: seq<string>, sep: char)
    requires LowerChar(sep) == sep
    ensures Lower(Join(parts, sep)) == Join(seq(|parts|, k requires 0 <= k < |parts| => Lower(parts[k])), sep)
    decreases |parts|
  {
    var lowered := seq(|parts|, k requires 0 <= k < |parts| => Lower(parts[k]));
    if |parts| > 1 {
      LowerJoin(parts[1..], sep);
      assert lowered[1..] == seq(|parts| - 1, k requires 0 <= k < |parts| - 1 => Lower(parts[1..][k]));
      LowerAppend(parts[0] + [sep], Join(parts[1..], sep));
      LowerAppend(parts[0], [sep]);
      assert Lower([sep]) == [sep];
    }
  }

  /** The strict order used for sorting: code-point lexicographic order, a
      proper prefix coming first. */
  predicate Below(a: string, b: string)
    decreases |a|
  {
    if a == [] then b != []
    else if b == [] then false
    else if a[0] != b[0] then a[0] < b[0]
    else Below(a[1..], b[1..])
  }

  lemma {:induction false} BelowIrreflexive(a: string)
    ensures !Below(a, a)
    decreases |a|
  {
    if a != [] { BelowIrreflexive(a[1..]); }
  }

  lemma {:induction false} BelowTransitive(a: string, b: string, c: string)
    requires Below(a, b) && Below(b, c)
    ensures Below(a, c)
    decreases |a|
  {
    if a != [] && a[0] == b[0] && b[0] == c[0] {
      BelowTransitive(a[1..], b[1..], c[1..]);
    }
  }

  lemma {:induction false} BelowTotal(a: string, b: string)
    requires a != b
    ensures Below(a, b) || Below(b, a)
    decreases |a|
  {
    if a != [] && b != [] && a[0] == b[0] {
      assert a == [a[0]] + a[1..] && b == [b[0]] + b[1..];
      BelowTotal(a[1..], b[1..]);
    }
  }

  lemma BelowAsymmetric(a: string, b: string)
    requires Below(a, b)
    ensures !Below(b, a)
  {
    if Below(b, a) {
      BelowTransitive(a, b, a);
      BelowIrreflexive(a);
    }
  }

  /** Non-decreasing under `Below`. */
  predicate Sorted(s: seq<string>) {
    forall i, j :: 0 <= i < j < |s| ==> !Below(s[j], s[i])
  }

  /** Strictly increasing under `Below`. */
  predicate StrictlySorted(s: seq<string>) {
    forall i, j :: 0 <= i < j < |s| ==> Below(s[i], s[j])
  }

  function Insert(x: string, s: seq<string>): (r: seq<string>)
    requires Sorted(s)
    ensures Sorted(r)
    ensures multiset(r) == multiset(s) + multiset{x}
    decreases |s|
  {
    if s == [] || !Below(s[0], x) then
      assert Sorted([x] + s) by {
        var r := [x] + s;
        forall i, j | 0 <= i < j < |r| ensures !Below(r[j], r[i]) {
          assert r[j] == s[j - 1];
          if i == 0 && Below(s[j - 1], x) {
            if x != s[0] {
              BelowTotal(x, s[0]);
              BelowTransitive(s[j - 1], x, s[0]);
            }
          }
        }
      }
      [x] + s
    else
      var rest := Insert(x, s[1..]);
      assert s == [s[0]] + s[1..];
      assert Sorted([s[0]] + rest) by {
        forall j | 0 <= j < |rest| ensures !Below(rest[j], s[0]) {
          assert rest[j] in multiset(rest);
          if rest[j] == x {
            BelowAsymmetric(s[0], x);
          } else {
            assert rest[j] in s[1..];
          }
        }
      }
      [s[0]] + rest
  }

  /** `Array.prototype.sort` with the comparison above: an insertion sort. */
  function Sort(s: seq<string>): (r: seq<string>)
    ensures Sorted(r)
    ensures multiset(r) == multiset(s)
    decreases |s|
  {
    if s == [] then []
    else
      assert s == [s[0]] + s[1..];
      Insert(s[0], Sort(s[1..]))
  }

  lemma {:induction false} NoDupCounts(s: seq<string>)
    requires Seqs.NoDup(s)
    ensures forall x :: multiset(s)[x] <= 1
    decreases |s|
  {
    if s != [] {
      assert s == [s[0]] + s[1..];
      NoDupCounts(s[1..]);
      assert s[0] !in s[1..];
    }
  }

  lemma TwiceCounted(r: seq<string>, i: int, j: int)
    requires 0 <= i < j < |r| && r[i] == r[j]
    ensures multiset(r)[r[i]] >= 2
  {
    assert r == r[..j] + r[j..];
    assert r[i] in r[..j];
    assert r[j] == r[j..][0];
    assert multiset(r)[r[i]] == multiset(r[..j])[r[i]] + multiset(r[j..])[r[i]];
  }

  /** Sorting a list without duplicates yields a strictly increasing list. */
  lemma SortStrict(s: seq<string>)
    requires Seqs.NoDup(s)
    ensures StrictlySorted(Sort(s))
  {
    var r := Sort(s);
    NoDupCounts(s);
    forall i, j | 0 <= i < j < |r| ensures Below(r[i], r[j]) {
      if r[i] == r[j] {
        TwiceCounted(r, i, j);
      }
      BelowTotal(r[i], r[j]);
    }
  }

  lemma HasMember(s: seq<string>)
    requires s != []
    ensures exists x :: x in s
  {
    assert s[0] in s;
  }

  /** Two strictly increasing lists with the same elements are equal, so a
      sorted set does not depend on how its elements were gathered. */
  lemma {:induction false} StrictlySortedUnique(a: seq<string>, b: seq<string>)
    requires StrictlySorted(a) && StrictlySorted(b)
    requires forall x :: x in a <==> x in b
    ensures a == b
    decreases |a|
  {
    if a == [] {
      if b != [] {
        HasMember(b);
        assert false;
      }
    } else {
      assert a[0] in a;
      assert b != [];
      assert b[0] in b;
      var k :| 0 <= k < |b| && b[k] == a[0];
      var m :| 0 <= m < |a| && a[m] == b[0];
      if k > 0 {
        assert Below(b[0], a[0]);
        if m == 0 { BelowIrreflexive(a[0]); } else { BelowAsymmetric(a[0], b[0]); }
      }
      forall x ensures x in a[1..] <==> x in b[1..] {
        if x in a[1..] {
          var i :| 1 <= i < |a| && a[i] == x;
          if x == b[0] { BelowIrreflexive(a[0]); }
          assert x in b;
        }
        if x in b[1..] {
          var i :| 1 <= i < |b| && b[i] == x;
          if x == a[0] { BelowIrreflexive(b[0]); }
          assert x in a;
        }
      }
      StrictlySortedUnique(a[1..], b[1..]);
      assert a == [a[0]] + a[1..] && b == [b[0]] + b[1..];
    }
  }
}
