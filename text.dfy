/** The JavaScript string built-ins the core relies on, over Dafny strings
    (sequences of Unicode scalar values): `\s`, `trim`, `includes`,
    `startsWith`/`endsWith`, `split`/`join` with a string separator, and
    the decimal rendering of a non-negative integer. */
module Text {

  /** The class `\s` of JavaScript regular expressions, which is also the set
      of characters `String.prototype.trim` removes: WhiteSpace and
      LineTerminator of ECMAScript (sections 12.2 and 12.3 of ECMA-262). */
  const Spaces: set<char> := {
    '\U{9}', '\U{A}', '\U{B}', '\U{C}', '\U{D}', '\U{20}', '\U{A0}', '\U{1680}', '\U{2000}',
    '\U{2001}', '\U{2002}', '\U{2003}', '\U{2004}', '\U{2005}', '\U{2006}', '\U{2007}',
    '\U{2008}', '\U{2009}', '\U{200A}', '\U{2028}', '\U{2029}', '\U{202F}', '\U{205F}',
    '\U{3000}', '\U{FEFF}'
  }

  predicate IsSpace(c: char) {
    c in Spaces
  }

  predicate StartsWith(s: string, prefix: string) {
    |prefix| <= |s| && s[..|prefix|] == prefix
  }

  predicate EndsWith(s: string, suffix: string) {
    |suffix| <= |s| && s[|s| - |suffix|..] == suffix
  }

  /** `sub` occurs in `s` starting at index `i`. */
  predicate OccursAt(s: string, sub: string, i: int) {
    0 <= i && i + |sub| <= |s| && s[i..i + |sub|] == sub
  }

  /** `s.includes(sub)`. */
  predicate Contains(s: string, sub: string) {
    exists i | 0 <= i <= |s| - |sub| :: OccursAt(s, sub, i)
  }

  lemma ContainsEmpty(s: string)
    ensures Contains(s, "")
  {
    assert OccursAt(s, "", 0);
  }

  /** `s.split(sep)` for a non-empty separator: cut at each leftmost,
      non-overlapping occurrence of `sep`. */
  function Split(s: string, sep: string): (parts: seq<string>)
    requires sep != ""
    ensures |parts| >= 1
    decreases |s|
  {
    if |s| < |sep| then [s]
    else if s[..|sep|] == sep then [""] + Split(s[|sep|..], sep)
    else
      var rest := Split(s[1..], sep);
      [[s[0]] + rest[0]] + rest[1..]
  }

  /** `parts.join(sep)`. */
  function Join(parts: seq<string>, sep: string): string {
    if |parts| == 0 then ""
    else if |parts| == 1 then parts[0]
    else parts[0] + sep + Join(parts[1..], sep)
  }

  /** `s.split(from).join(to)`: every occurrence of `from` replaced by `to`. */
  function ReplaceAll(s: string, from: string, to: string): string
    requires from != ""
  {
    Join(Split(s, from), to)
  }

  lemma JoinConsFirst(c: char, parts: seq<string>, sep: string)
    requires |parts| >= 1
    ensures Join([[c] + parts[0]] + parts[1..], sep) == [c] + Join(parts, sep)
  {
    var ps := [[c] + parts[0]] + parts[1..];
    assert ps[1..] == parts[1..];
  }

  /** Splitting and joining with the same separator gives back the text. */
  lemma {:induction false} JoinSplit(s: string, sep: string)
    requires sep != ""
    ensures Join(Split(s, sep), sep) == s
    decreases |s|
  {
    if |s| < |sep| {
    } else if s[..|sep|] == sep {
      JoinSplit(s[|sep|..], sep);
      JoinSplitAtSep(s, sep);
    } else {
      JoinSplit(s[1..], sep);
      JoinSplitAtChar(s, sep);
    }
  }

  /** The step of `JoinSplit` where the text starts with the separator. */
  lemma JoinSplitAtSep(s: string, sep: string)
    requires sep != "" && |sep| <= |s| && s[..|sep|] == sep
    requires Join(Split(s[|sep|..], sep), sep) == s[|sep|..]
    ensures Join(Split(s, sep), sep) == s
  {
    var rest := s[|sep|..];
    assert Split(s, sep) == [""] + Split(rest, sep);
    JoinConsEmpty(Split(rest, sep), sep);
    assert s == s[..|sep|] + rest;
  }

  lemma JoinConsEmpty(parts: seq<string>, sep: string)
    requires |parts| >= 1
    ensures Join([""] + parts, sep) == sep + Join(parts, sep)
  {
    var ps := [""] + parts;
    assert ps[1..] == parts;
  }

  /** The step of `JoinSplit` where the text starts with another character. */
  lemma JoinSplitAtChar(s: string, sep: string)
    requires sep != "" && |sep| <= |s| && s[..|sep|] != sep
    requires Join(Split(s[1..], sep), sep) == s[1..]
    ensures Join(Split(s, sep), sep) == s
  {
    JoinConsFirst(s[0], Split(s[1..], sep), sep);
    assert s == [s[0]] + s[1..];
  }

  /** A text in which the separator does not occur is a single piece. */
  lemma {:induction false} SplitAbsent(s: string, sep: string)
    requires sep != ""
    requires !Contains(s, sep)
    ensures Split(s, sep) == [s]
    decreases |s|
  {
    if |s| < |sep| {
    } else {
      if s[..|sep|] == sep {
        assert OccursAt(s, sep, 0);
        assert false;
      }
      if Contains(s[1..], sep) {
        var i :| 0 <= i <= |s[1..]| - |sep| && OccursAt(s[1..], sep, i);
        assert s[i + 1..i + 1 + |sep|] == s[1..][i..i + |sep|];
        assert OccursAt(s, sep, i + 1);
        assert false;
      }
      SplitAbsent(s[1..], sep);
      assert s == [s[0]] + s[1..];
    }
  }

  /** Replacing a string that does not occur leaves the text unchanged. */
  lemma ReplaceAbsent(s: string, from: string, to: string)
    requires from != ""
    requires !Contains(s, from)
    ensures ReplaceAll(s, from, to) == s
  {
    SplitAbsent(s, from);
  }

  /** With a one-character separator no piece contains the separator. */
  lemma {:induction false} SplitPiecesFree(s: string, c: char)
    ensures forall k | 0 <= k < |Split(s, [c])| :: c !in Split(s, [c])[k]
    decreases |s|
  {
    if |s| < 1 {
    } else if s[..1] == [c] {
      SplitPiecesFree(s[1..], c);
      var ps := [""] + Split(s[1..], [c]);
      assert forall k | 1 <= k < |ps| :: ps[k] == Split(s[1..], [c])[k - 1];
    } else {
      SplitPiecesFree(s[1..], c);
      var rest := Split(s[1..], [c]);
      var ps := [[s[0]] + rest[0]] + rest[1..];
      assert s[0] != c by { assert s[..1] == [s[0]]; }
      assert forall k | 1 <= k < |ps| :: ps[k] == rest[k];
    }
  }

  /** A text ending in one more `/`-free segment splits into the pieces of
      the head and that segment. */
  lemma {:induction false} SplitAppend(a: string, c: char, b: string)
    requires c !in b
    ensures Split(a + [c] + b, [c]) == Split(a, [c]) + [b]
    decreases |a|
  {
    var s := a + [c] + b;
    if a == [] {
      assert s[..1] == [c] && s[1..] == b;
      forall i | 0 <= i <= |b| - 1
        ensures !OccursAt(b, [c], i)
      {
        assert b[i..i + 1][0] == b[i];
      }
      SplitAbsent(b, [c]);
    } else {
      SplitAppend(a[1..], c, b);
      assert s[1..] == a[1..] + [c] + b;
      assert s[..1] == [a[0]] && a[..1] == [a[0]];
      if a[0] == c {
        assert a[1..] == a[|[c]|..];
      } else {
        var rest := Split(a[1..], [c]);
        assert ([[a[0]] + rest[0]] + rest[1..]) + [b] == [[a[0]] + (rest + [b])[0]] + (rest + [b])[1..];
      }
    }
  }

  /** When `sep` occurs in `s` only at `i`, splitting cuts there alone. */
  lemma {:induction false} SplitOnly(s: string, sep: string, i: nat)
    requires sep != "" && OccursAt(s, sep, i)
    requires forall j | 0 <= j <= |s| - |sep| && j != i :: !OccursAt(s, sep, j)
    ensures Split(s, sep) == [s[..i], s[i + |sep|..]]
    decreases i
  {
    if i == 0 {
      AbsentAfterFirst(s, sep);
      SplitAbsent(s[|sep|..], sep);
      assert s[..|sep|] == sep;
    } else {
      OnlyShifts(s, sep, i);
      SplitOnly(s[1..], sep, i - 1);
      SplitOnlyCons(s, sep, i);
    }
  }

  /** A separator that occurs only at the start of `s` is absent from the rest. */
  lemma AbsentAfterFirst(s: string, sep: string)
    requires sep != "" && |sep| <= |s|
    requires forall j | 0 < j <= |s| - |sep| :: !OccursAt(s, sep, j)
    ensures !Contains(s[|sep|..], sep)
  {
    var post := s[|sep|..];
    forall j | 0 <= j <= |post| - |sep|
      ensures !OccursAt(post, sep, j)
    {
      assert post[j..j + |sep|] == s[j + |sep|..j + |sep| + |sep|];
      assert !OccursAt(s, sep, j + |sep|);
    }
  }

  /** The only occurrence at `i > 0` is the only one at `i - 1` once the
      first character is dropped. */
  lemma OnlyShifts(s: string, sep: string, i: nat)
    requires sep != "" && 0 < i && OccursAt(s, sep, i)
    requires forall j | 0 <= j <= |s| - |sep| && j != i :: !OccursAt(s, sep, j)
    ensures OccursAt(s[1..], sep, i - 1)
    ensures forall j | 0 <= j <= |s[1..]| - |sep| && j != i - 1 :: !OccursAt(s[1..], sep, j)
  {
    var t := s[1..];
    forall j | 0 <= j <= |t| - |sep| && j != i - 1
      ensures !OccursAt(t, sep, j)
    {
      assert t[j..j + |sep|] == s[j + 1..j + 1 + |sep|];
      assert !OccursAt(s, sep, j + 1);
    }
    assert t[i - 1..i - 1 + |sep|] == s[i..i + |sep|];
  }

  /** The step of `SplitOnly` past a first character that starts no separator. */
  lemma SplitOnlyCons(s: string, sep: string, i: nat)
    requires sep != "" && 0 < i && OccursAt(s, sep, i) && !OccursAt(s, sep, 0)
    requires Split(s[1..], sep) == [s[1..][..i - 1], s[1..][i - 1 + |sep|..]]
    ensures Split(s, sep) == [s[..i], s[i + |sep|..]]
  {
    var t := s[1..];
    assert s[..|sep|] != sep by { assert s[0..|sep|] == s[..|sep|]; }
    assert t[..i - 1] == s[1..i] && t[i - 1 + |sep|..] == s[i + |sep|..];
    assert [s[0]] + s[1..i] == s[..i];
  }

  /** Replacing a string that occurs once rewrites that occurrence alone. */
  lemma ReplaceOnly(s: string, from: string, to: string, i: nat)
    requires from != "" && OccursAt(s, from, i)
    requires forall j | 0 <= j <= |s| - |from| && j != i :: !OccursAt(s, from, j)
    ensures ReplaceAll(s, from, to) == s[..i] + to + s[i + |from|..]
  {
    SplitOnly(s, from, i);
    var parts := [s[..i], s[i + |from|..]];
    assert parts[1..] == [s[i + |from|..]];
    assert Join(parts[1..], to) == s[i + |from|..];
    assert ReplaceAll(s, from, to) == Join(parts, to) == parts[0] + to + Join(parts[1..], to);
  }

  /** `s.trimStart()`: leading `\s` characters dropped. */
  function TrimStart(s: string): (r: string)
    ensures |r| <= |s| && r == s[|s| - |r|..]
    ensures r == [] || !IsSpace(r[0])
  {
    if s != [] && IsSpace(s[0]) then
      var r := TrimStart(s[1..]);
      assert s[1..][|s| - 1 - |r|..] == s[|s| - |r|..];
      r
    else s
  }

  /** What `TrimStart` cuts off is all `\s`. */
  lemma {:induction false} TrimStartDropsSpace(s: string)
    ensures forall i | 0 <= i < |s| - |TrimStart(s)| :: IsSpace(s[i])
    decreases |s|
  {
    if s != [] && IsSpace(s[0]) {
      var t := s[1..];
      TrimStartDropsSpace(t);
      forall i | 0 < i < |s| - |TrimStart(s)|
        ensures IsSpace(s[i])
      {
        assert s[i] == t[i - 1];
      }
    }
  }

  /** `r` is a slice of `s` with only `\s` characters cut off either side. */
  predicate TrimmedFrom(r: string, s: string) {
    exists i, j | 0 <= i <= j <= |s| :: TrimmedAt(r, s, i, j)
  }

  /** `r` is `s[i..j]`, and only `\s` lies outside that slice. */
  predicate TrimmedAt(r: string, s: string, i: int, j: int) {
    && 0 <= i <= j <= |s|
    && r == s[i..j]
    && (forall k | 0 <= k < i :: IsSpace(s[k]))
    && (forall k | j <= k < |s| :: IsSpace(s[k]))
  }

  /** `s.trim()`: a contiguous slice of `s` that neither starts nor ends with
      `\s`, and everything cut off either side is `\s`. */
  function Trim(s: string): (r: string)
    ensures TrimmedFrom(r, s)
    ensures r == [] || (!IsSpace(r[0]) && !IsSpace(r[|r| - 1]))
    decreases |s|
  {
    if s != [] && IsSpace(s[0]) then
      var r := Trim(s[1..]);
      TrimmedFromFirst(r, s);
      r
    else if s != [] && IsSpace(s[|s| - 1]) then
      var r := Trim(s[..|s| - 1]);
      TrimmedFromLast(r, s);
      r
    else
      TrimmedFromSelf(s);
      s
  }

  lemma TrimmedFromSelf(s: string)
    ensures TrimmedFrom(s, s)
  {
    assert TrimmedAt(s, s, 0, |s|);
  }

  /** Cutting a leading `\s` first keeps the result a trim of the text. */
  lemma TrimmedFromFirst(r: string, s: string)
    requires s != [] && IsSpace(s[0]) && TrimmedFrom(r, s[1..])
    ensures TrimmedFrom(r, s)
  {
    var t := s[1..];
    var i, j :| TrimmedAt(r, t, i, j);
    assert TrimmedAt(r, t, i, j);
    forall k | 0 < k < i + 1
      ensures IsSpace(s[k])
    {
      assert s[k] == t[k - 1];
    }
    forall k | j + 1 <= k < |s|
      ensures IsSpace(s[k])
    {
      assert s[k] == t[k - 1];
    }
    assert s[i + 1..j + 1] == t[i..j];
    assert TrimmedAt(r, s, i + 1, j + 1);
  }

  /** Cutting a trailing `\s` first keeps the result a trim of the text. */
  lemma TrimmedFromLast(r: string, s: string)
    requires s != [] && IsSpace(s[|s| - 1]) && TrimmedFrom(r, s[..|s| - 1])
    ensures TrimmedFrom(r, s)
  {
    var t := s[..|s| - 1];
    var i, j :| TrimmedAt(r, t, i, j);
    assert TrimmedAt(r, t, i, j);
    forall k | 0 <= k < i
      ensures IsSpace(s[k])
    {
      assert s[k] == t[k];
    }
    forall k | j <= k < |s|
      ensures IsSpace(s[k])
    {
      if k < |s| - 1 {
        assert s[k] == t[k];
      }
    }
    assert s[i..j] == t[i..j];
    assert TrimmedAt(r, s, i, j);
  }

  predicate IsDigit(c: char) { '0' <= c <= '9' }

  function DigitValue(c: char): (d: nat)
    requires IsDigit(c)
    ensures d < 10
  {
    (c as int) - ('0' as int)
  }

  function DigitChar(d: nat): (c: char)
    requires d < 10
    ensures IsDigit(c) && DigitValue(c) == d
  {
    (('0' as int) + d) as char
  }

  /** The text of a non-negative integer, as template literals render it. */
  function Decimal(n: nat): (r: string)
    ensures |r| >= 1
    ensures forall k | 0 <= k < |r| :: IsDigit(r[k])
  {
    if n < 10 then [DigitChar(n)] else Decimal(n / 10) + [DigitChar(n % 10)]
  }

  /** The value of a string of decimal digits: the partner of `Decimal`. */
  function DecimalValue(s: string): nat
    requires forall k | 0 <= k < |s| :: IsDigit(s[k])
  {
    if s == [] then 0
    else DecimalValue(s[..|s| - 1]) * 10 + DigitValue(s[|s| - 1])
  }

  lemma {:induction false} DecimalRoundTrip(n: nat)
    ensures DecimalValue(Decimal(n)) == n
  {
    if n >= 10 {
      DecimalRoundTrip(n / 10);
      var r := Decimal(n);
      assert r[..|r| - 1] == Decimal(n / 10);
    }
  }

  /** Distinct integers render as distinct texts. */
  lemma DecimalInjective(m: nat, n: nat)
    requires m != n
    ensures Decimal(m) != Decimal(n)
  {
    DecimalRoundTrip(m);
    DecimalRoundTrip(n);
  }
}
