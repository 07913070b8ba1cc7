/**
 * The operations of Python's `str` type that the dataset scripts use, on
 * `string` (= `seq<char>`, one element per code point), with the lemmas the
 * script models need about them.
 */
module PyStr {

  predicate StartsWith(s: string, prefix: string) {
    |prefix| <= |s| && s[..|prefix|] == prefix
  }

  predicate EndsWith(s: string, suffix: string) {
    |suffix| <= |s| && s[|s| - |suffix|..] == suffix
  }

  /** Python's `sub in s`: `sub` occurs somewhere in `s` (the empty string occurs everywhere). */
  predicate Contains(s: string, sub: string)
    decreases |s|
  {
    StartsWith(s, sub) || (|s| > 0 && Contains(s[1..], sub))
  }

  lemma {:induction false} ContainsChar(s: string, c: char)
    ensures Contains(s, [c]) <==> c in s
  {
    if |s| > 0 {
      ContainsChar(s[1..], c);
      assert s == [s[0]] + s[1..];
    }
  }

  /** `str.lower()` on the ASCII letters; every other character is kept. */
  function LowerChar(c: char): char {
    if 'A' <= c <= 'Z' then (c as int + 32) as char else c
  }

  function Lower(s: string): string {
    seq(|s|, i requires 0 <= i < |s| => LowerChar(s[i]))
  }

  predicate IsAscii(c: char) {
    c as int < 0x80
  }

  /** `str.isspace()`: the characters `str.strip()` removes. */
  predicate IsSpace(c: char) {
    var k := c as int;
    k == 0x20 || 0x09 <= k <= 0x0D || 0x1C <= k <= 0x1F || k == 0x85 || k == 0xA0
    || k == 0x1680 || 0x2000 <= k <= 0x200A || k == 0x2028 || k == 0x2029
    || k == 0x202F || k == 0x205F || k == 0x3000
  }

  lemma ConcatAssoc(a: string, b: string, c: string)
    ensures (a + b) + c == a + (b + c)
  {
  }

  // ---------------------------------------------------------------------------
  // str.replace

  /** `s.replace("", rep)`: `rep` before every character and at the end. */
  function InsertAround(s: string, rep: string): string
  {
    if s == [] then rep else rep + [s[0]] + InsertAround(s[1..], rep)
  }

  /**
   * `s.replace(pat, rep)`: every non-overlapping occurrence of `pat`, found
   * from left to right, is replaced by `rep`.
   */
  function ReplaceAll(s: string, pat: string, rep: string): string
    decreases |s|
  {
    if pat == [] then InsertAround(s, rep)
    else if StartsWith(s, pat) then rep + ReplaceAll(s[|pat|..], pat, rep)
    else if s == [] then []
    else [s[0]] + ReplaceAll(s[1..], pat, rep)
  }

  lemma {:induction false} InsertAroundChars(s: string, rep: string)
    ensures forall x :: x in InsertAround(s, rep) ==> x in s || x in rep
  {
    if s != [] {
      InsertAroundChars(s[1..], rep);
    }
  }

  /** Replacing never invents a character: each comes from `s` or from `rep`. */
  lemma {:induction false} ReplaceAllChars(s: string, pat: string, rep: string)
    ensures forall x :: x in ReplaceAll(s, pat, rep) ==> x in s || x in rep
    decreases |s|
  {
    if pat == [] {
      InsertAroundChars(s, rep);
    } else if StartsWith(s, pat) {
      ReplaceAllChars(s[|pat|..], pat, rep);
      forall x | x in s[|pat|..] ensures x in s {
        var i :| 0 <= i < |s[|pat|..]| && s[|pat|..][i] == x;
        assert s[|pat| + i] == x;
      }
    } else if s != [] {
      ReplaceAllChars(s[1..], pat, rep);
    }
  }

  /** After `s.replace(c, rep)`, `c` is gone unless `rep` brings it back. */
  lemma {:induction false} ReplaceCharRemoves(s: string, c: char, rep: string)
    requires c !in rep
    ensures c !in ReplaceAll(s, [c], rep)
  {
    if StartsWith(s, [c]) {
      ReplaceCharRemoves(s[1..], c, rep);
    } else if s != [] {
      ReplaceCharRemoves(s[1..], c, rep);
    }
  }

  /** `s.replace(pat, rep)` is `s` itself when `pat` does not occur in `s`. */
  lemma {:induction false} ReplaceAbsent(s: string, pat: string, rep: string)
    requires pat != [] && !Contains(s, pat)
    ensures ReplaceAll(s, pat, rep) == s
  {
    if s != [] {
      ReplaceAbsent(s[1..], pat, rep);
    }
  }

  lemma ReplaceCharAbsent(s: string, c: char, rep: string)
    requires c !in s
    ensures ReplaceAll(s, [c], rep) == s
  {
    ContainsChar(s, c);
    ReplaceAbsent(s, [c], rep);
  }

  /** Chains of `.replace(c, "")`, one call per character of `cs`, in order. */
  function RemoveEach(s: string, cs: string): string
    decreases |cs|
  {
    if cs == [] then s else RemoveEach(ReplaceAll(s, [cs[0]], ""), cs[1..])
  }

  /** The removal chain keeps exactly the characters of `s` that are not in `cs`, in their order. */
  lemma RemoveEachProps(s: string, cs: string)
    ensures RemoveEach(s, cs) == Without(s, cs)
    ensures forall x :: x in RemoveEach(s, cs) <==> x in s && x !in cs
  {
    RemoveEachIsWithout(s, cs);
    WithoutMembers(s, cs);
  }

  /** `s` with every `c` replaced by `rep`, one character at a time. */
  function SubstChar(s: string, c: char, rep: string): string
    decreases |s|
  {
    if s == [] then [] else (if s[0] == c then rep else [s[0]]) + SubstChar(s[1..], c, rep)
  }

  /** The characters of `s` that are not in `cs`, in their order. */
  function Without(s: string, cs: string): string
    decreases |s|
  {
    if s == [] then [] else (if s[0] in cs then [] else [s[0]]) + Without(s[1..], cs)
  }

  /** A one-character `replace` is a character-by-character substitution. */
  lemma {:induction false} ReplaceCharIsSubst(s: string, c: char, rep: string)
    ensures ReplaceAll(s, [c], rep) == SubstChar(s, c, rep)
    decreases |s|
  {
    if s != [] {
      ReplaceCharIsSubst(s[1..], c, rep);
      assert StartsWith(s, [c]) <==> s[0] == c by { assert s[..1] == [s[0]]; }
    }
  }

  lemma {:induction false} SubstAppend(a: string, b: string, c: char, rep: string)
    ensures SubstChar(a + b, c, rep) == SubstChar(a, c, rep) + SubstChar(b, c, rep)
    decreases |a|
  {
    if a == [] {
      assert a + b == b;
    } else {
      SubstAppend(a[1..], b, c, rep);
      assert (a + b)[1..] == a[1..] + b;
      var h := if a[0] == c then rep else [a[0]];
      ConcatAssoc(h, SubstChar(a[1..], c, rep), SubstChar(b, c, rep));
    }
  }

  lemma SubstOne(x: char, c: char, rep: string)
    ensures SubstChar([x], c, rep) == if x == c then rep else [x]
  {
    assert [x][1..] == [];
  }

  lemma WithoutOne(x: char, cs: string)
    ensures Without([x], cs) == if x in cs then [] else [x]
  {
    assert [x][1..] == [];
  }

  lemma {:induction false} SubstAbsent(s: string, c: char, rep: string)
    requires c !in s
    ensures SubstChar(s, c, rep) == s
    decreases |s|
  {
    if s != [] {
      SubstAbsent(s[1..], c, rep);
    }
  }

  lemma {:induction false} WithoutAppend(a: string, b: string, cs: string)
    ensures Without(a + b, cs) == Without(a, cs) + Without(b, cs)
    decreases |a|
  {
    if a == [] {
      assert a + b == b;
    } else {
      WithoutAppend(a[1..], b, cs);
      assert (a + b)[1..] == a[1..] + b;
      var h := if a[0] in cs then [] else [a[0]];
      ConcatAssoc(h, Without(a[1..], cs), Without(b, cs));
    }
  }

  lemma {:induction false} WithoutAbsent(s: string, cs: string)
    requires forall x :: x in s ==> x !in cs
    ensures Without(s, cs) == s
    decreases |s|
  {
    if s != [] {
      WithoutAbsent(s[1..], cs);
    }
  }

  lemma {:induction false} WithoutMembers(s: string, cs: string)
    ensures forall x :: x in Without(s, cs) <==> x in s && x !in cs
    decreases |s|
  {
    if s != [] {
      WithoutMembers(s[1..], cs);
      assert s == [s[0]] + s[1..];
    }
  }

  /** Deleting every `c` is filtering out `[c]`. */
  lemma {:induction false} SubstEmptyIsWithout(s: string, c: char)
    ensures SubstChar(s, c, "") == Without(s, [c])
    decreases |s|
  {
    if s != [] {
      SubstEmptyIsWithout(s[1..], c);
    }
  }

  /** Filtering twice is filtering once by both sets of characters. */
  lemma {:induction false} WithoutWithout(s: string, cs: string, ds: string)
    ensures Without(Without(s, cs), ds) == Without(s, cs + ds)
    decreases |s|
  {
    if s != [] {
      WithoutWithout(s[1..], cs, ds);
      var h := if s[0] in cs then [] else [s[0]];
      WithoutAppend(h, Without(s[1..], cs), ds);
    }
  }

  lemma {:induction false} RemoveEachIsWithout(s: string, cs: string)
    ensures RemoveEach(s, cs) == Without(s, cs)
    decreases |cs|
  {
    if cs != [] {
      var t := ReplaceAll(s, [cs[0]], "");
      ReplaceCharIsSubst(s, cs[0], "");
      SubstEmptyIsWithout(s, cs[0]);
      RemoveEachIsWithout(t, cs[1..]);
      WithoutWithout(s, [cs[0]], cs[1..]);
      assert [cs[0]] + cs[1..] == cs;
    } else {
      WithoutAbsent(s, cs);
    }
  }

  lemma {:induction false} RemoveEachAbsent(s: string, cs: string)
    requires forall x :: x in cs ==> x !in s
    ensures RemoveEach(s, cs) == s
    decreases |cs|
  {
    if cs != [] {
      ReplaceCharAbsent(s, cs[0], "");
      RemoveEachAbsent(s, cs[1..]);
    }
  }

  // ---------------------------------------------------------------------------
  // str.split / str.join with a one-character separator

  /** `s.split(c)`: the pieces between occurrences of `c`; never empty. */
  function Split(s: string, c: char): (parts: seq<string>)
    ensures |parts| >= 1
    ensures |parts| == 1 <==> c !in s
    decreases |s|
  {
    if s == [] then [""]
    else
      var rest := Split(s[1..], c);
      if s[0] == c then [""] + rest else [[s[0]] + rest[0]] + rest[1..]
  }

  /** `sep.join(parts)`. */
  function JoinWith(sep: string, parts: seq<string>): string
    decreases |parts|
  {
    if parts == [] then ""
    else if |parts| == 1 then parts[0]
    else parts[0] + sep + JoinWith(sep, parts[1..])
  }

  lemma {:induction false} SplitPiecesFree(s: string, c: char)
    ensures forall k :: 0 <= k < |Split(s, c)| ==> c !in Split(s, c)[k]
    decreases |s|
  {
    if s != [] {
      SplitPiecesFree(s[1..], c);
    }
  }

  /** Joining the pieces of a split with the separator gives the string back. */
  lemma {:induction false} JoinSplit(s: string, c: char)
    ensures JoinWith([c], Split(s, c)) == s
    decreases |s|
  {
    if s != [] {
      var rest := Split(s[1..], c);
      JoinSplit(s[1..], c);
      if s[0] == c {
        JoinSepFirst(rest, [c]);
        assert s == [c] + s[1..];
      } else {
        JoinCons([s[0]], rest, [c]);
        assert s == [s[0]] + s[1..];
      }
    }
  }

  /** A join that starts with an empty piece starts with the separator. */
  lemma JoinSepFirst(parts: seq<string>, sep: string)
    requires |parts| >= 1
    ensures JoinWith(sep, [""] + parts) == sep + JoinWith(sep, parts)
  {
    assert ([""] + parts)[1..] == parts;
  }

  /** Extending the first piece extends the join at its front. */
  lemma JoinCons(x: string, parts: seq<string>, sep: string)
    requires |parts| >= 1
    ensures JoinWith(sep, [x + parts[0]] + parts[1..]) == x + JoinWith(sep, parts)
  {
    var ps := [x + parts[0]] + parts[1..];
    if |parts| > 1 {
      assert ps[1..] == parts[1..];
      var tail := JoinWith(sep, parts[1..]);
      assert JoinWith(sep, ps) == (x + parts[0]) + sep + tail;
      assert JoinWith(sep, parts) == parts[0] + sep + tail;
      assert (x + parts[0]) + sep + tail == x + (parts[0] + sep + tail);
    }
  }

  lemma {:induction false} SplitNoSep(a: string, c: char)
    requires c !in a
    ensures Split(a, c) == [a]
    decreases |a|
  {
    if a != [] {
      SplitNoSep(a[1..], c);
      assert [a[0]] + a[1..] == a;
    }
  }

  lemma {:induction false} SplitAtFirstSep(a: string, b: string, c: char)
    requires c !in a
    ensures Split(a + [c] + b, c) == [a] + Split(b, c)
    decreases |a|
  {
    var s := a + [c] + b;
    if a == [] {
      assert s == [c] + b;
      assert s[1..] == b;
    } else {
      assert s[1..] == a[1..] + [c] + b;
      SplitAtFirstSep(a[1..], b, c);
      assert [a[0]] + a[1..] == a;
    }
  }

  /** Splitting a join of separator-free pieces gives the pieces back. */
  lemma {:induction false} SplitJoin(parts: seq<string>, c: char)
    requires |parts| >= 1
    requires forall k :: 0 <= k < |parts| ==> c !in parts[k]
    ensures Split(JoinWith([c], parts), c) == parts
    decreases |parts|
  {
    if |parts| == 1 {
      SplitNoSep(parts[0], c);
    } else {
      SplitJoin(parts[1..], c);
      SplitAtFirstSep(parts[0], JoinWith([c], parts[1..]), c);
      assert [parts[0]] + parts[1..] == parts;
    }
  }

  /** `s.split(c)[0]`: the text before the first `c` (all of `s` if there is none). */
  function FirstPart(s: string, c: char): string {
    Split(s, c)[0]
  }

  /** `s.split(c)[-1]`: the text after the last `c` (all of `s` if there is none). */
  function LastPart(s: string, c: char): string {
    var parts := Split(s, c);
    parts[|parts| - 1]
  }

  lemma {:induction false} FirstPartProps(s: string, c: char)
    ensures c !in FirstPart(s, c) && StartsWith(s, FirstPart(s, c))
    ensures c in s ==> s[|FirstPart(s, c)|] == c
    ensures c !in s ==> FirstPart(s, c) == s
    decreases |s|
  {
    SplitPiecesFree(s, c);
    if s != [] {
      FirstPartProps(s[1..], c);
      if s[0] != c {
        assert s == [s[0]] + s[1..];
      }
    }
  }

  lemma {:induction false} LastPartProps(s: string, c: char)
    ensures c !in LastPart(s, c) && EndsWith(s, LastPart(s, c))
    ensures c in s ==> s[|s| - |LastPart(s, c)| - 1] == c
    ensures c !in s ==> LastPart(s, c) == s
    decreases |s|
  {
    SplitPiecesFree(s, c);
    if s != [] {
      var t := s[1..];
      LastPartProps(t, c);
      var rest := Split(t, c);
      var l := LastPart(t, c);
      assert s == [s[0]] + t;
      if s[0] == c {
        assert LastPart(s, c) == l;
      } else if |rest| == 1 {
        assert c !in t && l == t;
        assert Split(s, c) == [[s[0]] + rest[0]];
        assert LastPart(s, c) == s;
      } else {
        assert LastPart(s, c) == l;
      }
    }
  }

  /** Whatever precedes the last separator does not reach `LastPart`. */
  lemma {:induction false} LastPartAfterSep(p: string, s: string, c: char)
    ensures LastPart(p + [c] + s, c) == LastPart(s, c)
    decreases |p|
  {
    var x := p + [c] + s;
    if p == [] {
      assert x[0] == c && x[1..] == s;
    } else {
      assert x[0] == p[0] && x[1..] == p[1..] + [c] + s;
      LastPartAfterSep(p[1..], s, c);
      assert c in x[1..] by { assert x[1..][|p| - 1] == c; }
      var rest := Split(x[1..], c);
      assert |rest| >= 2;
    }
  }

  /** Every character of a suffix occurs in the whole. */
  lemma SuffixChars(s: string, r: string)
    requires EndsWith(s, r)
    ensures forall x :: x in r ==> x in s
  {
    forall x | x in r ensures x in s {
      var i :| 0 <= i < |r| && r[i] == x;
      assert s[|s| - |r| + i] == x;
    }
  }

  /** Every character of a prefix occurs in the whole. */
  lemma PrefixChars(s: string, r: string)
    requires StartsWith(s, r)
    ensures forall x :: x in r ==> x in s
  {
    forall x | x in r ensures x in s {
      var i :| 0 <= i < |r| && r[i] == x;
      assert s[i] == x;
    }
  }

  lemma {:induction false} JoinAppend(xs: seq<string>, ys: seq<string>, c: char)
    requires |xs| >= 1 && |ys| >= 1
    ensures JoinWith([c], xs + ys) == JoinWith([c], xs) + [c] + JoinWith([c], ys)
    decreases |xs|
  {
    if |xs| == 1 {
      assert (xs + ys)[1..] == ys;
    } else {
      JoinAppend(xs[1..], ys, c);
      assert (xs + ys)[1..] == xs[1..] + ys;
    }
  }

  // ---------------------------------------------------------------------------
  // str.strip

  function LStrip(s: string): string
    decreases |s|
  {
    if s != [] && IsSpace(s[0]) then LStrip(s[1..]) else s
  }

  function RStrip(s: string): string
    decreases |s|
  {
    if s != [] && IsSpace(s[|s| - 1]) then RStrip(s[..|s| - 1]) else s
  }

  /** `s.strip()`: leading and trailing whitespace removed, the middle kept. */
  function Strip(s: string): string {
    RStrip(LStrip(s))
  }

  lemma {:induction false} LStripProps(s: string)
    ensures EndsWith(s, LStrip(s))
    ensures LStrip(s) == [] || !IsSpace(LStrip(s)[0])
    ensures forall k :: 0 <= k < |s| - |LStrip(s)| ==> IsSpace(s[k])
    decreases |s|
  {
    if s != [] && IsSpace(s[0]) {
      LStripProps(s[1..]);
      forall k | 1 <= k < |s| - |LStrip(s)| ensures IsSpace(s[k]) {
        assert s[k] == s[1..][k - 1];
      }
    }
  }

  lemma {:induction false} RStripProps(s: string)
    ensures StartsWith(s, RStrip(s))
    ensures RStrip(s) == [] || !IsSpace(RStrip(s)[|RStrip(s)| - 1])
    ensures forall k :: |RStrip(s)| <= k < |s| ==> IsSpace(s[k])
    decreases |s|
  {
    if s != [] && IsSpace(s[|s| - 1]) {
      RStripProps(s[..|s| - 1]);
      forall k | |RStrip(s)| <= k < |s| - 1 ensures IsSpace(s[k]) {
        assert s[k] == s[..|s| - 1][k];
      }
    }
  }

  /**
   * The stripped text is the slice `s[i..j]` left when the whitespace run
   * before `i` and the one from `j` on are cut off; it neither starts nor
   * ends with whitespace, so both runs are the longest possible.
   */
  lemma StripProps(s: string)
    ensures |Strip(s)| <= |s|
    ensures forall x :: x in Strip(s) ==> x in s
    ensures Strip(s) == [] || (!IsSpace(Strip(s)[0]) && !IsSpace(Strip(s)[|Strip(s)| - 1]))
    ensures var i, j := |s| - |LStrip(s)|, |s| - |LStrip(s)| + |Strip(s)|;
            && 0 <= i <= j <= |s| && Strip(s) == s[i..j]
            && (forall k :: 0 <= k < i ==> IsSpace(s[k]))
            && (forall k :: j <= k < |s| ==> IsSpace(s[k]))
  {
    var l := LStrip(s);
    LStripProps(s);
    RStripProps(l);
    var r := RStrip(l);
    var i := |s| - |l|;
    assert r == l[..|r|];
    assert l == s[i..];
    assert r == s[i..i + |r|];
    forall x | x in r ensures x in s {
      var k :| 0 <= k < |r| && r[k] == x;
      assert s[i + k] == x;
    }
    forall k | i + |r| <= k < |s| ensures IsSpace(s[k]) {
      assert s[k] == l[k - i];
    }
  }

  // ---------------------------------------------------------------------------
  // str(n) for a natural number

  predicate IsDigit(c: char) {
    '0' <= c <= '9'
  }

  function DigitChar(d: nat): char
    requires d < 10
  {
    ('0' as int + d) as char
  }

  /** `str(n)`: the decimal digits of `n`, with no leading zero. */
  function Decimal(n: nat): (r: string)
    ensures |r| >= 1 && forall i :: 0 <= i < |r| ==> IsDigit(r[i])
    ensures r[0] == '0' ==> n == 0
    decreases n
  {
    if n < 10 then [DigitChar(n)] else Decimal(n / 10) + [DigitChar(n % 10)]
  }

  /** `int(s)` on a string of decimal digits. */
  function DecimalValue(s: string): nat
    requires forall i :: 0 <= i < |s| ==> IsDigit(s[i])
    decreases |s|
  {
    if s == [] then 0
    else
      assert IsDigit(s[|s| - 1]);
      DecimalValue(s[..|s| - 1]) * 10 + (s[|s| - 1] as int - '0' as int)
  }

  lemma {:induction false} DecimalRoundTrip(n: nat)
    ensures DecimalValue(Decimal(n)) == n
    decreases n
  {
    if n >= 10 {
      DecimalRoundTrip(n / 10);
      var d := Decimal(n);
      assert d[..|d| - 1] == Decimal(n / 10);
    }
  }

  /** Distinct numbers print differently. */
  lemma DecimalInjective(m: nat, n: nat)
    requires Decimal(m) == Decimal(n)
    ensures m == n
  {
    DecimalRoundTrip(m);
    DecimalRoundTrip(n);
  }
}
