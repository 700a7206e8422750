/** The Python string operations primer_design.py relies on, written out on
    `string` (a sequence of characters): `str.isspace`, `str.split()`,
    `"".join`, `str.strip(c)`, `str.startswith`, the `in` operator on strings,
    `str.replace(pat, "")`, `int(token)` and `str(n)`. Only the ASCII range is
    modelled. */
module Strings {
  import opened Common

  // ---------------------------------------------------------------------------
  // Whitespace, split and join
  // ---------------------------------------------------------------------------

  /** `c.isspace()` on ASCII: tab, line feed, vertical tab, form feed, carriage
      return, the separators 0x1C to 0x1F, and space. */
  predicate IsSpace(c: char) {
    c == ' ' || '\t' <= c <= '\r' || '\U{1C}' <= c <= '\U{1F}'
  }

  predicate NoSpace(s: string) {
    forall i :: 0 <= i < |s| ==> !IsSpace(s[i])
  }

  /** The characters of `s` that are not whitespace, in their order. */
  function RemoveSpace(s: string): (r: string)
    ensures NoSpace(r)
    ensures |r| <= |s|
  {
    if s == [] then []
    else (if IsSpace(s[0]) then [] else [s[0]]) + RemoveSpace(s[1..])
  }

  lemma {:induction false} RemoveSpaceAppend(a: string, b: string)
    ensures RemoveSpace(a + b) == RemoveSpace(a) + RemoveSpace(b)
  {
    if a == [] {
      assert a + b == b;
    } else {
      assert (a + b)[1..] == a[1..] + b;
      RemoveSpaceAppend(a[1..], b);
    }
  }

  /** Removing whitespace changes nothing exactly when there is none. */
  lemma {:induction false} RemoveSpaceIdentity(s: string)
    ensures RemoveSpace(s) == s <==> NoSpace(s)
  {
    if s != [] {
      RemoveSpaceIdentity(s[1..]);
    }
  }

  /** The longest prefix of `s` that holds no whitespace. */
  function TakeToken(s: string): (r: string)
    ensures |r| <= |s| && r == s[..|r|] && NoSpace(r)
    ensures |r| < |s| ==> IsSpace(s[|r|])
    decreases |s|
  {
    if s == [] || IsSpace(s[0]) then [] else [s[0]] + TakeToken(s[1..])
  }

  /** Nonempty tokens without whitespace, as `Split` produces them. */
  predicate IsTokenList(tokens: seq<string>) {
    forall i :: 0 <= i < |tokens| ==> tokens[i] != [] && NoSpace(tokens[i])
  }

  /** `s.split()`: the maximal runs of non-whitespace characters, in order. */
  function Split(s: string): (tokens: seq<string>)
    ensures IsTokenList(tokens)
    decreases |s|
  {
    if s == [] then []
    else if IsSpace(s[0]) then Split(s[1..])
    else
      var tok := TakeToken(s);
      [tok] + Split(s[|tok|..])
  }

  /** `"".join(tokens)`. */
  function Join(tokens: seq<string>): string {
    if tokens == [] then [] else tokens[0] + Join(tokens[1..])
  }

  /** Joining the tokens of a split string gives the string with all of its
      whitespace deleted: the `"".join(text.split())` idiom. */
  lemma {:induction false} JoinSplit(s: string)
    ensures Join(Split(s)) == RemoveSpace(s)
    decreases |s|
  {
    if s != [] && IsSpace(s[0]) {
      JoinSplit(s[1..]);
    } else if s != [] {
      var tok := TakeToken(s);
      var rest := s[|tok|..];
      var tail := Split(rest);
      assert s == tok + rest;
      assert ([tok] + tail)[1..] == tail;
      RemoveSpaceAppend(tok, rest);
      RemoveSpaceIdentity(tok);
      JoinSplit(rest);
    }
  }

  /** Tokens written one after the other, separated by a tab. */
  function Unsplit(tokens: seq<string>): string {
    if tokens == [] then []
    else if |tokens| == 1 then tokens[0]
    else tokens[0] + "\t" + Unsplit(tokens[1..])
  }

  lemma {:induction false} TakeTokenOfPrefix(tok: string, rest: string)
    requires NoSpace(tok)
    requires rest == [] || IsSpace(rest[0])
    ensures TakeToken(tok + rest) == tok
    decreases |tok|
  {
    if tok == [] {
      assert tok + rest == rest;
    } else {
      assert (tok + rest)[1..] == tok[1..] + rest;
      TakeTokenOfPrefix(tok[1..], rest);
    }
  }

  lemma SplitOfToken(tok: string, rest: string)
    requires tok != [] && NoSpace(tok)
    requires rest == [] || IsSpace(rest[0])
    ensures Split(tok + rest) == [tok] + Split(rest)
  {
    var s := tok + rest;
    assert s[0] == tok[0];
    TakeTokenOfPrefix(tok, rest);
    assert s[|tok|..] == rest;
  }

  lemma SplitOfSpace(c: char, u: string)
    requires IsSpace(c)
    ensures Split([c] + u) == Split(u)
  {
    assert ([c] + u)[1..] == u;
  }

  lemma UnsplitCons(tokens: seq<string>)
    requires |tokens| > 1
    ensures Unsplit(tokens) == tokens[0] + (['\t'] + Unsplit(tokens[1..]))
  {
  }

  lemma SplitOfTokenAndTab(tok: string, u: string)
    requires tok != [] && NoSpace(tok)
    ensures Split(tok + (['\t'] + u)) == [tok] + Split(u)
  {
    SplitOfSpace('\t', u);
    SplitOfToken(tok, ['\t'] + u);
  }

  lemma SplitUnsplitStep(tokens: seq<string>)
    requires |tokens| > 1
    requires tokens[0] != [] && NoSpace(tokens[0])
    requires Split(Unsplit(tokens[1..])) == tokens[1..]
    ensures Split(Unsplit(tokens)) == tokens
  {
    var more := tokens[1..];
    UnsplitCons(tokens);
    SplitOfTokenAndTab(tokens[0], Unsplit(more));
    assert tokens == [tokens[0]] + more;
  }

  /** Splitting tab-separated tokens gives the tokens back. */
  lemma {:induction false} SplitUnsplit(tokens: seq<string>)
    requires IsTokenList(tokens)
    ensures Split(Unsplit(tokens)) == tokens
  {
    if |tokens| == 1 {
      SplitOfToken(tokens[0], []);
      assert tokens[0] + [] == tokens[0];
    } else if |tokens| > 1 {
      assert IsTokenList(tokens[1..]) by {
        forall i | 0 <= i < |tokens| - 1
          ensures tokens[1..][i] != [] && NoSpace(tokens[1..][i])
        {
          assert tokens[1..][i] == tokens[i + 1];
        }
      }
      SplitUnsplit(tokens[1..]);
      SplitUnsplitStep(tokens);
    }
  }

  /** A whitespace character after the last token adds no token. */
  lemma {:induction false} SplitSnocSpace(s: string, c: char)
    requires IsSpace(c)
    ensures Split(s + [c]) == Split(s)
    decreases |s|
  {
    if s == [] {
      assert s + [c] == [c] + [];
      SplitOfSpace(c, []);
    } else if IsSpace(s[0]) {
      assert s + [c] == [s[0]] + (s[1..] + [c]);
      SplitOfSpace(s[0], s[1..] + [c]);
      SplitSnocSpace(s[1..], c);
      assert s == [s[0]] + s[1..];
      SplitOfSpace(s[0], s[1..]);
    } else {
      var tok := TakeToken(s);
      var rest := s[|tok|..];
      assert s == tok + rest;
      assert s + [c] == tok + (rest + [c]);
      SplitOfToken(tok, rest + [c]);
      SplitSnocSpace(rest, c);
      SplitOfToken(tok, rest);
    }
  }

  /** `s.lstrip()`. */
  function TrimLeading(s: string): (r: string)
    ensures r == [] || !IsSpace(r[0])
    ensures |r| <= |s| && r == s[|s| - |r|..]
    ensures Split(r) == Split(s)
    decreases |s|
  {
    if s != [] && IsSpace(s[0]) then TrimLeading(s[1..]) else s
  }

  /** `s.rstrip()`. */
  function TrimTrailing(s: string): (r: string)
    ensures r == [] || !IsSpace(r[|r| - 1])
    ensures |r| <= |s| && r == s[..|r|]
    ensures Split(r) == Split(s)
    decreases |s|
  {
    if s != [] && IsSpace(s[|s| - 1]) then
      var init := s[..|s| - 1];
      assert s == init + [s[|s| - 1]];
      SplitSnocSpace(init, s[|s| - 1]);
      TrimTrailing(init)
    else s
  }

  /** `s.strip()`: leading and trailing whitespace removed, which leaves the
      tokens of `s.split()` as they were. */
  function StripSpace(s: string): (r: string)
    ensures r == [] || (!IsSpace(r[0]) && !IsSpace(r[|r| - 1]))
    ensures Split(r) == Split(s)
  {
    TrimTrailing(TrimLeading(s))
  }

  // ---------------------------------------------------------------------------
  // strip(c), startswith, `in`, replace(pat, "")
  // ---------------------------------------------------------------------------

  /** `s.lstrip(c)` for one character `c`. */
  function LStrip(s: string, c: char): (r: string)
    ensures |r| <= |s| && r == s[|s| - |r|..]
    ensures forall i :: 0 <= i < |s| - |r| ==> s[i] == c
    ensures r == [] || r[0] != c
    ensures NoSpace(s) ==> NoSpace(r)
    decreases |s|
  {
    if s != [] && s[0] == c then LStrip(s[1..], c) else s
  }

  /** `s.rstrip(c)` for one character `c`. */
  function RStrip(s: string, c: char): (r: string)
    ensures |r| <= |s| && r == s[..|r|]
    ensures forall i :: |r| <= i < |s| ==> s[i] == c
    ensures r == [] || r[|r| - 1] != c
    ensures NoSpace(s) ==> NoSpace(r)
    decreases |s|
  {
    if s != [] && s[|s| - 1] == c then RStrip(s[..|s| - 1], c) else s
  }

  /** `r` is `s[i..]` cut to `|r|` characters, with only `c` before and after
      it in `s`. */
  predicate StripsTo(s: string, c: char, i: int, r: string) {
    0 <= i <= |s| - |r| && s[i..i + |r|] == r
    && (forall k :: 0 <= k < i ==> s[k] == c)
    && (forall k :: i + |r| <= k < |s| ==> s[k] == c)
  }

  /** `s.strip(c)` for one character `c`: the result is a slice of `s` with
      only runs of `c` cut off its two ends; it neither starts nor ends with
      `c`, and it is empty exactly when `s` is made of `c` alone. */
  function Strip(s: string, c: char): (r: string)
    ensures exists i :: StripsTo(s, c, i, r)
    ensures r == [] || (r[0] != c && r[|r| - 1] != c)
    ensures r == [] <==> forall i :: 0 <= i < |s| ==> s[i] == c
    ensures NoSpace(s) ==> NoSpace(r)
  {
    var l := LStrip(s, c);
    var r := RStrip(l, c);
    StripWitness(s, c, |s| - |l|, l, r);
    r
  }

  /** The facts LStrip and RStrip promise, put together. */
  lemma StripWitness(s: string, c: char, i: nat, l: string, r: string)
    requires i <= |s| && l == s[i..] && (forall k :: 0 <= k < i ==> s[k] == c)
    requires l == [] || l[0] != c
    requires |r| <= |l| && r == l[..|r|] && (forall k :: |r| <= k < |l| ==> l[k] == c)
    requires r == [] || r[|r| - 1] != c
    ensures StripsTo(s, c, i, r)
    ensures r == [] || (r[0] != c && r[|r| - 1] != c)
    ensures r == [] <==> forall k :: 0 <= k < |s| ==> s[k] == c
  {
    StripMiddle(s, i, l, r);
    StripTail(s, c, i, l, r);
    if r != [] {
      assert r[0] == l[0] == s[i];
    }
  }

  /** The part RStrip keeps of the suffix `l == s[i..]` is a slice of `s`. */
  lemma StripMiddle(s: string, i: nat, l: string, r: string)
    requires i <= |s| && l == s[i..] && |r| <= |l| && r == l[..|r|]
    ensures s[i..i + |r|] == r
  {
    assert forall k :: 0 <= k < |r| ==> s[i..i + |r|][k] == r[k];
  }

  /** What RStrip cut off the suffix `l == s[i..]` is `c` in `s`. */
  lemma StripTail(s: string, c: char, i: nat, l: string, r: string)
    requires i <= |s| && l == s[i..] && |r| <= |l|
    requires forall k :: |r| <= k < |l| ==> l[k] == c
    ensures forall k :: i + |r| <= k < |s| ==> s[k] == c
  {
    forall k | i + |r| <= k < |s|
      ensures s[k] == c
    {
      assert s[k] == l[k - i];
    }
  }

  /** Stripping twice strips no more than once. */
  lemma StripIdempotent(s: string, c: char)
    ensures Strip(Strip(s, c), c) == Strip(s, c)
  {
    var r := Strip(s, c);
    var r2 := Strip(r, c);
    var i :| StripsTo(r, c, i, r2);
    if r != [] {
      assert r2 != [];
      assert r[0] != c && r[|r| - 1] != c;
      assert i == 0 && i + |r2| == |r|;
      assert r2 == r[0..|r|];
    }
  }

  predicate StartsWith(s: string, prefix: string) {
    |prefix| <= |s| && s[..|prefix|] == prefix
  }

  /** `sub in s`. */
  predicate Contains(s: string, sub: string)
    decreases |s|
  {
    StartsWith(s, sub) || (s != [] && Contains(s[1..], sub))
  }

  predicate OccursAt(s: string, sub: string, j: int) {
    0 <= j <= |s| - |sub| && s[j..j + |sub|] == sub
  }

  /** `Contains` agrees with the textbook definition: `sub` occurs at some
      position of `s`. */
  lemma {:induction false} ContainsIsOccurrence(s: string, sub: string)
    ensures Contains(s, sub) <==> exists j :: OccursAt(s, sub, j)
    decreases |s|
  {
    if StartsWith(s, sub) {
      assert OccursAt(s, sub, 0);
    } else if s == [] {
      assert forall j :: !OccursAt(s, sub, j);
    } else {
      ContainsIsOccurrence(s[1..], sub);
      if exists j :: OccursAt(s[1..], sub, j) {
        var j :| OccursAt(s[1..], sub, j);
        assert s[1..][j..j + |sub|] == s[j + 1..j + 1 + |sub|];
        assert OccursAt(s, sub, j + 1);
      }
      if exists j :: OccursAt(s, sub, j) {
        var j :| OccursAt(s, sub, j);
        assert j != 0;
        assert s[1..][j - 1..j - 1 + |sub|] == s[j..j + |sub|];
        assert OccursAt(s[1..], sub, j - 1);
      }
    }
  }

  /** `s.replace(pat, "")`: deletes the occurrences of `pat` found scanning
      from the left, each search resuming after the previous occurrence. */
  function RemoveAll(s: string, pat: string): (r: string)
    requires pat != []
    ensures |r| <= |s|
    decreases |s|
  {
    if StartsWith(s, pat) then RemoveAll(s[|pat|..], pat)
    else if s == [] then []
    else [s[0]] + RemoveAll(s[1..], pat)
  }

  /** The replacement leaves `s` as it is exactly when `pat` does not occur. */
  lemma {:induction false} RemoveAllIdentity(s: string, pat: string)
    requires pat != []
    ensures RemoveAll(s, pat) == s <==> !Contains(s, pat)
    decreases |s|
  {
    if StartsWith(s, pat) {
      assert |RemoveAll(s, pat)| < |s|;
    } else if s != [] {
      RemoveAllIdentity(s[1..], pat);
    }
  }

  /** The first occurrence of `pat` after a prefix in which it does not occur
      is deleted and the prefix is kept. */
  lemma {:induction false} RemoveAllFirst(a: string, pat: string, b: string)
    requires pat != []
    requires forall j :: 0 <= j < |a| ==> !StartsWith((a + pat + b)[j..], pat)
    ensures RemoveAll(a + pat + b, pat) == a + RemoveAll(b, pat)
    decreases |a|
  {
    var s := a + pat + b;
    if a == [] {
      assert s == pat + b;
      assert s[..|pat|] == pat;
      assert s[|pat|..] == b;
    } else {
      var s' := a[1..] + pat + b;
      assert s[0..] == s;
      assert !StartsWith(s, pat);
      assert s[1..] == s';
      assert RemoveAll(s, pat) == [s[0]] + RemoveAll(s', pat);
      forall j | 0 <= j < |a[1..]|
        ensures !StartsWith(s'[j..], pat)
      {
        assert s'[j..] == s[j + 1..];
      }
      RemoveAllFirst(a[1..], pat, b);
      assert a == [a[0]] + a[1..];
    }
  }

  // ---------------------------------------------------------------------------
  // int(token) and str(n)
  // ---------------------------------------------------------------------------

  predicate IsDigit(c: char) {
    '0' <= c <= '9'
  }

  predicate AllDigits(s: string) {
    forall i :: 0 <= i < |s| ==> IsDigit(s[i])
  }

  function DigitChar(d: nat): (c: char)
    requires d < 10
    ensures IsDigit(c) && c as int - '0' as int == d
  {
    ('0' as int + d) as char
  }

  /** The number a string of decimal digits denotes, read from the left. */
  function DecimalValue(s: string): nat
    requires AllDigits(s)
  {
    if s == [] then 0
    else DecimalValue(s[..|s| - 1]) * 10 + (s[|s| - 1] as int - '0' as int)
  }

  /** `str(n)` for `n >= 0`: decimal digits without a leading zero. */
  function NatToString(n: nat): (s: string)
    ensures s != [] && AllDigits(s)
    ensures s[0] == '0' ==> n == 0
  {
    if n < 10 then [DigitChar(n)] else NatToString(n / 10) + [DigitChar(n % 10)]
  }

  /** `str(i)` for any integer. */
  function IntToString(i: int): string {
    if i < 0 then "-" + NatToString(-i) else NatToString(i)
  }

  /** The digits that int() accepts: at least one, with single underscores
      allowed between two digits. */
  predicate WellGrouped(s: string) {
    && s != []
    && IsDigit(s[0]) && IsDigit(s[|s| - 1])
    && (forall i :: 0 <= i < |s| ==> IsDigit(s[i]) || s[i] == '_')
    && (forall i :: 0 <= i < |s| - 1 ==> !(s[i] == '_' && s[i + 1] == '_'))
  }

  function DropUnderscores(s: string): (r: string)
    ensures (forall i :: 0 <= i < |s| ==> IsDigit(s[i]) || s[i] == '_') ==> AllDigits(r)
    ensures AllDigits(s) ==> r == s
  {
    if s == [] then []
    else (if s[0] == '_' then [] else [s[0]]) + DropUnderscores(s[1..])
  }

  /** The value of well-grouped digits; `None` for anything else. */
  function ParseDigits(s: string): Option<nat> {
    if WellGrouped(s) then Some(DecimalValue(DropUnderscores(s))) else None
  }

  /** `int(token)` for a token without whitespace: an optional sign followed by
      well-grouped digits; `None` where Python raises ValueError. */
  function ParseInt(s: string): (r: Option<int>)
    ensures r.Some? ==> s != []
  {
    if s != [] && (s[0] == '+' || s[0] == '-') then
      match ParseDigits(s[1..])
      case None => None
      case Some(v) => var n: int := v; Some(if s[0] == '-' then -n else n)
    else
      match ParseDigits(s)
      case None => None
      case Some(v) => Some(v)
  }

  lemma {:induction false} NatToStringValue(n: nat)
    ensures DecimalValue(NatToString(n)) == n
  {
    if n >= 10 {
      var s := NatToString(n / 10);
      var t := NatToString(n);
      assert t == s + [DigitChar(n % 10)];
      assert t[..|t| - 1] == s;
      NatToStringValue(n / 10);
    }
  }

  lemma NatToStringParses(n: nat)
    ensures ParseDigits(NatToString(n)) == Some(n)
  {
    var digits := NatToString(n);
    NatToStringValue(n);
    assert DropUnderscores(digits) == digits;
  }

  /** Reading back what `str` wrote gives the number again. */
  lemma ParseIntOfIntToString(i: int)
    ensures ParseInt(IntToString(i)) == Some(i)
  {
    var n := if i < 0 then -i else i;
    var digits := NatToString(n);
    var s := IntToString(i);
    NatToStringParses(n);
    assert IsDigit(digits[0]);
    if i < 0 {
      assert s[1..] == digits;
    }
  }

  /** `str` is one-to-one on the naturals. */
  lemma NatToStringInjective(m: nat, n: nat)
    requires NatToString(m) == NatToString(n)
    ensures m == n
  {
    NatToStringValue(m);
    NatToStringValue(n);
  }
}
