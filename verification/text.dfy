/** ASCII string helpers with the semantics of the Go `strings` and `strconv`
    functions the translator calls (TrimSpace, ToLower, Contains, Split, Join,
    ReplaceAll, Atoi, Itoa). Unicode whitespace and case folding are out of
    scope: only the ASCII cases are modelled. */
module Text {

  datatype Option<T> = None | Some(value: T)

  /** The ASCII characters `unicode.IsSpace` accepts. */
  predicate IsSpace(c: char) {
    c == ' ' || c == '\t' || c == '\n' || c == '\r' || c == '\U{000B}' || c == '\U{000C}'
  }

  function TrimLeft(s: string): (r: string)
    ensures |r| <= |s| && r == s[|s| - |r|..]
    ensures r == [] || !IsSpace(r[0])
    ensures forall i :: 0 <= i < |s| - |r| ==> IsSpace(s[i])
  {
    if s != [] && IsSpace(s[0]) then TrimLeft(s[1..]) else s
  }

  function TrimRight(s: string): (r: string)
    ensures |r| <= |s| && r == s[..|r|]
    ensures r == [] || !IsSpace(r[|r| - 1])
    ensures forall i :: |r| <= i < |s| ==> IsSpace(s[i])
  {
    if s != [] && IsSpace(s[|s| - 1]) then TrimRight(s[..|s| - 1]) else s
  }

  /** strings.TrimSpace: the result is a slice of `s` with no white space at
      either end, and only white space was cut away. */
  function TrimSpace(s: string): (r: string)
    ensures r == [] || (!IsSpace(r[0]) && !IsSpace(r[|r| - 1]))
    ensures |r| <= |s|
    ensures forall c :: c in r ==> c in s
  {
    TrimRight(TrimLeft(s))
  }

  lemma TrimSpaceOfTrimmed(s: string)
    requires s == [] || (!IsSpace(s[0]) && !IsSpace(s[|s| - 1]))
    ensures TrimSpace(s) == s
  {
  }

  lemma TrimSpaceAfterBlank(s: string)
    requires s != [] && !IsSpace(s[0]) && !IsSpace(s[|s| - 1])
    ensures TrimSpace(" " + s) == s
  {
    assert (" " + s)[1..] == s;
  }

  predicate HasSuffix(s: string, suffix: string) {
    |suffix| <= |s| && s[|s| - |suffix|..] == suffix
  }

  /** Trimming cannot reach into a tail that starts and ends with a
      non-space character. */
  lemma TrimSpaceKeepsTail(s: string, t: string)
    requires t != [] && !IsSpace(t[0]) && !IsSpace(t[|t| - 1])
    requires HasSuffix(s, t)
    ensures HasSuffix(TrimSpace(s), t)
  {
    var l := TrimLeft(s);
    assert |s| - |t| < |s| && !IsSpace(s[|s| - |t|]);
    assert |l| >= |t|;
    assert HasSuffix(l, t) by {
      assert l[|l| - |t|..] == s[|s| - |t|..];
    }
    assert !IsSpace(l[|l| - 1]);
  }

  /** Trimming `p + t` keeps all of `t` when `t` starts and ends with a
      non-space character. */
  lemma TrimSpaceKeepsSuffix(p: string, t: string)
    requires t != [] && !IsSpace(t[0]) && !IsSpace(t[|t| - 1])
    ensures HasSuffix(TrimSpace(p + t), t)
  {
    var s := p + t;
    assert s[|s| - |t|..] == t;
    TrimSpaceKeepsTail(s, t);
  }

  function LowerChar(c: char): char {
    if 'A' <= c <= 'Z' then (c as int + 32) as char else c
  }

  /** strings.ToLower restricted to ASCII letters. */
  function ToLower(s: string): (r: string)
    ensures |r| == |s|
    ensures forall i :: 0 <= i < |s| ==> r[i] == LowerChar(s[i])
  {
    if s == [] then [] else [LowerChar(s[0])] + ToLower(s[1..])
  }

  predicate HasPrefix(s: string, prefix: string) {
    |prefix| <= |s| && s[..|prefix|] == prefix
  }

  /** strings.Contains: `sub` occurs somewhere in `s`. */
  predicate Contains(s: string, sub: string)
    decreases |s|
  {
    HasPrefix(s, sub) || (s != [] && Contains(s[1..], sub))
  }

  lemma {:induction false} ContainsChar(s: string, c: char)
    ensures Contains(s, [c]) <==> c in s
  {
    if s != [] {
      ContainsChar(s[1..], c);
      assert s == [s[0]] + s[1..];
    }
  }

  /** The text before the first `c` (all of `s` when there is none). */
  function Before(s: string, c: char): (r: string)
    ensures c !in r
    ensures |r| <= |s| && r == s[..|r|]
    ensures |r| < |s| <==> c in s
    ensures |r| < |s| ==> s[|r|] == c
  {
    if s == [] then []
    else if s[0] == c then []
    else [s[0]] + Before(s[1..], c)
  }

  /** The text after the first `c`. */
  function After(s: string, c: char): (r: string)
    requires c in s
    ensures s == Before(s, c) + [c] + r
  {
    s[|Before(s, c)| + 1..]
  }

  lemma {:induction false} BeforeAfterOfJoin(a: string, c: char, b: string)
    requires c !in a
    ensures Before(a + [c] + b, c) == a
    ensures After(a + [c] + b, c) == b
  {
    var s := a + [c] + b;
    if a == [] {
      assert s[0] == c;
    } else {
      assert s[1..] == a[1..] + [c] + b;
      BeforeAfterOfJoin(a[1..], c, b);
    }
  }

  /** strings.Split with a one-character separator: always at least one part. */
  function Split(s: string, c: char): (r: seq<string>)
    ensures |r| >= 1
    ensures forall i :: 0 <= i < |r| ==> c !in r[i]
    decreases |s|
  {
    if c in s then [Before(s, c)] + Split(After(s, c), c) else [s]
  }

  /** strings.Join. */
  function Join(parts: seq<string>, sep: string): string {
    if parts == [] then ""
    else if |parts| == 1 then parts[0]
    else parts[0] + sep + Join(parts[1..], sep)
  }

  lemma {:induction false} SplitHead(s: string, c: char)
    ensures Split(s, c)[0] == Before(s, c)
    ensures |Split(s, c)| > 1 <==> c in s
    ensures c in s ==> Split(s, c)[1] == Before(After(s, c), c)
  {
  }

  /** Joining on `c` and splitting on `c` gives back the parts, provided no
      part contains `c`. */
  lemma {:induction false} SplitJoin(parts: seq<string>, c: char)
    requires |parts| >= 1
    requires forall i :: 0 <= i < |parts| ==> c !in parts[i]
    ensures Split(Join(parts, [c]), c) == parts
  {
    if |parts| > 1 {
      var rest := Join(parts[1..], [c]);
      BeforeAfterOfJoin(parts[0], c, rest);
      SplitJoin(parts[1..], c);
    }
  }

  /** Splitting on `c` and joining on `c` gives back the text. */
  lemma {:induction false} JoinSplit(s: string, c: char)
    ensures Join(Split(s, c), [c]) == s
    decreases |s|
  {
    if c in s {
      JoinSplit(After(s, c), c);
    }
  }

  lemma {:induction false} JoinAvoids(parts: seq<string>, sep: string, c: char)
    requires c !in sep
    requires forall i :: 0 <= i < |parts| ==> c !in parts[i]
    ensures c !in Join(parts, sep)
  {
    if |parts| > 1 {
      JoinAvoids(parts[1..], sep, c);
    }
  }

  lemma {:induction false} JoinSuffix(parts: seq<string>, sep: string)
    requires |parts| >= 1
    ensures HasSuffix(Join(parts, sep), parts[|parts| - 1])
  {
    if |parts| > 1 {
      JoinSuffix(parts[1..], sep);
      var j := Join(parts[1..], sep);
      var last := parts[|parts| - 1];
      assert Join(parts, sep) == parts[0] + sep + j;
      assert (parts[0] + sep + j)[|parts[0] + sep + j| - |last|..] == j[|j| - |last|..];
    }
  }

  /** Four parts joined by a separator. */
  lemma JoinFour(a: string, b: string, c: string, d: string, sep: string)
    ensures Join([a, b, c, d], sep) == a + sep + b + sep + c + sep + d
  {
    assert [a, b, c, d][1..] == [b, c, d] && [b, c, d][1..] == [c, d] && [c, d][1..] == [d];
    assert Join([c, d], sep) == c + sep + d;
    assert Join([b, c, d], sep) == b + sep + (c + sep + d);
  }

  /** A path "/a/b/c" of slash-free segments splits back into "", a, b
      and c. */
  lemma SlashSegments(a: string, b: string, c: string)
    requires '/' !in a && '/' !in b && '/' !in c
    ensures Split("/" + a + "/" + b + "/" + c, '/') == ["", a, b, c]
  {
    var parts := ["", a, b, c];
    JoinFour("", a, b, c, "/");
    assert "" + "/" + a == "/" + a;
    SplitJoin(parts, '/');
  }

  /** Lower-casing adds no character that is not a letter. */
  lemma ToLowerAvoids(s: string, c: char)
    requires c !in s && !('A' <= c <= 'Z') && !('a' <= c <= 'z')
    ensures c !in ToLower(s)
  {
    var r := ToLower(s);
    forall i | 0 <= i < |r| ensures r[i] != c {
      assert r[i] == LowerChar(s[i]);
    }
  }

  /** strings.ReplaceAll for a non-empty `pat`: a left-to-right scan that
      replaces non-overlapping occurrences. */
  function ReplaceAll(s: string, pat: string, rep: string): string
    requires pat != []
    decreases |s|
  {
    if |s| < |pat| then s
    else if s[..|pat|] == pat then rep + ReplaceAll(s[|pat|..], pat, rep)
    else [s[0]] + ReplaceAll(s[1..], pat, rep)
  }

  lemma {:induction false} ReplaceAllAbsent(s: string, pat: string, rep: string)
    requires pat != [] && !Contains(s, pat)
    ensures ReplaceAll(s, pat, rep) == s
    decreases |s|
  {
    if |pat| <= |s| {
      assert !HasPrefix(s, pat);
      ReplaceAllAbsent(s[1..], pat, rep);
    }
  }

  /** When `pat` holds its first character only once, no occurrence of it
      can straddle the end of a text without one: the scan copies the text
      and then replaces the trailing `pat`. */
  lemma {:induction false} ReplaceAllBeforePattern(a: string, pat: string, rep: string)
    requires pat != [] && !Contains(a, pat)
    requires forall j :: 1 <= j < |pat| ==> pat[j] != pat[0]
    ensures ReplaceAll(a + pat, pat, rep) == a + rep
    decreases |a|
  {
    if a == [] {
      assert a + pat == pat;
      ReplaceAllOfPattern(pat, rep);
    } else {
      var tail := a[1..];
      ReplaceAllStepBeforePattern(a, pat, rep);
      ReplaceAllBeforePattern(tail, pat, rep);
      ConsConcat(a, rep);
    }
  }

  /** Putting the head back in front of the tail and a suffix gives the text
      followed by the suffix. */
  lemma ConsConcat(a: string, b: string)
    requires a != []
    ensures [a[0]] + (a[1..] + b) == a + b
  {
    assert [a[0]] + a[1..] == a;
  }

  /** One step of the scan over `a + pat`: the first character of `a` is
      copied, and the rest of `a` still holds no occurrence. */
  lemma ReplaceAllStepBeforePattern(a: string, pat: string, rep: string)
    requires a != [] && pat != [] && !Contains(a, pat)
    requires forall j :: 1 <= j < |pat| ==> pat[j] != pat[0]
    ensures !Contains(a[1..], pat)
    ensures ReplaceAll(a + pat, pat, rep) == [a[0]] + ReplaceAll(a[1..] + pat, pat, rep)
  {
    var s := a + pat;
    NoPatternAtStart(a, pat);
    ReplaceAllCopies(s, pat, rep);
    assert s[1..] == a[1..] + pat;
  }

  /** Where no occurrence starts, the scan copies one character. */
  lemma ReplaceAllCopies(s: string, pat: string, rep: string)
    requires pat != [] && |pat| <= |s| && !HasPrefix(s, pat)
    ensures ReplaceAll(s, pat, rep) == [s[0]] + ReplaceAll(s[1..], pat, rep)
  {
  }

  /** The scan finds no occurrence at the start of `a + pat`. */
  lemma NoPatternAtStart(a: string, pat: string)
    requires a != [] && pat != [] && !HasPrefix(a, pat)
    requires forall j :: 1 <= j < |pat| ==> pat[j] != pat[0]
    ensures !HasPrefix(a + pat, pat)
  {
    var s := a + pat;
    if |a| >= |pat| {
      assert s[..|pat|] == a[..|pat|];
    } else {
      assert s[|a|] == pat[0];
      assert pat[|a|] != pat[0];
    }
  }

  /** Deleting every occurrence of `pat` only keeps characters of `s`. */
  lemma {:induction false} DeleteAllKeepsChars(s: string, pat: string)
    requires pat != []
    ensures forall x :: x in ReplaceAll(s, pat, "") ==> x in s
    decreases |s|
  {
    if |pat| <= |s| {
      if s[..|pat|] == pat {
        DeleteAllKeepsChars(s[|pat|..], pat);
      } else {
        DeleteAllKeepsChars(s[1..], pat);
      }
    }
  }

  /** Deleting a one-character `pat` leaves no occurrence of that character. */
  lemma {:induction false} DeleteCharRemovesIt(s: string, c: char)
    ensures c !in ReplaceAll(s, [c], "")
    ensures forall x :: x in ReplaceAll(s, [c], "") ==> x in s
    decreases |s|
  {
    DeleteAllKeepsChars(s, [c]);
    if |s| >= 1 {
      if s[..1] == [c] {
        DeleteCharRemovesIt(s[1..], c);
      } else {
        DeleteCharRemovesIt(s[1..], c);
        assert s[0] != c;
      }
    }
  }

  /** The pattern alone is replaced by the replacement. */
  lemma ReplaceAllOfPattern(pat: string, rep: string)
    requires pat != []
    ensures ReplaceAll(pat, pat, rep) == rep
  {
    assert pat[..|pat|] == pat;
    assert pat[|pat|..] == [];
  }

  lemma ToLowerConcat(a: string, b: string)
    ensures ToLower(a + b) == ToLower(a) + ToLower(b)
  {
    var l := ToLower(a + b);
    forall i | 0 <= i < |l| ensures l[i] == (ToLower(a) + ToLower(b))[i] {
      if i < |a| { assert (a + b)[i] == a[i]; } else { assert (a + b)[i] == b[i - |a|]; }
    }
  }

  /** `a` has no occurrence of `pat`, and the character after it is not in `pat`:
      no occurrence can start inside `a`, so the scan copies `a` unchanged. */
  lemma {:induction false} ReplaceAllPastPrefix(a: string, c: char, b: string, pat: string, rep: string)
    requires pat != [] && c !in pat && !Contains(a, pat)
    ensures ReplaceAll(a + [c] + b, pat, rep) == a + ReplaceAll([c] + b, pat, rep)
    decreases |a|
  {
    var s := a + [c] + b;
    if a != [] && |s| >= |pat| {
      assert s[..|pat|] != pat by {
        if |pat| <= |a| {
          assert s[..|pat|] == a[..|pat|];
        } else {
          assert s[..|pat|][|a|] == c;
        }
      }
      assert s[1..] == a[1..] + [c] + b;
      ReplaceAllPastPrefix(a[1..], c, b, pat, rep);
    }
  }

  function DigitChar(d: nat): char
    requires d < 10
  {
    ('0' as int + d) as char
  }

  predicate IsDigit(c: char) {
    '0' <= c <= '9'
  }

  function DigitValue(c: char): nat
    requires IsDigit(c)
  {
    c as int - '0' as int
  }

  /** The value of a string of decimal digits. */
  function DigitsValue(s: string): nat
    requires forall i :: 0 <= i < |s| ==> IsDigit(s[i])
  {
    if s == [] then 0
    else DigitsValue(s[..|s| - 1]) * 10 + DigitValue(s[|s| - 1])
  }

  /** Decimal digits of a natural number, most significant first. */
  function NatDigits(n: nat): (r: string)
    ensures r != []
    ensures forall i :: 0 <= i < |r| ==> IsDigit(r[i])
  {
    if n < 10 then [DigitChar(n)] else NatDigits(n / 10) + [DigitChar(n % 10)]
  }

  /** strconv.Itoa. */
  function Itoa(n: int): string {
    if n < 0 then "-" + NatDigits(-n) else NatDigits(n)
  }

  /** Itoa writes a sign or a digit first, a digit last, and nothing else
      but digits. */
  lemma ItoaShape(n: int)
    ensures var s := Itoa(n);
      && s != [] && (s[0] == '-' || IsDigit(s[0])) && IsDigit(s[|s| - 1])
      && forall i :: 0 <= i < |s| ==> s[i] == '-' || IsDigit(s[i])
  {
  }

  const MinInt64: int := -0x8000_0000_0000_0000
  const MaxInt64: int := 0x7fff_ffff_ffff_ffff

  predicate AllDigits(s: string) {
    forall i :: 0 <= i < |s| ==> IsDigit(s[i])
  }

  /** strconv.Atoi on a 64-bit platform: an optional sign, at least one
      decimal digit and nothing else, with a value inside the int64 range. */
  function Atoi(s: string): (r: Option<int>)
    ensures r.Some? ==> MinInt64 <= r.value <= MaxInt64
    ensures r.Some? ==> s != [] && (IsDigit(s[0]) || s[0] == '-' || s[0] == '+')
  {
    var neg := s != [] && s[0] == '-';
    var digits := if s != [] && (s[0] == '-' || s[0] == '+') then s[1..] else s;
    if digits == [] || !AllDigits(digits) then None
    else
      var v: int := if neg then -(DigitsValue(digits) as int) else DigitsValue(digits);
      if MinInt64 <= v <= MaxInt64 then Some(v) else None
  }

  lemma {:induction false} NatDigitsValue(n: nat)
    ensures DigitsValue(NatDigits(n)) == n
  {
    if n >= 10 {
      NatDigitsValue(n / 10);
      var d := NatDigits(n);
      assert d[..|d| - 1] == NatDigits(n / 10);
    }
  }

  /** Atoi undoes Itoa on the whole int64 range: the x-order strings read back
      as the indices they were made from. */
  lemma AtoiItoa(n: int)
    requires MinInt64 <= n <= MaxInt64
    ensures Atoi(Itoa(n)) == Some(n)
  {
    var s := Itoa(n);
    if n < 0 {
      var d := NatDigits(-n);
      NatDigitsValue(-n);
      assert s == "-" + d && s[0] == '-' && s[1..] == d;
    } else {
      var d := NatDigits(n);
      NatDigitsValue(n);
      assert s == d && IsDigit(s[0]);
    }
  }
}
