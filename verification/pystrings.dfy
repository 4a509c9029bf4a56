/** The Python `str` built-ins the generator relies on, written out over
    `seq<char>`: `startswith`, `endswith`, `count`, `split`, `strip`,
    `lstrip(chars)` and `f"{n}"` for a natural number. Searching is left to
    right and non-overlapping, as in CPython. `in`, `join`, `replace(sep, "")`
    and `int(s)` are defined too, as reference definitions that contracts
    and lemmas state the others against. */
module PyStrings {

  /** `s.startswith(p)` */
  predicate StartsWith(s: string, p: string) {
    |p| <= |s| && s[..|p|] == p
  }

  /** `s.endswith(p)` */
  predicate EndsWith(s: string, p: string) {
    |p| <= |s| && s[|s| - |p|..] == p
  }

  /** `sep in s`: some position of `s` begins an occurrence of `sep`. */
  predicate Contains(s: string, sep: string)
    decreases |s|
  {
    StartsWith(s, sep) || (|s| > 0 && Contains(s[1..], sep))
  }

  /** `s.count(sep)` for a non-empty separator. */
  function Count(s: string, sep: string): nat
    requires |sep| > 0
    decreases |s|
  {
    if StartsWith(s, sep) then 1 + Count(s[|sep|..], sep)
    else if |s| == 0 then 0
    else Count(s[1..], sep)
  }

  /** `s.split(sep)` for a non-empty separator: the text between successive
      occurrences, always one more piece than there are occurrences. */
  function Split(s: string, sep: string): (pieces: seq<string>)
    requires |sep| > 0
    ensures |pieces| == Count(s, sep) + 1
    decreases |s|
  {
    if StartsWith(s, sep) then [""] + Split(s[|sep|..], sep)
    else if |s| == 0 then [""]
    else
      var rest := Split(s[1..], sep);
      [[s[0]] + rest[0]] + rest[1..]
  }

  /** `sep.join(pieces)` */
  function Join(pieces: seq<string>, sep: string): string {
    if |pieces| == 0 then ""
    else if |pieces| == 1 then pieces[0]
    else pieces[0] + sep + Join(pieces[1..], sep)
  }

  /** Concatenation of a list of sequences in order; on strings, `"".join(pieces)`. */
  function Flatten<T>(pieces: seq<seq<T>>): seq<T> {
    if |pieces| == 0 then [] else pieces[0] + Flatten(pieces[1..])
  }

  /** `s.replace(sep, "")` for a non-empty separator. */
  function RemoveAll(s: string, sep: string): string
    requires |sep| > 0
    decreases |s|
  {
    if StartsWith(s, sep) then RemoveAll(s[|sep|..], sep)
    else if |s| == 0 then ""
    else [s[0]] + RemoveAll(s[1..], sep)
  }

  /** Python's `str.isspace` for one character: the characters `str.strip()`
      with no argument removes. */
  predicate IsSpace(c: char) {
    || ('\t' <= c <= '\r')
    || ('\U{1C}' <= c <= ' ')
    || c == '\U{85}' || c == '\U{A0}' || c == '\U{1680}'
    || ('\U{2000}' <= c <= '\U{200A}')
    || c == '\U{2028}' || c == '\U{2029}' || c == '\U{202F}' || c == '\U{205F}' || c == '\U{3000}'
  }

  /** Neither end of `s` is whitespace. */
  predicate Trimmed(s: string) {
    |s| == 0 || (!IsSpace(s[0]) && !IsSpace(s[|s| - 1]))
  }

  /** `s.lstrip(chars)`: the longest suffix of `s` whose first character is
      not in `chars`. */
  function LStripChars(s: string, chars: set<char>): (r: string)
    ensures |r| <= |s|
    ensures forall i | 0 <= i < |s| - |r| :: s[i] in chars
    ensures |r| == 0 || r[0] !in chars
    decreases |s|
  {
    if |s| > 0 && s[0] in chars then LStripChars(s[1..], chars) else s
  }

  /** What `lstrip(chars)` removes is a prefix: the result is a suffix. */
  lemma {:induction false} LStripCharsIsSuffix(s: string, chars: set<char>)
    ensures LStripChars(s, chars) == s[|s| - |LStripChars(s, chars)|..]
    decreases |s|
  {
    if |s| > 0 && s[0] in chars {
      LStripCharsIsSuffix(s[1..], chars);
    }
  }

  /** `s.lstrip()`: the longest suffix of `s` not starting with whitespace. */
  function LStripSpace(s: string): (r: string)
    ensures |r| <= |s|
    ensures forall i | 0 <= i < |s| - |r| :: IsSpace(s[i])
    ensures |r| == 0 || !IsSpace(r[0])
    decreases |s|
  {
    if |s| > 0 && IsSpace(s[0]) then LStripSpace(s[1..]) else s
  }

  /** `s.rstrip()`: the longest prefix of `s` not ending with whitespace. */
  function RStripSpace(s: string): (r: string)
    ensures |r| <= |s|
    ensures forall i | |r| <= i < |s| :: IsSpace(s[i])
    ensures |r| == 0 || !IsSpace(r[|r| - 1])
    decreases |s|
  {
    if |s| > 0 && IsSpace(s[|s| - 1]) then RStripSpace(s[..|s| - 1]) else s
  }

  /** What `lstrip` removes is a prefix: the result is a suffix. */
  lemma {:induction false} LStripSpaceIsSuffix(s: string)
    ensures LStripSpace(s) == s[|s| - |LStripSpace(s)|..]
    decreases |s|
  {
    if |s| > 0 && IsSpace(s[0]) {
      LStripSpaceIsSuffix(s[1..]);
    }
  }

  /** What `rstrip` removes is a suffix: the result is a prefix. */
  lemma {:induction false} RStripSpaceIsPrefix(s: string)
    ensures RStripSpace(s) == s[..|RStripSpace(s)|]
    decreases |s|
  {
    if |s| > 0 && IsSpace(s[|s| - 1]) {
      RStripSpaceIsPrefix(s[..|s| - 1]);
    }
  }

  /** `s.strip()` */
  function Strip(s: string): (r: string)
    ensures Trimmed(r)
  {
    var l := LStripSpace(s);
    RStripSpaceIsPrefix(l);
    RStripSpace(l)
  }

  /** `strip` leaves nothing exactly when the string is all whitespace, and
      leaves a string without surrounding whitespace unchanged. */
  lemma StripFacts(s: string)
    ensures |Strip(s)| == 0 <==> forall i | 0 <= i < |s| :: IsSpace(s[i])
    ensures Trimmed(s) ==> Strip(s) == s
  {
    var l := LStripSpace(s);
    LStripSpaceIsSuffix(s);
    RStripSpaceIsPrefix(l);
  }

  /** The decimal digit for `d`. */
  function DigitChar(d: nat): (c: char)
    requires d < 10
    ensures '0' <= c <= '9' && c as int - '0' as int == d
  {
    ('0' as int + d) as char
  }

  predicate IsDigit(c: char) {
    '0' <= c <= '9'
  }

  /** `str(n)` (equivalently `f"{n}"`) for a natural number: its decimal
      digits, most significant first, without leading zeros. */
  function NatToString(n: nat): (r: string)
    ensures |r| >= 1
    ensures forall i | 0 <= i < |r| :: IsDigit(r[i])
    ensures n > 0 ==> r[0] != '0'
    decreases n
  {
    if n < 10 then [DigitChar(n)] else NatToString(n / 10) + [DigitChar(n % 10)]
  }

  /** The number a string of decimal digits denotes, read as `int(s)` does. */
  function DigitsValue(s: string): nat
    requires forall i | 0 <= i < |s| :: IsDigit(s[i])
  {
    if |s| == 0 then 0
    else
      assert IsDigit(s[|s| - 1]);
      DigitsValue(s[..|s| - 1]) * 10 + (s[|s| - 1] as int - '0' as int)
  }

  /** Round trip: reading back the digits of `str(n)` gives `n`. */
  lemma {:induction false} NatToStringValue(n: nat)
    ensures DigitsValue(NatToString(n)) == n
    decreases n
  {
    var r := NatToString(n);
    if n >= 10 {
      NatToStringValue(n / 10);
      assert r[..|r| - 1] == NatToString(n / 10);
    } else {
      assert r[..0] == [];
    }
  }

  /** Different numbers have different decimal strings. */
  lemma NatToStringInjective(m: nat, n: nat)
    ensures NatToString(m) == NatToString(n) ==> m == n
  {
    NatToStringValue(m);
    NatToStringValue(n);
  }

  /** The number of decimal digits `s` starts with. */
  function DigitRun(s: string): (k: nat)
    ensures k <= |s|
    ensures forall i | 0 <= i < k :: IsDigit(s[i])
    ensures k < |s| ==> !IsDigit(s[k])
  {
    if |s| == 0 || !IsDigit(s[0]) then 0 else 1 + DigitRun(s[1..])
  }

  /** Digits followed by something that does not start with a digit: the
      leading run is exactly those digits. */
  lemma DigitRunOfPrefix(a: string, rest: string)
    requires forall i | 0 <= i < |a| :: IsDigit(a[i])
    requires |rest| > 0 && !IsDigit(rest[0])
    ensures DigitRun(a + rest) == |a|
  {
    var k := DigitRun(a + rest);
    assert (a + rest)[|a|] == rest[0];
    assert forall i | 0 <= i < |a| :: (a + rest)[i] == a[i];
  }

  /** A line can start with `"<m>. "` and `"<n>. "` only when `m == n`: the
      digits stop at the same place, since `.` is not a digit. */
  lemma NumberPrefixUnique(line: string, m: nat, n: nat)
    requires StartsWith(line, NatToString(m) + ". ")
    requires StartsWith(line, NatToString(n) + ". ")
    ensures m == n
  {
    var a, b := NatToString(m), NatToString(n);
    assert line == a + line[|a|..] && line[|a|..][0] == (a + ". ")[|a|];
    assert line == b + line[|b|..] && line[|b|..][0] == (b + ". ")[|b|];
    DigitRunOfPrefix(a, line[|a|..]);
    DigitRunOfPrefix(b, line[|b|..]);
    assert a == line[..|a|] == b;
    NatToStringInjective(m, n);
  }

  lemma FlattenAppend<T>(a: seq<seq<T>>, b: seq<seq<T>>)
    ensures Flatten(a + b) == Flatten(a) + Flatten(b)
  {
    if |a| > 0 {
      assert (a + b)[1..] == a[1..] + b;
    } else {
      assert a + b == b;
    }
  }

  /** The first piece `split` returns is a prefix of the input. */
  lemma {:induction false} SplitHeadIsPrefix(s: string, sep: string)
    requires |sep| > 0
    ensures StartsWith(s, Split(s, sep)[0])
    decreases |s|
  {
    if StartsWith(s, sep) {
    } else if |s| == 0 {
    } else {
      var rest := Split(s[1..], sep);
      SplitHeadIsPrefix(s[1..], sep);
      assert s[..1 + |rest[0]|] == [s[0]] + s[1..][..|rest[0]|];
    }
  }

  /** No piece `split` returns contains the separator. */
  lemma {:induction false} SplitPiecesLackSeparator(s: string, sep: string)
    requires |sep| > 0
    ensures forall i | 0 <= i < |Split(s, sep)| :: !Contains(Split(s, sep)[i], sep)
    decreases |s|
  {
    var pieces := Split(s, sep);
    if StartsWith(s, sep) {
      SplitPiecesLackSeparator(s[|sep|..], sep);
      assert !Contains("", sep);
    } else if |s| == 0 {
      assert !Contains("", sep);
    } else {
      var rest := Split(s[1..], sep);
      SplitPiecesLackSeparator(s[1..], sep);
      SplitHeadIsPrefix(s[1..], sep);
      var h := [s[0]] + rest[0];
      assert h[1..] == rest[0];
      assert !Contains(h, sep);
      assert pieces == [h] + rest[1..];
      forall i | 0 <= i < |pieces| ensures !Contains(pieces[i], sep) {
        if i > 0 {
          assert pieces[i] == rest[i];
        }
      }
    }
  }

  /** A string has no occurrence of the separator iff `count` is zero. */
  lemma {:induction false} CountZeroIffAbsent(s: string, sep: string)
    requires |sep| > 0
    ensures Count(s, sep) == 0 <==> !Contains(s, sep)
    decreases |s|
  {
    if StartsWith(s, sep) {
    } else if |s| == 0 {
    } else {
      CountZeroIffAbsent(s[1..], sep);
    }
  }

  /** Without an occurrence of the separator, `split` returns the input alone. */
  lemma {:induction false} SplitAbsent(s: string, sep: string)
    requires |sep| > 0
    requires !Contains(s, sep)
    ensures Split(s, sep) == [s]
    decreases |s|
  {
    if |s| > 0 {
      SplitAbsent(s[1..], sep);
      assert [s[0]] + s[1..] == s;
    }
  }

  /** Round trip: joining the pieces with the separator restores the input. */
  lemma JoinCons(x: string, rest: seq<string>, sep: string)
    ensures Join([x] + rest, sep) == if |rest| == 0 then x else x + sep + Join(rest, sep)
  {
    assert ([x] + rest)[1..] == rest;
  }

  /** An empty first piece contributes only the separator after it. */
  lemma JoinEmptyHead(pieces: seq<string>, sep: string)
    requires |pieces| > 0
    ensures Join([""] + pieces, sep) == sep + Join(pieces, sep)
  {
    JoinCons("", pieces, sep);
  }

  /** `SplitJoin` when the input starts with the separator. */
  lemma SplitJoinAtSeparator(s: string, sep: string)
    requires |sep| > 0 && StartsWith(s, sep)
    requires Join(Split(s[|sep|..], sep), sep) == s[|sep|..]
    ensures Join(Split(s, sep), sep) == s
  {
    JoinEmptyHead(Split(s[|sep|..], sep), sep);
    assert s[..|sep|] + s[|sep|..] == s;
  }

  /** Joining after gluing a character onto the first piece is gluing it
      onto the join. */
  lemma JoinGlueHead(c: char, pieces: seq<string>, sep: string)
    requires |pieces| > 0
    ensures Join([[c] + pieces[0]] + pieces[1..], sep) == [c] + Join(pieces, sep)
  {
    JoinCons([c] + pieces[0], pieces[1..], sep);
    assert pieces == [pieces[0]] + pieces[1..];
    JoinCons(pieces[0], pieces[1..], sep);
  }

  /** `SplitJoin` when the input starts with an ordinary character. */
  lemma SplitJoinAtChar(s: string, sep: string)
    requires |sep| > 0 && !StartsWith(s, sep) && |s| > 0
    requires Join(Split(s[1..], sep), sep) == s[1..]
    ensures Join(Split(s, sep), sep) == s
  {
    var rest := Split(s[1..], sep);
    JoinGlueHead(s[0], rest, sep);
    assert [s[0]] + s[1..] == s;
  }

  lemma {:induction false} SplitJoin(s: string, sep: string)
    requires |sep| > 0
    ensures Join(Split(s, sep), sep) == s
    decreases |s|
  {
    if StartsWith(s, sep) {
      SplitJoin(s[|sep|..], sep);
      SplitJoinAtSeparator(s, sep);
    } else if |s| > 0 {
      SplitJoin(s[1..], sep);
      SplitJoinAtChar(s, sep);
    }
  }

  /** Concatenating the pieces gives the input with every occurrence of the
      separator deleted. */
  lemma {:induction false} SplitFlatten(s: string, sep: string)
    requires |sep| > 0
    ensures Flatten(Split(s, sep)) == RemoveAll(s, sep)
    decreases |s|
  {
    if StartsWith(s, sep) {
      var q := Split(s[|sep|..], sep);
      SplitFlatten(s[|sep|..], sep);
      assert ([""] + q)[1..] == q;
    } else if |s| == 0 {
    } else {
      var rest := Split(s[1..], sep);
      SplitFlatten(s[1..], sep);
      var pieces := [[s[0]] + rest[0]] + rest[1..];
      assert pieces[1..] == rest[1..];
      assert Flatten(rest) == rest[0] + Flatten(rest[1..]);
    }
  }

  /** An occurrence at any position makes `sep in s` true. */
  lemma {:induction false} ContainsAt(s: string, sep: string, k: nat)
    requires k <= |s| && StartsWith(s[k..], sep)
    ensures Contains(s, sep)
    decreases k
  {
    if k > 0 {
      assert s[1..][k - 1..] == s[k..];
      ContainsAt(s[1..], sep, k - 1);
    }
  }

  /** `split` cuts at the leftmost occurrence: when no occurrence starts
      inside `a`, the first piece of `a + sep + b` is `a` and the rest is
      the split of `b`. */
  lemma {:induction false} SplitAtFirst(a: string, sep: string, b: string)
    requires |sep| > 0
    requires forall k | 0 <= k < |a| :: !StartsWith((a + sep + b)[k..], sep)
    ensures Split(a + sep + b, sep) == [a] + Split(b, sep)
    decreases |a|
  {
    var s := a + sep + b;
    if |a| == 0 {
      assert s == sep + b;
      assert s[|sep|..] == b;
    } else {
      assert s[0..] == s;
      assert s[1..] == a[1..] + sep + b;
      forall k | 0 <= k < |a[1..]|
        ensures !StartsWith((a[1..] + sep + b)[k..], sep)
      {
        assert (a[1..] + sep + b)[k..] == s[k + 1..];
      }
      SplitAtFirst(a[1..], sep, b);
      assert [s[0]] + a[1..] == a;
    }
  }
}
