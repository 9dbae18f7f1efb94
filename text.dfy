/** The Python string operations the menu relies on, on `seq<char>`:
    `startswith`, `'{}' in s`, one-argument `format`, `'\n'.join`,
    `isdigit`, `int` and `str` on natural numbers. `Split` (`s.split('\n')`)
    is the reference used to state what a joined text looks like line by line. */
module Text {

  /** `s.startswith(prefix)`. */
  predicate StartsWith(s: string, prefix: string) {
    |prefix| <= |s| && s[..|prefix|] == prefix
  }

  /** A string that differs from `prefix` at a position both have does not start with it. */
  lemma DiffersAt(s: string, prefix: string, k: nat)
    requires k < |prefix| && k < |s| && s[k] != prefix[k]
    ensures !StartsWith(s, prefix)
  {
    if |prefix| <= |s| {
      assert s[..|prefix|][k] != prefix[k];
    }
  }

  // ---------------------------------------------------------------------
  // The `{}` placeholder

  /** `'{}' in s`. */
  predicate HasPlaceholder(s: string)
    decreases |s|
  {
    |s| >= 2 && ((s[0] == '{' && s[1] == '}') || HasPlaceholder(s[1..]))
  }

  /** `s.format(d)` for a string whose only replacement field is `{}`:
      the first `{}` becomes `d`; a string without one is unchanged. */
  function Substitute(s: string, d: string): (r: string)
    ensures !HasPlaceholder(s) ==> r == s
    decreases |s|
  {
    if |s| < 2 then s
    else if s[0] == '{' && s[1] == '}' then d + s[2..]
    else [s[0]] + Substitute(s[1..], d)
  }

  /** A string with no `{` holds no placeholder. */
  lemma {:induction false} NoBraceNoPlaceholder(s: string)
    requires '{' !in s
    ensures !HasPlaceholder(s)
    decreases |s|
  {
    if |s| >= 2 {
      assert s[0] in s;
      assert forall c :: c in s[1..] ==> c in s;
      NoBraceNoPlaceholder(s[1..]);
    }
  }

  /** A character that does not open a placeholder is kept and
      substitution goes on after it. */
  lemma SubstituteCons(c: char, rest: string, d: string)
    requires |rest| >= 1
    requires c != '{' || rest[0] != '}'
    ensures Substitute([c] + rest, d) == [c] + Substitute(rest, d)
  {
    var s := [c] + rest;
    assert s[0] == c && s[1] == rest[0];
    assert s[1..] == rest;
  }

  /** `a` is its first character followed by the rest. */
  lemma ConsAppend(a: string, u: string)
    requires a != []
    ensures [a[0]] + (a[1..] + u) == a + u
  {
    assert [a[0]] + a[1..] == a;
  }

  /** The first character of a placeholder-free `a` is kept when
      substituting into `a + t`, where `t` begins with a brace. */
  lemma SubstituteStep(a: string, t: string, d: string)
    requires a != [] && !HasPlaceholder(a)
    requires |t| >= 1 && t[0] == '{'
    ensures !HasPlaceholder(a[1..])
    ensures Substitute(a + t, d) == [a[0]] + Substitute(a[1..] + t, d)
  {
    var rest := a[1..] + t;
    assert a + t == [a[0]] + rest;
    assert rest[0] == if |a| == 1 then t[0] else a[1];
    SubstituteCons(a[0], rest, d);
  }

  /** Substitution into `a + t`, where `t` begins with the braces and `a`
      holds no placeholder, replaces those braces. */
  lemma {:induction false} SubstituteBefore(a: string, t: string, d: string)
    requires !HasPlaceholder(a)
    requires |t| >= 2 && t[0] == '{' && t[1] == '}'
    ensures Substitute(a + t, d) == a + (d + t[2..])
    decreases |a|
  {
    if a == [] {
      assert a + t == t;
    } else {
      SubstituteStep(a, t, d);
      SubstituteBefore(a[1..], t, d);
      ConsAppend(a, d + t[2..]);
    }
  }

  /** Substituting into `a + "{}" + b`, where `a` holds no placeholder,
      puts `d` exactly where the braces were. */
  lemma SubstituteAt(a: string, b: string, d: string)
    requires !HasPlaceholder(a)
    ensures Substitute(a + "{}" + b, d) == a + d + b
  {
    var t := "{}" + b;
    assert a + "{}" + b == a + t;
    assert t[2..] == b;
    SubstituteBefore(a, t, d);
  }

  /** Every string with a placeholder decomposes at its FIRST `{}`, and
      substitution replaces that one. */
  lemma {:induction false} SubstituteFirst(s: string, d: string) returns (i: nat)
    requires HasPlaceholder(s)
    ensures i + 2 <= |s| && s[i] == '{' && s[i + 1] == '}'
    ensures !HasPlaceholder(s[..i])
    ensures Substitute(s, d) == s[..i] + d + s[i + 2..]
    decreases |s|
  {
    if s[0] == '{' && s[1] == '}' {
      i := 0;
    } else {
      var j := SubstituteFirst(s[1..], d);
      i := j + 1;
      var a := s[..i];
      assert a == [s[0]] + s[1..][..j];
      if |a| >= 2 {
        assert a[0] == s[0] && a[1] == s[1];
        assert a[1..] == s[1..][..j];
      }
      assert !HasPlaceholder(a);
      assert s == a + "{}" + s[i + 2..];
      SubstituteAt(a, s[i + 2..], d);
    }
  }

  /** Substitution introduces no line break that neither string had. */
  lemma {:induction false} SubstituteNoNewline(s: string, d: string)
    requires '\n' !in s && '\n' !in d
    ensures '\n' !in Substitute(s, d)
    decreases |s|
  {
    if |s| >= 2 && !(s[0] == '{' && s[1] == '}') {
      assert forall c :: c in s[1..] ==> c in s;
      SubstituteNoNewline(s[1..], d);
      assert s[0] in s;
    } else if |s| >= 2 {
      assert forall c :: c in s[2..] ==> c in s;
    }
  }

  // ---------------------------------------------------------------------
  // Lines

  /** `'\n'.join(parts)`. */
  function Join(parts: seq<string>): (text: string)
    decreases |parts|
  {
    if |parts| == 0 then ""
    else if |parts| == 1 then parts[0]
    else parts[0] + "\n" + Join(parts[1..])
  }

  /** `s.split('\n')`: the pieces between line breaks, at least one. */
  function Split(s: string): (lines: seq<string>)
    ensures |lines| >= 1
    decreases |s|
  {
    if |s| == 0 then [""]
    else
      var rest := Split(s[1..]);
      if s[0] == '\n' then [""] + rest
      else [[s[0]] + rest[0]] + rest[1..]
  }

  /** The contents of a stream after writing `chunks` in order. */
  function Flatten(chunks: seq<string>): (text: string)
    decreases |chunks|
  {
    if |chunks| == 0 then "" else chunks[0] + Flatten(chunks[1..])
  }

  /** A line followed by a line break, as `print` writes it. */
  function WithNewline(line: string): string {
    line + "\n"
  }

  /** Each line followed by a line break. */
  function Terminated(lines: seq<string>): (r: seq<string>)
  {
    seq(|lines|, k requires 0 <= k < |lines| => WithNewline(lines[k]))
  }

  lemma {:induction false} SplitWhole(p: string)
    requires '\n' !in p
    ensures Split(p) == [p]
    decreases |p|
  {
    if p != [] {
      assert forall c :: c in p[1..] ==> c in p;
      SplitWhole(p[1..]);
      assert p[0] in p;
      assert [p[0]] + p[1..] == p;
    }
  }

  lemma {:induction false} SplitPrefix(p: string, rest: string)
    requires '\n' !in p
    ensures Split(p + "\n" + rest) == [p] + Split(rest)
    decreases |p|
  {
    var t := p + "\n" + rest;
    if p == [] {
      assert t[0] == '\n' && t[1..] == rest;
    } else {
      assert t[0] == p[0];
      assert p[0] in p;
      assert t[1..] == p[1..] + "\n" + rest;
      assert forall c :: c in p[1..] ==> c in p;
      SplitPrefix(p[1..], rest);
      assert [p[0]] + p[1..] == p;
    }
  }

  /** Joining lines that hold no line break and splitting the text again
      gives back exactly those lines: the text is those lines, in order,
      with no trailing line break. */
  lemma {:induction false} SplitJoin(parts: seq<string>)
    requires |parts| >= 1
    requires forall k :: 0 <= k < |parts| ==> '\n' !in parts[k]
    ensures Split(Join(parts)) == parts
    decreases |parts|
  {
    if |parts| == 1 {
      SplitWhole(parts[0]);
    } else {
      SplitJoin(parts[1..]);
      SplitPrefix(parts[0], Join(parts[1..]));
      assert [parts[0]] + parts[1..] == parts;
    }
  }

  /** Splitting a text and joining the pieces gives the text back. */
  lemma {:induction false} JoinSplit(s: string)
    ensures Join(Split(s)) == s
    decreases |s|
  {
    if |s| > 0 {
      var rest := Split(s[1..]);
      JoinSplit(s[1..]);
      if s[0] == '\n' {
        var lines := [""] + rest;
        assert lines[1..] == rest;
        assert Join(lines) == "" + "\n" + Join(rest);
        assert s == [s[0]] + s[1..];
      } else {
        var lines := [[s[0]] + rest[0]] + rest[1..];
        assert lines[1..] == rest[1..];
        assert s == [s[0]] + s[1..];
        if |rest| > 1 {
          assert Join(rest) == rest[0] + "\n" + Join(rest[1..]);
        }
      }
    }
  }

  lemma {:induction false} FlattenAppend(a: seq<string>, b: seq<string>)
    ensures Flatten(a + b) == Flatten(a) + Flatten(b)
    decreases |a|
  {
    if a == [] {
      assert a + b == b;
    } else {
      assert (a + b)[1..] == a[1..] + b;
      FlattenAppend(a[1..], b);
    }
  }

  /** Joining `middle + [last]` with line breaks writes the same text as
      printing every line of `middle` and then writing `last`. */
  lemma {:induction false} JoinTail(middle: seq<string>, last: string)
    ensures Join(middle + [last]) == Flatten(Terminated(middle)) + last
    decreases |middle|
  {
    if middle == [] {
      assert middle + [last] == [last];
    } else {
      var parts := middle + [last];
      assert parts[1..] == middle[1..] + [last];
      JoinTail(middle[1..], last);
      assert Terminated(middle)[1..] == Terminated(middle[1..]);
    }
  }

  // ---------------------------------------------------------------------
  // Decimal numbers

  predicate IsDigit(c: char) {
    '0' <= c <= '9'
  }

  /** `s.isdigit()` on a byte string: non-empty, every character a digit. */
  predicate IsDigits(s: string) {
    |s| > 0 && forall i :: 0 <= i < |s| ==> IsDigit(s[i])
  }

  lemma DigitsHaveNoNewline(s: string)
    requires IsDigits(s)
    ensures '\n' !in s
  {
    assert forall i :: 0 <= i < |s| ==> s[i] != '\n';
  }

  /** `int(s)` on a string of digits (leading zeros allowed). */
  function DecimalValue(s: string): nat
    requires forall i :: 0 <= i < |s| ==> IsDigit(s[i])
    decreases |s|
  {
    if |s| == 0 then 0
    else
      assert IsDigit(s[|s| - 1]);
      DecimalValue(s[..|s| - 1]) * 10 + (s[|s| - 1] as int - '0' as int)
  }

  function DigitChar(d: nat): char
    requires d < 10
  {
    ('0' as int + d) as char
  }

  /** `str(n)` for a natural number: its decimal digits. */
  function NatToString(n: nat): (s: string)
    ensures IsDigits(s)
    ensures n == 0 ==> s == "0"
    ensures n > 0 ==> s[0] != '0'
    decreases n
  {
    if n < 10 then [DigitChar(n)]
    else
      var front := NatToString(n / 10);
      assert (front + [DigitChar(n % 10)])[0] == front[0];
      front + [DigitChar(n % 10)]
  }

  /** `int(str(n)) == n`. */
  lemma {:induction false} DecimalValueOfNatToString(n: nat)
    ensures DecimalValue(NatToString(n)) == n
    decreases n
  {
    var s := NatToString(n);
    if n >= 10 {
      DecimalValueOfNatToString(n / 10);
      assert s[..|s| - 1] == NatToString(n / 10);
    }
  }

  /** `int` ignores leading zeros: `int('0' + s) == int(s)`. */
  lemma {:induction false} DecimalValueLeadingZero(s: string)
    requires forall i :: 0 <= i < |s| ==> IsDigit(s[i])
    ensures DecimalValue("0" + s) == DecimalValue(s)
    decreases |s|
  {
    var t := "0" + s;
    if |s| > 0 {
      assert t[..|t| - 1] == "0" + s[..|s| - 1];
      DecimalValueLeadingZero(s[..|s| - 1]);
      assert t[|t| - 1] == s[|s| - 1];
    } else {
      assert t[..0] == "";
    }
  }
}
