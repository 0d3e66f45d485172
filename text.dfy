/** The `std::string` operations the race record and the path helpers use:
    blank padding, decimal output of `<<` on integers, the library's
    lexicographic `<`, and substring and character search. */
module Text {
  /** `std::string(n, ' ')`. */
  function Spaces(n: nat): (r: string)
    ensures |r| == n && forall i :: 0 <= i < n ==> r[i] == ' '
  {
    seq(n, _ => ' ')
  }

  predicate IsDigit(c: char)
  {
    '0' as int <= c as int <= '9' as int
  }

  function DigitChar(d: nat): (c: char)
    requires d < 10
    ensures IsDigit(c) && DigitValue(c) == d
  {
    ('0' as int + d) as char
  }

  function DigitValue(c: char): nat
    requires IsDigit(c)
  {
    c as int - '0' as int
  }

  /** `<<` on an unsigned integer: its decimal digits, most significant first. */
  function NatText(n: nat): (r: string)
    ensures |r| >= 1 && forall i :: 0 <= i < |r| ==> IsDigit(r[i])
  {
    if n < 10 then [DigitChar(n)] else NatText(n / 10) + [DigitChar(n % 10)]
  }

  /** The number a string of decimal digits denotes. */
  function DigitsValue(s: string): nat
    requires forall i :: 0 <= i < |s| ==> IsDigit(s[i])
  {
    if |s| == 0 then 0 else DigitsValue(s[..|s| - 1]) * 10 + DigitValue(s[|s| - 1])
  }

  /** Reading the digits back gives the number printed. */
  lemma {:induction false} NatTextRoundTrip(n: nat)
    ensures DigitsValue(NatText(n)) == n
  {
    if n >= 10 {
      NatTextRoundTrip(n / 10);
      var s := NatText(n);
      assert s[..|s| - 1] == NatText(n / 10);
    }
  }

  /** `<<` on a signed integer: a minus sign, then the digits of the magnitude. */
  function IntText(i: int): string
  {
    if i < 0 then "-" + NatText(-i) else NatText(i)
  }

  /** The number a printed signed integer denotes. */
  function SignedValue(s: string): int
    requires |s| >= 1 && (s[0] == '-' || IsDigit(s[0]))
    requires forall i :: 1 <= i < |s| ==> IsDigit(s[i])
  {
    if s[0] == '-' then -(DigitsValue(s[1..]) as int) else DigitsValue(s)
  }

  /** Signed output reads back as the number printed and holds no line break. */
  lemma IntTextRoundTrip(i: int)
    ensures |IntText(i)| >= 1 && (IntText(i)[0] == '-' || IsDigit(IntText(i)[0]))
    ensures forall k :: 1 <= k < |IntText(i)| ==> IsDigit(IntText(i)[k])
    ensures SignedValue(IntText(i)) == i
    ensures '\n' !in IntText(i)
  {
    if i < 0 {
      NatTextRoundTrip(-i);
      assert IntText(i)[1..] == NatText(-i);
    } else {
      NatTextRoundTrip(i);
    }
  }

  /** `std::string`'s `<`: the first differing character decides, and a
      proper prefix comes first. */
  predicate LexLess(a: string, b: string)
  {
    if |a| == 0 then |b| > 0
    else if |b| == 0 then false
    else if a[0] != b[0] then a[0] < b[0]
    else LexLess(a[1..], b[1..])
  }

  /** The library order is a strict total order: irreflexive, asymmetric,
      transitive, and any two different strings are ordered one way. */
  lemma {:induction false} LexLessIrreflexive(a: string)
    ensures !LexLess(a, a)
  {
    if |a| > 0 {
      LexLessIrreflexive(a[1..]);
    }
  }

  lemma {:induction false} LexLessAsymmetric(a: string, b: string)
    ensures LexLess(a, b) ==> !LexLess(b, a)
  {
    if |a| > 0 && |b| > 0 && a[0] == b[0] {
      LexLessAsymmetric(a[1..], b[1..]);
    }
  }

  lemma {:induction false} LexLessTransitive(a: string, b: string, c: string)
    requires LexLess(a, b) && LexLess(b, c)
    ensures LexLess(a, c)
  {
    if |a| > 0 && a[0] == b[0] && b[0] == c[0] {
      LexLessTransitive(a[1..], b[1..], c[1..]);
    }
  }

  lemma {:induction false} LexLessTotal(a: string, b: string)
    ensures a == b || LexLess(a, b) || LexLess(b, a)
  {
    if |a| > 0 && |b| > 0 && a[0] == b[0] {
      LexLessTotal(a[1..], b[1..]);
      if a[1..] == b[1..] {
        assert a == [a[0]] + a[1..] && b == [b[0]] + b[1..];
      }
    }
  }

  /** `sub` starts at some position of `s`. */
  ghost predicate OccursAt(sub: string, s: string)
  {
    exists i :: 0 <= i <= |s| - |sub| && s[i..][..|sub|] == sub
  }

  /** `s.find(sub) != npos`: `sub` is a prefix of `s` or occurs in its tail. */
  predicate Occurs(sub: string, s: string)
  {
    (|sub| <= |s| && s[..|sub|] == sub) || (|s| > 0 && Occurs(sub, s[1..]))
  }

  /** The search finds `sub` exactly when it starts at some position. */
  lemma {:induction false} OccursIffOccursAt(sub: string, s: string)
    ensures Occurs(sub, s) <==> OccursAt(sub, s)
  {
    if |sub| <= |s| && s[..|sub|] == sub {
      assert s[0..][..|sub|] == sub;
    } else if |s| > 0 {
      OccursIffOccursAt(sub, s[1..]);
      if Occurs(sub, s[1..]) {
        var i :| 0 <= i <= |s[1..]| - |sub| && s[1..][i..][..|sub|] == sub;
        assert s[i + 1..][..|sub|] == sub;
      }
      if OccursAt(sub, s) {
        var i :| 0 <= i <= |s| - |sub| && s[i..][..|sub|] == sub;
        if i > 0 {
          assert s[1..][i - 1..][..|sub|] == sub;
        }
      }
    }
  }

  /** A part of a concatenation occurs in it. */
  lemma OccursInMiddle(a: string, x: string, b: string)
    ensures OccursAt(x, a + x + b)
  {
    assert (a + x + b)[|a|..][..|x|] == x;
  }

  /** `s.find(c)`: the first position of `c` in `s`, if any. */
  function Find(s: string, c: char): (r: int)
    ensures -1 <= r < |s|
    ensures r == -1 ==> c !in s
    ensures r >= 0 ==> s[r] == c && c !in s[..r]
  {
    if |s| == 0 then -1
    else if s[0] == c then 0
    else
      var k := Find(s[1..], c);
      assert k >= 0 ==> s[..k + 1] == [s[0]] + s[1..][..k];
      if k == -1 then -1 else 1 + k
  }

  /** `x` followed by a line break, as `<< "\n"` or `<< std::endl` writes it. */
  function Line(x: string): string
  {
    x + "\n"
  }

  /** The lines `xs`, each followed by a line break. */
  function Lines(xs: seq<string>): string
  {
    if |xs| == 0 then "" else Lines(xs[..|xs| - 1]) + Line(xs[|xs| - 1])
  }

  /** The text of the first `k` lines is where the text of all of them starts. */
  lemma {:induction false} LinesPrefix(xs: seq<string>, k: nat)
    requires k <= |xs|
    ensures |Lines(xs[..k])| <= |Lines(xs)| && Lines(xs)[..|Lines(xs[..k])|] == Lines(xs[..k])
  {
    if k < |xs| {
      var n := |xs| - 1;
      assert xs[..n][..k] == xs[..k];
      LinesPrefix(xs[..n], k);
    } else {
      assert xs[..k] == xs;
    }
  }

  /** A line holding no break of its own adds exactly one. */
  lemma OneLine(x: string)
    requires '\n' !in x
    ensures multiset(Line(x))['\n'] == 1
  {
    assert multiset(x)['\n'] == 0;
  }

  /** Lines holding no breaks of their own give one break each. */
  lemma {:induction false} LinesCount(xs: seq<string>)
    requires forall i :: 0 <= i < |xs| ==> '\n' !in xs[i]
    ensures multiset(Lines(xs))['\n'] == |xs|
  {
    if |xs| > 0 {
      LinesCount(xs[..|xs| - 1]);
      OneLine(xs[|xs| - 1]);
    }
  }

  /** What occurs in a part occurs in the whole. */
  lemma OccursInParts(x: string, a: string, b: string)
    ensures OccursAt(x, a) ==> OccursAt(x, a + b)
    ensures OccursAt(x, b) ==> OccursAt(x, a + b)
  {
    if OccursAt(x, a) {
      var i :| 0 <= i <= |a| - |x| && a[i..][..|x|] == x;
      assert (a + b)[i..][..|x|] == x;
    }
    if OccursAt(x, b) {
      var i :| 0 <= i <= |b| - |x| && b[i..][..|x|] == x;
      assert (a + b)[|a| + i..][..|x|] == x;
    }
  }

  /** What occurs in one of the lines occurs in the text they make. */
  lemma {:induction false} OccursInLines(x: string, xs: seq<string>, k: nat)
    requires k < |xs| && OccursAt(x, xs[k])
    ensures OccursAt(x, Lines(xs))
  {
    var n := |xs| - 1;
    if k == n {
      OccursInParts(x, xs[n], "\n");
    } else {
      OccursInLines(x, xs[..n], k);
    }
    OccursInParts(x, Lines(xs[..n]), Line(xs[n]));
  }

  /** A text made of lines, a body and a closing line begins with its first
      line and ends with the closing line. */
  lemma TextFraming(xs: seq<string>, body: string, last: string)
    requires |xs| > 0
    ensures var m := Lines(xs) + body + Line(last);
      |m| >= |Line(xs[0])| + |Line(last)| && m[..|Line(xs[0])|] == Line(xs[0]) && m[|m| - |Line(last)|..] == Line(last)
  {
    LinesPrefix(xs, 1);
    assert Lines(xs[..1]) == Line(xs[0]) by {
      assert xs[..1][..0] == [];
    }
    var m := Lines(xs) + body + Line(last);
    assert m[..|Line(xs[0])|] == Lines(xs)[..|Line(xs[0])|];
  }

  /** What occurs in one of the lines occurs in a text that starts with them. */
  lemma OccursInText(x: string, xs: seq<string>, k: nat, body: string, last: string)
    requires k < |xs| && OccursAt(x, xs[k])
    ensures OccursAt(x, Lines(xs) + body + Line(last))
  {
    OccursInLines(x, xs, k);
    OccursInParts(x, Lines(xs), body);
    OccursInParts(x, Lines(xs) + body, Line(last));
  }

  /** Lines, a body and a closing line: the breaks of the lines, of the body
      and one more. */
  lemma TextLines(xs: seq<string>, body: string, last: string)
    requires forall i :: 0 <= i < |xs| ==> '\n' !in xs[i]
    requires '\n' !in last
    ensures multiset(Lines(xs) + body + Line(last))['\n'] == |xs| + multiset(body)['\n'] + 1
  {
    LinesCount(xs);
    OneLine(last);
  }
}
