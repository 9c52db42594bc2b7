/** Numbers as text, the byte order of strings, and joined fields. */
module Text {

  function DigitChar(d: nat): char
    requires d < 10
  {
    (48 + d) as char
  }

  /** strconv.FormatInt in base ten, for a value that is not negative. */
  function Decimal(n: nat): (s: string)
    ensures s != ""
  {
    if n < 10 then [DigitChar(n)] else Decimal(n / 10) + [DigitChar(n % 10)]
  }

  /** The decimal form of an integer (fmt's %d). */
  function ShowInt(n: int): string {
    if n < 0 then "-" + Decimal(-n) else Decimal(n)
  }

  lemma {:induction false} DecimalInjective(m: nat, n: nat)
    requires Decimal(m) == Decimal(n)
    ensures m == n
    decreases m
  {
    var a, b := Decimal(m), Decimal(n);
    assert a[|a| - 1] == DigitChar(m % 10) && b[|b| - 1] == DigitChar(n % 10);
    if m >= 10 && n >= 10 {
      assert a[..|a| - 1] == Decimal(m / 10) && b[..|b| - 1] == Decimal(n / 10);
      DecimalInjective(m / 10, n / 10);
    }
  }

  /** The number a text of digits stands for. */
  function Value(s: string): int {
    if s == "" then 0 else 10 * Value(s[..|s| - 1]) + (s[|s| - 1] as int - '0' as int)
  }

  /** Reading the decimal form back gives the number; it has no leading zero. */
  lemma {:induction false} DecimalReads(n: nat)
    ensures Value(Decimal(n)) == n && (n > 0 ==> Decimal(n)[0] != '0')
  {
    if n >= 10 {
      DecimalReads(n / 10);
      assert Decimal(n)[..|Decimal(n)| - 1] == Decimal(n / 10);
    } else {
      assert Decimal(n)[..0] == "";
    }
  }

  lemma {:induction false} DecimalIsDigits(n: nat)
    ensures forall c :: c in Decimal(n) ==> '0' <= c <= '9'
  {
    if n >= 10 { DecimalIsDigits(n / 10); }
  }

  lemma ShowIntInjective(m: int, n: int)
    requires ShowInt(m) == ShowInt(n)
    ensures m == n
  {
    if m < 0 { DecimalIsDigits(-m); } else { DecimalIsDigits(m); assert ShowInt(m)[0] in Decimal(m); }
    if n < 0 { DecimalIsDigits(-n); } else { DecimalIsDigits(n); assert ShowInt(n)[0] in Decimal(n); }
    if m < 0 && n < 0 {
      assert ShowInt(m)[1..] == Decimal(-m) && ShowInt(n)[1..] == Decimal(-n);
      DecimalInjective(-m, -n);
    } else if m >= 0 && n >= 0 {
      DecimalInjective(m, n);
    }
  }

  // ----- Fields joined by a separator -----

  /** Text without the separator, then the separator: where the field ends is certain. */
  lemma SplitAtSeparator(sep: char, a: string, x: string, b: string, y: string)
    requires sep !in a && sep !in b
    requires a + [sep] + x == b + [sep] + y
    ensures a == b && x == y
  {
    var w := a + [sep] + x;
    assert w == b + [sep] + y;
    assert w[|a|] == sep && w[|b|] == sep;
    assert |a| >= |b| by { assert forall k :: 0 <= k < |b| ==> w[k] == b[k] && b[k] != sep; }
    assert |b| >= |a| by { assert forall k :: 0 <= k < |a| ==> w[k] == a[k] && a[k] != sep; }
    assert w[..|a|] == a && w[..|b|] == b && w[|a| + 1..] == x && w[|b| + 1..] == y;
  }

  /** Fields joined by a separator (fmt's %s|%s|...). */
  function Joined(sep: char, fields: seq<string>): string
    requires fields != []
  {
    if |fields| == 1 then fields[0] else fields[0] + [sep] + Joined(sep, fields[1..])
  }

  function Count(sep: char, s: string): nat {
    if s == "" then 0 else (if s[0] == sep then 1 else 0) + Count(sep, s[1..])
  }

  lemma {:induction false} CountConcat(sep: char, a: string, b: string)
    ensures Count(sep, a + b) == Count(sep, a) + Count(sep, b)
  {
    if a == "" {
      assert a + b == b;
    } else {
      assert (a + b)[1..] == a[1..] + b;
      CountConcat(sep, a[1..], b);
    }
  }

  lemma {:induction false} CountNone(sep: char, s: string)
    ensures Count(sep, s) == 0 <==> sep !in s
  {
    if s != "" {
      CountNone(sep, s[1..]);
      assert s == [s[0]] + s[1..];
    }
  }

  /** The separators inside the fields. */
  function CountIn(sep: char, fields: seq<string>): nat {
    if fields == [] then 0 else Count(sep, fields[0]) + CountIn(sep, fields[1..])
  }

  lemma {:induction false} CountJoined(sep: char, fields: seq<string>)
    requires fields != []
    ensures Count(sep, Joined(sep, fields)) == |fields| - 1 + CountIn(sep, fields)
  {
    if |fields| == 1 {
      assert CountIn(sep, fields[1..]) == 0;
    } else {
      CountJoined(sep, fields[1..]);
      CountConcat(sep, fields[0] + [sep], Joined(sep, fields[1..]));
      CountConcat(sep, fields[0], [sep]);
      assert Count(sep, [sep]) == 1;
    }
  }

  predicate SeparatorFree(sep: char, fields: seq<string>) {
    forall i :: 0 <= i < |fields| ==> sep !in fields[i]
  }

  lemma {:induction false} CountInNone(sep: char, fields: seq<string>)
    ensures CountIn(sep, fields) == 0 <==> SeparatorFree(sep, fields)
  {
    if fields != [] {
      CountNone(sep, fields[0]);
      CountInNone(sep, fields[1..]);
      hide Count;
      assert fields == [fields[0]] + fields[1..];
    }
  }

  lemma {:induction false} JoinedInjective(sep: char, xs: seq<string>, ys: seq<string>)
    requires |xs| == |ys| > 0 && SeparatorFree(sep, xs) && SeparatorFree(sep, ys)
    requires Joined(sep, xs) == Joined(sep, ys)
    ensures xs == ys
  {
    if |xs| > 1 {
      SplitAtSeparator(sep, xs[0], Joined(sep, xs[1..]), ys[0], Joined(sep, ys[1..]));
      JoinedInjective(sep, xs[1..], ys[1..]);
      assert xs == [xs[0]] + xs[1..] && ys == [ys[0]] + ys[1..];
    }
  }

  /** As many fields, none of which holds the separator, are read back off their joined text:
      no other fields, separators or not, join to it. */
  lemma JoinedReadsBack(sep: char, xs: seq<string>, ys: seq<string>)
    requires |xs| == |ys| > 0 && SeparatorFree(sep, xs) && Joined(sep, xs) == Joined(sep, ys)
    ensures xs == ys
  {
    CountJoined(sep, xs);
    CountJoined(sep, ys);
    CountInNone(sep, xs);
    CountInNone(sep, ys);
    hide Count, CountIn, Joined;
    JoinedInjective(sep, xs, ys);
  }

  /** A separator inside a field reads as the end of a field. */
  lemma {:induction false} SeparatorEndsField(sep: char, pre: seq<string>, a: string, b: string, post: seq<string>)
    ensures Joined(sep, pre + [a + [sep] + b] + post) == Joined(sep, pre + [a, b] + post)
  {
    var xs, ys := pre + [a + [sep] + b] + post, pre + [a, b] + post;
    if pre == [] {
      assert ys[1..] == [b] + post && xs[1..] == post;
      if post == [] {
        assert Joined(sep, ys[1..]) == b;
      } else {
        assert ([b] + post)[1..] == post;
        assert Joined(sep, ys[1..]) == b + [sep] + Joined(sep, post);
        assert (a + [sep] + b) + [sep] + Joined(sep, post) == a + [sep] + (b + [sep] + Joined(sep, post));
      }
    } else {
      assert xs[1..] == pre[1..] + [a + [sep] + b] + post && ys[1..] == pre[1..] + [a, b] + post;
      SeparatorEndsField(sep, pre[1..], a, b, post);
    }
  }

  lemma FirstSeparator(sep: char, s: string) returns (a: string, b: string)
    requires sep in s
    ensures s == a + [sep] + b
  {
    var i :| 0 <= i < |s| && s[i] == sep;
    a, b := s[..i], s[i + 1..];
  }

  // ----- The order of strings.Compare -----

  predicate LexLess(a: string, b: string) {
    if b == "" then false
    else if a == "" then true
    else if a[0] == b[0] then LexLess(a[1..], b[1..])
    else a[0] < b[0]
  }

  lemma {:induction false} LexTotal(a: string, b: string)
    ensures !(LexLess(a, b) && LexLess(b, a))
    ensures LexLess(a, b) || LexLess(b, a) || a == b
    ensures !LexLess(a, a)
    decreases |a|
  {
    if a != "" {
      LexTotal(a[1..], if b == "" then "" else b[1..]);
      if b != "" && a[0] == b[0] && a[1..] == b[1..] {
        assert a == [a[0]] + a[1..] && b == [b[0]] + b[1..];
      }
    }
  }

  lemma {:induction false} LexTransitive(a: string, b: string, c: string)
    requires LexLess(a, b) && LexLess(b, c)
    ensures LexLess(a, c)
    decreases |a|
  {
    if a != "" && a[0] == b[0] && b[0] == c[0] {
      LexTransitive(a[1..], b[1..], c[1..]);
    }
  }

  /** `a` comes before `b`: at the first place they differ it has the smaller character, or it ends
      there and `b` goes on. */
  ghost predicate Earlier(a: string, b: string) {
    a < b || exists k :: 0 <= k < |a| && k < |b| && a[..k] == b[..k] && a[k] < b[k]
  }

  lemma {:induction false} LexMeans(a: string, b: string)
    ensures LexLess(a, b) <==> Earlier(a, b)
    decreases |a|
  {
    if a != "" && b != "" {
      if a[0] == b[0] {
        LexMeans(a[1..], b[1..]);
        EarlierTail(a, b);
      } else if a[0] < b[0] {
        assert a[..0] == b[..0];
      } else {
        forall k | 0 < k < |a| && k < |b| ensures a[..k] != b[..k] {
          assert a[..k][0] == a[0] && b[..k][0] == b[0];
        }
      }
    }
  }

  lemma EarlierTail(a: string, b: string)
    requires a != "" && b != "" && a[0] == b[0]
    ensures Earlier(a, b) <==> Earlier(a[1..], b[1..])
  {
    var s, t := a[1..], b[1..];
    assert a == [a[0]] + s && b == [b[0]] + t;
    assert a < b <==> s < t;
    forall k | 0 < k < |a| && k < |b| ensures a[..k] == b[..k] <==> s[..k - 1] == t[..k - 1] {
      assert a[..k] == [a[0]] + s[..k - 1] && b[..k] == [b[0]] + t[..k - 1];
      assert a[..k][1..] == s[..k - 1] && b[..k][1..] == t[..k - 1];
    }
    if k :| 0 <= k < |a| && k < |b| && a[..k] == b[..k] && a[k] < b[k] {
      assert s[..k - 1] == t[..k - 1] && s[k - 1] < t[k - 1];
    }
    if k :| 0 <= k < |s| && k < |t| && s[..k] == t[..k] && s[k] < t[k] {
      assert a[..k + 1] == b[..k + 1] && a[k + 1] < b[k + 1];
    }
  }
}
