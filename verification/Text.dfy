/** Strings as the registry compares and prints them. */
module Text {
  import opened Sequences

  /** Lexicographic order on code points, which is Go's order on the UTF-8 bytes. */
  predicate AtMost(a: string, b: string) {
    a == "" || (b != "" && (a[0] < b[0] || (a[0] == b[0] && AtMost(a[1..], b[1..]))))
  }

  lemma {:induction false} AtMostTotal(a: string, b: string)
    ensures AtMost(a, b) || AtMost(b, a)
  {
    if a != "" && b != "" && a[0] == b[0] {
      AtMostTotal(a[1..], b[1..]);
    }
  }

  lemma {:induction false} AtMostTransitive(a: string, b: string, c: string)
    requires AtMost(a, b) && AtMost(b, c)
    ensures AtMost(a, c)
  {
    if a != "" && a[0] == b[0] == c[0] {
      AtMostTransitive(a[1..], b[1..], c[1..]);
    }
  }

  lemma {:induction false} AtMostAntisymmetric(a: string, b: string)
    requires AtMost(a, b) && AtMost(b, a)
    ensures a == b
  {
    if a != "" {
      AtMostAntisymmetric(a[1..], b[1..]);
      assert a == [a[0]] + a[1..] && b == [b[0]] + b[1..];
    }
  }

  lemma PrefixesAgree(a: string, b: string, i: nat)
    requires a != "" && b != "" && i < |a| && i < |b|
    ensures a[..i + 1] == b[..i + 1] <==> a[0] == b[0] && a[1..][..i] == b[1..][..i]
  {
    assert a[..i + 1] == [a[0]] + a[1..][..i] && b[..i + 1] == [b[0]] + b[1..][..i];
    assert a[..i + 1][0] == a[0] && b[..i + 1][0] == b[0];
    assert a[..i + 1][1..] == a[1..][..i] && b[..i + 1][1..] == b[1..][..i];
  }

  ghost predicate SmallerAt(a: string, b: string, i: int) {
    0 <= i < |a| && i < |b| && a[..i] == b[..i] && a[i] < b[i]
  }

  lemma SmallerLater(a: string, b: string, i: int)
    requires a != "" && b != "" && i > 0
    ensures SmallerAt(a, b, i) <==> a[0] == b[0] && SmallerAt(a[1..], b[1..], i - 1)
  {
    if i < |a| && i < |b| {
      PrefixesAgree(a, b, i - 1);
    }
  }

  lemma SmallerSomewhere(a: string, b: string)
    requires a != "" && b != ""
    ensures (exists i :: SmallerAt(a, b, i)) <==>
            a[0] < b[0] || (a[0] == b[0] && exists i :: SmallerAt(a[1..], b[1..], i))
  {
    if i :| SmallerAt(a, b, i) && i > 0 {
      SmallerLater(a, b, i);
    }
    if a[0] < b[0] {
      assert SmallerAt(a, b, 0);
    }
    if i :| SmallerAt(a[1..], b[1..], i) && a[0] == b[0] {
      SmallerLater(a, b, i + 1);
    }
  }

  lemma {:induction false} AtMostByPosition(a: string, b: string)
    ensures AtMost(a, b) <==> (|a| <= |b| && b[..|a|] == a) || exists i :: SmallerAt(a, b, i)
  {
    if a != "" && b != "" {
      AtMostByPosition(a[1..], b[1..]);
      SmallerSomewhere(a, b);
      if |a| <= |b| {
        PrefixesAgree(a, b, |a| - 1);
      }
    }
  }

  /** The order without recursion: a prefix, or the smaller character where the two first differ. */
  lemma AtMostIsLexicographic(a: string, b: string)
    ensures AtMost(a, b) <==>
            || (|a| <= |b| && b[..|a|] == a)
            || exists i :: 0 <= i < |a| && i < |b| && a[..i] == b[..i] && a[i] < b[i]
  {
    AtMostByPosition(a, b);
    assert forall i :: SmallerAt(a, b, i) <==> 0 <= i < |a| && i < |b| && a[..i] == b[..i] && a[i] < b[i];
  }

  predicate Sorted(s: seq<string>) {
    forall i, j :: 0 <= i < j < |s| ==> AtMost(s[i], s[j])
  }

  /** `sort.Strings`. */
  method SortStrings(s: seq<string>) returns (r: seq<string>)
    ensures Sorted(r) && multiset(r) == multiset(s)
  {
    forall a, b, c ensures AtMost(a, b) || AtMost(b, a)
      ensures AtMost(a, b) && AtMost(b, c) ==> AtMost(a, c)
    {
      AtMostTotal(a, b);
      if AtMost(a, b) && AtMost(b, c) {
        AtMostTransitive(a, b, c);
      }
    }
    r := SortBy(AtMost, s);
  }

  /** Decimal printing, as `%d` does it. */
  function Itoa(n: int): string {
    if n < 0 then "-" + Digits(-n) else Digits(n)
  }

  function Digits(n: nat): string {
    if n < 10 then [('0' as int + n) as char] else Digits(n / 10) + [('0' as int + n % 10) as char]
  }

  predicate IsDigit(c: char) {
    '0' <= c <= '9'
  }

  /** The number a decimal numeral denotes. */
  function Reading(s: string): int {
    if s == "" then 0 else Reading(s[..|s| - 1]) * 10 + (s[|s| - 1] as int - '0' as int)
  }

  lemma {:induction false} DigitsRead(n: nat)
    ensures Digits(n) != "" && (forall c :: c in Digits(n) ==> IsDigit(c)) && Reading(Digits(n)) == n
    ensures Digits(n)[0] == '0' ==> n == 0
  {
    if n >= 10 {
      DigitsRead(n / 10);
      assert Digits(n)[..|Digits(n)| - 1] == Digits(n / 10);
    } else {
      assert Digits(n)[..0] == "";
    }
  }

  /** The printed form is decimal: digits that read as the number, with no leading zero, after a minus
      sign for a negative one. */
  lemma ItoaReads(n: int)
    ensures var digits := if n < 0 then Itoa(n)[1..] else Itoa(n);
            && (n < 0 ==> Itoa(n)[0] == '-')
            && digits != "" && (forall c :: c in digits ==> '0' <= c <= '9') && (digits[0] == '0' ==> n == 0)
            && Reading(digits) == if n < 0 then -n else n
  {
    DigitsRead(if n < 0 then -n else n);
  }

  lemma ItoaInjective(m: int, n: int)
    requires Itoa(m) == Itoa(n)
    ensures m == n
  {
    ItoaReads(m);
    ItoaReads(n);
    SignShows(m);
    SignShows(n);
  }

  lemma SignShows(n: int)
    ensures Itoa(n) != "" && (Itoa(n)[0] == '-' <==> n < 0)
  {
    ItoaReads(n);
    assert n >= 0 ==> Itoa(n)[0] in Itoa(n);
  }
}
