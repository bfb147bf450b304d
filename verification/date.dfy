/** The `Date` value type of the trading model: a month, a day and a year,
    ordered by a hand-written `compareTo`. */
module Dates {
  import opened Wrappers
  import Seqs
  import Decimal

  /** The range of Java's 32-bit `int`. */
  predicate IsInt32(n: int) {
    -0x8000_0000 <= n < 0x8000_0000
  }

  /** Java's `int`; the model never does arithmetic that could leave it. */
  type Int32 = x: int | IsInt32(x)

  /** The twelve-constant `Month` enum. */
  datatype Month =
    | January | February | March | April | May | June
    | July | August | September | October | November | December

  /** `Month.ordinal()`: declaration position, January being 0. */
  function Ordinal(m: Month): (k: nat)
    ensures k < 12
    ensures MonthAt(k) == m
  {
    match m
    case January => 0
    case February => 1
    case March => 2
    case April => 3
    case May => 4
    case June => 5
    case July => 6
    case August => 7
    case September => 8
    case October => 9
    case November => 10
    case December => 11
  }

  /** The enum constant with ordinal `k` (`Month.values()[k]`). */
  function MonthAt(k: nat): (m: Month)
    requires k < 12
  {
    [January, February, March, April, May, June,
     July, August, September, October, November, December][k]
  }

  /** The constructor stores its three arguments unchanged. */
  datatype Date = Date(month: Month, day: Int32, year: Int32)

  /** What `equals(Object)` may be handed: nothing, a date, or any other object. */
  datatype Object = NullRef | DateRef(date: Date) | OtherRef

  /** `equals`: true only for another `Date` with the same day, year and month. */
  function Equals(d: Date, o: Object): (b: bool)
    ensures b <==> o == DateRef(d)
  {
    match o
    case DateRef(e) => d.day == e.day && d.year == e.year && d.month == e.month
    case _ => false
  }

  /** Strict lexicographic order on integer sequences: the independent
      reference the comparison is measured against. */
  predicate LexLess(a: seq<int>, b: seq<int>) {
    && |a| > 0 && |b| > 0
    && (a[0] < b[0] || (a[0] == b[0] && LexLess(a[1..], b[1..])))
  }

  /** The (year, month ordinal, day) key a date is ordered by. */
  function Key(d: Date): (k: seq<int>) {
    [d.year, Ordinal(d.month), d.day]
  }

  /** `a` lies strictly earlier in time than `b`. */
  predicate Before(a: Date, b: Date) {
    LexLess(Key(a), Key(b))
  }

  lemma LexLessOfThree(x: seq<int>, y: seq<int>)
    requires |x| == 3 && |y| == 3
    ensures LexLess(x, y) <==>
      x[0] < y[0] || (x[0] == y[0] && x[1] < y[1]) || (x[0] == y[0] && x[1] == y[1] && x[2] < y[2])
  {
    assert LexLess(x, y) <==> x[0] < y[0] || (x[0] == y[0] && LexLess(x[1..], y[1..]));
    assert LexLess(x[1..], y[1..]) <==> x[1] < y[1] || (x[1] == y[1] && LexLess(x[2..], y[2..]));
    assert LexLess(x[2..], y[2..]) <==> x[2] < y[2] || (x[2] == y[2] && LexLess(x[3..], y[3..]));
    assert !LexLess(x[3..], y[3..]);
  }

  lemma KeyOrder(a: Date, b: Date)
    ensures Before(a, b) <==>
      a.year < b.year
      || (a.year == b.year && Ordinal(a.month) < Ordinal(b.month))
      || (a.year == b.year && a.month == b.month && a.day < b.day)
  {
    LexLessOfThree(Key(a), Key(b));
    if Ordinal(a.month) == Ordinal(b.month) {
      assert MonthAt(Ordinal(a.month)) == MonthAt(Ordinal(b.month));
    }
  }

  /** `compareTo` as written: equal dates give 0; otherwise -1 when the year
      is smaller, or the month is smaller in the same year, or the day is
      smaller in the same month and year; 1 in every other case. */
  function CompareTo(a: Date, o: Date): (r: int)
    ensures r == -1 || r == 0 || r == 1
    ensures r == 0 <==> Equals(a, DateRef(o))
    ensures r == -1 <==> Before(a, o)
    ensures r == 1 <==> Before(o, a)
  {
    KeyOrder(a, o);
    KeyOrder(o, a);
    if Equals(o, DateRef(a)) then 0
    else if a.year < o.year then -1
    else if Ordinal(a.month) < Ordinal(o.month) && o.year == a.year then -1
    else if a.day < o.day && Ordinal(o.month) == Ordinal(a.month) && o.year == a.year then -1
    else 1
  }

  /** Lexicographic order is transitive at every length. */
  lemma {:induction false} LexLessTransitive(a: seq<int>, b: seq<int>, c: seq<int>)
    requires LexLess(a, b) && LexLess(b, c)
    ensures LexLess(a, c)
  {
    if a[0] == b[0] && b[0] == c[0] {
      LexLessTransitive(a[1..], b[1..], c[1..]);
    }
  }

  /** `Before` is a strict total order on dates. */
  lemma BeforeIsStrictTotalOrder(a: Date, b: Date, c: Date)
    ensures !Before(a, a)
    ensures Before(a, b) && Before(b, c) ==> Before(a, c)
    ensures a != b ==> Before(a, b) || Before(b, a)
    ensures !(Before(a, b) && Before(b, a))
  {
    KeyOrder(a, a);
    KeyOrder(a, b);
    KeyOrder(b, a);
    if Before(a, b) && Before(b, c) {
      LexLessTransitive(Key(a), Key(b), Key(c));
    }
  }

  /** The first clause of `Comparable`'s contract, with the sign as it stands:
      the results of the two argument orders are each other's negation. */
  lemma CompareToAntisymmetric(a: Date, b: Date)
    ensures CompareTo(a, b) == -CompareTo(b, a)
  {
    BeforeIsStrictTotalOrder(a, b, a);
  }

  /** The second clause of `Comparable`'s contract. */
  lemma CompareToTransitive(a: Date, b: Date, c: Date)
    ensures CompareTo(a, b) == -1 && CompareTo(b, c) == -1 ==> CompareTo(a, c) == -1
    ensures CompareTo(a, b) == 1 && CompareTo(b, c) == 1 ==> CompareTo(a, c) == 1
  {
    BeforeIsStrictTotalOrder(a, b, c);
    BeforeIsStrictTotalOrder(c, b, a);
  }

  /** The third clause of `Comparable`'s contract, and consistency with
      `equals`: dates comparing as 0 are equal and compare alike to all others. */
  lemma CompareToZeroIsEquality(a: Date, b: Date, c: Date)
    ensures CompareTo(a, b) == 0 <==> Equals(a, DateRef(b))
    ensures CompareTo(a, b) == 0 ==> CompareTo(a, c) == CompareTo(b, c)
  {
  }

  /** `equals` is an equivalence relation. */
  lemma EqualsIsEquivalence(a: Date, b: Date, c: Date)
    ensures Equals(a, DateRef(a))
    ensures Equals(a, DateRef(b)) <==> Equals(b, DateRef(a))
    ensures Equals(a, DateRef(b)) && Equals(b, DateRef(c)) ==> Equals(a, DateRef(c))
    ensures !Equals(a, NullRef) && !Equals(a, OtherRef)
  {
  }

  /** `toString`: month number (ordinal plus one), day and year, separated by
      slashes. */
  function ToString(d: Date): (s: string)
  {
    Decimal.IntToString(Ordinal(d.month) + 1) + "/" + Decimal.IntToString(d.day)
      + "/" + Decimal.IntToString(d.year)
  }

  /** Reads a date back from `month/day/year`, the month given as 1..12. */
  function ParseDate(s: string): (r: Option<Date>)
  {
    var i := Seqs.IndexOf(s, '/');
    if i == |s| then None
    else
      var rest := s[i + 1..];
      var j := Seqs.IndexOf(rest, '/');
      if j == |rest| then None
      else
        match (Decimal.ParseInt(s[..i]), Decimal.ParseInt(rest[..j]), Decimal.ParseInt(rest[j + 1..]))
        case (Some(m), Some(d), Some(y)) =>
          if 1 <= m <= 12 && IsInt32(d) && IsInt32(y) then Some(Date(MonthAt(m - 1), d, y)) else None
        case _ => None
  }

  lemma NoSlash(n: int)
    ensures '/' !in Decimal.IntToString(n)
  {
  }

  /** Splitting `a/b/c` at its first two slashes recovers the three fields. */
  lemma SplitAtSlashes(a: string, b: string, c: string)
    requires '/' !in a && '/' !in b
    ensures var s := a + "/" + b + "/" + c;
      && Seqs.IndexOf(s, '/') == |a|
      && s[..|a|] == a
      && Seqs.IndexOf(s[|a| + 1..], '/') == |b|
      && s[|a| + 1..][..|b|] == b
      && s[|a| + 1..][|b| + 1..] == c
  {
    var s := a + "/" + b + "/" + c;
    assert s[|a|] == '/';
    forall j | 0 <= j < |a| ensures s[j] != '/' {
      assert s[j] == a[j];
    }
    var rest := s[|a| + 1..];
    assert rest == b + "/" + c;
    assert rest[|b|] == '/';
    forall j | 0 <= j < |b| ensures rest[j] != '/' {
      assert rest[j] == b[j];
    }
  }

  /** `ParseDate` on three slash-free fields that each read as a number. */
  lemma ParseDateOfFields(a: string, b: string, c: string, m: int, d: Int32, y: Int32)
    requires '/' !in a && '/' !in b
    requires 1 <= m <= 12
    requires Decimal.ParseInt(a) == Some(m)
    requires Decimal.ParseInt(b) == Some(d as int)
    requires Decimal.ParseInt(c) == Some(y as int)
    ensures ParseDate(a + "/" + b + "/" + c) == Some(Date(MonthAt(m - 1), d, y))
  {
    SplitAtSlashes(a, b, c);
  }

  /** Every rendered date parses back to itself; in particular the month field
      of `toString` is always a number from 1 to 12. */
  lemma ToStringRoundTrip(d: Date)
    ensures ParseDate(ToString(d)) == Some(d)
  {
    var m := Ordinal(d.month) + 1;
    NoSlash(m);
    NoSlash(d.day);
    Decimal.IntToStringRoundTrip(m);
    Decimal.IntToStringRoundTrip(d.day);
    Decimal.IntToStringRoundTrip(d.year);
    ParseDateOfFields(Decimal.IntToString(m), Decimal.IntToString(d.day), Decimal.IntToString(d.year),
                      m, d.day, d.year);
  }
}
