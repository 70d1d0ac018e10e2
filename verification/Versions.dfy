/** The version order of app sources and the merged list built with it (src/server/services/source-service.ts). */
module Versions {
  import opened Wrappers

  // ---------------------------------------------------------------- parsing

  /** What parseInt skips. */
  predicate Blank(c: char) {
    || '\t' <= c <= '\r' || c == ' ' || c == '\U{00A0}' || c == '\U{1680}' || '\U{2000}' <= c <= '\U{200A}'
    || '\U{2028}' <= c <= '\U{2029}' || c == '\U{202F}' || c == '\U{205F}' || c == '\U{3000}' || c == '\U{FEFF}'
  }

  predicate Digit(c: char) { '0' <= c <= '9' }

  predicate Separator(c: char) { c == '.' || c == '+' || c == '-' }

  function Skip(s: string): string {
    if s != "" && Blank(s[0]) then Skip(s[1..]) else s
  }

  /** The digits a string starts with. */
  function Digits(s: string): (r: string)
    ensures forall i :: 0 <= i < |r| ==> Digit(r[i])
  {
    if s != "" && Digit(s[0]) then [s[0]] + Digits(s[1..]) else ""
  }

  function Value(digits: string): nat
    requires forall i :: 0 <= i < |digits| ==> Digit(digits[i])
  {
    if digits == "" then 0
    else
      var last := digits[|digits| - 1];
      assert Digit(last);
      10 * Value(digits[..|digits| - 1]) + (last as int - '0' as int)
  }

  /** parseInt reads a number here. A part holds no sign. */
  predicate Numeric(part: string) { Digits(Skip(part)) != "" }

  type Text = s: string | !Numeric(s) witness ""

  datatype Part = Num(n: nat) | Txt(s: Text)

  type Version = seq<Part>

  function ParsePart(part: string): Part {
    if Numeric(part) then Num(Value(Digits(Skip(part)))) else Txt(part)
  }

  function Split(s: string): (r: seq<string>)
    ensures r != []
  {
    if s == "" then [""]
    else
      var r := Split(s[1..]);
      if Separator(s[0]) then [""] + r else [[s[0]] + r[0]] + r[1..]
  }

  function DropV(s: string): string {
    if s != "" && (s[0] == 'v' || s[0] == 'V') then s[1..] else s
  }

  function ParseParts(parts: seq<string>): (v: Version)
    ensures |v| == |parts|
  {
    seq(|parts|, i requires 0 <= i < |parts| => ParsePart(parts[i]))
  }

  function Parse(s: string): Version { ParseParts(Split(DropV(s))) }

  // ---------------------------------------------------------------- plain versions

  /** String of a number. */
  function Decimal(n: nat): (r: string)
    ensures r != "" && forall i :: 0 <= i < |r| ==> Digit(r[i])
  {
    var last := ['0' + (n % 10) as char];
    if n < 10 then last else Decimal(n / 10) + last
  }

  lemma {:induction false} DigitsFirst(d: string, rest: string)
    requires forall i :: 0 <= i < |d| ==> Digit(d[i])
    requires rest == "" || !Digit(rest[0])
    ensures Digits(d + rest) == d
  {
    if d == "" {
      assert d + rest == rest;
    } else {
      DigitsFirst(d[1..], rest);
      assert (d + rest)[1..] == d[1..] + rest;
    }
  }

  lemma {:induction false} ValueOfDecimal(n: nat)
    ensures Value(Decimal(n)) == n
  {
    if n >= 10 {
      ValueOfDecimal(n / 10);
      assert Decimal(n)[..|Decimal(n)| - 1] == Decimal(n / 10);
    } else {
      assert Decimal(n)[..0] == "";
    }
  }

  /** A part that starts with a numeral means its number, whatever follows. */
  lemma NumeralRoundTrip(n: nat, rest: string)
    requires rest == "" || !('0' <= rest[0] <= '9')
    ensures ParsePart(Decimal(n) + rest) == Num(n)
  {
    hide Decimal, Value;
    var s := Decimal(n) + rest;
    assert Digit(s[0]);
    assert Skip(s) == s;
    DigitsFirst(Decimal(n), rest);
    ValueOfDecimal(n);
  }

  /** A part that starts with anything but a digit or a blank is text. */
  lemma TextRoundTrip(s: string)
    requires s == "" || (!('0' <= s[0] <= '9') && !Blank(s[0]))
    ensures !Numeric(s) && ParsePart(s) == Txt(s)
  {
  }

  /** 1.2.3 and the like. */
  function Dotted(ns: seq<nat>): string
    requires ns != []
  {
    if |ns| == 1 then Decimal(ns[0]) else Decimal(ns[0]) + "." + Dotted(ns[1..])
  }

  function Nums(ns: seq<nat>): Version {
    seq(|ns|, i requires 0 <= i < |ns| => Num(ns[i]))
  }

  /** A version is cut at each dot, plus and minus, and nowhere else. */
  lemma {:induction false} SplitFirst(a: string, sep: char, rest: string)
    requires forall i :: 0 <= i < |a| ==> a[i] != '.' && a[i] != '+' && a[i] != '-'
    requires sep == '.' || sep == '+' || sep == '-'
    ensures Split(a + [sep] + rest) == [a] + Split(rest)
    ensures Split(a) == [a]
  {
    if a == "" {
      assert a + [sep] + rest == [sep] + rest;
      assert ([sep] + rest)[1..] == rest;
    } else {
      SplitFirst(a[1..], sep, rest);
      assert (a + [sep] + rest)[1..] == a[1..] + [sep] + rest;
      assert [a[0]] + a[1..] == a;
    }
  }

  lemma NoSeparators(n: nat)
    ensures forall i :: 0 <= i < |Decimal(n)| ==> Decimal(n)[i] != '.' && Decimal(n)[i] != '+' && Decimal(n)[i] != '-'
  {
    hide Decimal;
    forall i | 0 <= i < |Decimal(n)|
      ensures Decimal(n)[i] != '.' && Decimal(n)[i] != '+' && Decimal(n)[i] != '-'
    {
      assert Digit(Decimal(n)[i]);
    }
  }

  lemma {:induction false} SplitDotted(ns: seq<nat>)
    requires ns != []
    ensures ParseParts(Split(Dotted(ns))) == Nums(ns) && Digit(Dotted(ns)[0])
  {
    hide ParsePart, Value;
    var first := Decimal(ns[0]);
    NumeralRoundTrip(ns[0], "");
    assert first + "" == first;
    NoSeparators(ns[0]);
    if |ns| == 1 {
      SplitFirst(first, '.', "");
    } else {
      SplitFirst(first, '.', Dotted(ns[1..]));
      SplitDotted(ns[1..]);
      assert Split(Dotted(ns))[1..] == Split(Dotted(ns[1..]));
      assert Nums(ns) == [Num(ns[0])] + Nums(ns[1..]);
      assert ParseParts(Split(Dotted(ns)))[1..] == ParseParts(Split(Dotted(ns[1..])));
    }
  }

  /** Numbers between dots are read back, with or without a v in front. */
  lemma DottedRoundTrip(ns: seq<nat>)
    requires ns != []
    ensures Parse(Dotted(ns)) == Parse("v" + Dotted(ns)) == Nums(ns)
  {
    SplitDotted(ns);
    assert ("v" + Dotted(ns))[1..] == Dotted(ns);
  }

  // ---------------------------------------------------------------- parts

  /** `compare` is localeCompare. */
  datatype Collation = Collation(compare: (string, string) -> int)
  {
    /** localeCompare orders all strings. */
    ghost predicate Orders() {
      && (forall a, b :: compare(a, b) <= 0 <==> compare(b, a) >= 0)
      && (forall a, b, c :: compare(a, b) <= 0 && compare(b, c) <= 0 ==> compare(a, c) <= 0)
    }

    /** Among the parts `ps`, no text stands between two numerals the wrong way round: at or after the larger number, at
        or before the smaller. */
    predicate Sided(ps: set<Part>) {
      forall t, x, y :: t in ps && x in ps && y in ps && t.Txt? && x.Num? && y.Num? && x.n < y.n
        ==> !(compare(Decimal(y.n), t.s) <= 0 && compare(t.s, Decimal(x.n)) <= 0)
    }
  }

  function PartText(p: Part): string {
    match p case Num(n) => Decimal(n) case Txt(s) => s
  }

  /** Two numbers compare as numbers, anything else as strings. */
  function ComparePart(c: Collation, a: Part, b: Part): int {
    if a.Num? && b.Num? then a.n - b.n else c.compare(PartText(a), PartText(b))
  }

  predicate PartsTransitive(c: Collation, ps: set<Part>) {
    forall x, y, z :: x in ps && y in ps && z in ps && ComparePart(c, x, y) <= 0 && ComparePart(c, y, z) <= 0
      ==> ComparePart(c, x, z) <= 0
  }

  lemma PartsTotal(c: Collation, a: Part, b: Part)
    requires c.Orders()
    ensures ComparePart(c, a, b) <= 0 <==> ComparePart(c, b, a) >= 0
    ensures ComparePart(c, a, a) == 0
  {
  }

  lemma SidedAt(c: Collation, ps: set<Part>, t: Part, x: Part, y: Part)
    requires c.Sided(ps) && t in ps && x in ps && y in ps && t.Txt? && x.Num? && y.Num?
    ensures c.compare(Decimal(y.n), t.s) <= 0 && c.compare(t.s, Decimal(x.n)) <= 0 ==> y.n <= x.n
  {
  }

  lemma StringsTotal(c: Collation, a: string, b: string)
    requires c.Orders()
    ensures c.compare(a, b) <= 0 <==> c.compare(b, a) >= 0
  {
  }

  lemma StringsChain(c: Collation, a: string, b: string, d: string)
    requires c.Orders() && c.compare(a, b) <= 0 && c.compare(b, d) <= 0
    ensures c.compare(a, d) <= 0
  {
  }

  lemma PartsChain(c: Collation, ps: set<Part>, x: Part, y: Part, z: Part)
    requires c.Orders() && c.Sided(ps) && x in ps && y in ps && z in ps
    requires ComparePart(c, x, y) <= 0 && ComparePart(c, y, z) <= 0
    ensures ComparePart(c, x, z) <= 0
  {
    hide Collation.Orders, Collation.Sided, Decimal, Numeric;
    match (x, y, z)
    case (Num(m), Txt(t), Num(n)) => SidedAt(c, ps, y, z, x);
    case (Num(m), Num(n), Txt(t)) =>
      SidedAt(c, ps, z, x, y);
      StringsTotal(c, Decimal(m), t);
      StringsTotal(c, t, Decimal(m));
    case (Txt(t), Num(m), Num(n)) =>
      SidedAt(c, ps, x, y, z);
      StringsTotal(c, Decimal(n), t);
      StringsTotal(c, t, Decimal(n));
    case (Num(m), Num(n), Num(k)) =>
    case _ => StringsChain(c, PartText(x), PartText(y), PartText(z));
  }

  lemma ChainGivesSides(c: Collation, ps: set<Part>, t: Part, x: Part, y: Part)
    requires PartsTransitive(c, ps) && t in ps && x in ps && y in ps && t.Txt? && x.Num? && y.Num? && x.n < y.n
    ensures !(c.compare(Decimal(y.n), t.s) <= 0 && c.compare(t.s, Decimal(x.n)) <= 0)
  {
    hide Decimal, Numeric;
    assert ComparePart(c, y, t) <= 0 && ComparePart(c, t, x) <= 0 ==> ComparePart(c, y, x) <= 0;
  }

  /** Over an order of strings, the comparison is an order of the parts `ps` exactly when no text among them lies the
      wrong way between two numerals. */
  lemma PartsTransitiveIff(c: Collation, ps: set<Part>)
    requires c.Orders()
    ensures PartsTransitive(c, ps) <==> c.Sided(ps)
  {
    hide ComparePart, Decimal, Numeric;
    if c.Sided(ps) {
      forall x, y, z | x in ps && y in ps && z in ps && ComparePart(c, x, y) <= 0 && ComparePart(c, y, z) <= 0
        ensures ComparePart(c, x, z) <= 0
      {
        PartsChain(c, ps, x, y, z);
      }
    }
    if PartsTransitive(c, ps) {
      forall t, x, y | t in ps && x in ps && y in ps && t.Txt? && x.Num? && y.Num? && x.n < y.n
        ensures !(c.compare(Decimal(y.n), t.s) <= 0 && c.compare(t.s, Decimal(x.n)) <= 0)
      {
        ChainGivesSides(c, ps, t, x, y);
      }
    }
  }

  // ---------------------------------------------------------------- an order of strings that satisfies it

  /** Character by character. */
  function Lex(a: string, b: string): int {
    if a == "" then -|b|
    else if b == "" then 1
    else if a[0] != b[0] then a[0] as int - b[0] as int
    else Lex(a[1..], b[1..])
  }

  lemma {:induction false} LexTotal(a: string, b: string)
    ensures Lex(a, b) <= 0 <==> Lex(b, a) >= 0
  {
    if a != "" && b != "" {
      LexTotal(a[1..], b[1..]);
    }
  }

  lemma {:induction false} LexChain(a: string, b: string, c: string)
    requires Lex(a, b) <= 0 && Lex(b, c) <= 0
    ensures Lex(a, c) <= 0
  {
    if a != "" && b != "" && c != "" && a[0] == b[0] == c[0] {
      LexChain(a[1..], b[1..], c[1..]);
    }
  }

  lemma FirstCharacter(s: string)
    ensures s != "" && !Blank(s[0]) ==> (Numeric(s) <==> Digit(s[0]))
    ensures s != "" && Digit(s[0]) ==> Numeric(s)
  {
  }

  lemma TextIsAside(t: Text, m: nat, n: nat)
    ensures Lex(Decimal(n), t) > 0 || Lex(t, Decimal(m)) > 0
  {
    hide Decimal, Numeric;
    var x, y := Decimal(m), Decimal(n);
    assert Digit(x[0]) && Digit(y[0]);
    FirstCharacter(t);
  }

  /** Ordering strings by their characters, under which "10" comes before "9", meets the condition for any parts: a text
      does not start with a digit, so it lies before all numerals or after all of them. */
  lemma CharacterOrderIsSided(ps: set<Part>)
    ensures Collation(Lex).Orders() && Collation(Lex).Sided(ps)
    ensures Lex(Decimal(10), Decimal(9)) < 0
  {
    forall a, b ensures Lex(a, b) <= 0 <==> Lex(b, a) >= 0 {
      LexTotal(a, b);
    }
    forall a, b, c | Lex(a, b) <= 0 && Lex(b, c) <= 0 ensures Lex(a, c) <= 0 {
      LexChain(a, b, c);
    }
    forall t, x, y | t in ps && x in ps && y in ps && t.Txt? && x.Num? && y.Num? && x.n < y.n
      ensures !(Lex(Decimal(y.n), t.s) <= 0 && Lex(t.s, Decimal(x.n)) <= 0)
    {
      TextIsAside(t.s, x.n, y.n);
    }
    assert Decimal(10)[0] == '1' && Decimal(9)[0] == '9';
  }

  // ---------------------------------------------------------------- versions

  /** A missing part counts as zero. */
  function At(v: Version, i: nat): Part {
    if i < |v| then v[i] else Num(0)
  }

  function Longer(a: Version, b: Version): nat {
    if |a| >= |b| then |a| else |b|
  }

  /** The first difference from part `i` on, among the first `n`. */
  function CompareFrom(c: Collation, a: Version, b: Version, i: nat, n: nat): int
    decreases n - i
  {
    if i >= n then 0
    else
      var d := ComparePart(c, At(a, i), At(b, i));
      if d != 0 then d else CompareFrom(c, a, b, i + 1, n)
  }

  /** The order of parsed versions. */
  function Compare(c: Collation, a: Version, b: Version): int {
    CompareFrom(c, a, b, 0, Longer(a, b))
  }

  method CompareSemver(c: Collation, a: string, b: string) returns (r: int)
    ensures r == Compare(c, Parse(a), Parse(b))
  {
    var v, w := Parse(a), Parse(b);
    hide Parse, ComparePart;
    var len := Longer(v, w);
    var i := 0;
    while i < len
      invariant 0 <= i <= len
      invariant Compare(c, v, w) == CompareFrom(c, v, w, i, len)
    {
      var d := ComparePart(c, At(v, i), At(w, i));
      if d != 0 {
        return d;
      }
      i := i + 1;
    }
    r := 0;
  }

  /** All parts are among `ps`, and so is the zero that stands for a missing one. */
  predicate Over(v: Version, ps: set<Part>) {
    Num(0) in ps && forall i :: 0 <= i < |v| ==> v[i] in ps
  }

  /** Parts beyond both versions do not matter. */
  lemma {:induction false} PaddingIsNothing(c: Collation, a: Version, b: Version, i: nat, n: nat)
    requires Longer(a, b) <= n
    ensures CompareFrom(c, a, b, i, n) == CompareFrom(c, a, b, i, Longer(a, b))
    decreases n - i
  {
    if i < n {
      PaddingIsNothing(c, a, b, i + 1, n);
    }
  }

  lemma {:induction false} FromTotal(c: Collation, a: Version, b: Version, i: nat, n: nat)
    requires c.Orders()
    ensures CompareFrom(c, a, b, i, n) <= 0 <==> CompareFrom(c, b, a, i, n) >= 0
    ensures CompareFrom(c, a, a, i, n) == 0
    decreases n - i
  {
    if i < n {
      hide ComparePart;
      FromTotal(c, a, b, i + 1, n);
      PartsTotal(c, At(a, i), At(b, i));
      PartsTotal(c, At(b, i), At(a, i));
      PartsTotal(c, At(a, i), At(a, i));
    }
  }

  lemma {:induction false} FromChain(c: Collation, ps: set<Part>, x: Version, y: Version, z: Version, i: nat, n: nat)
    requires c.Orders() && c.Sided(ps) && Over(x, ps) && Over(y, ps) && Over(z, ps)
    requires CompareFrom(c, x, y, i, n) <= 0 && CompareFrom(c, y, z, i, n) <= 0
    ensures CompareFrom(c, x, z, i, n) <= 0
    decreases n - i
  {
    if i < n {
      var p, q, r := At(x, i), At(y, i), At(z, i);
      hide ComparePart, At, Collation.Sided, Collation.Orders;
      PartsChain(c, ps, p, q, r);
      PartsTotal(c, p, r); PartsTotal(c, r, p); PartsTotal(c, q, p);
      PartsTotal(c, r, q); PartsTotal(c, p, q); PartsTotal(c, q, r);
      if ComparePart(c, p, r) == 0 {
        PartsChain(c, ps, r, p, q);
        PartsChain(c, ps, q, r, p);
        FromChain(c, ps, x, y, z, i + 1, n);
      }
    }
  }

  /** compareSemver is a total preorder on the versions over such parts, whatever their lengths. */
  lemma VersionsAreOrdered(c: Collation, ps: set<Part>, x: Version, y: Version, z: Version)
    requires c.Orders() && c.Sided(ps) && Over(x, ps) && Over(y, ps) && Over(z, ps)
    ensures Compare(c, x, x) == 0
    ensures Compare(c, x, y) <= 0 <==> Compare(c, y, x) >= 0
    ensures Compare(c, x, y) <= 0 && Compare(c, y, z) <= 0 ==> Compare(c, x, z) <= 0
  {
    hide Collation.Sided, Collation.Orders, ComparePart;
    FromTotal(c, x, y, 0, Longer(x, y));
    FromTotal(c, x, x, 0, Longer(x, x));
    var n := |x| + |y| + |z|;
    PaddingIsNothing(c, x, y, 0, n);
    PaddingIsNothing(c, y, z, 0, n);
    PaddingIsNothing(c, x, z, 0, n);
    if CompareFrom(c, x, y, 0, n) <= 0 && CompareFrom(c, y, z, 0, n) <= 0 {
      FromChain(c, ps, x, y, z, 0, n);
    }
  }

  ghost predicate VersionsTransitive(c: Collation, ps: set<Part>) {
    forall x, y, z :: Over(x, ps) && Over(y, ps) && Over(z, ps) && Compare(c, x, y) <= 0 && Compare(c, y, z) <= 0
      ==> Compare(c, x, z) <= 0
  }

  lemma OnePart(c: Collation, ps: set<Part>, x: Part, y: Part)
    requires Num(0) in ps && x in ps
    ensures Over([x], ps) && Compare(c, [x], [y]) == ComparePart(c, x, y)
  {
    hide ComparePart;
    assert CompareFrom(c, [x], [y], 1, 1) == 0;
  }

  /** The condition is exact for versions too: compareSemver is transitive on the versions made of the parts `ps` if and
      only if no text among them lies the wrong way between two numerals. */
  lemma VersionsTransitiveIff(c: Collation, ps: set<Part>)
    requires c.Orders() && Num(0) in ps
    ensures VersionsTransitive(c, ps) <==> c.Sided(ps)
  {
    hide Compare, ComparePart, Collation.Orders, Collation.Sided, Over;
    if c.Sided(ps) {
      forall x, y, z | Over(x, ps) && Over(y, ps) && Over(z, ps) && Compare(c, x, y) <= 0 && Compare(c, y, z) <= 0
        ensures Compare(c, x, z) <= 0
      {
        VersionsAreOrdered(c, ps, x, y, z);
      }
    }
    if VersionsTransitive(c, ps) {
      forall x, y, z | x in ps && y in ps && z in ps && ComparePart(c, x, y) <= 0 && ComparePart(c, y, z) <= 0
        ensures ComparePart(c, x, z) <= 0
      {
        OnePart(c, ps, x, y); OnePart(c, ps, y, z); OnePart(c, ps, x, z); OnePart(c, ps, z, z);
      }
      PartsTransitiveIff(c, ps);
    }
  }

  // ---------------------------------------------------------------- versions of plain numbers

  function NumberAt(ns: seq<nat>, i: nat): nat {
    if i < |ns| then ns[i] else 0
  }

  lemma {:induction false} FirstDifference(c: Collation, ns: seq<nat>, ms: seq<nat>, from: nat, i: nat, n: nat)
    requires from <= i <= n && forall j :: from <= j < i ==> NumberAt(ns, j) == NumberAt(ms, j)
    ensures i < n && NumberAt(ns, i) != NumberAt(ms, i) ==>
      CompareFrom(c, Nums(ns), Nums(ms), from, n) == NumberAt(ns, i) - NumberAt(ms, i)
    ensures i == n ==> CompareFrom(c, Nums(ns), Nums(ms), from, n) == 0
    decreases i - from
  {
    assert forall k :: At(Nums(ns), k) == Num(NumberAt(ns, k)) && At(Nums(ms), k) == Num(NumberAt(ms, k));
    if from < i {
      FirstDifference(c, ns, ms, from + 1, i, n);
    }
  }

  /** Whatever the order of strings: 1.10 is newer than 1.9. The first number that differs decides, and a missing number
      counts as zero. */
  lemma DottedOrder(c: Collation, ns: seq<nat>, ms: seq<nat>, i: nat)
    requires ns != [] && ms != [] && forall j :: 0 <= j < i ==> NumberAt(ns, j) == NumberAt(ms, j)
    ensures NumberAt(ns, i) > NumberAt(ms, i) ==> Compare(c, Parse(Dotted(ns)), Parse(Dotted(ms))) > 0
    ensures NumberAt(ns, i) < NumberAt(ms, i) ==> Compare(c, Parse(Dotted(ns)), Parse(Dotted(ms))) < 0
    ensures i >= |ns| && i >= |ms| ==> Compare(c, Parse(Dotted(ns)), Parse(Dotted(ms))) == 0
  {
    DottedRoundTrip(ns);
    DottedRoundTrip(ms);
    hide Parse, Dotted, ComparePart;
    var n := Longer(Nums(ns), Nums(ms));
    FirstDifference(c, ns, ms, 0, if i <= n then i else n, n);
  }

  // ---------------------------------------------------------------- an order of strings that does not

  const SOFT_HYPHEN := '\U{00AD}'

  function Visible(s: string): string {
    if s == "" then "" else (if s[0] == SOFT_HYPHEN then "" else [s[0]]) + Visible(s[1..])
  }

  /** Soft hyphens are ignored, as localeCompare does. */
  function LexVisible(a: string, b: string): int { Lex(Visible(a), Visible(b)) }

  lemma DigitIsVisible(c: char, rest: string)
    requires Digit(c)
    ensures Visible([c] + rest) == [c] + Visible(rest)
  {
    assert ([c] + rest)[1..] == rest;
  }

  /** A part that parseInt does not read but that is ordered like the numeral 5 closes a cycle: 10, the part, 9 and 10
      again. */
  lemma SoftHyphenMakesACycle()
    ensures
      var c, t := Collation(LexVisible), [SOFT_HYPHEN, '5'];
      && c.Orders() && Parse(t) == [Txt(t)]
      && Compare(c, Parse(Dotted([10])), Parse(t)) < 0 && Compare(c, Parse(t), Parse(Dotted([9]))) < 0
      && Compare(c, Parse(Dotted([9])), Parse(Dotted([10]))) < 0
  {
    hide Lex, Visible, LexVisible, Decimal, Parse, Dotted, Numeric, Collation.Orders, Compare, ComparePart;
    var c, t := Collation(LexVisible), [SOFT_HYPHEN, '5'];
    LexVisibleOrders();
    SoftHyphenPart(t);
    DottedRoundTrip([10]);
    DottedRoundTrip([9]);
    var ps := {Num(0), Num(9), Num(10), Txt(t)};
    assert Nums([10]) == [Num(10)] && Nums([9]) == [Num(9)];
    OnePart(c, ps, Num(10), Txt(t));
    OnePart(c, ps, Txt(t), Num(9));
    OnePart(c, ps, Num(9), Num(10));
    SoftHyphenParts(c, t);
  }

  lemma SoftHyphenParts(c: Collation, t: Text)
    requires c == Collation(LexVisible)
    ensures ComparePart(c, Num(10), Txt(t)) == LexVisible(Decimal(10), t)
    ensures ComparePart(c, Txt(t), Num(9)) == LexVisible(t, Decimal(9))
    ensures ComparePart(c, Num(9), Num(10)) == -1
  {
    hide LexVisible, Decimal, Numeric;
  }

  lemma LexVisibleOrders()
    ensures Collation(LexVisible).Orders()
  {
    forall a, b ensures LexVisible(a, b) <= 0 <==> LexVisible(b, a) >= 0 {
      LexTotal(Visible(a), Visible(b));
    }
    forall a, b, d | LexVisible(a, b) <= 0 && LexVisible(b, d) <= 0 ensures LexVisible(a, d) <= 0 {
      LexChain(Visible(a), Visible(b), Visible(d));
    }
  }

  lemma OneText(t: string)
    requires t == [SOFT_HYPHEN, '5']
    ensures !Numeric(t) && Parse(t) == [Txt(t)]
  {
    hide Split;
    SplitFirst(t, '.', "");
    FirstCharacter(t);
    hide Numeric;
    assert DropV(t) == t && ParseParts([t]) == [ParsePart(t)];
  }

  lemma SoftHyphenPart(t: string)
    requires t == [SOFT_HYPHEN, '5']
    ensures !Numeric(t) && Parse(t) == [Txt(t)]
    ensures LexVisible(Decimal(10), t) < 0 && LexVisible(t, Decimal(9)) < 0
  {
    OneText(t);
    hide Split, Parse, Numeric;
    assert Visible("") == "";
    assert t[1..] == ['5'] + "";
    DigitIsVisible('5', "");
    assert Visible(t) == "5";
    DigitIsVisible('9', "");
    DigitIsVisible('0', "");
    DigitIsVisible('1', "0");
    assert ['9'] + "" == "9" == Decimal(9) && ['1'] + "0" == "10" == Decimal(10) && ['0'] + "" == "0";
    assert Visible(Decimal(9)) == "9" && Visible(Decimal(10))[0] == '1';
  }

  // ---------------------------------------------------------------- apps

  /** An app of a source: its own version, the first of its listed versions, and `tag` for everything else. */
  datatype App = App(bundle: string, version: Option<string>, listed: Option<string>, tag: nat)

  function TopVersionOf(app: App): Option<string> {
    if app.version.Some? && app.version.value != "" then app.version else app.listed
  }

  predicate Unversioned(app: App) {
    TopVersionOf(app) == None || TopVersionOf(app) == Some("")
  }

  function VersionOf(app: App): Version {
    if Unversioned(app) then [] else Parse(TopVersionOf(app).value)
  }

  /** compareAppVersions: an app without a version is older than any with one. */
  function CompareApps(c: Collation, a: App, b: App): int {
    if Unversioned(a) && Unversioned(b) then 0
    else if Unversioned(a) then -1
    else if Unversioned(b) then 1
    else Compare(c, VersionOf(a), VersionOf(b))
  }

  /** An app's own version counts, the first of its listed versions only without one. */
  lemma AppsCompareByVersion(c: Collation, a: App, b: App, v: string, w: string)
    requires v != "" && w != ""
    requires a.version == Some(v) || ((a.version == None || a.version == Some("")) && a.listed == Some(v))
    requires b.version == Some(w) || ((b.version == None || b.version == Some("")) && b.listed == Some(w))
    ensures CompareApps(c, a, b) == Compare(c, Parse(v), Parse(w))
  {
    hide Parse, Compare;
  }

  /** The parts that occur in the versions of some apps, and the zero of a missing part. */
  function PartsOf(apps: seq<App>): set<Part> {
    {Num(0)} + set a, p | a in apps && p in VersionOf(a) :: p
  }

  lemma PartsOfCovers(apps: seq<App>, i: nat)
    requires i < |apps|
    ensures Over(VersionOf(apps[i]), PartsOf(apps))
  {
    hide VersionOf;
    var v := VersionOf(apps[i]);
    forall k | 0 <= k < |v| ensures v[k] in PartsOf(apps) {
      assert apps[i] in apps && v[k] in v;
    }
  }

  lemma AppsAreOrdered(c: Collation, ps: set<Part>, x: App, y: App, z: App)
    requires c.Orders() && c.Sided(ps) && Over(VersionOf(x), ps) && Over(VersionOf(y), ps) && Over(VersionOf(z), ps)
    ensures CompareApps(c, x, x) == 0
    ensures CompareApps(c, x, y) <= 0 <==> CompareApps(c, y, x) >= 0
    ensures CompareApps(c, x, y) <= 0 && CompareApps(c, y, z) <= 0 ==> CompareApps(c, x, z) <= 0
  {
    hide Compare, VersionOf, Over, Collation.Orders, Collation.Sided;
    VersionsAreOrdered(c, ps, VersionOf(x), VersionOf(y), VersionOf(z));
  }

  /** Where the map has the bundle id, if anywhere; a map is its entries in insertion order. */
  function Place(r: seq<App>, bundle: string): (i: nat)
    ensures i <= |r| && (i < |r| ==> r[i].bundle == bundle)
    ensures forall j :: 0 <= j < i ==> r[j].bundle != bundle
  {
    if r == [] then 0 else if r[0].bundle == bundle then 0 else 1 + Place(r[1..], bundle)
  }

  function Merge(c: Collation, r: seq<App>, app: App): seq<App> {
    var i := Place(r, app.bundle);
    if i == |r| then r + [app] else if CompareApps(c, app, r[i]) > 0 then r[i := app] else r
  }

  function MergeAll(c: Collation, apps: seq<App>): seq<App> {
    if apps == [] then [] else Merge(c, MergeAll(c, apps[..|apps| - 1]), apps[|apps| - 1])
  }

  /** App `i` is the newest of its bundle id, and no earlier one is as new. */
  predicate Best(c: Collation, apps: seq<App>, i: nat) {
    && i < |apps|
    && (forall j :: 0 <= j < |apps| && apps[j].bundle == apps[i].bundle ==> CompareApps(c, apps[j], apps[i]) <= 0)
    && (forall j :: 0 <= j < i && apps[j].bundle == apps[i].bundle ==> CompareApps(c, apps[j], apps[i]) < 0)
  }

  /** `e` is the best app of its bundle id. */
  predicate EntryBest(c: Collation, apps: seq<App>, e: App) {
    exists i :: 0 <= i < |apps| && apps[i] == e && Best(c, apps, i)
  }

  /** Each entry is the best app of its bundle id; no bundle id is missing or there twice. */
  ghost predicate Merged(c: Collation, apps: seq<App>, r: seq<App>) {
    && (forall k :: 0 <= k < |r| ==> EntryBest(c, apps, r[k]))
    && (forall i :: 0 <= i < |apps| ==> Place(r, apps[i].bundle) < |r|)
    && (forall k, l :: 0 <= k < l < |r| ==> r[k].bundle != r[l].bundle)
  }

  lemma BestStays(c: Collation, apps: seq<App>, app: App, i: nat)
    requires Best(c, apps, i) && (app.bundle != apps[i].bundle || CompareApps(c, app, apps[i]) <= 0)
    ensures Best(c, apps + [app], i)
  {
    hide CompareApps;
  }

  /** The condition under which the comparison orders these apps. */
  ghost predicate Ordered(c: Collation, ps: set<Part>, apps: seq<App>) {
    c.Orders() && c.Sided(ps) && forall i :: 0 <= i < |apps| ==> Over(VersionOf(apps[i]), ps)
  }

  lemma OrderedAt(c: Collation, ps: set<Part>, apps: seq<App>, x: App, y: App, z: App)
    requires Ordered(c, ps, apps) && x in apps && y in apps && z in apps
    ensures CompareApps(c, x, x) == 0
    ensures CompareApps(c, x, y) <= 0 <==> CompareApps(c, y, x) >= 0
    ensures CompareApps(c, x, y) <= 0 && CompareApps(c, y, z) <= 0 ==> CompareApps(c, x, z) <= 0
  {
    hide CompareApps, Collation.Orders, Collation.Sided, Over, VersionOf;
    AppsAreOrdered(c, ps, x, y, z);
  }

  lemma FirstOfBundleIsBest(c: Collation, ps: set<Part>, apps: seq<App>, app: App)
    requires Ordered(c, ps, apps + [app]) && forall j :: 0 <= j < |apps| ==> apps[j].bundle != app.bundle
    ensures Best(c, apps + [app], |apps|)
  {
    hide CompareApps, Ordered;
    OrderedAt(c, ps, apps + [app], app, app, app);
  }

  lemma NewerIsBest(c: Collation, ps: set<Part>, apps: seq<App>, app: App, i: nat)
    requires Ordered(c, ps, apps + [app])
    requires Best(c, apps, i) && apps[i].bundle == app.bundle && CompareApps(c, app, apps[i]) > 0
    ensures Best(c, apps + [app], |apps|)
  {
    hide CompareApps, Ordered;
    var all := apps + [app];
    assert forall j :: 0 <= j < |apps| ==> apps[j] == all[j];
    OrderedAt(c, ps, all, app, app, app);
    forall j | 0 <= j < |apps| && apps[j].bundle == app.bundle ensures CompareApps(c, apps[j], app) < 0 {
      OrderedAt(c, ps, all, app, apps[j], apps[i]);
      OrderedAt(c, ps, all, apps[j], app, app);
      OrderedAt(c, ps, all, app, apps[i], app);
    }
  }

  lemma {:induction false} PlaceAdded(r: seq<App>, app: App, bundle: string)
    ensures Place(r + [app], bundle) == if Place(r, bundle) < |r| || app.bundle != bundle then
                                          if Place(r, bundle) < |r| then Place(r, bundle) else |r| + 1
                                        else |r|
  {
    if r != [] {
      PlaceAdded(r[1..], app, bundle);
      assert (r + [app])[1..] == r[1..] + [app];
    } else {
      assert [] + [app] == [app];
    }
  }

  lemma {:induction false} PlaceReplaced(r: seq<App>, k: nat, app: App, bundle: string)
    requires k < |r| && r[k].bundle == app.bundle
    ensures Place(r[k := app], bundle) == Place(r, bundle)
  {
    if k > 0 {
      PlaceReplaced(r[1..], k - 1, app, bundle);
      assert r[k := app][1..] == r[1..][k - 1 := app];
    } else {
      assert r[k := app][1..] == r[1..];
    }
  }

  lemma EntryStays(c: Collation, apps: seq<App>, app: App, e: App)
    requires EntryBest(c, apps, e) && (app.bundle != e.bundle || CompareApps(c, app, e) <= 0)
    ensures EntryBest(c, apps + [app], e)
  {
    hide CompareApps, Best;
    var i :| 0 <= i < |apps| && apps[i] == e && Best(c, apps, i);
    BestStays(c, apps, app, i);
    assert (apps + [app])[i] == e;
  }

  lemma EntryNew(c: Collation, apps: seq<App>, app: App)
    requires Best(c, apps + [app], |apps|)
    ensures EntryBest(c, apps + [app], app)
  {
    hide Best;
    assert (apps + [app])[|apps|] == app;
  }

  lemma AddBundle(c: Collation, ps: set<Part>, apps: seq<App>, r: seq<App>, app: App)
    requires Ordered(c, ps, apps + [app]) && Merged(c, apps, r) && Place(r, app.bundle) == |r|
    ensures Merged(c, apps + [app], r + [app])
  {
    hide EntryBest, CompareApps, Best, Ordered;
    FirstOfBundleIsBest(c, ps, apps, app);
    EntryNew(c, apps, app);
    forall k | 0 <= k < |r| ensures EntryBest(c, apps + [app], r[k]) {
      EntryStays(c, apps, app, r[k]);
    }
    forall i | 0 <= i < |apps + [app]| ensures Place(r + [app], (apps + [app])[i].bundle) < |r + [app]| {
      PlaceAdded(r, app, (apps + [app])[i].bundle);
    }
  }

  lemma ReplaceBundle(c: Collation, ps: set<Part>, apps: seq<App>, r: seq<App>, app: App, k: nat)
    requires Ordered(c, ps, apps + [app]) && Merged(c, apps, r) && k < |r| && r[k].bundle == app.bundle
    requires CompareApps(c, app, r[k]) > 0
    ensures Merged(c, apps + [app], r[k := app])
  {
    hide CompareApps, Best, Ordered;
    var i :| 0 <= i < |apps| && apps[i] == r[k] && Best(c, apps, i);
    NewerIsBest(c, ps, apps, app, i);
    hide EntryBest;
    EntryNew(c, apps, app);
    forall l | 0 <= l < |r| && l != k ensures EntryBest(c, apps + [app], r[l]) {
      assert r[l].bundle != r[k].bundle;
      EntryStays(c, apps, app, r[l]);
    }
    forall i | 0 <= i < |apps + [app]| ensures Place(r[k := app], (apps + [app])[i].bundle) < |r| {
      PlaceReplaced(r, k, app, (apps + [app])[i].bundle);
    }
  }

  lemma KeepBundle(c: Collation, apps: seq<App>, r: seq<App>, app: App, k: nat)
    requires Merged(c, apps, r) && k < |r| && r[k].bundle == app.bundle && k == Place(r, app.bundle)
    requires CompareApps(c, app, r[k]) <= 0
    ensures Merged(c, apps + [app], r)
  {
    hide EntryBest, CompareApps, Best;
    forall l | 0 <= l < |r| ensures EntryBest(c, apps + [app], r[l]) {
      assert l != k ==> r[l].bundle != r[k].bundle;
      EntryStays(c, apps, app, r[l]);
    }
  }

  lemma {:induction false} MergedOver(c: Collation, ps: set<Part>, apps: seq<App>)
    requires Ordered(c, ps, apps)
    ensures Merged(c, apps, MergeAll(c, apps))
  {
    hide CompareApps, Best, Over, VersionOf, Collation.Orders, Collation.Sided;
    if apps != [] {
      var before, app := apps[..|apps| - 1], apps[|apps| - 1];
      var r := MergeAll(c, before);
      MergedOver(c, ps, before);
      assert before + [app] == apps;
      hide Merged, EntryBest, Ordered;
      var k := Place(r, app.bundle);
      if k == |r| {
        AddBundle(c, ps, before, r, app);
      } else if CompareApps(c, app, r[k]) > 0 {
        ReplaceBundle(c, ps, before, r, app, k);
      } else {
        KeepBundle(c, before, r, app, k);
      }
    }
  }

  /** The merged list has exactly one entry per bundle id: the newest app over all enabled sources, the earliest listed
      one among equally new ones; whenever the comparison orders the parts that occur in the apps' versions. */
  lemma MergedIsBest(c: Collation, apps: seq<App>)
    requires c.Orders() && c.Sided(PartsOf(apps))
    ensures Merged(c, apps, MergeAll(c, apps))
  {
    hide Collation.Orders, Collation.Sided, Merged, MergeAll, Over, VersionOf;
    forall i | 0 <= i < |apps| ensures Over(VersionOf(apps[i]), PartsOf(apps)) {
      PartsOfCovers(apps, i);
    }
    MergedOver(c, PartsOf(apps), apps);
  }

  /** So it is, for any apps, when strings are ordered by their characters. */
  lemma MergedByCharacters(apps: seq<App>)
    ensures Merged(Collation(Lex), apps, MergeAll(Collation(Lex), apps))
  {
    hide Collation.Orders, Collation.Sided, Merged, MergeAll, Lex;
    CharacterOrderIsSided(PartsOf(apps));
    MergedIsBest(Collation(Lex), apps);
  }

  /** Every entry is one of the apps, and one without a version means that no app of its bundle id has one. */
  predicate EntryFrom(apps: seq<App>, e: App) {
    e in apps && (Unversioned(e) ==> forall i :: 0 <= i < |apps| && apps[i].bundle == e.bundle ==> Unversioned(apps[i]))
  }

  /** Without any assumption about the order of strings: such entries, one per bundle id. */
  ghost predicate Complete(apps: seq<App>, r: seq<App>) {
    && (forall k :: 0 <= k < |r| ==> EntryFrom(apps, r[k]))
    && (forall i :: 0 <= i < |apps| ==> Place(r, apps[i].bundle) < |r|)
    && (forall k, l :: 0 <= k < l < |r| ==> r[k].bundle != r[l].bundle)
  }

  lemma EntryMore(apps: seq<App>, app: App, e: App)
    requires EntryFrom(apps, e) && (app.bundle != e.bundle || !Unversioned(e) || Unversioned(app))
    ensures EntryFrom(apps + [app], e)
  {
    hide Unversioned;
  }

  lemma EntryAdded(apps: seq<App>, app: App)
    requires Unversioned(app) ==> forall i :: 0 <= i < |apps| && apps[i].bundle == app.bundle ==> Unversioned(apps[i])
    ensures EntryFrom(apps + [app], app)
  {
    hide Unversioned;
    assert (apps + [app])[|apps|] == app;
  }

  lemma CompareUnversioned(c: Collation, app: App, e: App)
    ensures Unversioned(app) ==> CompareApps(c, app, e) <= 0
    ensures Unversioned(e) && !Unversioned(app) ==> CompareApps(c, app, e) > 0
  {
  }

  lemma CompleteStep(c: Collation, apps: seq<App>, r: seq<App>, app: App)
    requires Complete(apps, r)
    ensures Complete(apps + [app], Merge(c, r, app))
  {
    hide Unversioned, CompareApps, EntryFrom;
    var all, k, t := apps + [app], Place(r, app.bundle), Merge(c, r, app);
    assert forall i :: 0 <= i < |apps| ==> all[i] == apps[i];
    if k < |r| {
      CompareUnversioned(c, app, r[k]);
    }
    NewEntry(c, apps, r, app);
    forall l | 0 <= l < |r| && t[l] == r[l] ensures EntryFrom(all, r[l]) {
      assert l == k || r[l].bundle != app.bundle by {
        if k < |r| && l != k { assert r[l].bundle != r[k].bundle; }
      }
      EntryMore(apps, app, r[l]);
    }
    forall i | 0 <= i < |all| ensures Place(t, all[i].bundle) < |t| {
      PlaceAdded(r, app, all[i].bundle);
      if k < |r| { PlaceReplaced(r, k, app, all[i].bundle); }
    }
  }

  lemma NewEntry(c: Collation, apps: seq<App>, r: seq<App>, app: App)
    requires Complete(apps, r)
    ensures
      var k := Place(r, app.bundle);
      k == |r| || CompareApps(c, app, r[k]) > 0 ==> EntryFrom(apps + [app], app)
  {
    hide Unversioned, CompareApps;
    var k := Place(r, app.bundle);
    if k < |r| {
      CompareUnversioned(c, app, r[k]);
    }
    if k == |r| || CompareApps(c, app, r[k]) > 0 {
      if k == |r| {
        forall i | 0 <= i < |apps| ensures apps[i].bundle != app.bundle {
          assert Place(r, apps[i].bundle) < |r|;
        }
      }
      EntryAdded(apps, app);
    }
  }

  lemma {:induction false} MergeIsComplete(c: Collation, apps: seq<App>)
    ensures Complete(apps, MergeAll(c, apps))
  {
    hide Complete, Merge;
    if apps == [] {
      NothingIsComplete();
    } else {
      MergeIsComplete(c, apps[..|apps| - 1]);
      CompleteStep(c, apps[..|apps| - 1], MergeAll(c, apps[..|apps| - 1]), apps[|apps| - 1]);
      assert apps[..|apps| - 1] + [apps[|apps| - 1]] == apps;
    }
  }

  lemma NothingIsComplete()
    ensures Complete([], [])
  {
  }

  // ---------------------------------------------------------------- combined()

  datatype Source = Source(enabled: bool, apps: seq<App>)

  function EnabledApps(sources: seq<Source>): seq<App> {
    if sources == [] then []
    else
      var last := sources[|sources| - 1];
      EnabledApps(sources[..|sources| - 1]) + if last.enabled then last.apps else []
  }

  predicate FromEnabled(sources: seq<Source>, app: App) {
    exists i :: 0 <= i < |sources| && sources[i].enabled && app in sources[i].apps
  }

  /** The apps that are merged are those of the enabled sources. */
  lemma {:induction false} EnabledIs(sources: seq<Source>, app: App)
    ensures app in EnabledApps(sources) <==> FromEnabled(sources, app)
  {
    if sources != [] {
      var init, last := sources[..|sources| - 1], sources[|sources| - 1];
      EnabledIs(init, app);
      assert forall i :: 0 <= i < |init| ==> sources[i] == init[i];
      if last.enabled && app in last.apps {
        assert sources[|sources| - 1].enabled;
      }
    }
  }

  /** Each entry is an app of an enabled source; each app of an enabled source has an entry of its bundle id, which
      has a version if the app has one; no bundle id has two. */
  ghost predicate CombinedFrom(sources: seq<Source>, apps: seq<App>) {
    && (forall k :: 0 <= k < |apps| ==> FromEnabled(sources, apps[k]))
    && (forall app :: FromEnabled(sources, app) ==> Represented(apps, app))
    && (forall k, l :: 0 <= k < l < |apps| ==> apps[k].bundle != apps[l].bundle)
  }

  predicate Represented(apps: seq<App>, app: App) {
    exists k :: 0 <= k < |apps| && apps[k].bundle == app.bundle && (Unversioned(apps[k]) ==> Unversioned(app))
  }

  lemma CombinedIs(c: Collation, sources: seq<Source>)
    ensures CombinedFrom(sources, MergeAll(c, EnabledApps(sources)))
  {
    hide EnabledApps, Unversioned, MergeAll, FromEnabled, Represented;
    var all, apps := EnabledApps(sources), MergeAll(c, EnabledApps(sources));
    MergeIsComplete(c, all);
    forall k | 0 <= k < |apps| ensures FromEnabled(sources, apps[k]) {
      EnabledIs(sources, apps[k]);
    }
    forall app | FromEnabled(sources, app) ensures Represented(apps, app) {
      EnabledIs(sources, app);
      CompleteRepresents(all, apps, app);
    }
  }

  lemma CompleteRepresents(all: seq<App>, apps: seq<App>, app: App)
    requires Complete(all, apps) && app in all
    ensures Represented(apps, app)
  {
    hide Unversioned;
    var j :| 0 <= j < |all| && all[j] == app;
    var k := Place(apps, app.bundle);
    assert EntryFrom(all, apps[k]);
  }

  lemma MergeNext(c: Collation, before: seq<App>, app: App)
    ensures MergeAll(c, before + [app]) == Merge(c, MergeAll(c, before), app)
  {
    assert (before + [app])[..|before|] == before;
  }

  /** The body of the inner loop. */
  method MergeApp(c: Collation, apps: seq<App>, app: App) returns (r: seq<App>)
    ensures r == Merge(c, apps, app)
  {
    var k := Place(apps, app.bundle);
    if k == |apps| {
      return apps + [app];
    }
    var existing := apps[k];
    if CompareApps(c, app, existing) > 0 {
      return apps[k := app];
    }
    r := apps;
  }

  /** The apps of all enabled sources, one per bundle id; what has a version is not displaced by what has none. */
  method Combined(c: Collation, sources: seq<Source>) returns (apps: seq<App>)
    ensures CombinedFrom(sources, apps)
    ensures apps == MergeAll(c, EnabledApps(sources))
  {
    hide Merge, CombinedFrom;
    apps := [];
    var i := 0;
    while i < |sources|
      invariant 0 <= i <= |sources| && apps == MergeAll(c, EnabledApps(sources[..i]))
    {
      assert sources[..i + 1][..i] == sources[..i];
      ghost var before := EnabledApps(sources[..i]);
      if sources[i].enabled {
        var list := sources[i].apps;
        var j := 0;
        assert before + list[..0] == before;
        while j < |list|
          invariant 0 <= j <= |list| && apps == MergeAll(c, before + list[..j])
        {
          var app := list[j];
          MergeNext(c, before + list[..j], app);
          assert before + list[..j] + [app] == before + list[..j + 1];
          apps := MergeApp(c, apps, app);
          j := j + 1;
        }
        assert list[..j] == list;
      } else {
        assert before + [] == before;
      }
      i := i + 1;
    }
    assert sources[..i] == sources;
    CombinedIs(c, sources);
  }
}
