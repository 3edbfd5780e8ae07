/** The Python string operations the repository relies on. */
module PyText {
  import opened Wrappers

  /** `s.replace(needle, new)`: left to right, without overlaps. */
  function Replace(s: string, needle: string, insert: string): string
    requires needle != []
    decreases |s|
  {
    if |s| < |needle| then s
    else if s[..|needle|] == needle then insert + Replace(s[|needle|..], needle, insert)
    else [s[0]] + Replace(s[1..], needle, insert)
  }

  /** `s.split(sep)` for a single character. */
  function Split(s: string, sep: char): (parts: seq<string>)
    ensures parts != []
    ensures forall i | 0 <= i < |parts| :: sep !in parts[i]
  {
    if s == [] then [""]
    else
      var rest := Split(s[1..], sep);
      if s[0] == sep then [""] + rest
      else [[s[0]] + rest[0]] + rest[1..]
  }

  /** `s.partition(sep)` for a single character: before, and after (empty when absent). */
  function Partition(s: string, sep: char): (string, string) {
    if s == [] then ("", "")
    else if s[0] == sep then ("", s[1..])
    else
      var (before, after) := Partition(s[1..], sep);
      ([s[0]] + before, after)
  }

  predicate IsDigit(c: char) {
    '0' <= c <= '9'
  }

  /** `s.isdigit()`, on ASCII text. */
  predicate IsDecimal(s: string) {
    s != [] && forall i | 0 <= i < |s| :: IsDigit(s[i])
  }

  function DigitOf(n: nat): char
    requires n < 10
  {
    '0' + n as char
  }

  /** `str(n)`. */
  function Decimal(n: nat): (s: string) {
    if n < 10 then [DigitOf(n)] else Decimal(n / 10) + [DigitOf(n % 10)]
  }

  /** `int(s)`. */
  function ParseDecimal(s: string): nat
    requires IsDecimal(s)
  {
    var last := (s[|s| - 1] - '0') as nat;
    if |s| == 1 then last else ParseDecimal(s[..|s| - 1]) * 10 + last
  }

  lemma {:induction false} ParseDecimalInverse(n: nat)
    ensures IsDecimal(Decimal(n)) && ParseDecimal(Decimal(n)) == n
  {
    if n >= 10 {
      ParseDecimalInverse(n / 10);
      assert Decimal(n)[..|Decimal(n)| - 1] == Decimal(n / 10);
    }
  }

  // ----- Numerals of other scripts -----

  /** What the running Unicode version knows of decimal digits: a value for each. */
  datatype DigitTable = DigitTable(value: char -> Option<nat>)

  /** ASCII is the same in every version. */
  ghost predicate ReadsAscii(table: DigitTable) {
    forall c: char | c < '\U{80}' :: table.value(c) == AsciiValue(c)
  }

  function AsciiValue(c: char): Option<nat> {
    if IsDigit(c) then Some((c - '0') as nat) else None
  }

  const ASCII_NUMERALS := DigitTable(AsciiValue)

  type Numerals = table: DigitTable | ReadsAscii(table) witness ASCII_NUMERALS

  /** What `\d` matches. */
  predicate IsNumeral(nums: Numerals, c: char) {
    nums.value(c).Some?
  }

  predicate IsNumber(nums: Numerals, s: string) {
    s != [] && forall i | 0 <= i < |s| :: IsNumeral(nums, s[i])
  }

  /** `int(s)`, which reads digits of any script. */
  function ParseNumber(nums: Numerals, s: string): nat
    requires IsNumber(nums, s)
  {
    var last := nums.value(s[|s| - 1]).value;
    if |s| == 1 then last else ParseNumber(nums, s[..|s| - 1]) * 10 + last
  }

  lemma AsciiNumeral(nums: Numerals, c: char)
    requires c < '\U{80}'
    ensures IsNumeral(nums, c) <==> IsDigit(c)
    ensures IsDigit(c) ==> nums.value(c) == Some((c - '0') as nat)
  {
    assert nums.value(c) == AsciiValue(c);
  }

  /** ASCII digits are read as before by every table. */
  lemma {:induction false} DecimalIsNumber(nums: Numerals, s: string)
    requires IsDecimal(s)
    ensures IsNumber(nums, s) && ParseNumber(nums, s) == ParseDecimal(s)
  {
    forall i | 0 <= i < |s|
      ensures IsNumeral(nums, s[i])
    {
      AsciiNumeral(nums, s[i]);
    }
    AsciiNumeral(nums, s[|s| - 1]);
    if |s| > 1 {
      DecimalIsNumber(nums, s[..|s| - 1]);
    }
  }

  lemma {:induction false} SplitAppend(a: string, sep: char, b: string)
    requires sep !in a
    ensures Split(a + [sep] + b, sep) == [a] + Split(b, sep)
  {
    var s := a + [sep] + b;
    if a == [] {
      assert s[1..] == b;
    } else {
      assert s[1..] == a[1..] + [sep] + b;
      SplitAppend(a[1..], sep, b);
      assert [a[0]] + a[1..] == a;
    }
  }

  lemma {:induction false} SplitWhole(a: string, sep: char)
    requires sep !in a
    ensures Split(a, sep) == [a]
  {
    if a != [] {
      SplitWhole(a[1..], sep);
      assert [a[0]] + a[1..] == a;
    }
  }

  lemma {:induction false} PartitionCut(s: string, sep: char)
    ensures var (before, after) := Partition(s, sep);
            sep !in before && (s == before + [sep] + after || (s == before && after == ""))
  {
    if s != [] && s[0] != sep {
      PartitionCut(s[1..], sep);
      assert s == [s[0]] + s[1..];
    }
  }

  lemma {:induction false} PartitionWhole(s: string, sep: char)
    requires sep !in s
    ensures Partition(s, sep) == (s, "")
  {
    if s != "" {
      PartitionWhole(s[1..], sep);
      assert [s[0]] + s[1..] == s;
    }
  }

  lemma {:induction false} PartitionAppend(a: string, sep: char, b: string)
    requires sep !in a
    ensures Partition(a + [sep] + b, sep) == (a, b)
  {
    var s := a + [sep] + b;
    if a == [] {
      assert s[1..] == b;
    } else {
      assert s[1..] == a[1..] + [sep] + b;
      PartitionAppend(a[1..], sep, b);
      assert [a[0]] + a[1..] == a;
    }
  }

  /** The characters `str.splitlines` breaks at. */
  predicate IsBreak(c: char) {
    '\n' <= c <= '\r' || '\U{1C}' <= c <= '\U{1E}' || c == '\U{85}' || c == '\U{2028}' || c == '\U{2029}'
  }

  lemma BreaksAre(c: char)
    ensures IsBreak(c) <==> c as int in {10, 11, 12, 13, 28, 29, 30, 0x85, 0x2028, 0x2029}
  {
  }

  predicate Clean(s: string) {
    forall i | 0 <= i < |s| :: !IsBreak(s[i])
  }

  function SplitLines(s: string): (lines: seq<string>)
    ensures forall i | 0 <= i < |lines| :: Clean(lines[i])
    ensures s != [] ==> lines != []
  {
    if s == [] then []
    else if IsBreak(s[0]) then
      [""] + SplitLines(if |s| >= 2 && s[0] == '\r' && s[1] == '\n' then s[2..] else s[1..])
    else
      var rest := SplitLines(s[1..]);
      if rest == [] then [[s[0]]] else [[s[0]] + rest[0]] + rest[1..]
  }

  // ----- Order -----

  /** Code point order, as `sorted` compares strings. */
  predicate Less(a: string, b: string) {
    if b == [] then false
    else if a == [] then true
    else a[0] < b[0] || (a[0] == b[0] && Less(a[1..], b[1..]))
  }

  predicate StrictlySorted(s: seq<string>) {
    forall i, j | 0 <= i < j < |s| :: Less(s[i], s[j])
  }

  lemma {:induction false} LessTotal(a: string, b: string)
    ensures a == b || Less(a, b) || Less(b, a)
    ensures !(Less(a, b) && Less(b, a)) && !Less(a, a)
  {
    if a != [] && b != [] {
      LessTotal(a[1..], b[1..]);
      assert a == [a[0]] + a[1..] && b == [b[0]] + b[1..];
    }
    if a != [] {
      LessTotal(a[1..], a[1..]);
    }
  }

  lemma {:induction false} LessTransitive(a: string, b: string, c: string)
    requires Less(a, b) && Less(b, c)
    ensures Less(a, c)
  {
    if a != [] && a[0] == b[0] && b[0] == c[0] {
      LessTransitive(a[1..], b[1..], c[1..]);
    }
  }

  lemma {:induction false} LeastExists(s: set<string>) returns (least: string)
    requires s != {}
    ensures least in s && forall x | x in s && x != least :: Less(least, x)
  {
    var x :| x in s;
    if s == {x} {
      least := x;
    } else {
      var y := LeastExists(s - {x});
      LessTotal(x, y);
      least := if Less(x, y) then x else y;
      forall z | z in s && z != least
        ensures Less(least, z)
      {
        if least == x && z != y {
          LessTransitive(x, y, z);
        }
      }
    }
  }

  lemma LeastUnique(s: set<string>, a: string, b: string)
    requires a in s && forall x | x in s && x != a :: Less(a, x)
    requires b in s && forall x | x in s && x != b :: Less(b, x)
    ensures a == b
  {
    LessTotal(a, b);
  }

  function Least(s: set<string>): (least: string)
    requires s != {}
    ensures least in s && forall x | x in s && x != least :: Less(least, x)
  {
    LeastFacts(s);
    var least :| least in s && forall x | x in s && x != least :: Less(least, x);
    least
  }

  lemma LeastFacts(s: set<string>)
    requires s != {}
    ensures exists least :: least in s && forall x | x in s && x != least :: Less(least, x)
    ensures forall a, b | a in s && b in s && (forall x | x in s && x != a :: Less(a, x))
                          && (forall x | x in s && x != b :: Less(b, x)) :: a == b
  {
    var least := LeastExists(s);
    forall a, b | a in s && b in s && (forall x | x in s && x != a :: Less(a, x))
                  && (forall x | x in s && x != b :: Less(b, x))
      ensures a == b
    {
      LeastUnique(s, a, b);
    }
  }

  /** `sorted` of a set. */
  function Sorted(s: set<string>): (r: seq<string>)
    ensures StrictlySorted(r)
    ensures forall x :: x in r <==> x in s
  {
    if s == {} then []
    else
      var least := Least(s);
      [least] + Sorted(s - {least})
  }
}
